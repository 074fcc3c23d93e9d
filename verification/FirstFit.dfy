/** First-fit search over a page bitmap, stated without any search hint. */
module FirstFit {
  import opened Options

  /** Pages `start .. start + n` exist and are all free. */
  ghost predicate FreeRun(bits: seq<bool>, start: nat, n: nat)
  {
    start + n <= |bits| && forall j :: start <= j < start + n ==> !bits[j]
  }

  /** `r` is the lowest free run of `n` pages, or None exactly when no such run exists. */
  ghost predicate IsFirstFit(bits: seq<bool>, n: nat, r: Option<nat>)
  {
    match r
    case Some(start) => FreeRun(bits, start, n) && forall s: nat :: s < start ==> !FreeRun(bits, s, n)
    case None => forall s: nat :: !FreeRun(bits, s, n)
  }

  /** A plain scan of every start page from `start` on. */
  ghost function Scan(bits: seq<bool>, start: nat, n: nat): (r: Option<nat>)
    requires forall s: nat :: s < start ==> !FreeRun(bits, s, n)
    ensures IsFirstFit(bits, n, r)
    decreases if start <= |bits| then |bits| + 1 - start else 0
  {
    if start + n > |bits| then None
    else if FreeRun(bits, start, n) then Some(start)
    else Scan(bits, start + 1, n)
  }

  ghost function LowestRun(bits: seq<bool>, n: nat): (r: Option<nat>)
    ensures IsFirstFit(bits, n, r)
  {
    Scan(bits, 0, n)
  }

  /** The first-fit property has one answer. */
  lemma LowestRunUnique(bits: seq<bool>, n: nat, r: Option<nat>)
    requires IsFirstFit(bits, n, r)
    ensures r == LowestRun(bits, n)
  {
    match r
    case None =>
    case Some(start) => assert LowestRun(bits, n).Some? && LowestRun(bits, n).value >= start;
  }

  /** State of a linear search before page `i`: the pages `start .. start + size` just seen are free, still too few,
      and no free run of `n` pages starts below `start`. */
  ghost predicate Scanned(bits: seq<bool>, i: nat, start: nat, size: nat, n: nat)
  {
    && start + size == i <= |bits| && size < n
    && (forall j :: start <= j < i ==> !bits[j])
    && (forall s: nat :: s < start ==> !FreeRun(bits, s, n))
  }

  /** Occupied pages start no free run, so a search may begin above a prefix of them. */
  lemma ScanFrom(bits: seq<bool>, start: nat, n: nat)
    requires n > 0 && start <= |bits| && forall j :: 0 <= j < start ==> bits[j]
    ensures Scanned(bits, start, start, 0, n)
  {
    forall s: nat | s < start
      ensures !FreeRun(bits, s, n)
    {
      assert bits[s];
    }
  }

  /** An occupied page lies in no free run, so the search resumes right after it. */
  lemma ScanOccupied(bits: seq<bool>, i: nat, start: nat, size: nat, n: nat)
    requires Scanned(bits, i, start, size, n) && i < |bits| && bits[i]
    ensures Scanned(bits, i + 1, i + 1, 0, n)
  {
  }

  lemma ScanFree(bits: seq<bool>, i: nat, start: nat, size: nat, n: nat)
    requires Scanned(bits, i, start, size, n) && i < |bits| && !bits[i]
    ensures if size + 1 < n then Scanned(bits, i + 1, start, size + 1, n) else LowestRun(bits, n) == Some(start)
  {
    if size + 1 == n {
      assert FreeRun(bits, start, n);
      LowestRunUnique(bits, n, Some(start));
    }
  }

  lemma ScanEnd(bits: seq<bool>, start: nat, size: nat, n: nat)
    requires Scanned(bits, |bits|, start, size, n)
    ensures LowestRun(bits, n) == None
  {
    LowestRunUnique(bits, n, None);
  }
}
