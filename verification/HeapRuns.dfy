/** Whole runs of the heap: who owns which bytes after any sequence of malloc, free and writes by owners. */
module HeapRuns {
  import opened Words
  import opened HeapModel

  /** An owner asks for bytes, gives back the payload at `p`, or writes the word at `offset` of the payload at `p`. */
  datatype Op = Malloc(bytes: nat) | Free(p: nat) | Store(p: nat, offset: nat, value: nat)

  /** Live payloads map to the bytes asked for. Halted: the first extent ran out, a split left no room for a header, or
      rounding wrapped a request to 0. */
  datatype System = Halted | Up(words: map<nat, nat>, blocks: seq<Block>, live: map<nat, nat>)

  ghost predicate HasBlock(blocks: seq<Block>, p: nat)
  {
    exists i :: 0 <= i < |blocks| && blocks[i].addr + HEADER == p
  }

  ghost function BlockOf(blocks: seq<Block>, p: nat): (i: nat)
    requires HasBlock(blocks, p)
    ensures i < |blocks| && blocks[i].addr + HEADER == p
  {
    var i: nat :| i < |blocks| && blocks[i].addr + HEADER == p;
    i
  }

  ghost function Step(s: System, op: Op): System
  {
    match s
    case Halted => Halted
    case Up(words, blocks, live) =>
      match op
      case Malloc(bytes) =>
        if bytes == 0 || bytes >= WORD then s else
          var want := AlignSize(bytes);
          var i := Fit(blocks, want, 0);
          if want < bytes || i == |blocks| || !Room(blocks[i].size, want) then Halted
          else
            var node := blocks[i].addr;
            Up(MallocWords(words, node, want), Carve(blocks, i, want), live[node + HEADER := bytes])
      case Free(p) =>
        if p in live && HasBlock(blocks, p) then
          var i := BlockOf(blocks, p);
          Up(CombineWords(words[blocks[i].addr + 8 := 1], blocks[i].addr), Release(blocks, i), live - {p})
        else s
      case Store(p, offset, value) =>
        if p in live && offset + 8 <= live[p] then Up(words[p + offset := value], blocks, live) else s
  }

  ghost function Run(s: System, ops: seq<Op>): System
  {
    if ops == [] then s else Step(Run(s, ops[..|ops| - 1]), ops[|ops| - 1])
  }

  /** A block in use backs the live payload at `p`. */
  ghost predicate Backs(b: Block, p: nat, bytes: nat)
  {
    b.addr + HEADER == p && !b.free && bytes <= b.size
  }

  ghost predicate Backed(blocks: seq<Block>, p: nat, bytes: nat)
  {
    exists b :: b in blocks && Backs(b, p, bytes)
  }

  ghost predicate Claimed(b: Block, live: map<nat, nat>)
  {
    !b.free ==> b.addr + HEADER in live
  }

  /** The used blocks are exactly the live payloads. */
  ghost predicate Owned(blocks: seq<Block>, live: map<nat, nat>)
  {
    && (forall p :: p in live ==> Backed(blocks, p, live[p]))
    && (forall b {:trigger Claimed(b, live)} :: b in blocks ==> Claimed(b, live))
  }

  /** The words chain a tiling of the extent whose used blocks are exactly the live payloads. */
  ghost predicate Safe(s: System, start: nat, end: nat)
  {
    s.Up? ==> Holds(s.words, s.blocks, start, end) && Owned(s.blocks, s.live)
  }

  lemma CarveUses(blocks: seq<Block>, i: nat, want: nat, b: Block)
    requires i < |blocks| && blocks[i].free && want <= blocks[i].size && !b.free
    ensures b in Carve(blocks, i, want) <==> b in blocks || b == Block(blocks[i].addr, want, false)
  {
    var after := Carve(blocks, i, want);
    if b in blocks {
      var k :| 0 <= k < |blocks| && blocks[k] == b;
      assert after[if k <= i || |after| == |blocks| then k else k + 1] == b;
    }
    assert after[i] == Block(blocks[i].addr, want, false);
  }

  lemma JoinedUses(blocks: seq<Block>, i: nat, b: Block)
    requires i < |blocks| && blocks[i].free && !b.free
    ensures b in Joined(blocks, i) <==> b in blocks
  {
    var after := Joined(blocks, i);
    if b in blocks {
      var k :| 0 <= k < |blocks| && blocks[k] == b;
      assert after[if k < i || |after| == |blocks| then k else k - 1] == b;
    }
  }

  lemma ReleaseUses(blocks: seq<Block>, i: nat, b: Block)
    requires i < |blocks| && !b.free
    requires forall j :: 0 <= j < |blocks| && j != i ==> blocks[j].addr != blocks[i].addr
    ensures b in Release(blocks, i) <==> b in blocks && b.addr != blocks[i].addr
  {
    hide Joined;
    var marked := blocks[i := blocks[i].(free := true)];
    JoinedUses(marked, i, b);
    if b in blocks && b.addr != blocks[i].addr {
      var k :| 0 <= k < |blocks| && blocks[k] == b;
      assert marked[k] == b;
    }
  }

  lemma CarveOwned(blocks: seq<Block>, live: map<nat, nat>, i: nat, want: nat, bytes: nat)
    requires Owned(blocks, live) && i < |blocks| && blocks[i].free && bytes <= want <= blocks[i].size
    requires forall j :: 0 <= j < |blocks| && j != i ==> blocks[j].addr != blocks[i].addr
    ensures Owned(Carve(blocks, i, want), live[blocks[i].addr + HEADER := bytes])
  {
    hide Carve;
    var after, grant := Carve(blocks, i, want), Block(blocks[i].addr, want, false);
    CarveUses(blocks, i, want, grant);
    assert Backs(grant, grant.addr + HEADER, bytes);
    forall p | p in live && p != grant.addr + HEADER
      ensures Backed(after, p, live[p])
    {
      var b :| b in blocks && Backs(b, p, live[p]);
      CarveUses(blocks, i, want, b);
    }
    forall b | b in after && !b.free
      ensures Claimed(b, live[grant.addr + HEADER := bytes])
    {
      CarveUses(blocks, i, want, b);
      assert b in blocks ==> Claimed(b, live);
    }
  }

  lemma ReleaseOwned(blocks: seq<Block>, live: map<nat, nat>, i: nat)
    requires Owned(blocks, live) && i < |blocks|
    requires forall j :: 0 <= j < |blocks| && j != i ==> blocks[j].addr != blocks[i].addr
    ensures Owned(Release(blocks, i), live - {blocks[i].addr + HEADER})
  {
    hide Release;
    var after := Release(blocks, i);
    forall p | p in live && p != blocks[i].addr + HEADER
      ensures Backed(after, p, live[p])
    {
      var b :| b in blocks && Backs(b, p, live[p]);
      ReleaseUses(blocks, i, b);
    }
    forall b | b in after && !b.free
      ensures Claimed(b, live - {blocks[i].addr + HEADER})
    {
      ReleaseUses(blocks, i, b);
      assert Claimed(b, live);
    }
  }

  lemma MallocSafe(s: System, start: nat, end: nat, bytes: nat)
    requires Safe(s, start, end) && s.Up? && start > 0 && end < WORD && 0 < bytes < WORD
    ensures Safe(Step(s, Malloc(bytes)), start, end)
  {
    hide MallocWords, Carve, AlignSize, Owned, Represents;
    var want := AlignSize(bytes);
    var i := Fit(s.blocks, want, 0);
    if Step(s, Malloc(bytes)).Up? {
      AlignSizeFits(bytes);
      MallocCarves(s.words, s.blocks, start, end, i, want);
      TilesApart(s.blocks, start, end);
      CarveOwned(s.blocks, s.live, i, want, bytes);
    }
  }

  lemma FreeSafe(s: System, start: nat, end: nat, p: nat)
    requires Safe(s, start, end) && s.Up? && start > 0 && end < WORD
    ensures Safe(Step(s, Free(p)), start, end)
  {
    hide CombineWords, Joined, Owned, Tiles, Represents;
    if p in s.live && HasBlock(s.blocks, p) {
      var i := BlockOf(s.blocks, p);
      MarkFree(s.words, s.blocks, start, end, i);
      var marked := s.blocks[i := s.blocks[i].(free := true)];
      CombineJoins(s.words[s.blocks[i].addr + 8 := 1], marked, start, end, i);
      TilesApart(s.blocks, start, end);
      ReleaseOwned(s.blocks, s.live, i);
    }
  }

  lemma StoreSafe(s: System, start: nat, end: nat, p: nat, offset: nat, value: nat)
    requires Safe(s, start, end) && s.Up?
    ensures Safe(Step(s, Store(p, offset, value)), start, end)
  {
    hide Tiles, Represents;
    if p in s.live && offset + 8 <= s.live[p] {
      assert Backed(s.blocks, p, s.live[p]);
      var b :| b in s.blocks && Backs(b, p, s.live[p]);
      var i :| 0 <= i < |s.blocks| && s.blocks[i] == b;
      StoreInvisible(s.words, s.blocks, start, end, i, p + offset, value);
    }
  }

  /** Over every run from a fresh heap the words chain a tiling of the extent whose used blocks are exactly the live
      payloads, whatever the owners write into them. */
  lemma {:induction false} RunsAreSafe(s: System, start: nat, end: nat, ops: seq<Op>)
    requires Safe(s, start, end) && start > 0 && end < WORD
    ensures Safe(Run(s, ops), start, end)
  {
    if ops != [] {
      RunsAreSafe(s, start, end, ops[..|ops| - 1]);
      var before := Run(s, ops[..|ops| - 1]);
      if before.Up? {
        match ops[|ops| - 1]
        case Malloc(bytes) =>
          if 0 < bytes < WORD { MallocSafe(before, start, end, bytes); }
        case Free(p) => FreeSafe(before, start, end, p);
        case Store(p, offset, value) => StoreSafe(before, start, end, p, offset, value);
      }
    }
  }

  /** The owner of the payload at `p` gives it back, or writes a word that overlaps the one at `offset`. */
  predicate Touches(op: Op, p: nat, offset: nat)
  {
    match op
    case Malloc(_) => false
    case Free(q) => q == p
    case Store(q, o, _) => q == p && offset < o + 8 && o < offset + 8
  }

  /** The payload at `p` is live in both states, with the same size and the same word at `offset`. */
  ghost predicate Keeps(s: System, s': System, p: nat, offset: nat)
  {
    s.Up? && s'.Up? && p in s.live && p in s'.live && s'.live[p] == s.live[p]
    && Word(s'.words, p + offset) == Word(s.words, p + offset)
  }

  lemma UsedBlock(s: System, start: nat, end: nat, p: nat) returns (j: nat)
    requires Safe(s, start, end) && s.Up? && p in s.live
    ensures j < |s.blocks| && Backs(s.blocks[j], p, s.live[p])
  {
    assert Backed(s.blocks, p, s.live[p]);
    var b :| b in s.blocks && Backs(b, p, s.live[p]);
    j :| j < |s.blocks| && s.blocks[j] == b;
  }

  lemma StoreKeepsWord(s: System, start: nat, end: nat, q: nat, o: nat, value: nat, p: nat, offset: nat)
    requires Safe(s, start, end) && s.Up? && p in s.live && offset + 8 <= s.live[p]
    requires !Touches(Store(q, o, value), p, offset)
    ensures Keeps(s, Step(s, Store(q, o, value)), p, offset)
  {
    OwnedSeparate(s.blocks, s.live, start, end);
    hide Safe;
  }

  lemma MallocKeepsWord(s: System, start: nat, end: nat, bytes: nat, p: nat, offset: nat)
    requires Safe(s, start, end) && s.Up? && p in s.live && offset + 8 <= s.live[p]
    ensures Step(s, Malloc(bytes)).Up? ==> Keeps(s, Step(s, Malloc(bytes)), p, offset)
  {
    hide Tiles, Represents, Owned, Carve, MallocWords, AlignSize;
    var want := AlignSize(bytes);
    var i := Fit(s.blocks, want, 0);
    var j := UsedBlock(s, start, end, p);
    if 0 < bytes < WORD && Step(s, Malloc(bytes)).Up? {
      TilesApart(s.blocks, start, end);
      MallocKeepsPayload(s.words, s.blocks, start, end, i, want, j, p + offset);
    }
  }

  lemma FreeKeepsWord(s: System, start: nat, end: nat, q: nat, p: nat, offset: nat)
    requires Safe(s, start, end) && s.Up? && start > 0 && p in s.live && offset + 8 <= s.live[p] && q != p
    ensures Keeps(s, Step(s, Free(q)), p, offset)
  {
    hide Tiles, Represents, Owned, Release, CombineWords;
    var j := UsedBlock(s, start, end, p);
    if q in s.live && HasBlock(s.blocks, q) {
      FreeKeepsPayload(s.words, s.blocks, start, end, BlockOf(s.blocks, q), j, p + offset);
    }
  }

  /** A word in a live payload keeps its value over every run until its owner writes there again or gives it back. */
  lemma {:induction false} RunKeepsWord(s: System, start: nat, end: nat, ops: seq<Op>, p: nat, offset: nat)
    requires Safe(s, start, end) && s.Up? && start > 0 && end < WORD && p in s.live && offset + 8 <= s.live[p]
    requires forall op :: op in ops ==> !Touches(op, p, offset)
    ensures Run(s, ops).Up? ==> Keeps(s, Run(s, ops), p, offset)
  {
    hide Safe, Touches;
    if ops != [] {
      var rest, op := ops[..|ops| - 1], ops[|ops| - 1];
      RunKeepsWord(s, start, end, rest, p, offset);
      RunsAreSafe(s, start, end, rest);
      var before := Run(s, rest);
      if before.Up? {
        StepKeepsWord(before, start, end, op, p, offset);
      }
    }
  }

  lemma StepKeepsWord(s: System, start: nat, end: nat, op: Op, p: nat, offset: nat)
    requires Safe(s, start, end) && s.Up? && start > 0 && p in s.live && offset + 8 <= s.live[p]
    requires !Touches(op, p, offset)
    ensures Step(s, op).Up? ==> Keeps(s, Step(s, op), p, offset)
  {
    hide Safe, Step;
    match op
    case Malloc(bytes) => MallocKeepsWord(s, start, end, bytes, p, offset);
    case Free(q) => FreeKeepsWord(s, start, end, q, p, offset);
    case Store(q, o, value) => StoreKeepsWord(s, start, end, q, o, value, p, offset);
  }

  /** One free block fills the extent. */
  ghost function NewHeap(words: map<nat, nat>, start: nat, end: nat): System
    requires start + HEADER <= end
  {
    var size := end - start - HEADER;
    Up(FreshWords(words, start, size), [Block(start, size, true)], map[])
  }

  lemma FreshSafe(words: map<nat, nat>, start: nat, end: nat)
    requires start + HEADER <= end && Aligned(start) && Aligned(end)
    ensures Safe(NewHeap(words, start, end), start, end)
  {
    FreshHolds(words, start, end - start - HEADER);
  }

  /** No two live payloads overlap, and a header fits between them. */
  ghost predicate Separate(live: map<nat, nat>)
  {
    forall p, q :: p in live && q in live && p < q ==> p + live[p] + HEADER <= q
  }

  lemma OwnedSeparate(blocks: seq<Block>, live: map<nat, nat>, start: nat, end: nat)
    requires Tiles(blocks, start, end) && Owned(blocks, live)
    ensures Separate(live)
  {
    TilesApart(blocks, start, end);
    hide Tiles;
    forall p, q | p in live && q in live && p < q
      ensures p + live[p] + HEADER <= q
    {
      assert Backed(blocks, p, live[p]) && Backed(blocks, q, live[q]);
      var b :| b in blocks && Backs(b, p, live[p]);
      var c :| c in blocks && Backs(c, q, live[q]);
      var i :| 0 <= i < |blocks| && blocks[i] == b;
      var j :| 0 <= j < |blocks| && blocks[j] == c;
      assert i < j;
    }
  }

  lemma OwnedInside(blocks: seq<Block>, live: map<nat, nat>, start: nat, end: nat, p: nat)
    requires Tiles(blocks, start, end) && Owned(blocks, live) && Aligned(start) && p in live
    ensures Aligned(p) && start + HEADER <= p && p + live[p] <= end
  {
    assert Backed(blocks, p, live[p]);
    var b :| b in blocks && Backs(b, p, live[p]);
    var i :| 0 <= i < |blocks| && blocks[i] == b;
    TilesApart(blocks, start, end);
    TilesAligned(blocks, start, end, i);
  }

  lemma OwnedNone(blocks: seq<Block>, live: map<nat, nat>)
    requires Owned(blocks, live)
    ensures live == map[] ==> forall b :: b in blocks ==> b.free
  {
    forall b | b in blocks && !b.free
      ensures live != map[]
    {
      assert Claimed(b, live);
    }
  }

  /** In every reachable state live payloads are 16-aligned, inside the extent, apart from one another with a header
      between them, and the blocks account for every byte of the extent; once all are freed no block is in use. */
  lemma LivePayloads(words: map<nat, nat>, start: nat, end: nat, ops: seq<Op>)
    requires start > 0 && start + HEADER <= end < WORD && Aligned(start) && Aligned(end)
    ensures var s := Run(NewHeap(words, start, end), ops);
      s.Up? ==>
        && (forall p :: p in s.live ==> Aligned(p) && start + HEADER <= p && p + s.live[p] <= end)
        && Separate(s.live)
        && Payload(s.blocks) + HEADER * |s.blocks| == end - start
        && (s.live == map[] ==> forall b :: b in s.blocks ==> b.free)
  {
    FreshSafe(words, start, end);
    hide Tiles, Owned, Aligned, NewHeap;
    var s := Run(NewHeap(words, start, end), ops);
    RunsAreSafe(NewHeap(words, start, end), start, end, ops);
    if s.Up? {
      OwnedSeparate(s.blocks, s.live, start, end);
      TilesConserve(s.blocks, start, end);
      forall p | p in s.live
        ensures Aligned(p) && start + HEADER <= p && p + s.live[p] <= end
      {
        OwnedInside(s.blocks, s.live, start, end, p);
      }
      OwnedNone(s.blocks, s.live);
    }
  }

  /** Block `i` is the lowest one that is free and has `want` bytes. */
  ghost predicate LowestFitting(blocks: seq<Block>, want: nat, i: nat)
  {
    i < |blocks| && blocks[i].free && blocks[i].size >= want
    && forall j :: 0 <= j < i ==> !(blocks[j].free && blocks[j].size >= want)
  }

  ghost predicate Serves(blocks: seq<Block>, want: nat, i: nat)
  {
    LowestFitting(blocks, want, i) && (blocks[i].size == want || blocks[i].size >= want + 32)
  }

  /** A malloc goes on exactly when the lowest block that fits the request, rounded up to 16 bytes, fits exactly or has
      32 bytes more for a header; it hands out the payload of that block, which was no one's. */
  lemma MallocGoesOn(s: System, start: nat, end: nat, bytes: nat)
    requires Safe(s, start, end) && s.Up? && start > 0 && end < WORD && 0 < bytes < WORD
    ensures var want, s' := (bytes + 15) / 16 * 16, Step(s, Malloc(bytes));
      && (s'.Up? <==> exists i: nat :: Serves(s.blocks, want, i))
      && forall i: nat :: Serves(s.blocks, want, i) ==> s'.Up? && Granted(s, s', s.blocks[i].addr + 32, want, bytes)
  {
    hide MallocWords, Carve, AlignSize, Represents, Tiles;
    var want, s' := (bytes + 15) / 16 * 16, Step(s, Malloc(bytes));
    RoundedUp(bytes);
    TilesApart(s.blocks, start, end);
    var k := Fit(s.blocks, AlignSize(bytes), 0);
    if i: nat :| Serves(s.blocks, want, i) {
      assert s.blocks[i].size < WORD;
      assert i == k;
      CarveGrants(s.blocks, i, want);
      NotYetLive(s, start, end, i);
    }
    assert s'.Up? ==> Serves(s.blocks, want, k);
  }

  /** From `s` to `s'` the payload at `p` became a live one of `bytes` bytes, in a block of `want` bytes. */
  ghost predicate Granted(s: System, s': System, p: nat, want: nat, bytes: nat)
    requires s.Up? && s'.Up?
  {
    && p !in s.live && s'.live == s.live[p := bytes]
    && exists b :: b in s'.blocks && b.addr + 32 == p && b.size == want && !b.free
  }

  lemma RoundedUp(bytes: nat)
    requires 0 < bytes < WORD
    ensures var want := (bytes + 15) / 16 * 16;
      && 16 <= want && bytes <= want
      && AlignSize(bytes) == if want < WORD then want else 0
  {
    var q, r := bytes / 16, bytes % 16;
    assert (bytes + 15) / 16 == if r > 0 then q + 1 else q;
    assert WORD % 16 == 0;
    WrapIsMod(bytes - r + 16);
  }

  lemma CarveGrants(blocks: seq<Block>, i: nat, want: nat)
    requires i < |blocks| && want <= blocks[i].size
    ensures Block(blocks[i].addr, want, false) in Carve(blocks, i, want)
  {
    assert i < |Carve(blocks, i, want)|;
    assert Carve(blocks, i, want)[i] == Block(blocks[i].addr, want, false);
  }

  lemma NotYetLive(s: System, start: nat, end: nat, i: nat)
    requires Safe(s, start, end) && s.Up? && i < |s.blocks| && s.blocks[i].free
    ensures s.blocks[i].addr + 32 !in s.live
  {
    var p := s.blocks[i].addr + 32;
    TilesApart(s.blocks, start, end);
    if p in s.live {
      var j := UsedBlock(s, start, end, p);
      assert false;
    }
  }

  /** A free gives its payload back: it is live no more, and a free block with room for it stands there. */
  lemma FreeGivesBack(s: System, start: nat, end: nat, p: nat)
    requires Safe(s, start, end) && s.Up? && p in s.live
    ensures var s' := Step(s, Free(p));
      && s'.Up? && p !in s'.live && s'.live == s.live - {p}
      && exists b :: b in s'.blocks && b.addr + 32 == p && b.free && s.live[p] <= b.size
  {
    hide CombineWords, Represents, Tiles, Owned;
    var j := UsedBlock(s, start, end, p);
    TilesApart(s.blocks, start, end);
    assert HasBlock(s.blocks, p);
    assert BlockOf(s.blocks, p) == j;
    var after := Release(s.blocks, j);
    assert after[j] in after && after[j].addr + 32 == p && after[j].free && s.live[p] <= after[j].size;
  }

  /** What an owner wrote it reads back, over every run in which it neither writes there again nor gives it back. */
  lemma StoredWordReadsBack(s: System, start: nat, end: nat, p: nat, offset: nat, value: nat, ops: seq<Op>)
    requires Safe(s, start, end) && s.Up? && start > 0 && end < WORD && p in s.live && offset + 8 <= s.live[p]
    requires forall op :: op in ops ==> !Touches(op, p, offset)
    ensures var s' := Run(Step(s, Store(p, offset, value)), ops);
      s'.Up? ==> p in s'.live && Word(s'.words, p + offset) == value
  {
    StoreSafe(s, start, end, p, offset, value);
    hide Safe;
    RunKeepsWord(Step(s, Store(p, offset, value)), start, end, ops, p, offset);
  }

  /** From a fresh heap of 0x20 pages, asking for all but 16 of its payload bytes leaves words that chain no tiling. */
  lemma RemainderExample(words: map<nat, nat>, start: nat)
    requires start > 0 && Aligned(start) && start + 0x2_0000 < WORD
    ensures AlignSize(0x1_FFD0) == 0x1_FFD0 && Fit(NewHeap(words, start, start + 0x2_0000).blocks, 0x1_FFD0, 0) == 0
    ensures var end := start + 0x2_0000;
      !Intact(MallocWords(NewHeap(words, start, end).words, start, 0x1_FFD0), start, end)
  {
    var end := start + 0x2_0000;
    var up := NewHeap(words, start, end);
    FreshHolds(words, start, 0x2_0000 - HEADER);
    MallocHoldsExactly(up.words, up.blocks, start, end, 0, 0x1_FFD0);
  }
}
