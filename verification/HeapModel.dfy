/** The heap's first extent: block lists as values, and the memory words that represent them. */
module HeapModel {
  import opened Words

  const HEADER: nat := 32
  const HEAP_ALIGNMENT: nat := 16

  predicate Aligned(n: nat)
  {
    n % 16 == 0
  }

  /** A header at `addr` and the `size` payload bytes behind it. */
  datatype Block = Block(addr: nat, size: nat, free: bool)

  /** What lies behind block `i`: the next header, or the end of the extent. */
  function Edge(blocks: seq<Block>, i: nat, end: nat): nat
  {
    if i + 1 < |blocks| then blocks[i + 1].addr else end
  }

  predicate Linked(blocks: seq<Block>, i: nat, end: nat)
    requires i < |blocks|
  {
    Aligned(blocks[i].size) && blocks[i].addr + HEADER + blocks[i].size == Edge(blocks, i, end)
  }

  /** Headers and payloads follow one another without gap or overlap, from `start` to `end`. */
  ghost predicate Tiles(blocks: seq<Block>, start: nat, end: nat)
  {
    && |blocks| > 0 && blocks[0].addr == start
    && forall i :: 0 <= i < |blocks| ==> Linked(blocks, i, end)
  }

  lemma {:induction false} TilesOrdered(blocks: seq<Block>, start: nat, end: nat, i: nat, j: nat)
    requires Tiles(blocks, start, end) && i < j <= |blocks|
    ensures blocks[i].addr + HEADER + blocks[i].size <= if j < |blocks| then blocks[j].addr else end
  {
    assert Linked(blocks, j - 1, end);
    if i + 1 < j {
      TilesOrdered(blocks, start, end, i, j - 1);
    }
  }

  /** Of two blocks of a tiling, one ends before the other starts. */
  lemma TilesApart(blocks: seq<Block>, start: nat, end: nat)
    requires Tiles(blocks, start, end)
    ensures forall i, j :: 0 <= i < j < |blocks| ==> blocks[i].addr + HEADER + blocks[i].size <= blocks[j].addr
    ensures forall i :: 0 <= i < |blocks| ==> start <= blocks[i].addr && blocks[i].addr + HEADER + blocks[i].size <= end
  {
    forall i, j | 0 <= i < j < |blocks|
      ensures blocks[i].addr + HEADER + blocks[i].size <= blocks[j].addr
    {
      TilesOrdered(blocks, start, end, i, j);
    }
    forall i | 0 <= i < |blocks|
      ensures start <= blocks[i].addr && blocks[i].addr + HEADER + blocks[i].size <= end
    {
      TilesOrdered(blocks, start, end, i, |blocks|);
      if i > 0 {
        TilesOrdered(blocks, start, end, 0, i);
      }
    }
  }

  lemma {:induction false} TilesAligned(blocks: seq<Block>, start: nat, end: nat, i: nat)
    requires Tiles(blocks, start, end) && Aligned(start) && i < |blocks|
    ensures Aligned(blocks[i].addr)
  {
    if i > 0 {
      TilesAligned(blocks, start, end, i - 1);
      assert Linked(blocks, i - 1, end);
    }
  }

  function Payload(blocks: seq<Block>): nat
  {
    if blocks == [] then 0 else Payload(blocks[..|blocks| - 1]) + blocks[|blocks| - 1].size
  }

  /** No byte is lost: payloads and headers of a tiling add up to the extent. */
  lemma {:induction false} TilesConserve(blocks: seq<Block>, start: nat, end: nat)
    requires Tiles(blocks, start, end)
    ensures Payload(blocks) + HEADER * |blocks| == end - start
  {
    var last := |blocks| - 1;
    assert Linked(blocks, last, end);
    if last > 0 {
      var init := blocks[..last];
      forall i | 0 <= i < last
        ensures Linked(init, i, blocks[last].addr)
      {
        assert Linked(blocks, i, end);
      }
      TilesConserve(init, start, blocks[last].addr);
    } else {
      assert blocks[..0] == [];
    }
  }

  // ----- malloc and free on block lists -----

  /** A request rounded up to the alignment, in 64-bit arithmetic: 0 for the 15 largest requests. */
  function AlignSize(bytes: nat): nat
  {
    if bytes % HEAP_ALIGNMENT > 0 then Wrap(bytes - bytes % HEAP_ALIGNMENT + HEAP_ALIGNMENT) else bytes
  }

  lemma AlignSizeFits(bytes: nat)
    requires 0 < bytes < WORD
    ensures Aligned(AlignSize(bytes))
    ensures if bytes <= WORD - HEAP_ALIGNMENT then bytes <= AlignSize(bytes) < bytes + HEAP_ALIGNMENT
            else AlignSize(bytes) == 0
  {
    assert WORD % HEAP_ALIGNMENT == 0;
  }

  /** The lowest block from `i` on that is free and large enough, or the length of the list. */
  function Fit(blocks: seq<Block>, want: nat, i: nat): (k: nat)
    requires i <= |blocks|
    ensures i <= k <= |blocks|
    ensures forall j :: i <= j < k ==> !(blocks[j].free && blocks[j].size >= want)
    ensures k < |blocks| ==> blocks[k].free && blocks[k].size >= want
    decreases |blocks| - i
  {
    if i == |blocks| || (blocks[i].free && blocks[i].size >= want) then i else Fit(blocks, want, i + 1)
  }

  /** The list after block `i` was handed out for `want` bytes. */
  function Carve(blocks: seq<Block>, i: nat, want: nat): seq<Block>
    requires i < |blocks| && want <= blocks[i].size
  {
    var b := blocks[i];
    if b.size == want || want < HEAP_ALIGNMENT then blocks[i := Block(b.addr, want, false)]
    else
      var rest := Block(b.addr + want + HEADER, Wrap(b.size - want - HEADER), true);
      blocks[..i] + [Block(b.addr, want, false), rest] + blocks[i + 1..]
  }

  /** An exact fit, or room for the header of what is left over. */
  predicate Room(size: nat, want: nat)
  {
    size == want || (want >= HEAP_ALIGNMENT && size >= want + HEADER)
  }

  lemma CarveTiles(blocks: seq<Block>, start: nat, end: nat, i: nat, want: nat)
    requires Tiles(blocks, start, end) && end < WORD
    requires i < |blocks| && want <= blocks[i].size && Aligned(want) && Room(blocks[i].size, want)
    ensures Tiles(Carve(blocks, i, want), start, end)
  {
    var b, after := blocks[i], Carve(blocks, i, want);
    TilesApart(blocks, start, end);
    forall j | 0 <= j < |after|
      ensures Linked(after, j, end)
    {
      assert Linked(blocks, i, end);
      if b.size == want || j < i {
        assert Linked(blocks, j, end) && Edge(after, j, end) == Edge(blocks, j, end);
      } else if j > i + 1 {
        assert Linked(blocks, j - 1, end) && after[j] == blocks[j - 1];
        assert Edge(after, j, end) == Edge(blocks, j - 1, end);
      }
    }
  }

  /** Handing out a block keeps the tiling if and only if the block fits exactly or leaves room for a header. */
  lemma CarveTilesExactly(blocks: seq<Block>, start: nat, end: nat, i: nat, want: nat)
    requires Tiles(blocks, start, end) && end < WORD
    requires i < |blocks| && want <= blocks[i].size && Aligned(want)
    ensures Tiles(Carve(blocks, i, want), start, end) <==> Room(blocks[i].size, want)
  {
    var b, after := blocks[i], Carve(blocks, i, want);
    if Room(b.size, want) {
      CarveTiles(blocks, start, end, i, want);
    } else {
      TilesApart(blocks, start, end);
      assert Linked(blocks, i, end);
      var k := if want < HEAP_ALIGNMENT then i else i + 1;
      assert Edge(after, k, end) == Edge(blocks, i, end);
      assert !Linked(after, k, end);
    }
  }

  predicate FreeAt(blocks: seq<Block>, i: nat)
  {
    i < |blocks| && blocks[i].free
  }

  /** The list after block `i` was joined with a free block behind it. */
  function Joined(blocks: seq<Block>, i: nat): seq<Block>
    requires i < |blocks|
  {
    if !FreeAt(blocks, i + 1) then blocks else
      var joined := blocks[i].(size := blocks[i].size + blocks[i + 1].size + HEADER);
      blocks[..i] + [joined] + blocks[i + 2..]
  }

  /** The list after block `i` was given back. */
  function Release(blocks: seq<Block>, i: nat): seq<Block>
    requires i < |blocks|
  {
    Joined(blocks[i := blocks[i].(free := true)], i)
  }

  lemma JoinedTiles(blocks: seq<Block>, start: nat, end: nat, i: nat)
    requires Tiles(blocks, start, end) && i < |blocks|
    ensures Tiles(Joined(blocks, i), start, end)
  {
    var after := Joined(blocks, i);
    if FreeAt(blocks, i + 1) {
      forall j | 0 <= j < |after|
        ensures Linked(after, j, end)
      {
        if j < i {
          assert Linked(blocks, j, end) && Edge(after, j, end) == Edge(blocks, j, end);
        } else {
          assert Edge(after, j, end) == Edge(blocks, j + 1, end);
          assert Linked(blocks, i, end) && Linked(blocks, j + 1, end);
        }
      }
    }
  }

  /** Giving a block straight back restores the list, except that an exact fit is joined with a free block behind it. */
  lemma ReleaseUndoesCarve(blocks: seq<Block>, i: nat, want: nat)
    requires i < |blocks| && blocks[i].free && blocks[i].size < WORD
    requires want <= blocks[i].size && Room(blocks[i].size, want)
    ensures Release(Carve(blocks, i, want), i) == blocks <==> blocks[i].size != want || !FreeAt(blocks, i + 1)
  {
    var b, after := blocks[i], Carve(blocks, i, want);
    if b.size != want {
      assert after[i := after[i].(free := true)][i + 2..] == blocks[i + 1..];
      assert Release(after, i) == blocks[..i] + [b] + blocks[i + 1..];
    }
  }

  // ----- memory words -----

  function Word(words: map<nat, nat>, addr: nat): nat
  {
    if addr in words then words[addr] else 0
  }

  /** The four words of a header hold size, free, next and last. */
  function SizeOf(words: map<nat, nat>, node: nat): nat { Word(words, node) }
  predicate IsFree(words: map<nat, nat>, node: nat) { Word(words, node + 8) != 0 }
  function NextOf(words: map<nat, nat>, node: nat): nat { Word(words, node + 16) }

  predicate Written(words: map<nat, nat>, blocks: seq<Block>, i: nat)
    requires i < |blocks|
  {
    && SizeOf(words, blocks[i].addr) == blocks[i].size
    && IsFree(words, blocks[i].addr) == blocks[i].free
    && NextOf(words, blocks[i].addr) == Edge(blocks, i, 0)
  }

  /** The words chain the headers of the list, NULL behind the last one. `last` words may hold anything. */
  ghost predicate Represents(words: map<nat, nat>, blocks: seq<Block>)
  {
    forall i :: 0 <= i < |blocks| ==> Written(words, blocks, i)
  }

  ghost predicate Holds(words: map<nat, nat>, blocks: seq<Block>, start: nat, end: nat)
  {
    Tiles(blocks, start, end) && Represents(words, blocks)
  }

  /** The writes that make an extent one free block. */
  function FreshWords(words: map<nat, nat>, start: nat, size: nat): map<nat, nat>
  {
    words[start := size][start + 16 := 0][start + 24 := 0][start + 8 := 1]
  }

  lemma FreshHolds(words: map<nat, nat>, start: nat, size: nat)
    requires Aligned(size)
    ensures Holds(FreshWords(words, start, size), [Block(start, size, true)], start, start + HEADER + size)
  {
    var blocks := [Block(start, size, true)];
    assert Linked(blocks, 0, start + HEADER + size) && Written(FreshWords(words, start, size), blocks, 0);
  }

  /** The writes of a split. */
  function SplitWords(words: map<nat, nat>, node: nat, want: nat): map<nat, nat>
  {
    if want < HEAP_ALIGNMENT then words else
      var rest := node + want + HEADER;
      var left := Wrap(SizeOf(words, node) - want - HEADER);
      var w := words[rest := left][rest + 8 := 1][rest + 16 := NextOf(words, node)];
      w[node := want][node + 8 := 0][node + 16 := rest]
  }

  /** The writes of handing out a node. */
  function MallocWords(words: map<nat, nat>, node: nat, want: nat): map<nat, nat>
  {
    if SizeOf(words, node) > want then SplitWords(words, node, want)[node + 8 := 0][node := want]
    else words[node + 8 := 0]
  }

  /** The writes of joining a node with a free one behind it. */
  function CombineWords(words: map<nat, nat>, node: nat): map<nat, nat>
  {
    var next := NextOf(words, node);
    if next == 0 || !IsFree(words, next) then words else
      var beyond := NextOf(words, next);
      var w := if beyond != 0 then words[beyond + 24 := node] else words;
      var w' := w[node := Wrap(SizeOf(w, node) + SizeOf(w, next) + HEADER)];
      w'[node + 16 := NextOf(w', next)]
  }

  /** No word outside the headers at `a` and `b` differs. */
  ghost predicate OnlyHeaders(words: map<nat, nat>, words': map<nat, nat>, a: nat, b: nat)
  {
    forall at: nat :: !(a <= at < a + HEADER) && !(b <= at < b + HEADER) ==> Word(words', at) == Word(words, at)
  }

  lemma MallocWrites(words: map<nat, nat>, node: nat, want: nat)
    requires want <= SizeOf(words, node)
    ensures var words', rest := MallocWords(words, node, want), node + want + HEADER;
      && SizeOf(words', node) == want && !IsFree(words', node)
      && OnlyHeaders(words, words', node, if SizeOf(words, node) == want || want < HEAP_ALIGNMENT then node else rest)
      && NextOf(words', node) ==
           (if SizeOf(words, node) == want || want < HEAP_ALIGNMENT then NextOf(words, node) else rest)
      && (SizeOf(words, node) != want && want >= HEAP_ALIGNMENT ==>
            && SizeOf(words', rest) == Wrap(SizeOf(words, node) - want - HEADER)
            && IsFree(words', rest) && NextOf(words', rest) == NextOf(words, node))
  {
    hide Wrap;
  }

  lemma CombineWrites(words: map<nat, nat>, node: nat)
    requires NextOf(words, node) != 0 && IsFree(words, NextOf(words, node)) && node + HEADER <= NextOf(words, node)
    requires NextOf(words, NextOf(words, node)) != 0 ==>
      NextOf(words, node) + HEADER <= NextOf(words, NextOf(words, node))
    ensures var words', next := CombineWords(words, node), NextOf(words, node);
      && SizeOf(words', node) == Wrap(SizeOf(words, node) + SizeOf(words, next) + HEADER)
      && IsFree(words', node) == IsFree(words, node) && NextOf(words', node) == NextOf(words, next)
      && forall at: nat :: at != node && at != node + 16 && at != NextOf(words, next) + 24 ==>
           Word(words', at) == Word(words, at)
  {
    hide Wrap;
  }

  /** A header whose words did not change is still written, wherever it stands in the new list. */
  lemma StaysWritten(words: map<nat, nat>, words': map<nat, nat>, blocks: seq<Block>, j: nat, after: seq<Block>, k: nat)
    requires j < |blocks| && k < |after| && after[k] == blocks[j] && Edge(after, k, 0) == Edge(blocks, j, 0)
    requires Written(words, blocks, j)
    requires forall at: nat :: blocks[j].addr <= at < blocks[j].addr + 24 ==> Word(words', at) == Word(words, at)
    ensures Written(words', after, k)
  {
  }

  /** While there is room, the writes of malloc carve the block. */
  lemma MallocCarves(words: map<nat, nat>, blocks: seq<Block>, start: nat, end: nat, i: nat, want: nat)
    requires Holds(words, blocks, start, end) && start > 0 && end < WORD
    requires i < |blocks| && want <= blocks[i].size && Aligned(want) && Room(blocks[i].size, want)
    ensures Holds(MallocWords(words, blocks[i].addr, want), Carve(blocks, i, want), start, end)
  {
    hide MallocWords, Aligned, Wrap, Linked;
    var b, after, words' := blocks[i], Carve(blocks, i, want), MallocWords(words, blocks[i].addr, want);
    CarveTiles(blocks, start, end, i, want);
    TilesApart(blocks, start, end);
    assert Written(words, blocks, i);
    MallocWrites(words, b.addr, want);
    forall j | 0 <= j < |after|
      ensures Written(words', after, j)
    {
      hide Word;
      if j < i || (j > i && b.size == want) {
        StaysWritten(words, words', blocks, j, after, j);
      } else if j > i + 1 {
        StaysWritten(words, words', blocks, j - 1, after, j);
      }
    }
  }

  lemma MarkFree(words: map<nat, nat>, blocks: seq<Block>, start: nat, end: nat, i: nat)
    requires Holds(words, blocks, start, end) && i < |blocks|
    ensures Holds(words[blocks[i].addr + 8 := 1], blocks[i := blocks[i].(free := true)], start, end)
  {
    hide Aligned;
    var after, words' := blocks[i := blocks[i].(free := true)], words[blocks[i].addr + 8 := 1];
    TilesApart(blocks, start, end);
    forall j | 0 <= j < |after|
      ensures Linked(after, j, end) && Written(words', after, j)
    {
      assert Linked(blocks, j, end) && Written(words, blocks, j);
    }
  }

  /** The writes of CombineForward join the block with a free one behind it. */
  lemma CombineJoins(words: map<nat, nat>, blocks: seq<Block>, start: nat, end: nat, i: nat)
    requires Holds(words, blocks, start, end) && start > 0 && end < WORD && i < |blocks|
    ensures Holds(CombineWords(words, blocks[i].addr), Joined(blocks, i), start, end)
  {
    hide Aligned, Linked;
    var b, after, words' := blocks[i], Joined(blocks, i), CombineWords(words, blocks[i].addr);
    JoinedTiles(blocks, start, end, i);
    TilesApart(blocks, start, end);
    assert Written(words, blocks, i);
    assert i + 1 < |blocks| ==> Written(words, blocks, i + 1);
    if FreeAt(blocks, i + 1) {
      CombineWrites(words, b.addr);
      forall j | 0 <= j < |after|
        ensures Written(words', after, j)
      {
        hide CombineWords, Word, Linked;
        if j != i {
          StaysWritten(words, words', blocks, if j < i then j else j + 1, after, j);
        }
      }
    }
  }

  /** Joining moves the tail of the list only when the tail is the block joined in. */
  lemma JoinedTail(words: map<nat, nat>, blocks: seq<Block>, start: nat, end: nat, i: nat)
    requires Holds(words, blocks, start, end) && start > 0 && i < |blocks|
    ensures var next, tail, after := NextOf(words, blocks[i].addr), blocks[|blocks| - 1].addr, Joined(blocks, i);
      |after| > 0 && after[|after| - 1].addr ==
      if next != 0 && IsFree(words, next) && next == tail then blocks[i].addr else tail
  {
    assert Written(words, blocks, i);
    if i + 1 < |blocks| {
      assert Written(words, blocks, i + 1);
      TilesOrdered(blocks, start, end, 0, i + 1);
    }
    if i + 1 < |blocks| - 1 {
      TilesOrdered(blocks, start, end, i + 1, |blocks| - 1);
    }
  }

  /** A write inside a payload leaves every header alone. */
  lemma StoreInvisible(words: map<nat, nat>, blocks: seq<Block>, start: nat, end: nat, i: nat, at: nat, value: nat)
    requires Holds(words, blocks, start, end) && i < |blocks|
    requires blocks[i].addr + HEADER <= at && at + 8 <= blocks[i].addr + HEADER + blocks[i].size
    ensures Holds(words[at := value], blocks, start, end)
  {
    var words' := words[at := value];
    TilesApart(blocks, start, end);
    forall j | 0 <= j < |blocks|
      ensures Written(words', blocks, j)
    {
      assert Written(words, blocks, j);
    }
  }

  /** The writes of malloc leave the payload of a used block alone. */
  lemma MallocKeepsPayload(words: map<nat, nat>, blocks: seq<Block>, start: nat, end: nat, i: nat, want: nat,
                           j: nat, at: nat)
    requires Holds(words, blocks, start, end) && i < |blocks| && j < |blocks| && i != j
    requires want <= blocks[i].size && Room(blocks[i].size, want)
    requires blocks[j].addr + HEADER <= at < blocks[j].addr + HEADER + blocks[j].size
    ensures Word(MallocWords(words, blocks[i].addr, want), at) == Word(words, at)
  {
    hide MallocWords;
    TilesApart(blocks, start, end);
    assert Written(words, blocks, i);
    MallocWrites(words, blocks[i].addr, want);
  }

  /** The writes of free leave the payload of another block alone. */
  lemma FreeKeepsPayload(words: map<nat, nat>, blocks: seq<Block>, start: nat, end: nat, i: nat, j: nat, at: nat)
    requires Holds(words, blocks, start, end) && start > 0 && i < |blocks| && j < |blocks| && i != j
    requires blocks[j].addr + HEADER <= at < blocks[j].addr + HEADER + blocks[j].size && !blocks[j].free
    ensures var node := blocks[i].addr; Word(CombineWords(words[node + 8 := 1], node), at) == Word(words, at)
  {
    var node := blocks[i].addr;
    var marked, list := words[node + 8 := 1], blocks[i := blocks[i].(free := true)];
    MarkFree(words, blocks, start, end, i);
    TilesApart(list, start, end);
    assert list[j] == blocks[j] && Written(marked, list, i);
    assert i + 1 < |list| ==> Written(marked, list, i + 1);
    if FreeAt(list, i + 1) {
      CombineWrites(marked, node);
      hide CombineWords;
      var beyond := NextOf(marked, list[i + 1].addr);
      assert beyond == if i + 2 < |list| then list[i + 2].addr else 0;
      assert at != node && at != node + 16 && at != beyond + 24;
    }
  }

  /** Two lists chained by words that agree on the headers before position `i` meet the same headers up to there. */
  lemma {:induction false} SameChain(words: map<nat, nat>, blocks: seq<Block>, words': map<nat, nat>, other: seq<Block>,
                                     start: nat, end: nat, i: nat)
    requires Holds(words, blocks, start, end) && Holds(words', other, start, end) && start > 0
    requires i < |blocks|
    requires forall j :: 0 <= j < i ==> NextOf(words', blocks[j].addr) == NextOf(words, blocks[j].addr)
    ensures i < |other| && other[i].addr == blocks[i].addr
  {
    if i > 0 {
      SameChain(words, blocks, words', other, start, end, i - 1);
      TilesApart(blocks, start, end);
      assert Written(words', other, i - 1) && Written(words, blocks, i - 1);
    }
  }

  /** Writes beyond the headers before position `i` leave the chain up to there alone. */
  lemma SameChainBefore(words: map<nat, nat>, blocks: seq<Block>, words': map<nat, nat>, other: seq<Block>,
                        start: nat, end: nat, i: nat)
    requires Holds(words, blocks, start, end) && Holds(words', other, start, end) && start > 0
    requires i < |blocks| && forall at: nat :: at < blocks[i].addr ==> Word(words', at) == Word(words, at)
    ensures i < |other| && other[i].addr == blocks[i].addr
  {
    TilesApart(blocks, start, end);
    SameChain(words, blocks, words', other, start, end, i);
  }

  /** Without room, whatever list the words chain is not a tiling of the extent. */
  lemma MallocBreaks(words: map<nat, nat>, blocks: seq<Block>, other: seq<Block>, start: nat, end: nat,
                     i: nat, want: nat)
    requires Holds(words, blocks, start, end) && start > 0 && end < WORD
    requires i < |blocks| && want <= blocks[i].size && Aligned(want) && !Room(blocks[i].size, want)
    ensures !Holds(MallocWords(words, blocks[i].addr, want), other, start, end)
  {
    var b, words' := blocks[i], MallocWords(words, blocks[i].addr, want);
    if Holds(words', other, start, end) {
      hide MallocWords, Aligned;
      TilesApart(blocks, start, end);
      assert Written(words, blocks, i) && Linked(blocks, i, end);
      MallocWrites(words, b.addr, want);
      SameChainBefore(words, blocks, words', other, start, end, i);
      assert Written(words', other, i) && Linked(other, i, end);
      if want >= HEAP_ALIGNMENT {
        assert Written(words', other, i + 1);
        TilesApart(other, start, end);
      }
      assert false;
    }
  }

  ghost predicate Intact(words: map<nat, nat>, start: nat, end: nat)
  {
    exists blocks: seq<Block> :: Holds(words, blocks, start, end)
  }

  /** After malloc the words still chain a tiling of the extent if and only if the block it chose fits exactly or
      leaves room for a header. */
  lemma MallocHoldsExactly(words: map<nat, nat>, blocks: seq<Block>, start: nat, end: nat, i: nat, want: nat)
    requires Holds(words, blocks, start, end) && start > 0 && end < WORD
    requires i < |blocks| && want <= blocks[i].size && Aligned(want)
    ensures Intact(MallocWords(words, blocks[i].addr, want), start, end) <==> Room(blocks[i].size, want)
  {
    var b, words' := blocks[i], MallocWords(words, blocks[i].addr, want);
    if Room(b.size, want) {
      MallocCarves(words, blocks, start, end, i, want);
    } else {
      TilesApart(blocks, start, end);
      forall other: seq<Block>
        ensures !Holds(words', other, start, end)
      {
        if Holds(words', other, start, end) {
          MallocBreaks(words, blocks, other, start, end, i, want);
        }
      }
    }
  }
}
