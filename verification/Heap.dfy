/** malloc and free over the first heap extent, changing header words in place. */
module Heap {
  import opened Words
  import opened HeapModel
  import opened PmmModel

  /** MustExpand stands for the branch in which the extent runs out. */
  datatype Outcome = Null | Payload(p: nat) | MustExpand

  lemma PagesAligned(numPages: nat)
    requires numPages > 0
    ensures numPages * PAGE_SIZE > HEADER && Aligned(numPages * PAGE_SIZE - HEADER)
  {
    assert numPages * PAGE_SIZE - HEADER == 16 * (numPages * 256 - 2);
  }

  /** The last node after the node at `node` of `size` bytes was handed out for `want` bytes. */
  function SplitTail(lastNode: nat, node: nat, size: nat, want: nat): nat
  {
    if size > want >= HEAP_ALIGNMENT && lastNode == node then node + want + HEADER else lastNode
  }

  class KernelHeap {
    var words: map<nat, nat>
    var heapStart: nat
    var heapEnd: nat
    var lastNode: nat

    // The list the words chain.
    ghost var blocks: seq<Block>

    ghost predicate Valid()
      reads this
    {
      && Holds(words, blocks, heapStart, heapEnd) && heapStart > 0 && heapEnd < WORD
      && lastNode == blocks[|blocks| - 1].addr
    }

    /** The extent becomes one free block. */
    constructor InitializeHeap(memory: map<nat, nat>, heapStartAddr: nat, numPages: nat)
      requires heapStartAddr > 0 && numPages > 0 && heapStartAddr + numPages * PAGE_SIZE < WORD
      ensures Valid() && heapStart == heapStartAddr && heapEnd == heapStartAddr + numPages * PAGE_SIZE
      ensures blocks == [Block(heapStartAddr, numPages * PAGE_SIZE - HEADER, true)]
      ensures forall at: nat ::
        at < heapStartAddr || heapStartAddr + HEADER <= at ==> Word(words, at) == Word(memory, at)
    {
      PagesAligned(numPages);
      var heapSize := numPages * PAGE_SIZE;
      heapStart := heapStartAddr;
      heapEnd := heapStartAddr + heapSize;
      lastNode := heapStartAddr;
      words := FreshWords(memory, heapStartAddr, heapSize - HEADER);
      blocks := [Block(heapStartAddr, heapSize - HEADER, true)];
      FreshHolds(memory, heapStartAddr, heapSize - HEADER);
    }

    method SplitNode(node: nat, splitSize: nat)
      modifies this`words, this`lastNode
      ensures words == SplitWords(old(words), node, splitSize)
      ensures lastNode == if splitSize >= HEAP_ALIGNMENT && old(lastNode) == node then node + splitSize + HEADER
                          else old(lastNode)
    {
      hide Wrap;
      if splitSize < HEAP_ALIGNMENT {
        return;
      }
      var newNode := node + splitSize + HEADER;
      words := words[newNode := Wrap(SizeOf(words, node) - splitSize - HEADER)];
      words := words[newNode + 8 := 1];
      words := words[newNode + 16 := NextOf(words, node)];
      words := words[node := splitSize];
      words := words[node + 8 := 0];
      words := words[node + 16 := newNode];
      if lastNode == node {
        lastNode := newNode;
      }
    }

    method CombineForward(node: nat)
      modifies this`words, this`lastNode
      ensures words == CombineWords(old(words), node)
      ensures var next := NextOf(old(words), node);
        lastNode == if next != 0 && IsFree(old(words), next) && next == old(lastNode) then node else old(lastNode)
    {
      var next := NextOf(words, node);
      if next == 0 {
        return;
      }
      if !IsFree(words, next) {
        return;
      }
      if next == lastNode {
        lastNode := node;
      }
      if NextOf(words, next) != 0 {
        words := words[NextOf(words, next) + 24 := node];
      }
      words := words[node := Wrap(SizeOf(words, node) + SizeOf(words, next) + HEADER)];
      words := words[node + 16 := NextOf(words, next)];
    }

    /** The lowest free block that is large enough is handed out. The words keep chaining a tiling exactly when that
        block fits or leaves room for a header. */
    method Malloc(bytes: nat) returns (r: Outcome)
      requires Valid() && bytes < WORD
      modifies this`words, this`lastNode, this`blocks
      ensures bytes == 0 ==> r == Null && words == old(words) && lastNode == old(lastNode) && blocks == old(blocks)
      ensures bytes > 0 ==>
        var was, want := old(blocks), AlignSize(bytes);
        var i := Fit(was, want, 0);
        if i == |was| then r == MustExpand && words == old(words) && lastNode == old(lastNode) && blocks == was
        else
          && r == Payload(was[i].addr + HEADER) && words == MallocWords(old(words), was[i].addr, want)
          && lastNode == SplitTail(old(lastNode), was[i].addr, was[i].size, want)
          && (Room(was[i].size, want) ==> Valid() && blocks == Carve(was, i, want))
    {
      if bytes == 0 {
        return Null;
      }
      var size := AlignSize(bytes);
      AlignSizeFits(bytes);
      var currentNode := heapStart;
      ghost var k := 0;
      while currentNode != 0
        invariant Valid() && words == old(words) && lastNode == old(lastNode) && blocks == old(blocks)
        invariant k < |blocks| && currentNode == blocks[k].addr > 0 && Fit(blocks, size, 0) == Fit(blocks, size, k)
        decreases |blocks| - k
      {
        assert Written(words, blocks, k);
        TilesApart(blocks, heapStart, heapEnd);
        if IsFree(words, currentNode) && SizeOf(words, currentNode) >= size {
          HandOut(currentNode, size, k);
          return Payload(currentNode + HEADER);
        }
        if currentNode == lastNode {
          return MustExpand;
        }
        currentNode := NextOf(words, currentNode);
        k := k + 1;
      }
      assert false;
    }

    /** The chosen node is split when it is larger than asked for, and taken. */
    method HandOut(node: nat, size: nat, ghost i: nat)
      requires Valid() && i < |blocks| && node == blocks[i].addr && Aligned(size) && size <= blocks[i].size
      modifies this`words, this`lastNode, this`blocks
      ensures words == MallocWords(old(words), node, size)
      ensures lastNode == SplitTail(old(lastNode), node, old(blocks)[i].size, size)
      ensures Room(old(blocks)[i].size, size) ==> Valid() && blocks == Carve(old(blocks), i, size)
    {
      hide Aligned, Linked, Wrap;
      if Room(blocks[i].size, size) {
        MallocCarves(words, blocks, heapStart, heapEnd, i, size);
      }
      assert Written(words, blocks, i);
      TilesApart(blocks, heapStart, heapEnd);
      assert node == lastNode <==> i == |blocks| - 1;
      if SizeOf(words, node) > size {
        SplitNode(node, size);
        words := words[node + 8 := 0];
        words := words[node := size];
      } else {
        words := words[node + 8 := 0];
      }
      blocks := Carve(blocks, i, size);
    }

    /** The block behind a payload pointer is given back and joined with a free one behind it. */
    method Free(p: nat, ghost i: nat)
      requires Valid() && (p != 0 ==> i < |blocks| && p == blocks[i].addr + HEADER)
      modifies this`words, this`lastNode, this`blocks
      ensures Valid()
      ensures p == 0 ==> words == old(words) && lastNode == old(lastNode) && blocks == old(blocks)
      ensures p != 0 ==> blocks == Release(old(blocks), i)
      ensures p != 0 ==> words == CombineWords(old(words)[p - HEADER + 8 := 1], p - HEADER)
    {
      if p == 0 {
        return;
      }
      hide Holds, Joined, CombineWords, NextOf, IsFree;
      var node := p - HEADER;
      MarkFree(words, blocks, heapStart, heapEnd, i);
      words := words[node + 8 := 1];
      blocks := blocks[i := blocks[i].(free := true)];
      CombineJoins(words, blocks, heapStart, heapEnd, i);
      JoinedTail(words, blocks, heapStart, heapEnd, i);
      CombineForward(node);
      blocks := Joined(blocks, i);
    }
  }
}
