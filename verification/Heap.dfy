/** The kernel heap (source/kernel/core/memory.c): a first-fit list of blocks
    threaded through the heap array itself. Pointers are offsets into the array. */
module Heap {

  const MEMORY_SIZE: nat := 0x10_0000
  const BLOCK_SIZE: nat := 16
  const HEADER: nat := 12 // sizeof(MemoryBlock) on i386
  const NULL: int := -1

  /** A MemoryBlock as it lies in the heap array. */
  datatype Header = Header(size: nat, isFree: bool, next: int)

  /** A block of the list, its position left to the list. */
  datatype Block = Block(size: nat, free: bool)

  // ----- the list as a sequence

  /** Where block i starts: headers and payloads laid end to end. */
  function Addr(bs: seq<Block>, i: nat): (r: nat)
    requires i <= |bs|
  {
    if i == 0 then 0 else Addr(bs, i - 1) + HEADER + bs[i - 1].size
  }

  ghost predicate Tiles(bs: seq<Block>) {
    |bs| > 0 && Addr(bs, |bs|) == MEMORY_SIZE
  }

  ghost predicate NoFreePair(bs: seq<Block>, i: nat)
    requires i + 1 < |bs|
  {
    !(bs[i].free && bs[i + 1].free)
  }

  ghost predicate Coalesced(bs: seq<Block>) {
    forall i: nat :: i + 1 < |bs| ==> NoFreePair(bs, i)
  }

  ghost predicate Wf(bs: seq<Block>) {
    Tiles(bs) && Coalesced(bs)
  }

  function Splice(bs: seq<Block>, l: nat, r: nat, mid: seq<Block>): seq<Block>
    requires l <= r <= |bs|
  {
    bs[..l] + mid + bs[r..]
  }

  lemma {:induction false} AddrPrefix(bs: seq<Block>, bs': seq<Block>, i: nat)
    requires i <= |bs| && i <= |bs'| && bs[..i] == bs'[..i]
    ensures Addr(bs, i) == Addr(bs', i)
  {
    if i > 0 {
      assert bs[i - 1] == bs[..i][i - 1] == bs'[..i][i - 1];
      assert bs[..i - 1] == bs[..i][..i - 1] == bs'[..i - 1];
      AddrPrefix(bs, bs', i - 1);
    }
  }

  lemma {:induction false} AddrMonotone(bs: seq<Block>, i: nat, j: nat)
    requires i < j <= |bs|
    ensures Addr(bs, i) + HEADER + bs[i].size <= Addr(bs, j)
  {
    if i + 1 < j {
      AddrMonotone(bs, i, j - 1);
    }
  }

  lemma {:induction false} SpliceTail(bs: seq<Block>, l: nat, r: nat, mid: seq<Block>, k: nat)
    requires l <= r <= |bs| && r + k <= |bs|
    requires Addr(Splice(bs, l, r, mid), l + |mid|) == Addr(bs, r)
    ensures Addr(Splice(bs, l, r, mid), l + |mid| + k) == Addr(bs, r + k)
  {
    if k > 0 {
      SpliceTail(bs, l, r, mid, k - 1);
    }
  }

  /** Replacing blocks l..r by others of the same extent moves nothing else. */
  lemma SpliceAddr(bs: seq<Block>, l: nat, r: nat, mid: seq<Block>)
    requires l <= r <= |bs|
    requires Addr(Splice(bs, l, r, mid), l + |mid|) == Addr(bs, r)
    ensures forall i: nat :: i <= l ==> Addr(Splice(bs, l, r, mid), i) == Addr(bs, i)
    ensures forall i: nat :: r <= i <= |bs| ==> Addr(Splice(bs, l, r, mid), i - r + l + |mid|) == Addr(bs, i)
  {
    var bs' := Splice(bs, l, r, mid);
    forall i: nat | i <= l ensures Addr(bs', i) == Addr(bs, i) {
      assert bs'[..i] == bs[..i];
      AddrPrefix(bs, bs', i);
    }
    forall i: nat | r <= i <= |bs| ensures Addr(bs', i - r + l + |mid|) == Addr(bs, i) {
      SpliceTail(bs, l, r, mid, i - r);
    }
  }

  // ----- the list in memory

  function NextOf(bs: seq<Block>, i: nat): int
    requires i < |bs|
  {
    if i + 1 < |bs| then Addr(bs, i + 1) else NULL
  }

  function HeaderOf(bs: seq<Block>, i: nat): Header
    requires i < |bs|
  {
    Header(bs[i].size, bs[i].free, NextOf(bs, i))
  }

  ghost predicate StoredAt(mem: map<int, Header>, bs: seq<Block>, i: nat)
    requires i < |bs|
  {
    Addr(bs, i) in mem && mem[Addr(bs, i)] == HeaderOf(bs, i)
  }

  /** mem holds the header of every block at the address of that block. */
  ghost predicate Stored(mem: map<int, Header>, bs: seq<Block>) {
    forall i: nat :: i < |bs| ==> StoredAt(mem, bs, i)
  }

  lemma SpliceStored(mem: map<int, Header>, bs: seq<Block>, l: nat, r: nat, mid: seq<Block>)
    requires l < r <= |bs| && |mid| > 0
    requires Addr(Splice(bs, l, r, mid), l + |mid|) == Addr(bs, r)
    requires forall i: nat :: i < l || r <= i < |bs| ==> StoredAt(mem, bs, i)
    requires forall i: nat :: l <= i < l + |mid| ==> StoredAt(mem, Splice(bs, l, r, mid), i)
    ensures Stored(mem, Splice(bs, l, r, mid))
  {
    var bs' := Splice(bs, l, r, mid);
    SpliceAddr(bs, l, r, mid);
    forall i: nat | i < |bs'| ensures StoredAt(mem, bs', i) {
      if i < l {
        assert StoredAt(mem, bs, i);
      } else if i >= l + |mid| {
        var j := i - |mid| - l + r;
        assert bs'[i] == bs[j];
        assert Addr(bs', i) == Addr(bs, j);
        if j + 1 < |bs| {
          assert Addr(bs', i + 1) == Addr(bs, j + 1);
        }
        assert StoredAt(mem, bs, j);
      }
    }
  }

  // ----- what the operations do to the sequence

  const Initial: seq<Block> := [Block(MEMORY_SIZE - HEADER, true)]

  predicate Fits(b: Block, size: nat) {
    b.free && b.size >= size
  }

  /** The first fitting block, or the length of the list. */
  function FirstFit(bs: seq<Block>, size: nat): (i: nat)
    ensures i <= |bs| && (i < |bs| ==> Fits(bs[i], size))
    ensures forall j :: 0 <= j < i ==> !Fits(bs[j], size)
  {
    if bs == [] then 0
    else if Fits(bs[0], size) then 0
    else
      var i := FirstFit(bs[1..], size);
      assert forall j :: 0 < j < |bs| ==> bs[j] == bs[1..][j - 1];
      i + 1
  }

  /** The blocks a chosen block becomes: split only when the rest is worth a block. */
  function Carve(b: Block, size: nat): (r: seq<Block>)
    requires b.size >= size
  {
    if b.size > size + HEADER + BLOCK_SIZE
    then [Block(size, false), Block(b.size - size - HEADER, true)]
    else [Block(b.size, false)]
  }

  function Allocate(bs: seq<Block>, i: nat, size: nat): seq<Block>
    requires i < |bs| && bs[i].size >= size
  {
    Splice(bs, i, i + 1, Carve(bs[i], size))
  }

  /** An allocation makes no free block of 16 bytes or less: either the rest is worth a block of
      its own and the payload is exactly as asked for, or the block is handed out whole, at
      most 28 bytes larger than that. */
  lemma NoSplinters(bs: seq<Block>, i: nat, size: nat)
    requires i < |bs| && bs[i].size >= size
    ensures var bs', rest := Allocate(bs, i, size), bs[i].size as int - size - 12;
            && bs'[..i] == bs[..i]
            && if rest > 16
               then |bs'| == |bs| + 1 && bs'[i] == Block(size, false) && bs'[i + 1] == Block(rest, true)
                    && bs'[i + 2..] == bs[i + 1..]
               else |bs'| == |bs| && bs'[i] == Block(bs[i].size, false) && bs[i].size <= size + 28
                    && bs'[i + 1..] == bs[i + 1..]
  {
  }

  function SetFree(bs: seq<Block>, i: nat): seq<Block>
    requires i < |bs|
  {
    Splice(bs, i, i + 1, [bs[i].(free := true)])
  }

  /** Block i absorbs its successor. */
  function MergePair(bs: seq<Block>, i: nat): seq<Block>
    requires i + 1 < |bs|
  {
    Splice(bs, i, i + 2, [Block(bs[i].size + HEADER + bs[i + 1].size, bs[i].free)])
  }

  /** Block i absorbs the free blocks that follow it. */
  function AbsorbNext(bs: seq<Block>, i: nat): seq<Block>
    requires i < |bs|
    decreases |bs|
  {
    if i + 1 < |bs| && bs[i + 1].free then AbsorbNext(MergePair(bs, i), i) else bs
  }

  /** Block i joins a free predecessor, then absorbs what follows. */
  function Merge(bs: seq<Block>, i: nat): seq<Block>
    requires i < |bs|
  {
    if i > 0 && bs[i - 1].free then AbsorbNext(MergePair(bs, i - 1), i - 1) else AbsorbNext(bs, i)
  }

  function Release(bs: seq<Block>, i: nat): seq<Block>
    requires i < |bs|
  {
    Merge(SetFree(bs, i), i)
  }

  lemma SpliceOne(bs: seq<Block>, l: nat, r: nat, b: Block)
    requires l < r <= |bs| && Addr(bs, l) + HEADER + b.size == Addr(bs, r)
    ensures Addr(Splice(bs, l, r, [b]), l + 1) == Addr(bs, r)
  {
    var bs' := Splice(bs, l, r, [b]);
    assert bs'[..l] == bs[..l];
    AddrPrefix(bs, bs', l);
  }

  lemma SpliceTwo(bs: seq<Block>, l: nat, b: Block, b': Block)
    requires l < |bs| && b.size + HEADER + b'.size == bs[l].size
    ensures Addr(Splice(bs, l, l + 1, [b, b']), l + 1) == Addr(bs, l) + HEADER + b.size
    ensures Addr(Splice(bs, l, l + 1, [b, b']), l + 2) == Addr(bs, l + 1)
  {
    var bs' := Splice(bs, l, l + 1, [b, b']);
    assert bs'[..l] == bs[..l];
    AddrPrefix(bs, bs', l);
  }

  lemma CarveExtent(bs: seq<Block>, i: nat, size: nat)
    requires i < |bs| && size <= bs[i].size
    ensures Addr(Allocate(bs, i, size), i + |Carve(bs[i], size)|) == Addr(bs, i + 1)
  {
    var b, b' := Block(size, false), Block(if bs[i].size > size + HEADER then bs[i].size - size - HEADER else 0, true);
    if bs[i].size > size + HEADER + BLOCK_SIZE {
      assert Carve(bs[i], size) == [b, b'];
      SpliceTwo(bs, i, b, b');
    } else {
      assert Carve(bs[i], size) == [Block(bs[i].size, false)];
      SpliceOne(bs, i, i + 1, Block(bs[i].size, false));
    }
  }

  lemma InitialWf()
    ensures Wf(Initial)
  {
    assert Addr(Initial, 1) == MEMORY_SIZE;
  }

  lemma FirstFitIs(bs: seq<Block>, size: nat, i: nat)
    requires i <= |bs| && (i < |bs| ==> Fits(bs[i], size))
    requires forall j :: 0 <= j < i ==> !Fits(bs[j], size)
    ensures FirstFit(bs, size) == i
  {
  }

  lemma BlockBound(bs: seq<Block>, i: nat)
    requires Tiles(bs) && i < |bs|
    ensures Addr(bs, i) + HEADER + bs[i].size <= MEMORY_SIZE
  {
    AddrMonotone(bs, i, |bs|);
  }

  lemma SplitHeaders(bs: seq<Block>, i: nat, size: nat)
    requires i < |bs| && bs[i].size > size + HEADER + BLOCK_SIZE
    ensures var bs', a := Allocate(bs, i, size), Addr(bs, i);
            && Addr(bs', i) == a && HeaderOf(bs', i) == Header(size, false, a + HEADER + size)
            && Addr(bs', i + 1) == a + HEADER + size && Addr(bs', i + 2) == Addr(bs, i + 1)
            && HeaderOf(bs', i + 1) == Header(bs[i].size - size - HEADER, true, NextOf(bs, i))
  {
    var b, b' := Block(size, false), Block(bs[i].size - size - HEADER, true);
    var bs' := Allocate(bs, i, size);
    SpliceTwo(bs, i, b, b');
    assert bs'[..i] == bs[..i];
    AddrPrefix(bs, bs', i);
    assert bs'[i] == b && bs'[i + 1] == b';
    assert |bs'| == |bs| + 1;
  }

  /** As Stored, for every block but i. */
  ghost predicate StoredBut(mem: map<int, Header>, bs: seq<Block>, i: nat) {
    forall j: nat :: j < |bs| && j != i ==> StoredAt(mem, bs, j)
  }

  /** A write at or inside block i leaves the headers of other blocks alone. */
  lemma PutInside(mem: map<int, Header>, mem': map<int, Header>, bs: seq<Block>, i: nat, a: int, h: Header)
    requires StoredBut(mem, bs, i) && i < |bs|
    requires Addr(bs, i) <= a < Addr(bs, i) + HEADER + bs[i].size && mem' == mem[a := h]
    ensures StoredBut(mem', bs, i)
  {
    forall j: nat | j < |bs| && j != i ensures StoredAt(mem', bs, j) {
      assert StoredAt(mem, bs, j);
      if j < i {
        AddrMonotone(bs, j, i);
      } else {
        AddrMonotone(bs, i, j);
      }
    }
  }

  lemma SplitStoredAt(mem: map<int, Header>, bs: seq<Block>, i: nat, size: nat, nb: int)
    requires i < |bs| && bs[i].size > size + HEADER + BLOCK_SIZE && nb == Addr(bs, i) + HEADER + size
    requires Addr(bs, i) in mem && mem[Addr(bs, i)] == Header(size, false, nb)
    requires nb in mem && mem[nb] == Header(bs[i].size - size - HEADER, true, NextOf(bs, i))
    ensures StoredAt(mem, Allocate(bs, i, size), i)
    ensures StoredAt(mem, Allocate(bs, i, size), i + 1)
    ensures Addr(Allocate(bs, i, size), i + 2) == Addr(bs, i + 1)
  {
    SplitHeaders(bs, i, size);
  }

  lemma SpliceOneStored(mem: map<int, Header>, bs: seq<Block>, l: nat, r: nat, b: Block)
    requires l < r <= |bs| && Addr(bs, l) + HEADER + b.size == Addr(bs, r)
    requires forall i: nat :: i < l || r <= i < |bs| ==> StoredAt(mem, bs, i)
    requires StoredAt(mem, Splice(bs, l, r, [b]), l)
    ensures Stored(mem, Splice(bs, l, r, [b]))
  {
    SpliceOne(bs, l, r, b);
    SpliceStored(mem, bs, l, r, [b]);
  }

  lemma AllocateTwoStored(mem: map<int, Header>, bs: seq<Block>, i: nat, size: nat)
    requires i < |bs| && bs[i].size > size + HEADER + BLOCK_SIZE
    requires StoredBut(mem, bs, i)
    requires Addr(Allocate(bs, i, size), i + 2) == Addr(bs, i + 1)
    requires StoredAt(mem, Allocate(bs, i, size), i) && StoredAt(mem, Allocate(bs, i, size), i + 1)
    ensures Stored(mem, Allocate(bs, i, size))
  {
    SpliceStored(mem, bs, i, i + 1, Carve(bs[i], size));
  }

  lemma SplitStored(mem: map<int, Header>, mem1: map<int, Header>, mem2: map<int, Header>,
                    bs: seq<Block>, i: nat, size: nat, nb: int)
    requires Stored(mem, bs) && i < |bs| && bs[i].size > size + HEADER + BLOCK_SIZE
    requires nb == Addr(bs, i) + HEADER + size
    requires mem1 == mem[nb := Header(bs[i].size - size - HEADER, true, NextOf(bs, i))]
    requires mem2 == mem1[Addr(bs, i) := Header(size, false, nb)]
    ensures Stored(mem2, Allocate(bs, i, size))
  {
    PutInside(mem, mem1, bs, i, nb, mem1[nb]);
    PutInside(mem1, mem2, bs, i, Addr(bs, i), mem2[Addr(bs, i)]);
    SplitStoredAt(mem2, bs, i, size, nb);
    AllocateTwoStored(mem2, bs, i, size);
  }

  lemma FlagHeader(bs: seq<Block>, i: nat, free: bool)
    requires i < |bs|
    ensures var bs' := Splice(bs, i, i + 1, [Block(bs[i].size, free)]);
            Addr(bs', i) == Addr(bs, i) && HeaderOf(bs', i) == Header(bs[i].size, free, NextOf(bs, i))
  {
    var b := Block(bs[i].size, free);
    var bs' := Splice(bs, i, i + 1, [b]);
    assert bs'[..i] == bs[..i];
    AddrPrefix(bs, bs', i);
    assert bs'[i] == b;
    assert |bs'| == |bs|;
  }

  /** Changing one header in place: the free flag of a block. */
  lemma FlagStored(mem: map<int, Header>, mem': map<int, Header>, bs: seq<Block>, i: nat, free: bool)
    requires Stored(mem, bs) && i < |bs|
    requires mem' == mem[Addr(bs, i) := Header(bs[i].size, free, NextOf(bs, i))]
    ensures Stored(mem', Splice(bs, i, i + 1, [Block(bs[i].size, free)]))
  {
    FlagHeader(bs, i, free);
    PutInside(mem, mem', bs, i, Addr(bs, i), mem'[Addr(bs, i)]);
    SpliceOneStored(mem', bs, i, i + 1, Block(bs[i].size, free));
  }

  lemma MergeHeader(bs: seq<Block>, i: nat)
    requires i + 1 < |bs|
    ensures var bs' := MergePair(bs, i);
            && Addr(bs', i) == Addr(bs, i) && Addr(bs', i + 1) == Addr(bs, i + 2)
            && HeaderOf(bs', i) == Header(bs[i].size + HEADER + bs[i + 1].size, bs[i].free, NextOf(bs, i + 1))
  {
    var b := Block(bs[i].size + HEADER + bs[i + 1].size, bs[i].free);
    var bs' := MergePair(bs, i);
    assert bs'[..i] == bs[..i];
    AddrPrefix(bs, bs', i);
    assert bs'[i] == b;
    assert |bs'| == |bs| - 1;
  }

  lemma MergeStored(mem: map<int, Header>, mem': map<int, Header>, bs: seq<Block>, i: nat)
    requires Stored(mem, bs) && i + 1 < |bs|
    requires mem' == mem[Addr(bs, i) := Header(bs[i].size + HEADER + bs[i + 1].size, bs[i].free, NextOf(bs, i + 1))]
    ensures Stored(mem', MergePair(bs, i))
  {
    MergeHeader(bs, i);
    assert StoredAt(mem', MergePair(bs, i), i);
    PutInside(mem, mem', bs, i, Addr(bs, i), mem'[Addr(bs, i)]);
    SpliceOneStored(mem', bs, i, i + 2, Block(bs[i].size + HEADER + bs[i + 1].size, bs[i].free));
  }

  lemma SpliceTiles(bs: seq<Block>, l: nat, r: nat, mid: seq<Block>)
    requires Tiles(bs) && l < r <= |bs| && |mid| > 0
    requires Addr(Splice(bs, l, r, mid), l + |mid|) == Addr(bs, r)
    ensures Tiles(Splice(bs, l, r, mid))
  {
    SpliceAddr(bs, l, r, mid);
    assert |Splice(bs, l, r, mid)| == |bs| - r + l + |mid|;
  }

  lemma AllocateWf(bs: seq<Block>, i: nat, size: nat)
    requires Wf(bs) && i < |bs| && Fits(bs[i], size)
    ensures Wf(Allocate(bs, i, size))
  {
    var mid, bs' := Carve(bs[i], size), Allocate(bs, i, size);
    CarveExtent(bs, i, size);
    SpliceTiles(bs, i, i + 1, mid);
    forall k: nat | k + 1 < |bs'| ensures NoFreePair(bs', k) {
      if k + 1 < i {
        assert NoFreePair(bs, k);
      } else if k >= i + |mid| - 1 {
        assert NoFreePair(bs, k - |mid| + 1);
        assert k >= i + |mid| ==> bs'[k] == bs[k - |mid| + 1];
        assert bs'[k + 1] == bs[k - |mid| + 2];
      }
    }
  }

  ghost predicate LiveAt(bs: seq<Block>, i: nat, p: int) {
    i < |bs| && !bs[i].free && p == Addr(bs, i) + HEADER
  }

  /** Free pairs can only start at c. */
  ghost predicate CoalescedBut(bs: seq<Block>, c: nat) {
    forall i: nat :: i + 1 < |bs| && i != c ==> NoFreePair(bs, i)
  }

  lemma MergePairKeeps(bs: seq<Block>, c: nat)
    requires Tiles(bs) && c + 1 < |bs| && bs[c].free && bs[c + 1].free
    ensures Tiles(MergePair(bs, c))
    ensures CoalescedBut(bs, c) ==> CoalescedBut(MergePair(bs, c), c)
    ensures (c > 0 ==> !bs[c - 1].free) ==> (c > 0 ==> NoFreePair(MergePair(bs, c), c - 1))
  {
    var b := Block(bs[c].size + HEADER + bs[c + 1].size, true);
    SpliceOne(bs, c, c + 2, b);
    SpliceTiles(bs, c, c + 2, [b]);
    var bs' := MergePair(bs, c);
    if CoalescedBut(bs, c) {
      forall i: nat | i + 1 < |bs'| && i != c ensures NoFreePair(bs', i) {
        if i < c {
          assert NoFreePair(bs, i);
        } else {
          assert NoFreePair(bs, i + 1);
        }
      }
    }
  }

  lemma {:induction false} AbsorbWf(bs: seq<Block>, c: nat)
    requires Tiles(bs) && c < |bs| && bs[c].free && CoalescedBut(bs, c)
    ensures Wf(AbsorbNext(bs, c))
    decreases |bs|
  {
    if c + 1 < |bs| && bs[c + 1].free {
      MergePairKeeps(bs, c);
      AbsorbWf(MergePair(bs, c), c);
    } else {
      forall i: nat | i + 1 < |bs| ensures NoFreePair(bs, i) {
      }
    }
  }

  lemma ReleaseWf(bs: seq<Block>, i: nat)
    requires Wf(bs) && i < |bs| && !bs[i].free
    ensures Wf(Release(bs, i))
  {
    var b := Block(bs[i].size, true);
    var bs' := SetFree(bs, i);
    SpliceOne(bs, i, i + 1, b);
    SpliceTiles(bs, i, i + 1, [b]);
    forall k: nat | k + 1 < |bs'| && k != i && k + 1 != i ensures NoFreePair(bs', k) {
      assert NoFreePair(bs, k);
    }
    if i > 0 && bs'[i - 1].free {
      assert i > 1 ==> NoFreePair(bs', i - 2);
      ReleaseJoin(bs', i);
    } else {
      AbsorbWf(bs', i);
    }
  }

  lemma ReleaseJoin(bs: seq<Block>, i: nat)
    requires Tiles(bs) && 0 < i < |bs| && bs[i - 1].free && bs[i].free
    requires forall k: nat :: k + 1 < |bs| && k != i && k + 1 != i ==> NoFreePair(bs, k)
    ensures Wf(AbsorbNext(MergePair(bs, i - 1), i - 1))
  {
    var c := i - 1;
    var b := Block(bs[c].size + HEADER + bs[c + 1].size, true);
    SpliceOne(bs, c, c + 2, b);
    SpliceTiles(bs, c, c + 2, [b]);
    var bs' := MergePair(bs, c);
    forall k: nat | k + 1 < |bs'| && k != c ensures NoFreePair(bs', k) {
      if k < c {
        assert NoFreePair(bs, k);
      } else {
        assert NoFreePair(bs, k + 1);
      }
    }
    AbsorbWf(bs', c);
  }

  // ----- the heap object

  class KernelHeap {
    var head: int
    var mem: map<int, Header>
    ghost var blocks: seq<Block>

    /** Linked says the chain from head is the sequence blocks. */
    ghost predicate Linked()
      reads this
    {
      head == 0 && |blocks| > 0 && Stored(mem, blocks)
    }

    ghost predicate Valid()
      reads this
    {
      head != NULL ==> Linked() && Wf(blocks)
    }

    /** The list as the first malloc will see it. */
    ghost function Contents(): (r: seq<Block>)
      reads this
      requires Valid()
      ensures Wf(r)
    {
      if head == NULL then InitialWf(); Initial else blocks
    }

    constructor ()
      ensures Valid() && Contents() == Initial
    {
      head, mem, blocks := NULL, map[], [];
    }

    method InitMemory()
      modifies this
      ensures head != NULL && Valid() && Contents() == Initial
    {
      InitialWf();
      head := 0;
      mem := mem[head := Header(MEMORY_SIZE - HEADER, true, NULL)];
      blocks := Initial;
    }

    method Malloc(size: nat) returns (p: int)
      requires Valid() && size < 0x1_0000_0000
      modifies this
      ensures Valid()
      ensures var bs, i := old(Contents()), FirstFit(old(Contents()), size);
              if i == |bs| then p == NULL && Contents() == bs
              else p == Addr(bs, i) + HEADER && Contents() == Allocate(bs, i, size)
    {
      if head == NULL {
        InitMemory();
      }
      ghost var bs := blocks;
      var current := head;
      ghost var i := 0;
      while current != NULL
        invariant 0 <= i <= |bs| && current == if i < |bs| then Addr(bs, i) else NULL
        invariant forall j :: 0 <= j < i ==> !Fits(bs[j], size)
        invariant Valid() && head != NULL && blocks == bs
        decreases |bs| - i
      {
        assert StoredAt(mem, bs, i);
        var h := mem[current];
        if h.isFree && h.size >= size {
          FirstFitIs(bs, size, i);
          BlockBound(bs, i);
          ghost var mem0 := mem;
          assert size + HEADER + BLOCK_SIZE < 0x1_0000_0000;
          if h.size > size + HEADER + BLOCK_SIZE {
            var newBlock := current + HEADER + size;
            mem := mem[newBlock := Header(h.size - size - HEADER, true, h.next)];
            ghost var mem1 := mem;
            mem := mem[current := mem[current].(size := size, next := newBlock)];
            mem := mem[current := mem[current].(isFree := false)];
            assert mem == mem1[current := Header(size, false, newBlock)];
            SplitStored(mem0, mem1, mem, bs, i, size, newBlock);
          } else {
            mem := mem[current := mem[current].(isFree := false)];
            FlagStored(mem0, mem, bs, i, false);
          }
          blocks := Allocate(bs, i, size);
          AllocateWf(bs, i, size);
          return current + HEADER;
        }
        current := h.next;
        i := i + 1;
      }
      FirstFitIs(bs, size, i);
      return NULL;
    }

    /** i is the position of the block, or the length of the list when the
        address is not that of a block. */
    method MergeSurroundingFreeBlocks(block: int, ghost i: nat)
      requires Linked() && i <= |blocks|
      requires i < |blocks| ==> block == Addr(blocks, i)
      requires i == |blocks| ==> block != NULL && forall j: nat :: j < |blocks| ==> Addr(blocks, j) != block
      modifies this
      ensures Linked()
      ensures blocks == if i < old(|blocks|) then Merge(old(blocks), i) else old(blocks)
    {
      ghost var bs := blocks;
      var current, previous := head, NULL;
      ghost var k := 0;
      while current != NULL && current != block
        invariant 0 <= k <= i && mem == old(mem) && blocks == bs && head == 0
        invariant current == if k < |bs| then Addr(bs, k) else NULL
        invariant previous == if k > 0 then Addr(bs, k - 1) else NULL
        decreases i - k
      {
        if k < i < |bs| { AddrMonotone(bs, k, i); }
        assert StoredAt(mem, bs, k);
        previous := current;
        current := mem[current].next;
        k := k + 1;
      }
      if current == NULL {
        return;
      }
      if k < i < |bs| { AddrMonotone(bs, k, i); }
      assert StoredAt(mem, bs, i);
      assert i > 0 ==> StoredAt(mem, bs, i - 1);
      if previous != NULL && mem[previous].isFree {
        mem := mem[previous := mem[previous].(size := mem[previous].size + HEADER + mem[block].size)];
        mem := mem[previous := mem[previous].(next := mem[block].next)];
        MergeStored(old(mem), mem, bs, i - 1);
        MergeHeader(bs, i - 1);
        blocks := MergePair(bs, i - 1);
        current := previous;
        k := i - 1;
      }
      AbsorbFollowing(current, k);
    }

    /** The loop of the same routine over the free blocks that follow. */
    method AbsorbFollowing(current: int, ghost i: nat)
      requires Linked() && i < |blocks| && current == Addr(blocks, i)
      modifies this
      ensures Linked() && blocks == AbsorbNext(old(blocks), i)
    {
      assert StoredAt(mem, blocks, i);
      assert i + 1 < |blocks| ==> StoredAt(mem, blocks, i + 1);
      while mem[current].next != NULL && mem[mem[current].next].isFree
        invariant Linked() && i < |blocks| && current == Addr(blocks, i)
        invariant StoredAt(mem, blocks, i)
        invariant i + 1 < |blocks| ==> StoredAt(mem, blocks, i + 1)
        invariant AbsorbNext(blocks, i) == AbsorbNext(old(blocks), i)
        decreases |blocks|
      {
        ghost var mem0 := mem;
        mem := mem[current := mem[current].(size := mem[current].size + HEADER + mem[mem[current].next].size)];
        mem := mem[current := mem[current].(next := mem[mem[current].next].next)];
        MergeStored(mem0, mem, blocks, i);
        MergeHeader(blocks, i);
        blocks := MergePair(blocks, i);
        assert StoredAt(mem, blocks, i);
        assert i + 1 < |blocks| ==> StoredAt(mem, blocks, i + 1);
      }
    }

    method Free(ptr: int, ghost i: nat)
      requires Valid()
      requires ptr != NULL ==> LiveAt(Contents(), i, ptr) && head != NULL
      modifies this
      ensures Valid()
      ensures Contents() == if ptr == NULL then old(Contents()) else Release(old(Contents()), i)
    {
      if ptr == NULL {
        return;
      }
      var block := ptr - HEADER;
      assert StoredAt(mem, blocks, i);
      mem := mem[block := mem[block].(isFree := true)];
      FlagStored(old(mem), mem, blocks, i, true);
      ReleaseWf(blocks, i);
      blocks := SetFree(blocks, i);
      SpliceOne(old(blocks), i, i + 1, Block(old(blocks)[i].size, true));
      SpliceAddr(old(blocks), i, i + 1, [Block(old(blocks)[i].size, true)]);
      MergeSurroundingFreeBlocks(block, i);
    }
  }
}
