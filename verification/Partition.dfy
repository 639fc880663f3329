/** The fixed-partition allocator of OSLib (external/oslib/kl/mem.c): a table of free
    extents, split on allocation and merged on both sides when memory comes back. */
module Partition {

  const MAX_PARTITION: nat := 50
  const NULL: int := 0

  datatype Extent = Extent(used: bool, addr: int, size: int)

  /** A stretch of memory. */
  datatype Piece = Piece(addr: int, size: int)

  predicate Apart(p: Piece, q: Piece) {
    p.size <= 0 || q.size <= 0 || p.addr + p.size <= q.addr || q.addr + q.size <= p.addr
  }

  /** A table entry not in use stands for no memory. */
  function PieceOf(x: Extent): Piece {
    if x.used then Piece(x.addr, x.size) else Piece(0, 0)
  }

  predicate Contains(p: Piece, a: int) {
    p.addr <= a < p.addr + p.size
  }

  // ----- the state a run keeps

  /** Free extents and live allocations inside the region [base, base + total). */
  ghost predicate Inside(p: Piece, base: int, total: int) {
    p.size > 0 ==> base <= p.addr && p.addr + p.size <= base + total
  }

  ghost predicate FreeSound(t: seq<Extent>, base: int, total: int) {
    && |t| == MAX_PARTITION
    && (forall i :: 0 <= i < |t| ==> (t[i].used ==> t[i].size > 0) && Inside(PieceOf(t[i]), base, total))
    && forall i, j :: 0 <= i < j < |t| ==> Apart(PieceOf(t[i]), PieceOf(t[j]))
  }

  ghost predicate LiveSound(live: seq<Piece>, base: int, total: int) {
    && (forall k :: 0 <= k < |live| ==> live[k].size > 0 && Inside(live[k], base, total))
    && forall k, m :: 0 <= k < m < |live| ==> Apart(live[k], live[m])
  }

  ghost predicate Separate(t: seq<Extent>, live: seq<Piece>) {
    forall i, k :: 0 <= i < |t| && 0 <= k < |live| ==> Apart(PieceOf(t[i]), live[k])
  }

  function FreeSum(t: seq<Extent>): int {
    if t == [] then 0 else FreeSum(t[..|t| - 1]) + PieceOf(t[|t| - 1]).size
  }

  function LiveSum(live: seq<Piece>): int {
    if live == [] then 0 else LiveSum(live[..|live| - 1]) + live[|live| - 1].size
  }

  ghost predicate IsFree(t: seq<Extent>, a: int) {
    exists i :: 0 <= i < |t| && Contains(PieceOf(t[i]), a)
  }

  lemma {:induction false} FreeSumUpdate(t: seq<Extent>, i: nat, x: Extent)
    requires i < |t|
    ensures FreeSum(t[i := x]) == FreeSum(t) - PieceOf(t[i]).size + PieceOf(x).size
  {
    var n := |t| - 1;
    if i < n {
      FreeSumUpdate(t[..n], i, x);
      assert t[i := x][..n] == t[..n][i := x];
    } else {
      assert t[i := x][..n] == t[..n];
    }
  }

  lemma LiveSumAppend(live: seq<Piece>, p: Piece)
    ensures LiveSum(live + [p]) == LiveSum(live) + p.size
  {
    assert (live + [p])[..|live|] == live;
  }

  lemma {:induction false} LiveSumRemove(live: seq<Piece>, k: nat)
    requires k < |live|
    ensures LiveSum(live[..k] + live[k + 1..]) == LiveSum(live) - live[k].size
  {
    var n := |live| - 1;
    var init := live[..n];
    if k < n {
      LiveSumRemove(init, k);
      SplitLast(live, k, init);
      LiveSumAppend(init[..k] + init[k + 1..], live[n]);
    } else {
      assert live[..k] + live[k + 1..] == init;
    }
  }

  lemma SplitLast(live: seq<Piece>, k: nat, init: seq<Piece>)
    requires k < |live| - 1 && init == live[..|live| - 1]
    ensures live[..k] + live[k + 1..] == (init[..k] + init[k + 1..]) + [live[|live| - 1]]
  {
  }

  // ----- table updates

  function FirstFit(t: seq<Extent>, s: int): (i: nat)
    ensures i <= |t| && (i < |t| ==> t[i].used && t[i].size >= s)
    ensures forall j :: 0 <= j < i ==> !(t[j].used && t[j].size >= s)
  {
    if t == [] || (t[0].used && t[0].size >= s) then 0 else 1 + FirstFit(t[1..], s)
  }

  lemma BeforeFit(t: seq<Extent>, s: int, i: nat)
    requires i < |t| && i <= FirstFit(t, s)
    ensures t[i].used && t[i].size >= s <==> i == FirstFit(t, s)
  {
  }

  /** What is left of an extent after s bytes are cut off its front. */
  function Cut(x: Extent, s: int): Extent {
    if x.size > s then Extent(x.used, x.addr + s, x.size - s) else x.(used := false)
  }

  /** Replacing one table entry by a piece that is apart from everything else. */
  lemma Replace(t: seq<Extent>, live: seq<Piece>, base: int, total: int, i: nat, x: Extent)
    requires FreeSound(t, base, total) && Separate(t, live) && i < |t|
    requires x.used ==> x.size > 0 && Inside(PieceOf(x), base, total)
    requires forall j :: 0 <= j < |t| && j != i ==> Apart(PieceOf(x), PieceOf(t[j]))
    requires forall k :: 0 <= k < |live| ==> Apart(PieceOf(x), live[k])
    ensures FreeSound(t[i := x], base, total) && Separate(t[i := x], live)
  {
  }

  /** Memory that is free after entry i has been replaced. */
  lemma ReplaceFree(t: seq<Extent>, i: nat, x: Extent, a: int)
    requires i < |t|
    ensures IsFree(t[i := x], a) <==>
              Contains(PieceOf(x), a) || exists j :: 0 <= j < |t| && j != i && Contains(PieceOf(t[j]), a)
  {
    var t' := t[i := x];
    assert t'[i] == x;
    if Contains(PieceOf(x), a) {
      assert Contains(PieceOf(t'[i]), a);
    }
    forall j | 0 <= j < |t| && j != i ensures t'[j] == t[j] {
    }
  }

  lemma CutFree(t: seq<Extent>, i: nat, s: int, base: int, total: int, a: int)
    requires FreeSound(t, base, total) && i < |t| && t[i].used && 0 < s <= t[i].size
    ensures IsFree(t[i := Cut(t[i], s)], a) <==> IsFree(t, a) && !Contains(Piece(t[i].addr, s), a)
  {
    ReplaceFree(t, i, Cut(t[i], s), a);
    if Contains(PieceOf(t[i]), a) {
      forall j | 0 <= j < |t| && j != i ensures !Contains(PieceOf(t[j]), a) {
        assert Apart(PieceOf(t[i]), PieceOf(t[j])) || Apart(PieceOf(t[j]), PieceOf(t[i]));
      }
    }
  }

  lemma CutSound(t: seq<Extent>, live: seq<Piece>, base: int, total: int, i: nat, s: int)
    requires FreeSound(t, base, total) && LiveSound(live, base, total) && Separate(t, live)
    requires i < |t| && t[i].used && 0 < s <= t[i].size
    ensures var t', p := t[i := Cut(t[i], s)], Piece(t[i].addr, s);
            FreeSound(t', base, total) && LiveSound(live + [p], base, total) && Separate(t', live + [p])
  {
    var x, p := Cut(t[i], s), Piece(t[i].addr, s);
    Nested(t, live, i);
    Replace(t, live, base, total, i, x);
    var t' := t[i := x];
    forall j | 0 <= j < |t'| ensures Apart(PieceOf(t'[j]), p) {
    }
  }

  /** Whatever is apart from entry i is apart from its parts. */
  lemma Nested(t: seq<Extent>, live: seq<Piece>, i: nat)
    requires Separate(t, live) && i < |t|
    requires forall i, j :: 0 <= i < j < |t| ==> Apart(PieceOf(t[i]), PieceOf(t[j]))
    ensures forall j :: 0 <= j < |t| && j != i ==> Apart(PieceOf(t[i]), PieceOf(t[j]))
    ensures forall k :: 0 <= k < |live| ==> Apart(PieceOf(t[i]), live[k])
  {
    forall j | 0 <= j < |t| && j != i ensures Apart(PieceOf(t[i]), PieceOf(t[j])) {
      assert j < i ==> Apart(PieceOf(t[j]), PieceOf(t[i]));
    }
  }

  // ----- giving memory back

  /** p is apart from everything free and everything live. */
  ghost predicate Returned(t: seq<Extent>, live: seq<Piece>, base: int, total: int, p: Piece) {
    && FreeSound(t, base, total) && Separate(t, live)
    && p.size > 0 && Inside(p, base, total)
    && (forall j :: 0 <= j < |t| ==> Apart(PieceOf(t[j]), p))
    && (forall k :: 0 <= k < |live| ==> Apart(p, live[k]))
  }

  /** Entry i ends where p begins. */
  predicate Before(x: Extent, p: Piece) {
    x.used && x.addr + x.size == p.addr
  }

  predicate After(x: Extent, p: Piece) {
    x.used && x.addr == p.addr + p.size
  }

  /** What entry i becomes: grown by the piece on either side, or holding it alone. */
  function Grown(x: Extent, p: Piece): Extent {
    if Before(x, p) then Extent(true, x.addr, x.size + p.size)
    else if After(x, p) then Extent(true, p.addr, x.size + p.size)
    else Extent(true, p.addr, p.size)
  }

  lemma GrowSound(t: seq<Extent>, live: seq<Piece>, base: int, total: int, i: nat, p: Piece)
    requires Returned(t, live, base, total, p) && i < |t|
    requires Before(t[i], p) || After(t[i], p) || !t[i].used
    ensures var t' := t[i := Grown(t[i], p)];
            FreeSound(t', base, total) && Separate(t', live) && FreeSum(t') == FreeSum(t) + p.size
  {
    Nested(t, live, i);
    FreeSumUpdate(t, i, Grown(t[i], p));
    Replace(t, live, base, total, i, Grown(t[i], p));
  }

  lemma GrowFree(t: seq<Extent>, live: seq<Piece>, base: int, total: int, i: nat, p: Piece, a: int)
    requires Returned(t, live, base, total, p) && i < |t|
    requires Before(t[i], p) || After(t[i], p) || !t[i].used
    ensures IsFree(t[i := Grown(t[i], p)], a) <==> IsFree(t, a) || Contains(p, a)
  {
    ReplaceFree(t, i, Grown(t[i], p), a);
    ReplaceFree(t, i, t[i], a);
    assert t[i := t[i]] == t;
  }

  /** Two neighbours of p at once: taking the later one out of the table and returning
      p together with it is one return of the joint piece. */
  lemma JoinReturned(t: seq<Extent>, live: seq<Piece>, base: int, total: int, i: nat, p: Piece)
    requires Returned(t, live, base, total, p) && i < |t| && After(t[i], p)
    ensures var t', p' := t[i := t[i].(used := false)], Piece(p.addr, p.size + t[i].size);
            Returned(t', live, base, total, p') && FreeSum(t') == FreeSum(t) - t[i].size
  {
    Nested(t, live, i);
    FreeSumUpdate(t, i, t[i].(used := false));
    Replace(t, live, base, total, i, t[i].(used := false));
  }

  lemma JoinFree(t: seq<Extent>, i: nat, p: Piece, a: int)
    requires i < |t| && After(t[i], p) && p.size > 0 && t[i].size > 0
    ensures var t', p' := t[i := t[i].(used := false)], Piece(p.addr, p.size + t[i].size);
            IsFree(t', a) || Contains(p', a) <==> IsFree(t, a) || Contains(p, a)
  {
    ReplaceFree(t, i, t[i].(used := false), a);
    ReplaceFree(t, i, t[i], a);
    assert t[i := t[i]] == t;
  }

  /** Nothing overlaps, and the sizes add up. */
  ghost predicate Accounted(t: seq<Extent>, live: seq<Piece>, base: int, total: int, lost: int) {
    && FreeSound(t, base, total) && LiveSound(live, base, total) && Separate(t, live)
    && FreeSum(t) + LiveSum(live) + lost == total
  }

  /** t' is t with p taken out of the free memory. */
  ghost predicate Removed(t: seq<Extent>, t': seq<Extent>, p: Piece) {
    forall a :: IsFree(t', a) <==> IsFree(t, a) && !Contains(p, a)
  }

  lemma Taken(t: seq<Extent>, t': seq<Extent>, live: seq<Piece>, live': seq<Piece>,
              base: int, total: int, lost: int, i: nat, s: int)
    requires Accounted(t, live, base, total, lost) && i < |t| && t[i].used && 0 < s <= t[i].size
    requires t' == t[i := Cut(t[i], s)] && live' == live + [Piece(t[i].addr, s)]
    ensures Accounted(t', live', base, total, lost) && Removed(t, t', Piece(t[i].addr, s))
  {
    CutSound(t, live, base, total, i, s);
    FreeSumUpdate(t, i, Cut(t[i], s));
    LiveSumAppend(live, Piece(t[i].addr, s));
    forall a ensures IsFree(t', a) <==> IsFree(t, a) && !Contains(Piece(t[i].addr, s), a) {
      CutFree(t, i, s, base, total, a);
    }
  }

  /** t' is t with p added to the free memory. */
  ghost predicate Added(t: seq<Extent>, t': seq<Extent>, live: seq<Piece>, base: int, total: int, p: Piece) {
    && FreeSound(t', base, total) && Separate(t', live) && FreeSum(t') == FreeSum(t) + p.size
    && forall a :: IsFree(t', a) <==> IsFree(t, a) || Contains(p, a)
  }

  // ----- how the bytes lie in the table

  /** No two entries but the 0th meet. */
  ghost predicate Coalesced(t: seq<Extent>) {
    forall i, j :: 1 <= i < |t| && 1 <= j < |t| && t[i].used && t[j].used ==> t[i].addr + t[i].size != t[j].addr
  }

  lemma CutCoalesced(t: seq<Extent>, base: int, total: int, i: nat, s: int)
    requires FreeSound(t, base, total) && Coalesced(t) && i < |t| && t[i].used && 0 < s <= t[i].size
    ensures Coalesced(t[i := Cut(t[i], s)])
  {
    var t' := t[i := Cut(t[i], s)];
    forall j, k | 1 <= j < |t| && 1 <= k < |t| && t'[j].used && t'[k].used
      ensures t'[j].addr + t'[j].size != t'[k].addr
    {
      assert j != k ==> Apart(PieceOf(t[j]), PieceOf(t[k])) || Apart(PieceOf(t[k]), PieceOf(t[j]));
    }
  }

  /** No entry but the 0th ends where p begins. */
  ghost predicate NoneBefore(t: seq<Extent>, p: Piece) {
    forall j :: 1 <= j < |t| ==> !Before(t[j], p)
  }

  ghost predicate NoneAfter(t: seq<Extent>, p: Piece) {
    forall j :: 1 <= j < |t| ==> !After(t[j], p)
  }

  /** The entry the first i1 and the second i2 become part of, with the piece between them. */
  function Joined(t: seq<Extent>, i1: nat, i2: nat, p: Piece): seq<Extent>
    requires i1 < |t| && i2 < |t|
  {
    t[i2 := t[i2].(used := false)][i1 := Extent(t[i1].used, t[i1].addr, t[i1].size + t[i2].size + p.size)]
  }

  /** The table after p has come back: one entry holds it together with the neighbours it has
      on either side, the 0th entry not counting as one. */
  ghost predicate GivenBack(t: seq<Extent>, t': seq<Extent>, p: Piece) {
    && (forall i1, i2 :: 1 <= i1 < |t| && 1 <= i2 < |t| && Before(t[i1], p) && After(t[i2], p) ==>
          t' == t[i2 := t[i2].(used := false)][i1 := Extent(true, t[i1].addr, t[i1].size + p.size + t[i2].size)])
    && (NoneAfter(t, p) ==> forall i :: 1 <= i < |t| && Before(t[i], p) ==>
          t' == t[i := Extent(true, t[i].addr, t[i].size + p.size)])
    && (NoneBefore(t, p) ==> forall i :: 1 <= i < |t| && After(t[i], p) ==>
          t' == t[i := Extent(true, p.addr, p.size + t[i].size)])
    && (NoneBefore(t, p) && NoneAfter(t, p) ==> forall i: nat :: FirstUnused(t, i) ==>
          t' == t[i := Extent(true, p.addr, p.size)])
  }

  ghost predicate FirstUnused(t: seq<Extent>, i: nat) {
    i < |t| && !t[i].used && forall j :: 0 <= j < i ==> t[j].used
  }

  /** p has at most one neighbour on each side. */
  lemma OneNeighbour(t: seq<Extent>, live: seq<Piece>, base: int, total: int, p: Piece, i: nat, j: nat)
    requires Returned(t, live, base, total, p) && i < |t| && j < |t|
    requires (Before(t[i], p) && Before(t[j], p)) || (After(t[i], p) && After(t[j], p))
    ensures i == j
  {
    assert i != j ==> Apart(PieceOf(t[i]), PieceOf(t[j])) || Apart(PieceOf(t[j]), PieceOf(t[i]));
  }

  /** How many entries are in use. */
  function UsedCount(t: seq<Extent>): nat {
    if t == [] then 0 else UsedCount(t[..|t| - 1]) + if t[|t| - 1].used then 1 else 0
  }

  lemma {:induction false} UsedUpdate(t: seq<Extent>, i: nat, x: Extent)
    requires i < |t|
    ensures UsedCount(t[i := x]) == UsedCount(t) - (if t[i].used then 1 else 0) + if x.used then 1 else 0
  {
    var n := |t| - 1;
    if i < n {
      UsedUpdate(t[..n], i, x);
      assert t[i := x][..n] == t[..n][i := x];
    } else {
      assert t[i := x][..n] == t[..n];
    }
  }

  lemma BothCount(t: seq<Extent>, i1: nat, i2: nat, x: Extent)
    requires i1 < |t| && i2 < |t| && i1 != i2 && t[i1].used && t[i2].used && x.used
    ensures UsedCount(t[i2 := t[i2].(used := false)][i1 := x]) == UsedCount(t) - 1
  {
    UsedUpdate(t, i2, t[i2].(used := false));
    UsedUpdate(t[i2 := t[i2].(used := false)], i1, x);
  }

  /** A piece returned between two neighbours leaves one entry less in use; one with a single
      neighbour as many; one with none, one more. */
  lemma GivenBackCount(t: seq<Extent>, t': seq<Extent>, p: Piece)
    requires GivenBack(t, t', p) && p.size > 0 && forall i :: 0 <= i < |t| && t[i].used ==> t[i].size > 0
    ensures !NoneBefore(t, p) && !NoneAfter(t, p) ==> UsedCount(t') == UsedCount(t) - 1
    ensures NoneBefore(t, p) != NoneAfter(t, p) ==> UsedCount(t') == UsedCount(t)
    ensures NoneBefore(t, p) && NoneAfter(t, p) ==>
              forall i: nat :: FirstUnused(t, i) ==> UsedCount(t') == UsedCount(t) + 1
  {
    if !NoneBefore(t, p) && !NoneAfter(t, p) {
      var i1 :| 1 <= i1 < |t| && Before(t[i1], p);
      var i2 :| 1 <= i2 < |t| && After(t[i2], p);
      BothCount(t, i1, i2, Extent(true, t[i1].addr, t[i1].size + p.size + t[i2].size));
    } else if NoneBefore(t, p) && NoneAfter(t, p) {
      forall i: nat | FirstUnused(t, i) ensures UsedCount(t') == UsedCount(t) + 1 {
        UsedUpdate(t, i, Extent(true, p.addr, p.size));
      }
    } else {
      OneSideCount(t, t', p);
    }
  }

  lemma OneSideCount(t: seq<Extent>, t': seq<Extent>, p: Piece)
    requires GivenBack(t, t', p) && NoneBefore(t, p) != NoneAfter(t, p)
    ensures UsedCount(t') == UsedCount(t)
  {
    if NoneAfter(t, p) {
      var i :| 1 <= i < |t| && Before(t[i], p);
      UsedUpdate(t, i, Extent(true, t[i].addr, t[i].size + p.size));
    } else {
      var i :| 1 <= i < |t| && After(t[i], p);
      UsedUpdate(t, i, Extent(true, p.addr, p.size + t[i].size));
    }
  }

  // ----- the allocator object

  class FixedPartition {
    const memTable: array<Extent>
    ghost const base: int
    ghost const total: int
    ghost var live: seq<Piece>
    ghost var lost: int // memory whose return was refused

    ghost predicate Valid()
      reads this, memTable
    {
      && base > 0 && base + total <= 0x1_0000_0000 && Accounted(memTable[..], live, base, total, lost)
      && Coalesced(memTable[..])
    }

    /** ll_mem_init; a region of memory does not start at the null address. */
    constructor (base: int, size: int)
      requires base > 0 && size > 0 && base + size <= 0x1_0000_0000
      ensures Valid() && live == [] && lost == 0 && this.base == base && total == size && fresh(memTable)
      ensures Opened(memTable[..], base, size)
      ensures forall a :: IsFree(memTable[..], a) <==> base <= a < base + size
    {
      memTable := new Extent[MAX_PARTITION](i => if i == 0 then Extent(true, base, size) else Extent(false, 0, 0));
      this.base, total, live, lost := base, size, [], 0;
      new;
      ghost var t := memTable[..];
      OneEntry(t);
      assert forall a :: Contains(PieceOf(t[0]), a) <==> base <= a < base + size;
    }

    /** The search loop of ll_alloc. */
    method Search(s: int) returns (p: int, i: nat)
      requires Valid()
      ensures i == FirstFit(memTable[..], s) && p == if i < MAX_PARTITION then memTable[i].addr else NULL
      ensures i < MAX_PARTITION ==> p != NULL
    {
      ghost var t := memTable[..];
      p, i := NULL, 0;
      while i < MAX_PARTITION && p == NULL
        invariant 0 <= i <= MAX_PARTITION && i <= FirstFit(t, s)
        invariant p != NULL ==> i == FirstFit(t, s) && i < MAX_PARTITION && p == t[i].addr
        decreases MAX_PARTITION - i, p == NULL
      {
        BeforeFit(t, s, i);
        if memTable[i].used && memTable[i].size >= s {
          p := memTable[i].addr;
          assert Inside(PieceOf(t[i]), base, total);
        } else {
          i := i + 1;
        }
      }
    }

    /** ll_alloc: first fit; NULL when no single extent is large enough. An allocation of no
        bytes gives an address that stays free. */
    method Alloc(s: int) returns (p: int)
      requires Valid() && 0 <= s < 0x1_0000_0000
      modifies this`live, memTable
      ensures Valid()
      ensures var t, i := old(memTable[..]), FirstFit(old(memTable[..]), s);
              if i == MAX_PARTITION then p == NULL && live == old(live) && memTable[..] == t
              else
                && p == t[i].addr != NULL && live == old(live) + (if s > 0 then [Piece(p, s)] else [])
                && memTable[..] == t[i := Cut(t[i], s)] && Removed(t, memTable[..], Piece(p, s))
    {
      ghost var t := memTable[..];
      var i;
      p, i := Search(s);
      if p != NULL {
        TakeFrom(i, s, p);
      }
    }

    /** Handing out the first s bytes of extent i. */
    method TakeFrom(i: nat, s: int, p: int)
      requires Valid() && i < memTable.Length && memTable[i].used && 0 <= s <= memTable[i].size && p == memTable[i].addr
      modifies this`live, memTable
      ensures Valid() && live == old(live) + if s > 0 then [Piece(p, s)] else []
      ensures Removed(old(memTable[..]), memTable[..], Piece(p, s))
      ensures memTable[..] == old(memTable[..])[i := Cut(old(memTable[..])[i], s)]
    {
      ghost var t, before := memTable[..], live;
      CutFront(i, s);
      if s == 0 {
        assert t[i] == memTable[i] && memTable[..] == t;
        return;
      }
      live := live + [Piece(p, s)];
      Taken(t, memTable[..], before, live, base, total, lost, i, s);
      CutCoalesced(t, base, total, i, s);
    }

    /** The table update of ll_alloc. */
    method CutFront(i: nat, s: int)
      requires i < memTable.Length
      modifies memTable
      ensures memTable[..] == old(memTable[..])[i := Cut(old(memTable[i]), s)]
    {
      if memTable[i].size > s {
        memTable[i] := memTable[i].(size := memTable[i].size - s);
        memTable[i] := memTable[i].(addr := memTable[i].addr + s);
      } else {
        memTable[i] := memTable[i].(used := false);
      }
    }

    /** The first loop of ll_free: the entry that ends where p begins and the one that
        begins where it ends; 0 stands for none, and entry 0 is never looked at. */
    method FindNeighbours(p: int, s: int) returns (i1: nat, i2: nat)
      requires memTable.Length == MAX_PARTITION
      ensures i1 < MAX_PARTITION && i2 < MAX_PARTITION
      ensures i1 != 0 ==> Before(memTable[i1], Piece(p, s))
      ensures i2 != 0 ==> After(memTable[i2], Piece(p, s))
      ensures i1 == 0 ==> forall j :: 1 <= j < MAX_PARTITION ==> !Before(memTable[j], Piece(p, s))
      ensures i2 == 0 ==> forall j :: 1 <= j < MAX_PARTITION ==> !After(memTable[j], Piece(p, s))
    {
      var i := 1;
      i1, i2 := 0, 0;
      while i < MAX_PARTITION && (i1 == 0 || i2 == 0)
        invariant 1 <= i <= MAX_PARTITION && i1 < i && i2 < i
        invariant i1 != 0 ==> Before(memTable[i1], Piece(p, s))
        invariant i2 != 0 ==> After(memTable[i2], Piece(p, s))
        invariant i1 == 0 ==> forall j :: 1 <= j < i ==> !Before(memTable[j], Piece(p, s))
        invariant i2 == 0 ==> forall j :: 1 <= j < i ==> !After(memTable[j], Piece(p, s))
      {
        if memTable[i].used {
          if memTable[i].addr + memTable[i].size == p { i1 := i; }
          if memTable[i].addr == p + s { i2 := i; }
        }
        i := i + 1;
      }
    }

    /** The table updates of ll_free. */
    method PutBack(p: int, s: int, ghost rest: seq<Piece>) returns (ok: bool)
      requires Returned(memTable[..], rest, base, total, Piece(p, s)) && Coalesced(memTable[..])
      modifies memTable
      ensures ok ==> Settled(old(memTable[..]), memTable[..], rest, base, total, Piece(p, s))
      ensures !ok ==> memTable[..] == old(memTable[..])
      ensures ok <==> exists j :: 0 <= j < MAX_PARTITION && Accepts(old(memTable[..]), j, Piece(p, s))
    {
      ghost var t, piece := memTable[..], Piece(p, s);
      var i1, i2 := FindNeighbours(p, s);
      assert forall j :: 0 <= j < MAX_PARTITION ==> t[j] == memTable[j];
      if i1 != 0 && i2 != 0 {
        memTable[i1] := memTable[i1].(size := memTable[i1].size + memTable[i2].size + s);
        memTable[i2] := memTable[i2].(used := false);
        BothBack(t, memTable[..], rest, base, total, i1, i2, piece);
        assert Accepts(t, i1, piece);
        ok := true;
      } else if i1 == 0 && i2 != 0 {
        memTable[i2] := memTable[i2].(addr := p);
        memTable[i2] := memTable[i2].(size := memTable[i2].size + s);
        OneBack(t, memTable[..], rest, base, total, i2, piece);
        assert Accepts(t, i2, piece);
        ok := true;
      } else if i1 != 0 && i2 == 0 {
        memTable[i1] := memTable[i1].(size := memTable[i1].size + s);
        OneBack(t, memTable[..], rest, base, total, i1, piece);
        assert Accepts(t, i1, piece);
        ok := true;
      } else {
        ghost var i;
        ok, i := PutAside(p, s);
        if ok {
          AloneBack(t, memTable[..], rest, base, total, i, piece);
          assert Accepts(t, i, piece);
        }
      }
    }

    /** The last branch of ll_free: the first unused entry, if any, takes the memory. */
    method PutAside(p: int, s: int) returns (ok: bool, ghost i: nat)
      requires memTable.Length == MAX_PARTITION
      modifies memTable
      ensures i <= MAX_PARTITION && (ok <==> i < MAX_PARTITION)
      ensures forall j :: 0 <= j < i ==> old(memTable[..])[j].used
      ensures if ok then !old(memTable[..])[i].used && memTable[..] == old(memTable[..])[i := Extent(true, p, s)]
              else memTable[..] == old(memTable[..])
    {
      ghost var t := memTable[..];
      var k := 0;
      while k < MAX_PARTITION && memTable[k].used
        invariant 0 <= k <= MAX_PARTITION && forall j :: 0 <= j < k ==> t[j].used
      {
        k := k + 1;
      }
      i := k;
      if k == MAX_PARTITION {
        return false, i;
      }
      memTable[k] := memTable[k].(addr := p);
      memTable[k] := memTable[k].(size := s);
      memTable[k] := memTable[k].(used := true);
      ok := true;
    }

    /** ll_free of the k-th live allocation. It is refused, and the memory lost, only
        when the table is full and no entry but the 0th is a neighbour. */
    method Free(p: int, s: int, ghost k: nat) returns (ok: bool)
      requires Valid() && k < |live| && live[k] == Piece(p, s)
      modifies this`live, this`lost, memTable
      ensures Valid() && live == old(live)[..k] + old(live)[k + 1..]
      ensures lost == if ok then old(lost) else old(lost) + s
      ensures ok ==> GivenBack(old(memTable[..]), memTable[..], Piece(p, s))
      ensures ok ==> forall a ::
                IsFree(memTable[..], a) <==> IsFree(old(memTable[..]), a) || Contains(Piece(p, s), a)
      ensures !ok ==> memTable[..] == old(memTable[..])
      ensures ok <==> exists j :: 0 <= j < MAX_PARTITION && Accepts(old(memTable[..]), j, Piece(p, s))
    {
      ghost var rest := live[..k] + live[k + 1..];
      WithoutOne(memTable[..], live, base, total, k);
      LiveSumRemove(live, k);
      ok := PutBack(p, s, rest);
      live := rest;
      if !ok {
        lost := lost + s;
      }
    }
  }

  /** Entry j can take the piece. */
  predicate Accepts(t: seq<Extent>, j: nat, p: Piece)
    requires j < |t|
  {
    !t[j].used || (j > 0 && (Before(t[j], p) || After(t[j], p)))
  }

  lemma JoinBoth(t: seq<Extent>, live: seq<Piece>, base: int, total: int, i1: nat, i2: nat, p: Piece)
    requires Returned(t, live, base, total, p) && i1 < |t| && i2 < |t| && Before(t[i1], p) && After(t[i2], p)
    ensures i1 != i2 && Added(t, Joined(t, i1, i2, p), live, base, total, p)
  {
    var t1, p1 := t[i2 := t[i2].(used := false)], Piece(p.addr, p.size + t[i2].size);
    JoinReturned(t, live, base, total, i2, p);
    assert t1[i1] == t[i1];
    GrowOne(t1, live, base, total, i1, p1);
    assert t1[i1 := Grown(t1[i1], p1)] == Joined(t, i1, i2, p);
    forall a ensures IsFree(Joined(t, i1, i2, p), a) <==> IsFree(t, a) || Contains(p, a) {
      JoinFree(t, i2, p, a);
    }
  }

  lemma GrowOne(t: seq<Extent>, live: seq<Piece>, base: int, total: int, i: nat, p: Piece)
    requires Returned(t, live, base, total, p) && i < |t|
    requires Before(t[i], p) || After(t[i], p) || !t[i].used
    ensures Added(t, t[i := Grown(t[i], p)], live, base, total, p)
  {
    GrowSound(t, live, base, total, i, p);
    forall a ensures IsFree(t[i := Grown(t[i], p)], a) <==> IsFree(t, a) || Contains(p, a) {
      GrowFree(t, live, base, total, i, p, a);
    }
  }

  /** What a return that is not refused leaves. */
  ghost predicate Settled(t: seq<Extent>, t': seq<Extent>, live: seq<Piece>, base: int, total: int, p: Piece) {
    Added(t, t', live, base, total, p) && GivenBack(t, t', p) && Coalesced(t')
  }

  lemma BothBack(t: seq<Extent>, t': seq<Extent>, live: seq<Piece>, base: int, total: int,
                 i1: nat, i2: nat, p: Piece)
    requires Returned(t, live, base, total, p) && Coalesced(t) && 1 <= i1 < |t| && 1 <= i2 < |t|
    requires Before(t[i1], p) && After(t[i2], p) && t' == Joined(t, i1, i2, p)
    ensures Settled(t, t', live, base, total, p)
  {
    JoinBoth(t, live, base, total, i1, i2, p);
    BothGiven(t, t', live, base, total, i1, i2, p);
    BothCoalesced(t, t', i1, i2);
  }

  lemma BothGiven(t: seq<Extent>, t': seq<Extent>, live: seq<Piece>, base: int, total: int,
                  i1: nat, i2: nat, p: Piece)
    requires Returned(t, live, base, total, p) && 1 <= i1 < |t| && 1 <= i2 < |t|
    requires Before(t[i1], p) && After(t[i2], p) && t' == Joined(t, i1, i2, p)
    ensures GivenBack(t, t', p)
  {
    forall i, j | 1 <= i < |t| && 1 <= j < |t| && Before(t[i], p) && After(t[j], p) ensures i == i1 && j == i2 {
      OneNeighbour(t, live, base, total, p, i, i1);
      OneNeighbour(t, live, base, total, p, j, i2);
    }
  }

  /** Entry i1 grown to the end of entry i2, which is given up. */
  lemma BothCoalesced(t: seq<Extent>, t': seq<Extent>, i1: nat, i2: nat)
    requires Coalesced(t) && 1 <= i1 < |t| && 1 <= i2 < |t| && i1 != i2 && t[i1].used && t[i2].used
    requires |t'| == |t| && !t'[i2].used && t'[i1].addr == t[i1].addr
    requires t'[i1].addr + t'[i1].size == t[i2].addr + t[i2].size
    requires forall i :: 0 <= i < |t| && i != i1 && i != i2 ==> t'[i] == t[i]
    ensures Coalesced(t')
  {
  }

  lemma OneBack(t: seq<Extent>, t': seq<Extent>, live: seq<Piece>, base: int, total: int, i: nat, p: Piece)
    requires Returned(t, live, base, total, p) && Coalesced(t) && 1 <= i < |t| && t' == t[i := Grown(t[i], p)]
    requires (Before(t[i], p) && NoneAfter(t, p)) || (After(t[i], p) && NoneBefore(t, p))
    ensures Settled(t, t', live, base, total, p)
  {
    GrowOne(t, live, base, total, i, p);
    OneCoalesced(t, t', i, p);
    OneGiven(t, t', live, base, total, i, p);
  }

  lemma OneGiven(t: seq<Extent>, t': seq<Extent>, live: seq<Piece>, base: int, total: int, i: nat, p: Piece)
    requires Returned(t, live, base, total, p) && 1 <= i < |t| && t' == t[i := Grown(t[i], p)]
    requires (Before(t[i], p) && NoneAfter(t, p)) || (After(t[i], p) && NoneBefore(t, p))
    ensures GivenBack(t, t', p)
  {
    forall j | 1 <= j < |t| && (Before(t[j], p) || After(t[j], p)) ensures j == i {
      OneNeighbour(t, live, base, total, p, i, j);
    }
  }

  /** Entry i grown by p on a side where no entry but the 0th follows. */
  lemma OneCoalesced(t: seq<Extent>, t': seq<Extent>, i: nat, p: Piece)
    requires Coalesced(t) && 1 <= i < |t| && t' == t[i := Grown(t[i], p)] && p.size > 0
    requires forall j :: 0 <= j < |t| && t[j].used ==> t[j].size > 0
    requires (Before(t[i], p) && NoneAfter(t, p)) || (After(t[i], p) && NoneBefore(t, p))
    ensures Coalesced(t')
  {
  }

  lemma AloneBack(t: seq<Extent>, t': seq<Extent>, live: seq<Piece>, base: int, total: int, i: nat, p: Piece)
    requires Returned(t, live, base, total, p) && Coalesced(t) && NoneBefore(t, p) && NoneAfter(t, p)
    requires FirstUnused(t, i) && t' == t[i := Extent(true, p.addr, p.size)]
    ensures Settled(t, t', live, base, total, p)
  {
    GrowOne(t, live, base, total, i, p);
  }

  lemma WithoutOne(t: seq<Extent>, live: seq<Piece>, base: int, total: int, k: nat)
    requires FreeSound(t, base, total) && LiveSound(live, base, total) && Separate(t, live) && k < |live|
    ensures var rest := live[..k] + live[k + 1..];
            LiveSound(rest, base, total) && Returned(t, rest, base, total, live[k])
  {
    var rest := live[..k] + live[k + 1..];
    forall m | 0 <= m < |rest| ensures rest[m] == live[if m < k then m else m + 1] {
    }
  }

  lemma {:induction false} OneEntry(t: seq<Extent>)
    requires |t| > 0 && forall i :: 0 < i < |t| ==> !t[i].used
    ensures FreeSum(t) == PieceOf(t[0]).size
  {
    if |t| > 1 {
      OneEntry(t[..|t| - 1]);
    } else {
      assert FreeSum(t[..0]) == 0;
    }
  }

  // ----- a run that ends in a refused return

  /** One byte handed out from a table with one extent. */
  method HandOutOne(m: FixedPartition, addr: int, size: int)
    requires m.Valid() && size > 1 && Opened(m.memTable[..], addr, size)
    modifies m`live, m.memTable
    ensures m.Valid() && m.live == old(m.live) + [Piece(addr, 1)] && Opened(m.memTable[..], addr + 1, size - 1)
  {
    ghost var t := m.memTable[..];
    assert FirstFit(t, 1) == 0;
    var p := m.Alloc(1);
    assert m.memTable[..] == t[0 := Extent(true, addr + 1, size - 1)];
  }

  /** Bytes handed out in a row from base on. */
  ghost predicate InRow(live: seq<Piece>, base: int, k: nat) {
    |live| == k && forall i :: 0 <= i < k ==> live[i] == Piece(base + i, 1)
  }

  lemma InRowNext(live: seq<Piece>, base: int, k: nat, p: Piece)
    requires InRow(live, base, k) && p == Piece(base + k, 1)
    ensures InRow(live + [p], base, k + 1)
  {
  }

  lemma RowIsOdd(live: seq<Piece>, base: int)
    requires InRow(live, base, 100)
    ensures OddLeft(live, base, 0)
  {
  }

  method HandOutNext(m: FixedPartition, base: int, size: int, k: nat)
    requires m.Valid() && size > k + 1 && InRow(m.live, base, k) && Opened(m.memTable[..], base + k, size - k)
    modifies m`live, m.memTable
    ensures m.Valid() && InRow(m.live, base, k + 1)
    ensures Opened(m.memTable[..], base + (k + 1), size - (k + 1))
  {
    InRowNext(m.live, base, k, Piece(base + k, 1));
    HandOutOne(m, base + k, size - k);
  }

  /** 100 bytes handed out one by one. */
  method HandOut(m: FixedPartition, base: int, size: int)
    requires m.Valid() && m.live == [] && size > 100 && Opened(m.memTable[..], base, size)
    modifies m`live, m.memTable
    ensures m.Valid() && OddLeft(m.live, base, 0) && Opened(m.memTable[..], base + 100, size - 100)
  {
    for k := 0 to 100
      invariant m.Valid() && InRow(m.live, base, k) && Opened(m.memTable[..], base + k, size - k)
    {
      HandOutNext(m, base, size, k);
    }
    RowIsOdd(m.live, base);
  }

  /** Only entry 0 is in use, and holds the given extent. */
  ghost predicate Opened(t: seq<Extent>, addr: int, size: int) {
    |t| == MAX_PARTITION && t[0] == Extent(true, addr, size) && forall j :: 0 < j < |t| ==> !t[j].used
  }

  /** The first n even bytes have come back, each to an entry of its own. */
  ghost predicate Scattered(t: seq<Extent>, base: int, size: int, n: nat) {
    && |t| == MAX_PARTITION && t[0] == Extent(true, base + 100, size)
    && forall j :: 0 < j < |t| ==> if j <= n then t[j] == Extent(true, base + 2 * (j - 1), 1) else !t[j].used
  }

  ghost predicate OddLeft(live: seq<Piece>, base: int, n: nat) {
    |live| == 100 - n && forall i :: 0 <= i < |live| ==> live[i] == Piece(base + i + if i < n then i + 1 else n, 1)
  }

  ghost predicate NoneAccepts(t: seq<Extent>, p: Piece) {
    forall j :: 0 <= j < |t| ==> !Accepts(t, j, p)
  }

  lemma ScatteredNext(t: seq<Extent>, base: int, size: int, n: nat, p: Piece)
    requires Scattered(t, base, size, n) && n < MAX_PARTITION && p == Piece(base + 2 * n, 1)
    ensures NoneBefore(t, p) && NoneAfter(t, p)
    ensures n < MAX_PARTITION - 1 ==>
              FirstUnused(t, n + 1) && Scattered(t[n + 1 := Extent(true, p.addr, 1)], base, size, n + 1)
    ensures n == MAX_PARTITION - 1 ==> NoneAccepts(t, p)
  {
  }

  lemma OddNext(live: seq<Piece>, live': seq<Piece>, base: int, n: nat)
    requires OddLeft(live, base, n) && n < 50 && live' == live[..n] + live[n + 1..]
    ensures OddLeft(live', base, n + 1)
  {
    forall i | 0 <= i < |live'| ensures live'[i] == Piece(base + i + if i < n + 1 then i + 1 else n + 1, 1) {
      assert live'[i] == live[if i < n then i else i + 1];
    }
  }

  /** The n-th even byte goes back to an entry of its own. */
  method GiveBackOne(m: FixedPartition, base: int, ghost size: int, n: nat)
    requires m.Valid() && m.lost == 0 && Scattered(m.memTable[..], base, size, n) && n < MAX_PARTITION - 1
    requires OddLeft(m.live, base, n)
    modifies m`live, m`lost, m.memTable
    ensures m.Valid() && m.lost == 0 && Scattered(m.memTable[..], base, size, n + 1)
    ensures OddLeft(m.live, base, n + 1)
  {
    ghost var t, live := m.memTable[..], m.live;
    ScatteredNext(t, base, size, n, Piece(base + 2 * n, 1));
    assert Accepts(t, n + 1, Piece(base + 2 * n, 1));
    var ok := m.Free(base + 2 * n, 1, n);
    OddNext(live, m.live, base, n);
  }

  /** A run in which ll_free refuses memory that ll_alloc handed out: 100 bytes are taken and
      every other one given back; the fiftieth finds the table full and no neighbour. */
  method RefusedReturn(base: int, size: int) returns (m: FixedPartition, ok: bool)
    requires base > 0 && size > 100 && base + size <= 0x1_0000_0000
    ensures m.Valid() && !ok && m.lost == 1
  {
    m := new FixedPartition(base, size);
    HandOut(m, base, size);
    for n := 0 to MAX_PARTITION - 1
      invariant m.Valid() && m.lost == 0 && Scattered(m.memTable[..], base, size - 100, n)
      invariant OddLeft(m.live, base, n) && fresh(m) && fresh(m.memTable)
    {
      GiveBackOne(m, base, size - 100, n);
    }
    ScatteredNext(m.memTable[..], base, size - 100, MAX_PARTITION - 1, Piece(base + 98, 1));
    ok := m.Free(base + 98, 1, MAX_PARTITION - 1);
  }
}
