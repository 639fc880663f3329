/** What a client of the kernel heap can rely on over any run of malloc and free:
    statements about the set of live payloads, with the block list hidden. */
module HeapRuns {
  import opened Heap

  /** A live payload: its address and its size. */
  datatype Payload = Payload(at: int, size: nat)

  ghost function PayloadOf(bs: seq<Block>, i: nat): Payload
    requires i < |bs|
  {
    Payload(Addr(bs, i) + HEADER, bs[i].size)
  }

  ghost function LiveIn(bs: seq<Block>, l: nat, r: nat): set<Payload>
    requires l <= r <= |bs|
  {
    set i: nat | l <= i < r && !bs[i].free :: PayloadOf(bs, i)
  }

  ghost function Live(bs: seq<Block>): set<Payload> {
    LiveIn(bs, 0, |bs|)
  }

  lemma LiveSplit(bs: seq<Block>, l: nat, r: nat)
    requires l <= r <= |bs|
    ensures Live(bs) == LiveIn(bs, 0, l) + LiveIn(bs, l, r) + LiveIn(bs, r, |bs|)
  {
  }

  lemma LiveMember(bs: seq<Block>, i: nat)
    requires i < |bs|
    ensures !bs[i].free ==> PayloadOf(bs, i) in Live(bs)
  {
  }

  /** A stretch of blocks moved by d positions but not in the heap. */
  lemma LiveInMoved(bs: seq<Block>, bs': seq<Block>, l: nat, r: nat, d: int)
    requires l <= r <= |bs| && 0 <= l + d && r + d <= |bs'|
    requires forall i: nat :: l <= i < r ==> bs'[i + d] == bs[i] && PayloadOf(bs', i + d) == PayloadOf(bs, i)
    ensures LiveIn(bs', l + d, r + d) == LiveIn(bs, l, r)
  {
    forall x | x in LiveIn(bs', l + d, r + d) ensures x in LiveIn(bs, l, r) {
      var j: nat :| l + d <= j < r + d && !bs'[j].free && x == PayloadOf(bs', j);
      var i: nat := j - d;
      assert bs'[i + d] == bs[i] && PayloadOf(bs', i + d) == PayloadOf(bs, i);
    }
    forall x | x in LiveIn(bs, l, r) ensures x in LiveIn(bs', l + d, r + d) {
      var i: nat :| l <= i < r && !bs[i].free && x == PayloadOf(bs, i);
      assert PayloadOf(bs', i + d) == x;
    }
  }

  /** An edit that keeps every other block in place changes the live payloads only
      where it edits. */
  lemma SpliceLive(bs: seq<Block>, l: nat, r: nat, mid: seq<Block>)
    requires l <= r <= |bs|
    requires Addr(Splice(bs, l, r, mid), l + |mid|) == Addr(bs, r)
    ensures var bs' := Splice(bs, l, r, mid);
            Live(bs') == LiveIn(bs, 0, l) + LiveIn(bs', l, l + |mid|) + LiveIn(bs, r, |bs|)
  {
    var bs' := Splice(bs, l, r, mid);
    SpliceHeadLive(bs, l, r, mid);
    SpliceTailLive(bs, l, r, mid);
    LiveSplit(bs', l, l + |mid|);
  }

  lemma SpliceHeadLive(bs: seq<Block>, l: nat, r: nat, mid: seq<Block>)
    requires l <= r <= |bs|
    requires Addr(Splice(bs, l, r, mid), l + |mid|) == Addr(bs, r)
    ensures LiveIn(Splice(bs, l, r, mid), 0, l) == LiveIn(bs, 0, l)
  {
    SpliceAddr(bs, l, r, mid);
    LiveInMoved(bs, Splice(bs, l, r, mid), 0, l, 0);
  }

  lemma SpliceTailLive(bs: seq<Block>, l: nat, r: nat, mid: seq<Block>)
    requires l <= r <= |bs|
    requires Addr(Splice(bs, l, r, mid), l + |mid|) == Addr(bs, r)
    ensures LiveIn(Splice(bs, l, r, mid), l + |mid|, |Splice(bs, l, r, mid)|) == LiveIn(bs, r, |bs|)
  {
    SpliceAddr(bs, l, r, mid);
    var bs', d := Splice(bs, l, r, mid), l + |mid| - r;
    forall i: nat | r <= i < |bs|
      ensures bs'[i + d] == bs[i] && PayloadOf(bs', i + d) == PayloadOf(bs, i)
    {
      assert Addr(bs', i - r + l + |mid|) == Addr(bs, i);
    }
    LiveInMoved(bs, bs', r, |bs|, d);
  }

  /** Live payloads lie inside the heap, and their blocks do not overlap. */
  ghost predicate Disjoint(s: set<Payload>) {
    && (forall x :: x in s ==> HEADER <= x.at && x.at + x.size <= MEMORY_SIZE)
    && (forall x, y :: x in s && y in s && x != y ==> x.at + x.size + HEADER <= y.at || y.at + y.size + HEADER <= x.at)
  }

  lemma LiveDisjoint(bs: seq<Block>)
    requires Tiles(bs)
    ensures Disjoint(Live(bs))
  {
    forall x | x in Live(bs) ensures HEADER <= x.at && x.at + x.size <= MEMORY_SIZE {
      var i: nat :| i < |bs| && !bs[i].free && x == PayloadOf(bs, i);
      BlockBound(bs, i);
    }
    forall x, y | x in Live(bs) && y in Live(bs) && x != y
      ensures x.at + x.size + HEADER <= y.at || y.at + y.size + HEADER <= x.at
    {
      var i: nat :| i < |bs| && !bs[i].free && x == PayloadOf(bs, i);
      var j: nat :| j < |bs| && !bs[j].free && y == PayloadOf(bs, j);
      if i < j {
        AddrMonotone(bs, i, j);
      } else {
        AddrMonotone(bs, j, i);
      }
    }
  }

  // ----- effect of the operations on the live payloads

  function Granted(b: Block, size: nat): (g: nat)
    requires b.size >= size
    ensures size <= g <= size + HEADER + BLOCK_SIZE
  {
    if b.size > size + HEADER + BLOCK_SIZE then size else b.size
  }

  /** malloc adds the returned payload and touches no other. */
  lemma AllocateLive(bs: seq<Block>, i: nat, size: nat)
    requires Wf(bs) && i < |bs| && Fits(bs[i], size)
    ensures var x := Payload(Addr(bs, i) + HEADER, Granted(bs[i], size));
            && (forall y :: y in Live(bs) ==> y.at != x.at)
            && Live(Allocate(bs, i, size)) == Live(bs) + {x}
  {
    var mid, bs' := Carve(bs[i], size), Allocate(bs, i, size);
    CarveExtent(bs, i, size);
    SpliceLive(bs, i, i + 1, mid);
    LiveSplit(bs, i, i + 1);
    CarveLive(bs, i, size);
    assert LiveIn(bs, i, i + 1) == {};
    forall y | y in Live(bs) ensures y.at != Addr(bs, i) + HEADER {
      var j: nat :| j < |bs| && !bs[j].free && y == PayloadOf(bs, j);
      if j < i { AddrMonotone(bs, j, i); } else { AddrMonotone(bs, i, j); }
    }
  }

  lemma CarveLive(bs: seq<Block>, i: nat, size: nat)
    requires i < |bs| && Fits(bs[i], size)
    ensures LiveIn(Allocate(bs, i, size), i, i + |Carve(bs[i], size)|)
         == {Payload(Addr(bs, i) + HEADER, Granted(bs[i], size))}
  {
    var mid, bs' := Carve(bs[i], size), Allocate(bs, i, size);
    var x := Payload(Addr(bs, i) + HEADER, Granted(bs[i], size));
    assert bs'[..i] == bs[..i];
    AddrPrefix(bs, bs', i);
    assert bs'[i] == mid[0] && PayloadOf(bs', i) == x;
    assert |mid| == 2 ==> bs'[i + 1] == mid[1];
    assert x in LiveIn(bs', i, i + |mid|);
  }

  lemma LiveOne(bs: seq<Block>, i: nat)
    requires i < |bs|
    ensures LiveIn(bs, i, i + 1) == if bs[i].free then {} else {PayloadOf(bs, i)}
  {
  }

  lemma LiveNone(bs: seq<Block>, l: nat, r: nat)
    requires l <= r <= |bs| && forall i :: l <= i < r ==> bs[i].free
    ensures LiveIn(bs, l, r) == {}
  {
  }

  /** One free block in the place of free blocks of the same extent. */
  lemma ReplaceFreeLive(bs: seq<Block>, l: nat, r: nat, b: Block)
    requires l < r <= |bs| && b.free && forall i :: l <= i < r ==> bs[i].free
    requires Addr(Splice(bs, l, r, [b]), l + 1) == Addr(bs, r)
    ensures Live(Splice(bs, l, r, [b])) == Live(bs)
  {
    SpliceLive(bs, l, r, [b]);
    LiveSplit(bs, l, r);
    LiveNone(bs, l, r);
    assert Splice(bs, l, r, [b])[l] == b;
    LiveOne(Splice(bs, l, r, [b]), l);
  }

  lemma MergePairLive(bs: seq<Block>, i: nat)
    requires i + 1 < |bs| && bs[i].free && bs[i + 1].free
    ensures Live(MergePair(bs, i)) == Live(bs)
  {
    MergeHeader(bs, i);
    ReplaceFreeLive(bs, i, i + 2, Block(bs[i].size + HEADER + bs[i + 1].size, bs[i].free));
  }

  lemma {:induction false} AbsorbLive(bs: seq<Block>, i: nat)
    requires i < |bs| && bs[i].free
    ensures Live(AbsorbNext(bs, i)) == Live(bs)
    decreases |bs|
  {
    if i + 1 < |bs| && bs[i + 1].free {
      MergePairLive(bs, i);
      AbsorbLive(MergePair(bs, i), i);
    }
  }

  /** Flagging a block free takes its payload away and no other. */
  lemma SetFreeLive(bs: seq<Block>, i: nat)
    requires i < |bs| && !bs[i].free
    ensures Live(SetFree(bs, i)) == Live(bs) - {PayloadOf(bs, i)} && PayloadOf(bs, i) in Live(bs)
  {
    var b, bs', x := Block(bs[i].size, true), SetFree(bs, i), PayloadOf(bs, i);
    SpliceOne(bs, i, i + 1, b);
    SpliceLive(bs, i, i + 1, [b]);
    LiveSplit(bs, i, i + 1);
    assert bs'[i] == b;
    LiveOne(bs', i);
    LiveOne(bs, i);
    NotElsewhere(bs, i);
    WithoutMiddle(LiveIn(bs, 0, i), x, LiveIn(bs, i + 1, |bs|));
  }

  lemma WithoutMiddle(a: set<Payload>, x: Payload, c: set<Payload>)
    requires x !in a && x !in c
    ensures a + {} + c == a + {x} + c - {x}
  {
  }

  /** free removes the payload of the freed pointer and touches no other. */
  lemma ReleaseLive(bs: seq<Block>, i: nat)
    requires Tiles(bs) && i < |bs| && !bs[i].free
    ensures Live(Release(bs, i)) == Live(bs) - {PayloadOf(bs, i)}
    ensures PayloadOf(bs, i) in Live(bs)
  {
    var bs' := SetFree(bs, i);
    SetFreeLive(bs, i);
    assert bs'[i].free;
    if i > 0 && bs'[i - 1].free {
      MergePairLive(bs', i - 1);
      AbsorbLive(MergePair(bs', i - 1), i - 1);
    } else {
      AbsorbLive(bs', i);
    }
  }

  lemma NotElsewhere(bs: seq<Block>, i: nat)
    requires i < |bs|
    ensures PayloadOf(bs, i) !in LiveIn(bs, 0, i) && PayloadOf(bs, i) !in LiveIn(bs, i + 1, |bs|)
  {
    forall j: nat | j < |bs| && j != i ensures Addr(bs, j) != Addr(bs, i) {
      if j < i { AddrMonotone(bs, j, i); } else { AddrMonotone(bs, i, j); }
    }
  }

  // ----- when malloc succeeds

  /** At a there is room for a header and size bytes that meets neither the header
      nor the payload of a live block. */
  ghost predicate Vacant(s: set<Payload>, a: nat, size: nat) {
    && a + HEADER + size <= MEMORY_SIZE
    && forall x :: x in s ==> a + HEADER + size <= x.at - HEADER || x.at + x.size <= a
  }

  /** malloc succeeds exactly when some stretch of the heap clear of live blocks has
      room for a header and the payload, and it takes the lowest such stretch. */
  lemma MallocComplete(bs: seq<Block>, size: nat)
    requires Wf(bs)
    ensures FirstFit(bs, size) < |bs| <==> exists a :: Vacant(Live(bs), a, size)
    ensures FirstFit(bs, size) < |bs| ==> Vacant(Live(bs), Addr(bs, FirstFit(bs, size)), size)
    ensures forall a :: Vacant(Live(bs), a, size) ==>
              FirstFit(bs, size) < |bs| && Addr(bs, FirstFit(bs, size)) <= a
  {
    var i := FirstFit(bs, size);
    if i < |bs| {
      FreeBlockVacant(bs, i, size);
    }
    forall a | Vacant(Live(bs), a, size) ensures i < |bs| && Addr(bs, i) <= a {
      var j := VacantFits(bs, a, size);
      if i < j { AddrMonotone(bs, i, j); }
    }
  }

  lemma FreeBlockVacant(bs: seq<Block>, i: nat, size: nat)
    requires Tiles(bs) && i < |bs| && Fits(bs[i], size)
    ensures Vacant(Live(bs), Addr(bs, i), size)
  {
    BlockBound(bs, i);
    forall x | x in Live(bs) ensures Addr(bs, i) + HEADER + size <= x.at - HEADER || x.at + x.size <= Addr(bs, i) {
      var j: nat :| j < |bs| && !bs[j].free && x == PayloadOf(bs, j);
      if j < i { AddrMonotone(bs, j, i); } else { AddrMonotone(bs, i, j); }
    }
  }

  lemma {:induction false} BlockAt(bs: seq<Block>, a: nat, k: nat) returns (i: nat)
    requires k <= |bs| && a < Addr(bs, k)
    ensures i < k && Addr(bs, i) <= a < Addr(bs, i + 1)
  {
    if Addr(bs, k - 1) <= a {
      i := k - 1;
    } else {
      i := BlockAt(bs, a, k - 1);
    }
  }

  /** A vacant stretch lies inside one free block, since no two free blocks touch. */
  lemma VacantFits(bs: seq<Block>, a: nat, size: nat) returns (j: nat)
    requires Wf(bs) && Vacant(Live(bs), a, size)
    ensures j < |bs| && Fits(bs[j], size) && Addr(bs, j) <= a
  {
    j := BlockAt(bs, a, |bs|);
    LiveMember(bs, j);
    if j + 1 < |bs| {
      LiveMember(bs, j + 1);
      assert NoFreePair(bs, j);
    }
  }

  /** With nothing live the heap is one free block of the initial size. */
  lemma NothingLive(bs: seq<Block>)
    requires Wf(bs) && Live(bs) == {}
    ensures bs == Initial
  {
    assert |bs| > 1 ==> NoFreePair(bs, 0);
    forall i: nat | i < |bs| ensures bs[i].free {
      LiveMember(bs, i);
    }
    assert Addr(bs, 1) == HEADER + bs[0].size;
    assert bs == [bs[0]];
  }

  // ----- runs

  /** The client's calls. A run records the pointers it has been handed and not yet
      given back, each with the size asked for. */
  datatype Call = Malloc(size: nat) | Free(ptr: int)

  datatype Client = Client(heap: seq<Block>, held: map<int, nat>)

  /** One call, as specified by KernelHeap.Malloc and KernelHeap.Free. */
  ghost predicate Step(c: Client, call: Call, c': Client) {
    match call
    case Malloc(size) =>
      var i := FirstFit(c.heap, size);
      if i == |c.heap| then c' == c
      else c' == Client(Allocate(c.heap, i, size), c.held[Addr(c.heap, i) + HEADER := size])
    case Free(p) =>
      if p == NULL then c' == c
      else
        && p in c.held
        && exists i: nat :: LiveAt(c.heap, i, p) && c' == Client(Release(c.heap, i), c.held - {p})
  }

  ghost predicate Run(cs: seq<Client>, calls: seq<Call>) {
    && |cs| == |calls| + 1 && cs[0] == Client(Initial, map[])
    && forall k :: 0 <= k < |calls| ==> Step(cs[k], calls[k], cs[k + 1])
  }

  /** What the client holds is what is live, at no less than the size asked for. */
  ghost predicate Honest(c: Client) {
    Wf(c.heap) && Ledger(Live(c.heap), c.held)
  }

  ghost predicate Ledger(s: set<Payload>, held: map<int, nat>) {
    && (forall x :: x in s ==> x.at in held && held[x.at] <= x.size)
    && (forall p :: p in held ==> exists x :: x in s && x.at == p)
  }

  lemma LedgerAdd(s: set<Payload>, held: map<int, nat>, x: Payload, size: nat)
    requires Ledger(s, held) && size <= x.size && forall y :: y in s ==> y.at != x.at
    ensures Ledger(s + {x}, held[x.at := size])
  {
    var s', held' := s + {x}, held[x.at := size];
    forall p | p in held' ensures exists y :: y in s' && y.at == p {
      if p == x.at {
        assert x in s';
      } else {
        var y :| y in s && y.at == p;
        assert y in s';
      }
    }
  }

  lemma LedgerRemove(s: set<Payload>, held: map<int, nat>, x: Payload)
    requires Ledger(s, held) && Disjoint(s) && x in s
    ensures Ledger(s - {x}, held - {x.at})
  {
    forall p | p in held - {x.at} ensures exists y :: y in s - {x} && y.at == p {
      var y :| y in s && y.at == p;
      assert y in s - {x};
    }
  }

  lemma MallocHonest(c: Client, size: nat, c': Client)
    requires Honest(c) && Step(c, Malloc(size), c')
    ensures Honest(c')
  {
    var i := FirstFit(c.heap, size);
    if i < |c.heap| {
      AllocateWf(c.heap, i, size);
      AllocateLive(c.heap, i, size);
      LedgerAdd(Live(c.heap), c.held, Payload(Addr(c.heap, i) + HEADER, Granted(c.heap[i], size)), size);
    }
  }

  lemma FreeHonest(c: Client, p: int, c': Client)
    requires Honest(c) && Step(c, Free(p), c')
    ensures Honest(c')
  {
    if p != NULL {
      var i: nat :| LiveAt(c.heap, i, p) && c' == Client(Release(c.heap, i), c.held - {p});
      ReleaseWf(c.heap, i);
      ReleaseLive(c.heap, i);
      LiveDisjoint(c.heap);
      LedgerRemove(Live(c.heap), c.held, PayloadOf(c.heap, i));
    }
  }

  lemma StepHonest(c: Client, call: Call, c': Client)
    requires Honest(c) && Step(c, call, c')
    ensures Honest(c')
  {
    match call
    case Malloc(size) => MallocHonest(c, size, c');
    case Free(p) => FreeHonest(c, p, c');
  }

  /** A held pointer can always be freed: the precondition of Free is met. */
  lemma HeldIsLive(c: Client, p: int)
    requires Honest(c) && p in c.held
    ensures exists i: nat :: LiveAt(c.heap, i, p)
  {
    var x :| x in Live(c.heap) && x.at == p;
    var i: nat :| i < |c.heap| && !c.heap[i].free && x == PayloadOf(c.heap, i);
    assert LiveAt(c.heap, i, p);
  }

  /** Safety over whole runs: the list tiles the heap with no two neighbouring free
      blocks, held payloads are in bounds and disjoint, and when everything has been
      given back the heap is in its initial state. */
  lemma {:induction false} RunSafe(cs: seq<Client>, calls: seq<Call>)
    requires Run(cs, calls)
    ensures var c := cs[|calls|];
            && Honest(c)
            && (forall p :: p in c.held ==> HEADER <= p && p + c.held[p] <= MEMORY_SIZE)
            && (forall p, q :: p in c.held && q in c.held && p < q ==> p + c.held[p] + HEADER <= q)
            && (c.held == map[] ==> c.heap == Initial)
    decreases |calls|
  {
    var n := |calls|;
    if n == 0 {
      InitialWf();
    } else {
      RunSafe(cs[..n], calls[..n - 1]);
      StepHonest(cs[n - 1], calls[n - 1], cs[n]);
    }
    HonestSafe(cs[n]);
  }

  lemma HonestSafe(c: Client)
    requires Honest(c)
    ensures forall p :: p in c.held ==> HEADER <= p && p + c.held[p] <= MEMORY_SIZE
    ensures forall p, q :: p in c.held && q in c.held && p < q ==> p + c.held[p] + HEADER <= q
    ensures c.held == map[] ==> c.heap == Initial
  {
    LiveDisjoint(c.heap);
    if c.held == map[] {
      NothingLive(c.heap);
    }
  }
}
