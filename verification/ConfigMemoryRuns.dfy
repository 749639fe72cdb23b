/**
 Whole runs of the configuration memory: last-in-first-out runs as written, all runs with the
 missing link writes added, and two runs as written that break the documented guarantee
 (lib/cmm/cmm.c; the guarantee is stated at lib/cmm/cmm_private.h:79-93).
 */
module ConfigMemoryRuns {
  import opened Wrappers
  import opened ConfigMemory

  // ----- conservation -----

  ghost function Bytes(a: Area, offs: seq<nat>): nat
    requires forall i :: 0 <= i < |offs| ==> offs[i] in a.hdr
  {
    if offs == [] then 0 else Bytes(a, offs[..|offs| - 1]) + HDR + a.hdr[offs[|offs| - 1]].size
  }

  lemma {:induction false} PrefixBytes(a: Area, offs: seq<nat>, k: nat)
    requires Chain(a, offs) && 0 < k <= |offs|
    ensures forall i :: 0 <= i < k ==> offs[i] in a.hdr
    ensures a.first + Bytes(a, offs[..k]) == EndOf(a, offs, k - 1)
    decreases k
  {
    ChainOrder(a, offs);
    assert Linked(a, offs, k - 1);
    assert offs[..k][..k - 1] == offs[..k - 1];
    if k > 1 {
      PrefixBytes(a, offs, k - 1);
    }
  }

  /** Headers and block sizes always add up to the whole area. */
  lemma TotalConserved(a: Area, offs: seq<nat>)
    requires Chain(a, offs)
    ensures forall i :: 0 <= i < |offs| ==> offs[i] in a.hdr
    ensures a.first + Bytes(a, offs) == a.total
  {
    PrefixBytes(a, offs, |offs|);
    assert offs[..|offs|] == offs;
  }

  // ----- last-in-first-out runs, as written -----

  /** `used` blocks in use, then at most one free block. */
  ghost predicate Stacked(a: Area, offs: seq<nat>, used: nat) {
    && Chain(a, offs) && BackLinks(a, offs)
    && used <= |offs| <= used + 1
    && (forall i: nat :: i < used ==> !IsFree(a, offs[i]))
    && (used < |offs| ==> IsFree(a, offs[used]))
  }

  datatype Stack = Stack(a: Area, offs: seq<nat>, used: nat)

  datatype StackOp = Push(kind: Kind, name: string, n: nat) | Pop

  ghost predicate StackOk(s: Stack) {
    Stacked(s.a, s.offs, s.used)
  }

  lemma StackedOffsets(s: Stack)
    requires StackOk(s)
    ensures forall i: nat :: i < |s.offs| ==> s.offs[i] in s.a.hdr
  {
    ChainOrder(s.a, s.offs);
  }

  /** Allocate with cmm_block_alloc, or free the youngest block with cmm_block_free. */
  ghost function StackStep(s: Stack, op: StackOp): Stack
    requires StackOk(s)
  {
    StackedOffsets(s);
    match op
    case Push(kind, name, n) =>
      var i := BestFit(s.a, s.offs, n);
      if n == 0 || i.None? then s
      else Stack(Take(s.a, s.offs[i.value], kind, name, n), TakeOffs(s.a, s.offs, i.value, n), s.used + 1)
    case Pop =>
      if s.used == 0 then s
      else Stack(Freed(s.a, s.offs[s.used - 1]), FreedOffs(s.a, s.offs, s.used - 1), s.used - 1)
  }

  lemma TakeLastLinks(a: Area, offs: seq<nat>, i: nat, kind: Kind, name: string, n: nat)
    requires Chain(a, offs) && BackLinks(a, offs) && i + 1 == |offs|
    ensures offs[i] in a.hdr && BackLinks(Take(a, offs[i], kind, name, n), TakeOffs(a, offs, i, n))
  {
    ChainOrder(a, offs);
    var r, offs' := Take(a, offs[i], kind, name, n), TakeOffs(a, offs, i, n);
    forall j: nat | j < |offs'| ensures BackLink(r, offs', j) {
      if j <= i {
        assert BackLink(a, offs, j);
      }
    }
  }

  lemma OnlyFreeBlock(s: Stack, n: nat)
    requires StackOk(s)
    ensures forall i: nat :: i < |s.offs| ==> s.offs[i] in s.a.hdr
    ensures var r := BestFit(s.a, s.offs, n); r.Some? ==> r.value == s.used && s.used + 1 == |s.offs|
  {
    StackedOffsets(s);
  }

  lemma TakeLastStacked(s: Stack, kind: Kind, name: string, n: nat)
    requires StackOk(s) && s.used + 1 == |s.offs| && kind != FreeBlock
    ensures s.offs[s.used] in s.a.hdr
    ensures Stacked(Take(s.a, s.offs[s.used], kind, name, n), TakeOffs(s.a, s.offs, s.used, n), s.used + 1)
  {
    TakeKeepsChain(s.a, s.offs, s.used, kind, name, n);
    TakeLastLinks(s.a, s.offs, s.used, kind, name, n);
    ChainOrder(s.a, s.offs);
  }

  lemma PushKeepsStack(s: Stack, kind: Kind, name: string, n: nat)
    requires StackOk(s) && kind != FreeBlock
    ensures StackOk(StackStep(s, Push(kind, name, n)))
  {
    OnlyFreeBlock(s, n);
    if n != 0 && BestFit(s.a, s.offs, n).Some? {
      TakeLastStacked(s, kind, name, n);
    }
  }

  lemma PopKeepsStack(s: Stack)
    requires StackOk(s)
    ensures StackOk(StackStep(s, Pop))
  {
    if s.used > 0 {
      var i := s.used - 1;
      assert BackLink(s.a, s.offs, i);
      ChainOrder(s.a, s.offs);
      FreedChain(s.a, s.offs, i);
      ForwardChain(s.a, s.offs, i);
      var r := StackStep(s, Pop);
      forall j: nat | j < |r.offs| ensures BackLink(r.a, r.offs, j) {
        assert BackLink(s.a, s.offs, j);
      }
    }
  }

  ghost function StackRun(s: Stack, ops: seq<StackOp>): Stack
    requires StackOk(s) && forall op :: op in ops && op.Push? ==> op.kind != FreeBlock
    decreases |ops|
  {
    if ops == [] then s
    else
      StackStepOk(s, ops[0]);
      StackRun(StackStep(s, ops[0]), ops[1..])
  }

  lemma StackStepOk(s: Stack, op: StackOp)
    requires StackOk(s) && (op.Push? ==> op.kind != FreeBlock)
    ensures StackOk(StackStep(s, op))
  {
    match op {
      case Push(kind, name, n) => PushKeepsStack(s, kind, name, n);
      case Pop => PopKeepsStack(s);
    }
  }

  lemma {:induction false} StackRunKeeps(s: Stack, ops: seq<StackOp>)
    requires StackOk(s) && forall op :: op in ops && op.Push? ==> op.kind != FreeBlock
    ensures StackOk(StackRun(s, ops))
    decreases |ops|
  {
    if ops == [] {
    } else {
      StackStepOk(s, ops[0]);
      StackRunKeeps(StackStep(s, ops[0]), ops[1..]);
    }
  }

  /** As written, every last-in-first-out run from a fresh area keeps the documented guarantee and every back link. */
  lemma StackRunsAreSound(first: nat, total: nat, ops: seq<StackOp>)
    requires 0 < first && first + HDR <= total < 0x1_0000_0000
    requires forall op :: op in ops && op.Push? ==> op.kind != FreeBlock
    ensures StackOk(Stack(Fresh(first, total), [first], 0))
    ensures var r := StackRun(Stack(Fresh(first, total), [first], 0), ops);
      Chain(r.a, r.offs) && NoTwoFree(r.a, r.offs) && BackLinks(r.a, r.offs)
  {
    FreshTiles(first, total);
    StackRunKeeps(Stack(Fresh(first, total), [first], 0), ops);
    var r := StackRun(Stack(Fresh(first, total), [first], 0), ops);
    forall j: nat | j + 1 < |r.offs| ensures NotBothFree(r.a, r.offs, j) {
      assert !IsFree(r.a, r.offs[j]);
    }
  }

  /** Same blocks, same sizes, same kinds, same links; names of free blocks do not matter. */
  ghost predicate SameLayout(a: Area, b: Area, offs: seq<nat>) {
    forall i: nat :: i < |offs| ==> SameBlock(a, b, offs[i])
  }

  ghost predicate SameBlock(a: Area, b: Area, o: nat) {
    && o in a.hdr && o in b.hdr
    && (a.hdr[o].kind, a.hdr[o].size, a.hdr[o].next, a.hdr[o].prev) == (b.hdr[o].kind, b.hdr[o].size, b.hdr[o].next, b.hdr[o].prev)
  }

  ghost predicate Restored(r: Area, a: Area, o: nat, name: string, gone: nat) {
    && o in a.hdr && o in r.hdr && r.hdr[o] == a.hdr[o].(name := name)
    && forall x :: x in a.hdr && x != o && x != gone ==> x in r.hdr && r.hdr[x] == a.hdr[x]
  }

  /** The offset of the header that a split creates. */
  function Gone(a: Area, o: nat, n: nat): nat {
    if Splits(a, o, n) then o + n + HDR else o
  }

  /** Header by header: a block taken and marked free again takes back what was split off. */
  lemma TakeThenForward(a: Area, o: nat, kind: Kind, name: string, n: nat)
    requires o in a.hdr && IsFree(a, o) && a.hdr[o].size >= n
    requires var m := a.hdr[o].next; m == 0 || (m in a.hdr && m == o + HDR + a.hdr[o].size && !IsFree(a, m))
    ensures Restored(Forward(Take(a, o, kind, name, n), o), a, o, name, Gone(a, o, n))
  {
    var t := Take(a, o, kind, name, n);
    var u := MarkFree(t, o);
    if Splits(a, o, n) {
      assert u.hdr[o] == Header(FreeBlock, name, o + n + HDR, a.hdr[o].prev, n);
      assert MergeNext(u, o) == Merge(u, o, o + n + HDR);
    } else {
      assert u.hdr[o] == a.hdr[o].(name := name);
      assert MergeNext(u, o) == u;
    }
  }

  lemma PrevInUse(b: Area, o: nat)
    requires o in b.hdr && (b.hdr[o].prev == 0 || !IsFree(b, b.hdr[o].prev))
    ensures MergePrev(b, o) == b
  {}

  lemma TakeThenFree(a: Area, o: nat, kind: Kind, name: string, n: nat)
    requires o in a.hdr && IsFree(a, o) && a.hdr[o].size >= n
    requires var c := a.hdr[o].prev; c == 0 || (c in a.hdr && c < o && !IsFree(a, c))
    requires var m := a.hdr[o].next; m == 0 || (m in a.hdr && m == o + HDR + a.hdr[o].size && !IsFree(a, m))
    ensures Restored(Freed(Take(a, o, kind, name, n), o), a, o, name, Gone(a, o, n))
  {
    TakeThenForward(a, o, kind, name, n);
    PrevInUse(Forward(Take(a, o, kind, name, n), o), o);
  }

  /** The list is as before, too. */
  lemma TakeThenFreeList(a: Area, t: Area, offs: seq<nat>, i: nat, n: nat)
    requires Chain(a, offs) && i < |offs| && (i > 0 ==> !IsFree(t, offs[i - 1]))
    requires if Splits(a, offs[i], n) then IsFree(t, offs[i] + n + HDR) else i + 1 < |offs| ==> !IsFree(t, offs[i + 1])
    ensures FreedOffs(t, TakeOffs(a, offs, i, n), i) == offs
  {}

  /** As written, freeing the block just pushed restores the layout. */
  lemma PopUndoesPush(s: Stack, kind: Kind, name: string, n: nat)
    requires StackOk(s) && kind != FreeBlock && StackStep(s, Push(kind, name, n)).used == s.used + 1
    ensures StackOk(StackStep(s, Push(kind, name, n)))
    ensures var r := StackStep(StackStep(s, Push(kind, name, n)), Pop);
      r.offs == s.offs && r.used == s.used && SameLayout(r.a, s.a, s.offs)
  {
    OnlyFreeBlock(s, n);
    PushKeepsStack(s, kind, name, n);
    TakeLastUndone(s, kind, name, n);
  }

  lemma TakeLastUndone(s: Stack, kind: Kind, name: string, n: nat)
    requires StackOk(s) && s.used + 1 == |s.offs| && kind != FreeBlock
    requires s.offs[s.used] in s.a.hdr && s.a.hdr[s.offs[s.used]].size >= n
    ensures var t := Take(s.a, s.offs[s.used], kind, name, n);
      && FreedOffs(t, TakeOffs(s.a, s.offs, s.used, n), s.used) == s.offs
      && SameLayout(Freed(t, s.offs[s.used]), s.a, s.offs)
  {
    var i := s.used;
    ChainOrder(s.a, s.offs);
    assert Linked(s.a, s.offs, i) && BackLink(s.a, s.offs, i);
    var t := Take(s.a, s.offs[i], kind, name, n);
    TakeThenFree(s.a, s.offs[i], kind, name, n);
    TakeThenFreeList(s.a, t, s.offs, i, n);
    RestoredLayout(Freed(t, s.offs[i]), s.a, s.offs, i, name, n);
  }

  // ----- the missing link writes added (a repair, not in the source) -----

  /** Repair of Take: the block after the split-off rest points back to it. */
  function TakeRepaired(a: Area, o: nat, kind: Kind, name: string, n: nat): Area
    requires o in a.hdr
  {
    var r, next := Take(a, o, kind, name, n), a.hdr[o].next;
    if Splits(a, o, n) && next != 0 && next in r.hdr then r.(hdr := r.hdr[next := r.hdr[next].(prev := o + n + HDR)]) else r
  }

  /** Repair of Merge: the block after the merged pair points back to it, or the pair becomes the last block. */
  function MergeRepaired(a: Area, c: nat, m: nat): Area
    requires c in a.hdr && m in a.hdr
  {
    var r, next := Merge(a, c, m), a.hdr[m].next;
    if !(IsFree(a, c) && IsFree(a, m)) then a
    else if next == 0 then r.(last := c)
    else if next in r.hdr then r.(hdr := r.hdr[next := r.hdr[next].(prev := c)])
    else r
  }

  function ForwardRepaired(a: Area, o: nat): Area
    requires o in a.hdr
  {
    var b := MarkFree(a, o);
    var m := b.hdr[o].next;
    if m == 0 || m !in b.hdr then b else MergeRepaired(b, o, m)
  }

  function FreedRepaired(a: Area, o: nat): Area
    requires o in a.hdr
  {
    var b := ForwardRepaired(a, o);
    var c := b.hdr[o].prev;
    if c == 0 || c !in b.hdr then b else MergeRepaired(b, c, o)
  }

  /** The doubly linked list is complete: tiling, back links and the last block. */
  ghost predicate Whole(a: Area, offs: seq<nat>) {
    Chain(a, offs) && BackLinks(a, offs) && a.last == offs[|offs| - 1]
  }

  /** The two areas differ in back links and the last block only. */
  ghost predicate SameForward(a: Area, b: Area) {
    && a.first == b.first && a.total == b.total && a.hdr.Keys == b.hdr.Keys
    && forall o :: o in a.hdr ==> a.hdr[o].(prev := 0) == b.hdr[o].(prev := 0)
  }

  lemma SameForwardList(a: Area, b: Area, offs: seq<nat>)
    requires SameForward(a, b) && Chain(a, offs)
    ensures Chain(b, offs) && (NoTwoFree(a, offs) ==> NoTwoFree(b, offs))
  {
    ChainOrder(a, offs);
    forall i: nat | i < |offs| ensures Linked(b, offs, i) {
      assert Linked(a, offs, i);
    }
    if NoTwoFree(a, offs) {
      forall i: nat | i + 1 < |offs| ensures NotBothFree(b, offs, i) {
        assert NotBothFree(a, offs, i);
      }
    }
  }

  lemma TakeRepairedWhole(a: Area, offs: seq<nat>, i: nat, kind: Kind, name: string, n: nat)
    requires Whole(a, offs) && NoTwoFree(a, offs) && i < |offs| && IsFree(a, offs[i]) && kind != FreeBlock
    ensures var r := TakeRepaired(a, offs[i], kind, name, n); Whole(r, TakeOffs(a, offs, i, n)) && NoTwoFree(r, TakeOffs(a, offs, i, n))
  {
    ChainOrder(a, offs);
    TakeKeepsChain(a, offs, i, kind, name, n);
    TakeKeepsApart(a, offs, i, kind, name, n);
    var t, r, offs' := Take(a, offs[i], kind, name, n), TakeRepaired(a, offs[i], kind, name, n), TakeOffs(a, offs, i, n);
    SameForwardList(t, r, offs');
    assert Linked(a, offs, i);
    TakeRepairedLinks(a, offs, i, kind, name, n);
  }

  /** The back link of any header after a repaired split. */
  lemma RepairedPrev(a: Area, o: nat, kind: Kind, name: string, n: nat, x: nat)
    requires o in a.hdr && Splits(a, o, n) && x in TakeRepaired(a, o, kind, name, n).hdr
    requires a.hdr[o].next != 0 ==> a.hdr[o].next in a.hdr && a.hdr[o].next != o && a.hdr[o].next != o + n + HDR
    ensures TakeRepaired(a, o, kind, name, n).hdr[x].prev ==
      if x == o + n + HDR then o
      else if x == a.hdr[o].next && x != 0 then o + n + HDR
      else a.hdr[x].prev
  {}

  lemma TakeRepairedLink(a: Area, offs: seq<nat>, i: nat, kind: Kind, name: string, n: nat, j: nat)
    requires Whole(a, offs) && i < |offs| && offs[i] in a.hdr && Splits(a, offs[i], n) && j < |offs| + 1
    requires forall k: nat :: k < |offs| ==> offs[k] in a.hdr && offs[k] > 0
    requires forall k: nat :: k < |offs| && k != i ==> offs[k] != offs[i] && offs[k] != offs[i] + n + HDR
    requires forall k: nat, l: nat :: k < l < |offs| ==> offs[k] != offs[l]
    ensures BackLink(TakeRepaired(a, offs[i], kind, name, n), TakeOffs(a, offs, i, n), j)
  {
    assert Linked(a, offs, i);
    var x := TakeOffs(a, offs, i, n)[j];
    RepairedPrev(a, offs[i], kind, name, n, x);
    if j <= i {
      assert BackLink(a, offs, j);
    } else if j > i + 1 {
      assert BackLink(a, offs, j - 1);
    }
  }

  lemma TakeRepairedLinks(a: Area, offs: seq<nat>, i: nat, kind: Kind, name: string, n: nat)
    requires Whole(a, offs) && i < |offs| && offs[i] in a.hdr
    ensures BackLinks(TakeRepaired(a, offs[i], kind, name, n), TakeOffs(a, offs, i, n))
  {
    if Splits(a, offs[i], n) {
      ChainOrder(a, offs);
      NotInside(a, offs, i, n);
      forall j: nat | j < |offs| + 1
        ensures BackLink(TakeRepaired(a, offs[i], kind, name, n), TakeOffs(a, offs, i, n), j)
      {
        TakeRepairedLink(a, offs, i, kind, name, n, j);
      }
    } else {
      forall j: nat | j < |offs| ensures BackLink(TakeRepaired(a, offs[i], kind, name, n), offs, j) {
        assert BackLink(a, offs, j);
      }
    }
  }

  lemma MergeRepairedLinks(a: Area, offs: seq<nat>, i: nat)
    requires Whole(a, offs) && i + 1 < |offs| && IsFree(a, offs[i]) && IsFree(a, offs[i + 1])
    ensures BackLinks(MergeRepaired(a, offs[i], offs[i + 1]), Without(offs, i + 1))
    ensures MergeRepaired(a, offs[i], offs[i + 1]).last == Without(offs, i + 1)[|offs| - 2]
  {
    ChainOrder(a, offs);
    var r, offs' := MergeRepaired(a, offs[i], offs[i + 1]), Without(offs, i + 1);
    assert Linked(a, offs, i + 1);
    forall j: nat | j < |offs'| ensures BackLink(r, offs', j) {
      assert BackLink(a, offs, if j <= i then j else j + 1);
    }
  }

  lemma MergeRepairedForward(a: Area, c: nat, m: nat)
    requires c in a.hdr && m in a.hdr
    ensures SameForward(Merge(a, c, m), MergeRepaired(a, c, m))
  {}

  lemma MergeRepairedWhole(a: Area, offs: seq<nat>, i: nat)
    requires Whole(a, offs) && i + 1 < |offs| && IsFree(a, offs[i]) && IsFree(a, offs[i + 1])
    ensures Whole(MergeRepaired(a, offs[i], offs[i + 1]), Without(offs, i + 1))
  {
    MergeChain(a, offs, i);
    MergeRepairedForward(a, offs[i], offs[i + 1]);
    SameForwardList(Merge(a, offs[i], offs[i + 1]), MergeRepaired(a, offs[i], offs[i + 1]), Without(offs, i + 1));
    MergeRepairedLinks(a, offs, i);
  }

  lemma ForwardRepairedWhole(a: Area, offs: seq<nat>, i: nat)
    requires Whole(a, offs) && i < |offs|
    ensures offs[i] in a.hdr && Whole(ForwardRepaired(a, offs[i]), ForwardOffs(a, offs, i))
    ensures SameForward(Forward(a, offs[i]), ForwardRepaired(a, offs[i]))
    ensures IsFree(ForwardRepaired(a, offs[i]), offs[i])
  {
    ChainOrder(a, offs);
    MarkFreeChain(a, offs, i);
    var b := MarkFree(a, offs[i]);
    assert Linked(b, offs, i);
    forall j: nat | j < |offs| ensures BackLink(b, offs, j) {
      assert BackLink(a, offs, j);
    }
    if i + 1 < |offs| && IsFree(a, offs[i + 1]) {
      MergeRepairedWhole(b, offs, i);
      MergeRepairedForward(b, offs[i], offs[i + 1]);
    }
  }

  lemma MergeForward(a: Area, b: Area, c: nat, m: nat)
    requires SameForward(a, b) && c in a.hdr && m in a.hdr
    ensures SameForward(Merge(a, c, m), MergeRepaired(b, c, m))
  {}

  lemma FreedForward(a: Area, offs: seq<nat>, i: nat)
    requires Whole(a, offs) && i < |offs|
    ensures offs[i] in a.hdr && SameForward(Freed(a, offs[i]), FreedRepaired(a, offs[i]))
  {
    ForwardRepairedWhole(a, offs, i);
    ForwardChain(a, offs, i);
    assert BackLink(a, offs, i);
    var b := ForwardRepaired(a, offs[i]);
    assert BackLink(b, ForwardOffs(a, offs, i), i);
    var c := b.hdr[offs[i]].prev;
    if c != 0 {
      ChainOrder(a, offs);
      MergeForward(Forward(a, offs[i]), b, c, offs[i]);
    }
  }

  lemma FreedRepairedWhole(a: Area, offs: seq<nat>, i: nat)
    requires Whole(a, offs) && NoTwoFree(a, offs) && i < |offs|
    ensures offs[i] in a.hdr
    ensures var r := FreedRepaired(a, offs[i]); Whole(r, FreedOffs(a, offs, i)) && NoTwoFree(r, FreedOffs(a, offs, i))
  {
    assert BackLink(a, offs, i);
    FreeWithBackLink(a, offs, i);
    FreedForward(a, offs, i);
    SameForwardList(Freed(a, offs[i]), FreedRepaired(a, offs[i]), FreedOffs(a, offs, i));
    FreedRepairedLinks(a, offs, i);
  }

  lemma FreedRepairedLinks(a: Area, offs: seq<nat>, i: nat)
    requires Whole(a, offs) && i < |offs|
    ensures offs[i] in a.hdr && Whole(FreedRepaired(a, offs[i]), FreedOffs(a, offs, i))
  {
    ForwardRepairedWhole(a, offs, i);
    ForwardChain(a, offs, i);
    var b, offs1 := ForwardRepaired(a, offs[i]), ForwardOffs(a, offs, i);
    assert BackLink(b, offs1, i);
    ChainOrder(b, offs1);
    ChainOrder(a, offs);
    if i > 0 && IsFree(a, offs[i - 1]) {
      MergeRepairedWhole(b, offs1, i - 1);
    }
  }

  datatype Heap = Heap(a: Area, offs: seq<nat>)

  datatype Op = AllocOp(kind: Kind, name: string, n: nat) | FreeOp(p: int)

  ghost predicate HeapOk(h: Heap) {
    Whole(h.a, h.offs) && NoTwoFree(h.a, h.offs)
  }

  /** The block whose memory starts at `p`. */
  ghost function BlockAt(offs: seq<nat>, p: int): (r: Option<nat>)
    ensures r.Some? ==> r.value < |offs| && offs[r.value] + HDR == p
    ensures r.None? ==> forall i: nat :: i < |offs| ==> offs[i] + HDR != p
  {
    if i: nat :| i < |offs| && offs[i] + HDR == p then Some(i) else None
  }

  ghost function RepairedStep(h: Heap, op: Op): (r: Heap)
    requires HeapOk(h) && (op.AllocOp? ==> op.kind != FreeBlock)
    ensures HeapOk(r)
  {
    ChainOrder(h.a, h.offs);
    match op
    case AllocOp(kind, name, n) =>
      var i := BestFit(h.a, h.offs, n);
      if n == 0 || i.None? then h
      else TakeRepairedWhole(h.a, h.offs, i.value, kind, name, n);
           Heap(TakeRepaired(h.a, h.offs[i.value], kind, name, n), TakeOffs(h.a, h.offs, i.value, n))
    case FreeOp(p) =>
      match BlockAt(h.offs, p)
      case None => h
      case Some(i) => FreedRepairedWhole(h.a, h.offs, i);
                      Heap(FreedRepaired(h.a, h.offs[i]), FreedOffs(h.a, h.offs, i))
  }

  ghost function RepairedRun(h: Heap, ops: seq<Op>): Heap
    requires HeapOk(h) && forall op :: op in ops && op.AllocOp? ==> op.kind != FreeBlock
    decreases |ops|
  {
    if ops == [] then h else RepairedRun(RepairedStep(h, ops[0]), ops[1..])
  }

  lemma FreshHeap(first: nat, total: nat)
    requires 0 < first && first + HDR <= total < 0x1_0000_0000
    ensures HeapOk(Heap(Fresh(first, total), [first]))
  {}

  lemma {:induction false} RepairedRunKeeps(h: Heap, ops: seq<Op>)
    requires HeapOk(h) && forall op :: op in ops && op.AllocOp? ==> op.kind != FreeBlock
    ensures HeapOk(RepairedRun(h, ops))
    decreases |ops|
  {
    if ops == [] {
    } else {
      RepairedRunKeeps(RepairedStep(h, ops[0]), ops[1..]);
    }
  }

  /** With the repair, every run from a fresh area keeps tiling, back links, last block and the no-two-free guarantee. */
  lemma RepairedRunsAreSound(first: nat, total: nat, ops: seq<Op>)
    requires 0 < first && first + HDR <= total < 0x1_0000_0000
    requires forall op :: op in ops && op.AllocOp? ==> op.kind != FreeBlock
    ensures HeapOk(Heap(Fresh(first, total), [first])) && HeapOk(RepairedRun(Heap(Fresh(first, total), [first]), ops))
  {
    FreshHeap(first, total);
    RepairedRunKeeps(Heap(Fresh(first, total), [first]), ops);
  }

  lemma TakeThenForwardRepaired(a: Area, o: nat, kind: Kind, name: string, n: nat)
    requires o in a.hdr && IsFree(a, o) && a.hdr[o].size >= n
    requires var m := a.hdr[o].next; m == 0 || (m in a.hdr && m == o + HDR + a.hdr[o].size && !IsFree(a, m) && a.hdr[m].prev == o)
    requires a.hdr[o].next == 0 <==> a.last == o
    ensures var r := ForwardRepaired(TakeRepaired(a, o, kind, name, n), o);
      Restored(r, a, o, name, Gone(a, o, n)) && r.last == a.last
  {
    var t, f := TakeRepaired(a, o, kind, name, n), o + n + HDR;
    var u := MarkFree(t, o);
    if Splits(a, o, n) {
      assert u.hdr[o] == Header(FreeBlock, name, f, a.hdr[o].prev, n);
      assert u.hdr[f].next == a.hdr[o].next && u.hdr[f].size == a.hdr[o].size - n - HDR;
      var r := MergeRepaired(u, o, f);
      assert r.hdr[o] == a.hdr[o].(name := name);
      assert ForwardRepaired(t, o) == r;
    } else {
      assert u.hdr[o] == a.hdr[o].(name := name);
      assert ForwardRepaired(t, o) == u;
    }
  }

  lemma TakeThenFreeRepaired(a: Area, o: nat, kind: Kind, name: string, n: nat)
    requires o in a.hdr && IsFree(a, o) && a.hdr[o].size >= n
    requires var c := a.hdr[o].prev; c == 0 || (c in a.hdr && c < o && !IsFree(a, c))
    requires var m := a.hdr[o].next; m == 0 || (m in a.hdr && m == o + HDR + a.hdr[o].size && !IsFree(a, m) && a.hdr[m].prev == o)
    requires a.hdr[o].next == 0 <==> a.last == o
    ensures var r := FreedRepaired(TakeRepaired(a, o, kind, name, n), o);
      Restored(r, a, o, name, Gone(a, o, n)) && r.last == a.last
  {
    TakeThenForwardRepaired(a, o, kind, name, n);
  }

  /** With the repair, freeing a block just allocated, anywhere in the area, restores the layout. */
  lemma FreeUndoesAlloc(a: Area, offs: seq<nat>, i: nat, kind: Kind, name: string, n: nat)
    requires Whole(a, offs) && NoTwoFree(a, offs) && i < |offs| && IsFree(a, offs[i]) && kind != FreeBlock && a.hdr[offs[i]].size >= n
    ensures var t := TakeRepaired(a, offs[i], kind, name, n);
      && FreedOffs(t, TakeOffs(a, offs, i, n), i) == offs
      && SameLayout(FreedRepaired(t, offs[i]), a, offs)
      && FreedRepaired(t, offs[i]).last == a.last
  {
    TakenRestored(a, offs, i, kind, name, n);
    TakenList(a, offs, i, kind, name, n);
    RestoredLayout(FreedRepaired(TakeRepaired(a, offs[i], kind, name, n), offs[i]), a, offs, i, name, n);
  }

  lemma TakenRestored(a: Area, offs: seq<nat>, i: nat, kind: Kind, name: string, n: nat)
    requires Whole(a, offs) && NoTwoFree(a, offs) && i < |offs| && IsFree(a, offs[i]) && kind != FreeBlock && a.hdr[offs[i]].size >= n
    ensures var r := FreedRepaired(TakeRepaired(a, offs[i], kind, name, n), offs[i]);
      Restored(r, a, offs[i], name, Gone(a, offs[i], n)) && r.last == a.last
  {
    NeighboursInUse(a, offs, i);
    TakeThenFreeRepaired(a, offs[i], kind, name, n);
  }

  lemma TakenKinds(a: Area, o: nat, kind: Kind, name: string, n: nat, x: nat)
    requires o in a.hdr && x != o
    ensures IsFree(TakeRepaired(a, o, kind, name, n), x) == (if x == Gone(a, o, n) then true else IsFree(a, x))
  {}

  lemma TakenList(a: Area, offs: seq<nat>, i: nat, kind: Kind, name: string, n: nat)
    requires Whole(a, offs) && NoTwoFree(a, offs) && i < |offs| && IsFree(a, offs[i])
    ensures FreedOffs(TakeRepaired(a, offs[i], kind, name, n), TakeOffs(a, offs, i, n), i) == offs
  {
    NeighboursInUse(a, offs, i);
    NotInside(a, offs, i, n);
    if i > 0 {
      TakenKinds(a, offs[i], kind, name, n, offs[i - 1]);
    }
    if Splits(a, offs[i], n) {
      TakenKinds(a, offs[i], kind, name, n, offs[i] + n + HDR);
    } else if i + 1 < |offs| {
      TakenKinds(a, offs[i], kind, name, n, offs[i + 1]);
    }
    TakeThenFreeList(a, TakeRepaired(a, offs[i], kind, name, n), offs, i, n);
  }

  lemma NeighboursInUse(a: Area, offs: seq<nat>, i: nat)
    requires Whole(a, offs) && NoTwoFree(a, offs) && i < |offs| && IsFree(a, offs[i])
    ensures var c := a.hdr[offs[i]].prev;
      c == PrevOf(offs, i) && (c == 0 || (c in a.hdr && c < offs[i] && !IsFree(a, c)))
    ensures var m := a.hdr[offs[i]].next;
      m == NextOf(offs, i) && (m == 0 || (m in a.hdr && m == offs[i] + HDR + a.hdr[offs[i]].size && !IsFree(a, m) && a.hdr[m].prev == offs[i]))
    ensures a.hdr[offs[i]].next == 0 <==> a.last == offs[i]
    ensures (i > 0 ==> !IsFree(a, offs[i - 1])) && (i + 1 < |offs| ==> !IsFree(a, offs[i + 1]))
  {
    ChainOrder(a, offs);
    assert Linked(a, offs, i) && BackLink(a, offs, i);
    assert i > 0 ==> NotBothFree(a, offs, i - 1);
    assert i + 1 < |offs| ==> NotBothFree(a, offs, i) && BackLink(a, offs, i + 1);
  }

  lemma NotInside(a: Area, offs: seq<nat>, i: nat, n: nat)
    requires Chain(a, offs) && i < |offs|
    ensures forall j: nat :: j < |offs| && j != i ==> offs[j] in a.hdr && offs[j] != offs[i] && offs[j] != Gone(a, offs[i], n)
  {
    ChainOrder(a, offs);
    assert Linked(a, offs, i);
    forall j: nat | j < |offs| && j != i ensures offs[j] in a.hdr && offs[j] != offs[i] && offs[j] != Gone(a, offs[i], n) {
      assert j > i ==> offs[i + 1] <= offs[j];
    }
  }

  lemma RestoredLayout(r: Area, a: Area, offs: seq<nat>, i: nat, name: string, n: nat)
    requires Chain(a, offs) && i < |offs| && Restored(r, a, offs[i], name, Gone(a, offs[i], n))
    ensures SameLayout(r, a, offs)
  {
    NotInside(a, offs, i, n);
    forall j: nat | j < |offs| ensures SameBlock(r, a, offs[j]) {
      if j == i {
        assert SameBlock(r, a, offs[i]);
      }
    }
  }

  // ----- runs as written; two runs that go wrong -----

  /** The list that the links of the area form, if they form one. */
  ghost function ListOf(a: Area): seq<nat> {
    if offs :| Chain(a, offs) then offs else []
  }

  lemma ListIs(a: Area, offs: seq<nat>)
    requires Chain(a, offs)
    ensures ListOf(a) == offs
  {
    SameChain(a, offs, ListOf(a));
  }

  lemma ListInArea(a: Area)
    ensures forall i: nat :: i < |ListOf(a)| ==> ListOf(a)[i] in a.hdr
  {
    if ListOf(a) != [] {
      ChainOrder(a, ListOf(a));
    }
  }

  ghost function WrittenStep(a: Area, op: Op): Area {
    ListInArea(a);
    match op
    case AllocOp(kind, name, n) =>
      var i := BestFit(a, ListOf(a), n);
      if n == 0 || i.None? then a else Take(a, ListOf(a)[i.value], kind, name, n)
    case FreeOp(p) =>
      match BlockAt(ListOf(a), p)
      case None => a
      case Some(i) => Freed(a, ListOf(a)[i])
  }

  ghost function WrittenRun(a: Area, ops: seq<Op>): Area
    decreases |ops|
  {
    if ops == [] then a else WrittenRun(WrittenStep(a, ops[0]), ops[1..])
  }

  lemma {:induction false} WrittenRunAppend(a: Area, ops: seq<Op>, op: Op)
    ensures WrittenRun(a, ops + [op]) == WrittenStep(WrittenRun(a, ops), op)
    decreases |ops|
  {
    if ops == [] {
      assert [op][1..] == [];
    } else {
      assert (ops + [op])[1..] == ops[1..] + [op];
      WrittenRunAppend(WrittenStep(a, ops[0]), ops[1..], op);
    }
  }

  lemma AllocStep(a: Area, offs: seq<nat>, i: nat, kind: Kind, name: string, n: nat)
    requires Chain(a, offs) && i < |offs| && n > 0
    requires IsFree(a, offs[i]) && a.hdr[offs[i]].size >= n
    requires forall j: nat :: j < |offs| && j != i && IsFree(a, offs[j]) ==> a.hdr[offs[j]].size < n || a.hdr[offs[j]].size > a.hdr[offs[i]].size
    ensures WrittenStep(a, AllocOp(kind, name, n)) == Take(a, offs[i], kind, name, n)
  {
    ListIs(a, offs);
    ListInArea(a);
    assert BestFit(a, offs, n) == Some(i);
  }

  lemma FreeStep(a: Area, offs: seq<nat>, i: nat)
    requires Chain(a, offs) && i < |offs|
    ensures offs[i] in a.hdr && WrittenStep(a, FreeOp(offs[i] + HDR)) == Freed(a, offs[i])
  {
    ListIs(a, offs);
    ListInArea(a);
    ChainOrder(a, offs);
    var j := BlockAt(offs, offs[i] + HDR);
    assert j.Some?;
  }

  /** The area is one list of tiling blocks with no two free neighbours, before, between and after the calls. */
  ghost predicate SoundThroughout(a: Area, ops: seq<Op>)
    decreases |ops|
  {
    Sound(a) && (ops == [] || SoundThroughout(WrittenStep(a, ops[0]), ops[1..]))
  }

  ghost predicate SafeOp(a: Area, op: Op) {
    ListInArea(a);
    match op
    case AllocOp(_, _, _) => true
    case FreeOp(p) => match BlockAt(ListOf(a), p) case None => true case Some(i) => SafeToFree(a, ListOf(a), i)
  }

  ghost predicate FreesSafe(a: Area, ops: seq<Op>)
    decreases |ops|
  {
    ops == [] || (SafeOp(a, ops[0]) && FreesSafe(WrittenStep(a, ops[0]), ops[1..]))
  }

  lemma AllocSound(a: Area, kind: Kind, name: string, n: nat)
    requires Sound(a) && kind != FreeBlock
    ensures Sound(WrittenStep(a, AllocOp(kind, name, n)))
  {
    var offs :| SoundAs(a, offs);
    ListIs(a, offs);
    ListInArea(a);
    var i := BestFit(a, offs, n);
    if n != 0 && i.Some? {
      TakeKeepsChain(a, offs, i.value, kind, name, n);
      TakeKeepsApart(a, offs, i.value, kind, name, n);
      assert SoundAs(Take(a, offs[i.value], kind, name, n), TakeOffs(a, offs, i.value, n));
    }
  }

  lemma FreeOpSoundIff(a: Area, p: int)
    requires Sound(a)
    ensures Sound(WrittenStep(a, FreeOp(p))) <==> SafeOp(a, FreeOp(p))
  {
    var offs :| SoundAs(a, offs);
    ListIs(a, offs);
    ListInArea(a);
    var i := BlockAt(offs, p);
    if i.Some? {
      FreeSoundIff(a, offs, i.value);
    }
  }

  /** As written, over whole runs: the area stays sound throughout exactly when every block freed was safe to free at its time. */
  lemma {:induction false} WrittenRunSoundIff(a: Area, ops: seq<Op>)
    requires Sound(a) && forall op :: op in ops && op.AllocOp? ==> op.kind != FreeBlock
    ensures SoundThroughout(a, ops) <==> FreesSafe(a, ops)
    decreases |ops|
  {
    if ops == [] {
    } else {
      match ops[0] {
        case AllocOp(kind, name, n) => AllocSound(a, kind, name, n);
        case FreeOp(p) => FreeOpSoundIff(a, p);
      }
      if Sound(WrittenStep(a, ops[0])) {
        WrittenRunSoundIff(WrittenStep(a, ops[0]), ops[1..]);
      }
    }
  }

  lemma RunOfTwo(a: Area, x: Op, y: Op)
    ensures WrittenRun(a, [x, y]) == WrittenStep(WrittenStep(a, x), y)
  {
    var b := WrittenStep(a, x);
    assert [x, y][1..] == [y] && [y][1..] == [];
    assert WrittenRun(b, [y]) == WrittenRun(WrittenStep(b, y), []);
  }

  lemma {:induction false} WrittenRunSplit(a: Area, xs: seq<Op>, ys: seq<Op>)
    ensures WrittenRun(a, xs + ys) == WrittenRun(WrittenRun(a, xs), ys)
    decreases |xs|
  {
    if xs == [] {
      assert xs + ys == ys;
    } else {
      assert (xs + ys)[1..] == xs[1..] + ys;
      WrittenRunSplit(WrittenStep(a, xs[0]), xs[1..], ys);
    }
  }

  lemma ListOfTwo(a: Area, o: nat, p: nat)
    requires a.first == o > 0 && o in a.hdr && p in a.hdr && p > 0
    requires a.hdr[o].next == p == o + HDR + a.hdr[o].size && a.hdr[p].next == 0 && p + HDR + a.hdr[p].size == a.total
    ensures Chain(a, [o, p])
  {}

  lemma ListOfThree(a: Area, o: nat, p: nat, q: nat)
    requires a.first == o > 0 && o in a.hdr && p in a.hdr && q in a.hdr && p > 0 && q > 0
    requires a.hdr[o].next == p == o + HDR + a.hdr[o].size && a.hdr[p].next == q == p + HDR + a.hdr[p].size
    requires a.hdr[q].next == 0 && q + HDR + a.hdr[q].size == a.total
    ensures Chain(a, [o, p, q])
  {}

  lemma ListOfFour(a: Area, o: nat, p: nat, q: nat, r: nat)
    requires a.first == o > 0 && o in a.hdr && p in a.hdr && q in a.hdr && r in a.hdr && p > 0 && q > 0 && r > 0
    requires a.hdr[o].next == p == o + HDR + a.hdr[o].size && a.hdr[p].next == q == p + HDR + a.hdr[p].size
    requires a.hdr[q].next == r == q + HDR + a.hdr[q].size && a.hdr[r].next == 0 && r + HDR + a.hdr[r].size == a.total
    ensures Chain(a, [o, p, q, r])
  {}

  // Any area with 600 bytes or more from its first block on. Freeing B and allocating D in its place
  // leaves the back link of C at D, although the rest of B's space now lies between them.

  const ROOM: nat := 600

  ghost predicate OneThenFree(a: Area, f: nat, total: nat)
    requires total >= f + ROOM
  {
    && a.first == f && a.total == total && f in a.hdr && f + 248 in a.hdr
    && a.hdr[f] == Header(GmmPoint, "B", f + 248, 0, 200)
    && a.hdr[f + 248] == Header(FreeBlock, "", 0, f, total - f - 296)
  }

  ghost predicate TwoThenFree(a: Area, f: nat, total: nat)
    requires total >= f + ROOM
  {
    && a.first == f && a.total == total && f in a.hdr && f + 248 in a.hdr && f + 346 in a.hdr
    && a.hdr[f] == Header(GmmPoint, "B", f + 248, 0, 200)
    && a.hdr[f + 248] == Header(GmmPoint, "C", f + 346, f, 50)
    && a.hdr[f + 346] == Header(FreeBlock, "", 0, f + 248, total - f - 394)
  }

  ghost predicate HoleThenC(a: Area, f: nat, total: nat)
    requires total >= f + ROOM
  {
    && a.first == f && a.total == total && f in a.hdr && f + 248 in a.hdr && f + 346 in a.hdr
    && a.hdr[f] == Header(FreeBlock, "B", f + 248, 0, 200)
    && a.hdr[f + 248] == Header(GmmPoint, "C", f + 346, f, 50)
    && a.hdr[f + 346] == Header(FreeBlock, "", 0, f + 248, total - f - 394)
  }

  ghost predicate StaleBackLink(a: Area, f: nat, total: nat)
    requires total >= f + ROOM
  {
    && a.first == f && a.total == total && f in a.hdr && f + 98 in a.hdr && f + 248 in a.hdr && f + 346 in a.hdr
    && a.hdr[f] == Header(GmmPoint, "D", f + 98, 0, 50)
    && a.hdr[f + 98] == Header(FreeBlock, "", f + 248, f, 102)
    && a.hdr[f + 248] == Header(GmmPoint, "C", f + 346, f, 50)
    && a.hdr[f + 346] == Header(FreeBlock, "", 0, f + 248, total - f - 394)
  }

  ghost predicate StaleAndFull(a: Area, kind: Kind, f: nat, total: nat)
    requires total >= f + ROOM
  {
    && a.first == f && a.total == total && f in a.hdr && f + 98 in a.hdr && f + 248 in a.hdr && f + 346 in a.hdr
    && a.hdr[f] == Header(kind, "D", f + 98, 0, 50)
    && a.hdr[f + 98] == Header(GmmPoint, "E", f + 248, f, 102)
    && a.hdr[f + 248] == Header(GmmPoint, "C", f + 346, f, 50)
    && a.hdr[f + 346] == Header(FreeBlock, "", 0, f + 248, total - f - 394)
  }

  lemma AllocateB(f: nat, total: nat)
    requires f > 0 && f + ROOM <= total < 0x1_0000_0000
    ensures OneThenFree(WrittenStep(Fresh(f, total), AllocOp(GmmPoint, "B", 200)), f, total)
  {
    FreshTiles(f, total);
    AllocStep(Fresh(f, total), [f], 0, GmmPoint, "B", 200);
  }

  lemma AllocateC(a: Area, f: nat, total: nat)
    requires f > 0 && f + ROOM <= total < 0x1_0000_0000
    requires OneThenFree(a, f, total)
    ensures TwoThenFree(WrittenStep(a, AllocOp(GmmPoint, "C", 50)), f, total)
  {
    ListOfTwo(a, f, f + 248);
    AllocStep(a, [f, f + 248], 1, GmmPoint, "C", 50);
  }

  lemma FreeB(a: Area, f: nat, total: nat)
    requires f > 0 && f + ROOM <= total < 0x1_0000_0000
    requires TwoThenFree(a, f, total)
    ensures HoleThenC(WrittenStep(a, FreeOp(f + 48)), f, total)
  {
    ListOfThree(a, f, f + 248, f + 346);
    FreeStep(a, [f, f + 248, f + 346], 0);
  }

  lemma AllocateD(a: Area, f: nat, total: nat)
    requires f > 0 && f + ROOM <= total < 0x1_0000_0000
    requires HoleThenC(a, f, total)
    ensures StaleBackLink(WrittenStep(a, AllocOp(GmmPoint, "D", 50)), f, total)
  {
    ListOfThree(a, f, f + 248, f + 346);
    AllocStep(a, [f, f + 248, f + 346], 0, GmmPoint, "D", 50);
  }

  lemma AllocateE(a: Area, f: nat, total: nat)
    requires f > 0 && f + ROOM <= total < 0x1_0000_0000
    requires StaleBackLink(a, f, total)
    ensures StaleAndFull(WrittenStep(a, AllocOp(GmmPoint, "E", 102)), GmmPoint, f, total)
  {
    ListOfFour(a, f, f + 98, f + 248, f + 346);
    AllocStep(a, [f, f + 98, f + 248, f + 346], 1, GmmPoint, "E", 102);
  }

  lemma FreeD(a: Area, f: nat, total: nat)
    requires f > 0 && f + ROOM <= total < 0x1_0000_0000
    requires StaleAndFull(a, GmmPoint, f, total)
    ensures StaleAndFull(WrittenStep(a, FreeOp(f + 48)), FreeBlock, f, total)
  {
    ListOfFour(a, f, f + 98, f + 248, f + 346);
    FreeStep(a, [f, f + 98, f + 248, f + 346], 0);
  }

  function StaleOps(f: nat): seq<Op> {
    [AllocOp(GmmPoint, "B", 200), AllocOp(GmmPoint, "C", 50)] + [FreeOp(f + 48), AllocOp(GmmPoint, "D", 50)]
  }

  lemma StaleOpsLead(f: nat, total: nat)
    requires f > 0 && f + ROOM <= total < 0x1_0000_0000
    ensures StaleBackLink(WrittenRun(Fresh(f, total), StaleOps(f)), f, total)
  {
    var a0 := Fresh(f, total);
    AllocateB(f, total);
    var a1 := WrittenStep(a0, AllocOp(GmmPoint, "B", 200));
    AllocateC(a1, f, total);
    RunOfTwo(a0, AllocOp(GmmPoint, "B", 200), AllocOp(GmmPoint, "C", 50));
    var a2 := WrittenStep(a1, AllocOp(GmmPoint, "C", 50));
    FreeB(a2, f, total);
    var a3 := WrittenStep(a2, FreeOp(f + 48));
    AllocateD(a3, f, total);
    RunOfTwo(a2, FreeOp(f + 48), AllocOp(GmmPoint, "D", 50));
    WrittenRunSplit(a0, [AllocOp(GmmPoint, "B", 200), AllocOp(GmmPoint, "C", 50)], [FreeOp(f + 48), AllocOp(GmmPoint, "D", 50)]);
  }

  lemma FreeCEarly(a: Area, f: nat, total: nat)
    requires f > 0 && f + ROOM <= total < 0x1_0000_0000
    requires StaleBackLink(a, f, total)
    ensures var r := WrittenStep(a, FreeOp(f + 296)); Chain(r, [f, f + 98, f + 248]) && IsFree(r, f + 98) && IsFree(r, f + 248)
  {
    ListOfFour(a, f, f + 98, f + 248, f + 346);
    FreeStep(a, [f, f + 98, f + 248, f + 346], 2);
    ListOfThree(Freed(a, f + 248), f, f + 98, f + 248);
  }

  lemma FreeCLate(a: Area, f: nat, total: nat)
    requires f > 0 && f + ROOM <= total < 0x1_0000_0000
    requires StaleAndFull(a, FreeBlock, f, total)
    ensures var r := WrittenStep(a, FreeOp(f + 296));
      && r.first == f && r.total == total && f in r.hdr && f + 98 in r.hdr
      && r.hdr[f] == Header(FreeBlock, "D", 0, 0, total - f - 198) && r.hdr[f + 98] == Header(GmmPoint, "E", f + 248, f, 102)
  {
    ListOfFour(a, f, f + 98, f + 248, f + 346);
    FreeStep(a, [f, f + 98, f + 248, f + 346], 2);
  }

  lemma NoListAtAll(a: Area, offs: seq<nat>, f: nat, total: nat)
    requires total >= f + ROOM && a.first == f && a.total == total && f in a.hdr && a.hdr[f].next == 0 && a.hdr[f].size == total - f - 198
    ensures !Chain(a, offs)
  {
    if |offs| > 0 && offs[0] == f {
      assert !Linked(a, offs, 0);
    }
  }

  /** Five calls after which, as written, two neighbouring blocks are free, against lib/cmm/cmm_private.h:88-93. */
  lemma TwoFreeNeighbours(f: nat, total: nat)
    requires f > 0 && f + ROOM <= total < 0x1_0000_0000
    ensures var r := WrittenRun(Fresh(f, total), StaleOps(f) + [FreeOp(f + 296)]);
      Chain(r, [f, f + 98, f + 248]) && IsFree(r, f + 98) && IsFree(r, f + 248)
  {
    StaleOpsLead(f, total);
    WrittenRunAppend(Fresh(f, total), StaleOps(f), FreeOp(f + 296));
    FreeCEarly(WrittenRun(Fresh(f, total), StaleOps(f)), f, total);
  }

  /** Seven calls after which, as written, the list is cut: block E is in use, no list reaches it, and nothing tiles the area. */
  lemma LostBlock(f: nat, total: nat)
    requires f > 0 && f + ROOM <= total < 0x1_0000_0000
    ensures var r := WrittenRun(Fresh(f, total), StaleOps(f) + [AllocOp(GmmPoint, "E", 102)] + [FreeOp(f + 48)] + [FreeOp(f + 296)]);
      && f in r.hdr && r.first == f && r.hdr[f].next == 0
      && f + 98 in r.hdr && r.hdr[f + 98].kind == GmmPoint && r.hdr[f + 98].name == "E"
      && !Sound(r)
  {
    StaleOpsLead(f, total);
    var a0, ops := Fresh(f, total), StaleOps(f);
    WrittenRunAppend(a0, ops, AllocOp(GmmPoint, "E", 102));
    AllocateE(WrittenRun(a0, ops), f, total);
    var ops1 := ops + [AllocOp(GmmPoint, "E", 102)];
    WrittenRunAppend(a0, ops1, FreeOp(f + 48));
    FreeD(WrittenRun(a0, ops1), f, total);
    var ops2 := ops1 + [FreeOp(f + 48)];
    WrittenRunAppend(a0, ops2, FreeOp(f + 296));
    FreeCLate(WrittenRun(a0, ops2), f, total);
    var r := WrittenRun(a0, ops2 + [FreeOp(f + 296)]);
    forall offs ensures !SoundAs(r, offs) {
      NoListAtAll(r, offs, f, total);
    }
  }
}
