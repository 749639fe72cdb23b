/** The calls of the configuration memory as loops over the list in shared memory (lib/cmm/cmm.c, lib/cmm/cmm_setup.c). */
module ConfigMemoryProgram {
  import opened Wrappers
  import opened ConfigMemory
  import opened ConfigMemoryRuns

  // ----- registered points -----

  /** The blocks of one kind, in list order: what cmm_block_count, _get and _find see. */
  function OfKind(a: Area, offs: seq<nat>, kind: Kind): seq<nat> {
    if offs == [] then []
    else
      var k := |offs| - 1;
      OfKind(a, offs[..k], kind) + (if offs[k] in a.hdr && a.hdr[offs[k]].kind == kind then [offs[k]] else [])
  }

  lemma {:induction false} OfKindAppend(a: Area, xs: seq<nat>, ys: seq<nat>, kind: Kind)
    ensures OfKind(a, xs + ys, kind) == OfKind(a, xs, kind) + OfKind(a, ys, kind)
    decreases |ys|
  {
    if ys == [] {
      assert xs + ys == xs;
    } else {
      var k := |ys| - 1;
      assert (xs + ys)[..|xs + ys| - 1] == xs + ys[..k];
      OfKindAppend(a, xs, ys[..k], kind);
    }
  }

  lemma {:induction false} OfKindSame(a: Area, b: Area, offs: seq<nat>, kind: Kind)
    requires forall o :: o in offs ==> o in a.hdr && o in b.hdr && a.hdr[o].kind == b.hdr[o].kind
    ensures OfKind(a, offs, kind) == OfKind(b, offs, kind)
    decreases |offs|
  {
    if offs == [] {
    } else {
      OfKindSame(a, b, offs[..|offs| - 1], kind);
    }
  }

  lemma OfKindStep(a: Area, offs: seq<nat>, k: nat, kind: Kind)
    requires k < |offs| && offs[k] in a.hdr
    ensures OfKind(a, offs[..k + 1], kind) == OfKind(a, offs[..k], kind) + (if a.hdr[offs[k]].kind == kind then [offs[k]] else [])
  {
    assert offs[..k + 1][..k] == offs[..k];
  }

  lemma OfKindMember(a: Area, offs: seq<nat>, k: nat, kind: Kind)
    requires k < |offs| && offs[k] in a.hdr && a.hdr[offs[k]].kind == kind
    ensures var i := |OfKind(a, offs[..k], kind)|; i < |OfKind(a, offs, kind)| && OfKind(a, offs, kind)[i] == offs[k]
  {
    OfKindStep(a, offs, k, kind);
    OfKindAppend(a, offs[..k + 1], offs[k + 1..], kind);
    assert offs == offs[..k + 1] + offs[k + 1..];
  }

  lemma OfKindOne(a: Area, o: nat, kind: Kind)
    ensures OfKind(a, [o], kind) == if o in a.hdr && a.hdr[o].kind == kind then [o] else []
  {}

  lemma OfKindAround(a: Area, xs: seq<nat>, o: nat, ys: seq<nat>, kind: Kind)
    ensures OfKind(a, xs + [o] + ys, kind)
         == OfKind(a, xs, kind) + (if o in a.hdr && a.hdr[o].kind == kind then [o] else []) + OfKind(a, ys, kind)
  {
    OfKindOne(a, o, kind);
    OfKindAppend(a, xs, [o], kind);
    OfKindAppend(a, xs + [o], ys, kind);
  }

  lemma OfKindOthers(a: Area, offs: seq<nat>, i: nat, kind: Kind, name: string, n: nat)
    requires Chain(a, offs) && i < |offs|
    ensures offs[i] in a.hdr
    ensures var r := Take(a, offs[i], kind, name, n);
      && OfKind(r, offs[..i], kind) == OfKind(a, offs[..i], kind)
      && OfKind(r, offs[i + 1..], kind) == OfKind(a, offs[i + 1..], kind)
  {
    NotInside(a, offs, i, n);
    assert Linked(a, offs, i);
    OfKindSame(Take(a, offs[i], kind, name, n), a, offs[..i], kind);
    OfKindSame(Take(a, offs[i], kind, name, n), a, offs[i + 1..], kind);
  }

  lemma OfKindSplit(r: Area, xs: seq<nat>, o: nat, f: nat, ys: seq<nat>, kind: Kind)
    requires o in r.hdr && r.hdr[o].kind == kind && IsFree(r, f) && kind != FreeBlock
    ensures OfKind(r, xs + [o] + ([f] + ys), kind) == OfKind(r, xs, kind) + [o] + OfKind(r, ys, kind)
  {
    OfKindAround(r, xs, o, [f] + ys, kind);
    assert [] + [f] + ys == [f] + ys;
    OfKindAround(r, [], f, ys, kind);
    assert OfKind(r, [f] + ys, kind) == OfKind(r, ys, kind);
  }

  /** Allocating a point block inserts it into the sequence of points, whose other members keep their order. */
  lemma AllocInsertsPoint(a: Area, offs: seq<nat>, i: nat, kind: Kind, name: string, n: nat)
    requires Chain(a, offs) && i < |offs| && IsFree(a, offs[i]) && kind != FreeBlock
    ensures var before, after := OfKind(a, offs[..i], kind), OfKind(a, offs[i + 1..], kind);
      && OfKind(a, offs, kind) == before + after
      && OfKind(Take(a, offs[i], kind, name, n), TakeOffs(a, offs, i, n), kind) == before + [offs[i]] + after
  {
    var r, o := Take(a, offs[i], kind, name, n), offs[i];
    var xs, ys := offs[..i], offs[i + 1..];
    OfKindOthers(a, offs, i, kind, name, n);
    assert offs == xs + [o] + ys;
    OfKindAround(a, xs, o, ys, kind);
    if Splits(a, o, n) {
      var f := o + n + HDR;
      TakeOffsSlices(a, offs, i, n);
      OfKindSplit(r, xs, o, f, ys, kind);
    } else {
      OfKindAround(r, xs, o, ys, kind);
    }
  }

  lemma TakeOffsSlices(a: Area, offs: seq<nat>, i: nat, n: nat)
    requires i < |offs| && Splits(a, offs[i], n)
    ensures TakeOffs(a, offs, i, n) == offs[..i] + [offs[i]] + ([offs[i] + n + HDR] + offs[i + 1..])
  {}

  /** The bytes that an allocation clears belong to no other block. */
  lemma PayloadsApart(a: Area, offs: seq<nat>, i: nat, j: nat)
    requires Chain(a, offs) && i < |offs| && j < |offs| && i != j
    ensures offs[i] in a.hdr && offs[j] in a.hdr
    ensures offs[i] + HDR + a.hdr[offs[i]].size <= offs[j] || offs[j] + HDR + a.hdr[offs[j]].size <= offs[i]
  {
    ChainOrder(a, offs);
    assert Linked(a, offs, i) && Linked(a, offs, j);
    if i < j {
      assert offs[i + 1] <= offs[j];
    } else {
      assert offs[j + 1] <= offs[i];
    }
  }

  // ----- what one call does to the headers, in plain arithmetic -----

  /** Block `o` is given to the caller: cut to n bytes with a free block behind it when a header and at least a byte are left, whole otherwise. */
  ghost predicate Allotted(old0: Area, new0: Area, o: nat, kind: Kind, name: string, n: nat)
    requires o in old0.hdr && o in new0.hdr
  {
    var was, now := old0.hdr, new0.hdr;
    && new0.first == old0.first && new0.total == old0.total
    && new0.last == (if was[o].size > n + HDR && old0.last == o then o + HDR + n else old0.last)
    && now[o].kind == kind && now[o].name == name && now[o].prev == was[o].prev
    && (if was[o].size > n + HDR then
          var f := o + HDR + n;
          && now[o].size == n && now[o].next == f
          && f in now && now[f].kind == FreeBlock && now[f].size == was[o].size - n - HDR
          && now[f].next == was[o].next && now[f].prev == o
          && now.Keys == was.Keys + {f}
          && forall x :: x in was && x != o && x != f ==> now[x] == was[x]
        else
          && now[o].size == was[o].size && now[o].next == was[o].next
          && now.Keys == was.Keys
          && forall x :: x in was && x != o ==> now[x] == was[x])
  }

  lemma TakeAllots(a: Area, o: nat, kind: Kind, name: string, n: nat)
    requires o in a.hdr && kind != FreeBlock
    ensures Allotted(a, Take(a, o, kind, name, n), o, kind, name, n)
  {}

  /** Block i is given back: one free block from it, its free successor and its free predecessor, with all their bytes. */
  ghost predicate GivenBack(old0: Area, new0: Area, offs: seq<nat>, i: nat)
    requires i < |offs| && forall j: nat :: j < |offs| ==> offs[j] in old0.hdr
  {
    var was, now := old0.hdr, new0.hdr;
    var before := i > 0 && was[offs[i - 1]].kind == FreeBlock;
    var behind := i + 1 < |offs| && was[offs[i + 1]].kind == FreeBlock;
    var start, end := if before then offs[i - 1] else offs[i], if behind then offs[i + 1] else offs[i];
    && new0.(hdr := was) == old0 && now.Keys == was.Keys && now[offs[i]].kind == FreeBlock
    && now[start].kind == FreeBlock && now[start].prev == was[start].prev && now[start].next == was[end].next
    && now[start].size == (if before then was[offs[i - 1]].size + HDR else 0) + was[offs[i]].size
                        + (if behind then HDR + was[offs[i + 1]].size else 0)
    && forall x :: x in was && x != start && x != offs[i] ==> now[x] == was[x]
  }

  lemma FreedIsGivenBack(a: Area, offs: seq<nat>, i: nat)
    requires Chain(a, offs) && i < |offs| && BackLink(a, offs, i)
    ensures forall j: nat :: j < |offs| ==> offs[j] in a.hdr
    ensures GivenBack(a, Freed(a, offs[i]), offs, i)
  {
    ChainOrder(a, offs);
    assert Linked(a, offs, i);
    assert i + 1 < |offs| ==> Linked(a, offs, i + 1);
    var b := MarkFree(a, offs[i]);
    var c := MergeNext(b, offs[i]);
    var behind := i + 1 < |offs| && IsFree(a, offs[i + 1]);
    assert c.hdr[offs[i]] == if behind
      then a.hdr[offs[i]].(kind := FreeBlock, next := a.hdr[offs[i + 1]].next, size := a.hdr[offs[i]].size + a.hdr[offs[i + 1]].size + HDR)
      else a.hdr[offs[i]].(kind := FreeBlock);
  }

  lemma GivenBackAt(a: Area, offs: seq<nat>, k: nat, p: nat)
    requires Chain(a, offs) && k < |offs| && offs[k] + HDR == p
    ensures forall j: nat :: j < |offs| ==> offs[j] in a.hdr
    ensures BlockAt(offs, p) == Some(k)
    ensures BackLink(a, offs, k) ==> GivenBack(a, Freed(a, offs[k]), offs, k)
  {
    ChainOrder(a, offs);
    if BackLink(a, offs, k) {
      FreedIsGivenBack(a, offs, k);
    }
  }

  // ----- the allocator as a program over the shared area -----

  class ConfMem {
    var hdr: map<nat, Header>
    var last: nat
    const first: nat
    const bytes: array<bv8>  // the payload bytes of the area, by offset

    ghost function A(): Area
      reads this
    {
      Area(hdr, first, last, bytes.Length)
    }

    /** cmm_setup: one free block after the area's own header of `first` bytes. */
    constructor (first: nat, total: nat)
      requires 0 < first && first + HDR < 0x1_0000_0000 && total < 0x1_0000_0000
      ensures A() == Fresh(first, total) && fresh(bytes)
      ensures Chain(A(), [first]) <==> first + HDR <= total
    {
      this.first := first;
      last := first;
      hdr := map[first := Header(FreeBlock, "", 0, 0, (total - first - HDR) % 0x1_0000_0000)];
      var b := new bv8[total](_ => 0);
      bytes := b;
      new;
      FreshTiles(first, total);
    }

    /** The search of cmm_block_alloc: the offset of the best fitting free block, 0 when there is none. */
    method FindBest(n: nat, ghost offs: seq<nat>) returns (best: nat)
      requires Chain(A(), offs)
      ensures forall i: nat :: i < |offs| ==> offs[i] in A().hdr
      ensures best == OffsetOf(BestFit(A(), offs, n), offs)
    {
      ChainOrder(A(), offs);
      best := 0;
      var iter := first;
      ghost var k: nat := 0;
      while iter != 0
        invariant k <= |offs| && iter == (if k < |offs| then offs[k] else 0)
        invariant best == OffsetOf(BestFit(A(), offs[..k], n), offs)
        decreases |offs| - k
      {
        assert Linked(A(), offs, k);
        BestStep(A(), offs, k, n, best);
        var b := hdr[iter];
        if b.kind == FreeBlock && b.size >= n && (best == 0 || hdr[best].size > b.size) {
          best := iter;
        }
        iter := b.next;
        k := k + 1;
      }
      assert offs[..k] == offs;
    }

    /** The header writes of cmm_block_alloc once the block is chosen. */
    method UseBlock(best: nat, kind: Kind, name: string, n: nat)
      requires best in hdr && kind != FreeBlock
      modifies this`hdr, this`last
      ensures A() == Take(old(A()), best, kind, name, n) && Allotted(old(A()), A(), best, kind, name, n)
    {
      TakeAllots(A(), best, kind, name, n);
      var b := hdr[best];
      if b.size > n + HDR {
        var f := best + n + HDR;
        hdr := hdr[f := Header(FreeBlock, "", b.next, best, b.size - n - HDR)];
        b := b.(size := n, next := f);
        if last == best {
          last := f;
        }
      }
      hdr := hdr[best := b.(kind := kind, name := name)];
      assert A() == Take(old(A()), best, kind, name, n);
    }

    /** Returns the memory of the new block, 0 when there is none; only that memory is cleared. */
    method Alloc(kind: Kind, name: string, n: nat, ghost offs: seq<nat>) returns (p: nat)
      requires Chain(A(), offs) && kind != FreeBlock
      modifies this`hdr, this`last, bytes
      ensures forall i: nat :: i < |offs| ==> offs[i] in old(A()).hdr
      ensures var i := BestFit(old(A()), offs, n);
        if n == 0 || i.None? then p == 0 && A() == old(A()) && bytes[..] == old(bytes[..])
        else && p == offs[i.value] + HDR && p + n <= bytes.Length
             && A() == Take(old(A()), offs[i.value], kind, name, n)
             && Allotted(old(A()), A(), offs[i.value], kind, name, n)
             && (forall k :: p <= k < p + n ==> bytes[k] == 0)
             && (forall k :: 0 <= k < bytes.Length && !(p <= k < p + n) ==> bytes[k] == old(bytes[k]))
    {
      ChainOrder(A(), offs);
      if n == 0 {
        return 0;
      }
      var best := FindBest(n, offs);
      if best == 0 {
        return 0;
      }
      InsideArea(A(), offs, BestFit(A(), offs, n).value);
      UseBlock(best, kind, name, n);
      p := best + HDR;
      forall j | p <= j < p + n {
        bytes[j] := 0;
      }
    }

    /** -1 for memory that is not a block, which changes nothing. */
    method Free(p: nat, ghost offs: seq<nat>) returns (res: int)
      requires Chain(A(), offs)
      modifies this`hdr
      ensures forall i: nat :: i < |offs| ==> offs[i] in old(A()).hdr
      ensures match BlockAt(offs, p)
              case None => A() == old(A()) && res == (if p == 0 then 0 else -1)
              case Some(i) => && A() == Freed(old(A()), offs[i]) && res == 0
                              && (BackLink(old(A()), offs, i) ==> GivenBack(old(A()), A(), offs, i))
    {
      ChainOrder(A(), offs);
      if p == 0 {
        return 0;
      }
      var iter := first;
      ghost var k: nat := 0;
      while iter != 0 && iter + HDR != p
        invariant k <= |offs| && iter == (if k < |offs| then offs[k] else 0)
        invariant forall j: nat :: j < k ==> offs[j] + HDR != p
        decreases |offs| - k
      {
        assert Linked(A(), offs, k);
        iter := hdr[iter].next;
        k := k + 1;
      }
      if iter == 0 {
        return -1;
      }
      hdr := hdr[iter := hdr[iter].(kind := FreeBlock)];
      assert A() == MarkFree(old(A()), iter);
      var m := hdr[iter].next;
      if m != 0 && m in hdr && hdr[m].kind == FreeBlock {
        hdr := hdr[iter := hdr[iter].(next := hdr[m].next, size := hdr[iter].size + hdr[m].size + HDR)];
      }
      assert A() == MergeNext(MarkFree(old(A()), iter), iter);
      var c := hdr[iter].prev;
      if c != 0 && c in hdr && hdr[c].kind == FreeBlock {
        hdr := hdr[c := hdr[c].(next := hdr[iter].next, size := hdr[c].size + hdr[iter].size + HDR)];
      }
      assert A() == Freed(old(A()), iter);
      GivenBackAt(old(A()), offs, k, p);
      return 0;
    }

    method Count(kind: Kind, ghost offs: seq<nat>) returns (count: nat)
      requires Chain(A(), offs)
      ensures count == |OfKind(A(), offs, kind)|
    {
      ChainOrder(A(), offs);
      count := 0;
      var iter := first;
      ghost var k: nat := 0;
      while iter != 0
        invariant k <= |offs| && iter == (if k < |offs| then offs[k] else 0)
        invariant count == |OfKind(A(), offs[..k], kind)|
        decreases |offs| - k
      {
        assert Linked(A(), offs, k);
        OfKindStep(A(), offs, k, kind);
        if hdr[iter].kind == kind {
          count := count + 1;
        }
        iter := hdr[iter].next;
        k := k + 1;
      }
      assert offs[..k] == offs;
    }

    /** The block of the given kind with the given number in list order; 0 past the last. */
    method Get(kind: Kind, index: nat, ghost offs: seq<nat>) returns (p: nat)
      requires Chain(A(), offs)
      ensures var points := OfKind(A(), offs, kind);
        p == if index < |points| then points[index] + HDR else 0
    {
      ChainOrder(A(), offs);
      var left := index;
      var iter := first;
      ghost var k: nat := 0;
      while iter != 0
        invariant k <= |offs| && iter == (if k < |offs| then offs[k] else 0)
        invariant 0 <= left && left + |OfKind(A(), offs[..k], kind)| == index
        decreases |offs| - k
      {
        assert Linked(A(), offs, k);
        OfKindStep(A(), offs, k, kind);
        if hdr[iter].kind == kind {
          if left == 0 {
            OfKindMember(A(), offs, k, kind);
            return iter + HDR;
          }
          left := left - 1;
        }
        iter := hdr[iter].next;
        k := k + 1;
      }
      assert k == |offs| && offs[..k] == offs;
      return 0;
    }
  }

  lemma InsideArea(a: Area, offs: seq<nat>, i: nat)
    requires Chain(a, offs) && i < |offs|
    ensures offs[i] in a.hdr && offs[i] + HDR + a.hdr[offs[i]].size <= a.total
  {
    ChainOrder(a, offs);
    assert Linked(a, offs, i);
  }
}
