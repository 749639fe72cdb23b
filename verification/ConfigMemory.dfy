/**
 The configuration memory: a best-fit allocator over a list of blocks that tile a shared area
 (lib/cmm/cmm.c, lib/cmm/cmm_setup.c). Headers are kept by the offset at which they were
 written; a header that is no longer on the list stays in memory.
 */
module ConfigMemory {
  import opened Wrappers

  datatype Kind = FirstBlock | FreeBlock | GmmSetup | GmmPoint | SynchSetup | Transition | SynchPoint
                | SemGlobal | SemLocal | Period | StateShared | StateModule

  datatype Header = Header(kind: Kind, name: string, next: nat, prev: nat, size: nat)

  const HDR: nat := 48  // sizeof(cmm_block_t)

  datatype Area = Area(hdr: map<nat, Header>, first: nat, last: nat, total: nat)

  // ----- the list of blocks -----

  function NextOf(offs: seq<nat>, i: nat): nat {
    if i + 1 < |offs| then offs[i + 1] else 0
  }

  function EndOf(a: Area, offs: seq<nat>, i: nat): nat {
    if i + 1 < |offs| then offs[i + 1] else a.total
  }

  function PrevOf(offs: seq<nat>, i: nat): nat
    requires i < |offs|
  {
    if i == 0 then 0 else offs[i - 1]
  }

  /** The block at index `i` leads to the next one and ends where that one begins. */
  ghost predicate Linked(a: Area, offs: seq<nat>, i: nat)
    requires i < |offs|
  {
    && offs[i] in a.hdr
    && a.hdr[offs[i]].next == NextOf(offs, i)
    && offs[i] + HDR + a.hdr[offs[i]].size == EndOf(a, offs, i)
  }

  /** Following `next` visits `offs`, and the blocks tile the area: no gap and no overlap. */
  ghost predicate Chain(a: Area, offs: seq<nat>) {
    && |offs| > 0 && offs[0] == a.first && a.first > 0
    && forall i: nat :: i < |offs| ==> Linked(a, offs, i)
  }

  predicate IsFree(a: Area, o: nat) {
    o in a.hdr && a.hdr[o].kind == FreeBlock
  }

  ghost predicate NotBothFree(a: Area, offs: seq<nat>, i: nat)
    requires i + 1 < |offs|
  {
    !(IsFree(a, offs[i]) && IsFree(a, offs[i + 1]))
  }

  ghost predicate NoTwoFree(a: Area, offs: seq<nat>) {
    forall i: nat :: i + 1 < |offs| ==> NotBothFree(a, offs, i)
  }

  ghost predicate BackLink(a: Area, offs: seq<nat>, i: nat)
    requires i < |offs|
  {
    offs[i] in a.hdr && a.hdr[offs[i]].prev == PrevOf(offs, i)
  }

  ghost predicate BackLinks(a: Area, offs: seq<nat>) {
    forall i: nat :: i < |offs| ==> BackLink(a, offs, i)
  }

  lemma {:induction false} Increasing(a: Area, offs: seq<nat>, i: nat, j: nat)
    requires Chain(a, offs) && i < j < |offs|
    ensures offs[i] + HDR <= offs[j]
    decreases j
  {
    assert Linked(a, offs, j - 1);
    if i < j - 1 {
      Increasing(a, offs, i, j - 1);
    }
  }

  lemma {:induction false} TotalBound(a: Area, offs: seq<nat>, j: nat)
    requires Chain(a, offs) && j < |offs|
    ensures offs[j] + HDR <= a.total
    decreases |offs| - j
  {
    assert Linked(a, offs, j);
    if j + 1 < |offs| {
      TotalBound(a, offs, j + 1);
    }
  }

  lemma ChainOrder(a: Area, offs: seq<nat>)
    requires Chain(a, offs)
    ensures forall i: nat, j: nat :: i < j < |offs| ==> offs[i] + HDR <= offs[j]
    ensures forall i: nat :: i < |offs| ==> 0 < offs[i] && offs[i] + HDR <= a.total && offs[i] in a.hdr
  {
    forall i: nat, j: nat | i < j < |offs| ensures offs[i] + HDR <= offs[j] {
      Increasing(a, offs, i, j);
    }
    forall i: nat | i < |offs| ensures 0 < offs[i] && offs[i] + HDR <= a.total && offs[i] in a.hdr {
      assert Linked(a, offs, i);
      if i > 0 {
        Increasing(a, offs, 0, i);
      }
      TotalBound(a, offs, i);
    }
  }

  // ----- setup -----

  /** The size field of the single first block, with the wrap-around of u32. */
  function FirstSize(first: nat, total: nat): nat {
    (total - first - HDR) % 0x1_0000_0000
  }

  function Fresh(first: nat, total: nat): Area {
    Area(map[first := Header(FreeBlock, "", 0, 0, FirstSize(first, total))], first, first, total)
  }

  /** The fresh area is one free block exactly when the configured size has room for both headers. */
  lemma FreshTiles(first: nat, total: nat)
    requires 0 < first && first + HDR < 0x1_0000_0000 && total < 0x1_0000_0000
    ensures Chain(Fresh(first, total), [first]) <==> total >= first + HDR
    ensures NoTwoFree(Fresh(first, total), [first]) && BackLinks(Fresh(first, total), [first])
  {
    var a := Fresh(first, total);
    assert Linked(a, [first], 0) <==> first + HDR + FirstSize(first, total) == total;
    assert Chain(a, [first]) <==> Linked(a, [first], 0);
  }

  // ----- allocation, as written -----

  /** The first of the smallest free blocks of at least `n` bytes, by index. */
  function BestFit(a: Area, offs: seq<nat>, n: nat): (r: Option<nat>)
    requires forall i :: 0 <= i < |offs| ==> offs[i] in a.hdr
    ensures r.None? <==> forall j :: 0 <= j < |offs| ==> !(IsFree(a, offs[j]) && a.hdr[offs[j]].size >= n)
    ensures r.Some? ==>
      && r.value < |offs| && IsFree(a, offs[r.value]) && a.hdr[offs[r.value]].size >= n
      && forall j :: 0 <= j < |offs| && IsFree(a, offs[j]) && a.hdr[offs[j]].size >= n ==>
           a.hdr[offs[r.value]].size <= a.hdr[offs[j]].size && (j < r.value ==> a.hdr[offs[r.value]].size < a.hdr[offs[j]].size)
  {
    if offs == [] then None
    else
      var k := |offs| - 1;
      var r := BestFit(a, offs[..k], n);
      if IsFree(a, offs[k]) && a.hdr[offs[k]].size >= n && (r.None? || a.hdr[offs[r.value]].size > a.hdr[offs[k]].size) then Some(k)
      else r
  }

  lemma BestFitStep(a: Area, offs: seq<nat>, k: nat, n: nat)
    requires k < |offs| && forall i :: 0 <= i < |offs| ==> offs[i] in a.hdr
    ensures BestFit(a, offs[..k + 1], n) ==
      var r := BestFit(a, offs[..k], n);
      if IsFree(a, offs[k]) && a.hdr[offs[k]].size >= n && (r.None? || a.hdr[offs[r.value]].size > a.hdr[offs[k]].size) then Some(k) else r
  {
    assert offs[..k + 1][..k] == offs[..k];
  }

  function OffsetOf(r: Option<nat>, offs: seq<nat>): nat
    requires r.Some? ==> r.value < |offs|
  {
    match r case None => 0 case Some(i) => offs[i]
  }

  /** One turn of the search loop. */
  lemma BestStep(a: Area, offs: seq<nat>, k: nat, n: nat, best: nat)
    requires Chain(a, offs) && k < |offs|
    requires forall i :: 0 <= i < |offs| ==> offs[i] in a.hdr
    requires best == OffsetOf(BestFit(a, offs[..k], n), offs)
    ensures best != 0 ==> best in a.hdr
    ensures OffsetOf(BestFit(a, offs[..k + 1], n), offs) ==
      var b := a.hdr[offs[k]];
      if b.kind == FreeBlock && b.size >= n && (best == 0 || a.hdr[best].size > b.size) then offs[k] else best
  {
    ChainOrder(a, offs);
    BestFitStep(a, offs, k, n);
  }

  predicate Splits(a: Area, o: nat, n: nat) {
    o in a.hdr && a.hdr[o].size > n + HDR
  }

  /** Use the free block at `o`; the rest becomes a new free block if a header fits. The next block's back link is not touched. */
  function Take(a: Area, o: nat, kind: Kind, name: string, n: nat): Area
    requires o in a.hdr
  {
    var b := a.hdr[o];
    if Splits(a, o, n) then
      var f := o + n + HDR;
      a.(hdr := a.hdr[f := Header(FreeBlock, "", b.next, o, b.size - n - HDR)][o := Header(kind, name, f, b.prev, n)],
         last := if a.last == o then f else a.last)
    else a.(hdr := a.hdr[o := b.(kind := kind, name := name)])
  }

  function With(offs: seq<nat>, i: nat, o: nat): seq<nat>
    requires i <= |offs|
  {
    seq(|offs| + 1, j requires 0 <= j <= |offs| => if j < i then offs[j] else if j == i then o else offs[j - 1])
  }

  function TakeOffs(a: Area, offs: seq<nat>, i: nat, n: nat): seq<nat>
    requires i < |offs|
  {
    if Splits(a, offs[i], n) then With(offs, i + 1, offs[i] + n + HDR) else offs
  }

  /** Allocation keeps the tiling in every state. */
  lemma TakeKeepsChain(a: Area, offs: seq<nat>, i: nat, kind: Kind, name: string, n: nat)
    requires Chain(a, offs) && i < |offs|
    ensures offs[i] in a.hdr
    ensures Chain(Take(a, offs[i], kind, name, n), TakeOffs(a, offs, i, n))
  {
    ChainOrder(a, offs);
    assert Linked(a, offs, i);
    var offs', r := TakeOffs(a, offs, i, n), Take(a, offs[i], kind, name, n);
    if Splits(a, offs[i], n) {
      forall j: nat | j < |offs'| ensures Linked(r, offs', j) {
        if j < i {
          assert Linked(a, offs, j);
        } else if j > i + 1 {
          assert Linked(a, offs, j - 1);
        }
      }
    } else {
      forall j: nat | j < |offs| ensures Linked(r, offs, j) {
        assert Linked(a, offs, j);
      }
    }
  }

  /** Allocation keeps two free blocks from meeting in every state. */
  lemma TakeKeepsApart(a: Area, offs: seq<nat>, i: nat, kind: Kind, name: string, n: nat)
    requires Chain(a, offs) && i < |offs| && NoTwoFree(a, offs) && IsFree(a, offs[i]) && kind != FreeBlock
    ensures NoTwoFree(Take(a, offs[i], kind, name, n), TakeOffs(a, offs, i, n))
  {
    ChainOrder(a, offs);
    assert Linked(a, offs, i);
    var offs', r := TakeOffs(a, offs, i, n), Take(a, offs[i], kind, name, n);
    forall j: nat | j + 1 < |offs'| ensures NotBothFree(r, offs', j) {
      if !Splits(a, offs[i], n) || j + 1 < i {
        assert NotBothFree(a, offs, j);
      } else if j > i {
        assert NotBothFree(a, offs, j - 1);
      }
    }
  }

  /** Every other block on the list keeps its place and its whole header. */
  lemma TakeKeepsOthers(a: Area, offs: seq<nat>, i: nat, kind: Kind, name: string, n: nat, j: nat)
    requires Chain(a, offs) && i < |offs| && j < |offs| && j != i
    ensures offs[i] in a.hdr && offs[j] in a.hdr && offs[j] in TakeOffs(a, offs, i, n)
    ensures offs[j] in Take(a, offs[i], kind, name, n).hdr && Take(a, offs[i], kind, name, n).hdr[offs[j]] == a.hdr[offs[j]]
  {
    ChainOrder(a, offs);
    assert Linked(a, offs, i);
    var offs' := TakeOffs(a, offs, i, n);
    assert offs'[if Splits(a, offs[i], n) && j > i then j + 1 else j] == offs[j];
  }

  // ----- freeing, as written -----

  /** Merge the block at `m` into the one at `c` when both are free; the block after `m` keeps its back link. */
  function Merge(a: Area, c: nat, m: nat): Area
    requires c in a.hdr && m in a.hdr
  {
    if IsFree(a, c) && IsFree(a, m) then
      a.(hdr := a.hdr[c := a.hdr[c].(next := a.hdr[m].next, size := a.hdr[c].size + a.hdr[m].size + HDR)])
    else a
  }

  function MergeNext(a: Area, o: nat): Area
    requires o in a.hdr
  {
    var m := a.hdr[o].next;
    if m == 0 || m !in a.hdr then a else Merge(a, o, m)
  }

  /** The back link may name a header that is no longer on the list. */
  function MergePrev(a: Area, o: nat): Area
    requires o in a.hdr
  {
    var c := a.hdr[o].prev;
    if c == 0 || c !in a.hdr then a else Merge(a, c, o)
  }

  function MarkFree(a: Area, o: nat): Area
    requires o in a.hdr
  {
    a.(hdr := a.hdr[o := a.hdr[o].(kind := FreeBlock)])
  }

  function Freed(a: Area, o: nat): Area
    requires o in a.hdr
  {
    MergePrev(MergeNext(MarkFree(a, o), o), o)
  }

  function Without(offs: seq<nat>, i: nat): seq<nat>
    requires i < |offs|
  {
    seq(|offs| - 1, j requires 0 <= j < |offs| - 1 => if j < i then offs[j] else offs[j + 1])
  }

  lemma MergeChain(a: Area, offs: seq<nat>, i: nat)
    requires Chain(a, offs) && i + 1 < |offs| && IsFree(a, offs[i]) && IsFree(a, offs[i + 1])
    ensures Chain(Merge(a, offs[i], offs[i + 1]), Without(offs, i + 1))
  {
    ChainOrder(a, offs);
    assert Linked(a, offs, i) && Linked(a, offs, i + 1);
    var offs', r := Without(offs, i + 1), Merge(a, offs[i], offs[i + 1]);
    forall j: nat | j < |offs'| ensures Linked(r, offs', j) {
      if j < i {
        assert Linked(a, offs, j);
      } else if j > i {
        assert Linked(a, offs, j + 1);
      }
    }
  }

  lemma MarkFreeChain(a: Area, offs: seq<nat>, i: nat)
    requires Chain(a, offs) && i < |offs|
    ensures offs[i] in a.hdr && Chain(MarkFree(a, offs[i]), offs)
  {
    assert Linked(a, offs, i);
    forall j: nat | j < |offs| ensures Linked(MarkFree(a, offs[i]), offs, j) {
      assert Linked(a, offs, j);
    }
  }

  /** The list after the block at index `i` has been marked and merged forwards. */
  function ForwardOffs(a: Area, offs: seq<nat>, i: nat): seq<nat>
    requires i < |offs|
  {
    if i + 1 < |offs| && IsFree(a, offs[i + 1]) then Without(offs, i + 1) else offs
  }

  function Forward(a: Area, o: nat): Area
    requires o in a.hdr
  {
    MergeNext(MarkFree(a, o), o)
  }

  lemma ForwardChain(a: Area, offs: seq<nat>, i: nat)
    requires Chain(a, offs) && i < |offs|
    ensures offs[i] in a.hdr
    ensures var r, offs1 := Forward(a, offs[i]), ForwardOffs(a, offs, i);
      && Chain(r, offs1) && i < |offs1| && offs1[i] == offs[i] && IsFree(r, offs[i])
      && (i > 0 ==> offs1[i - 1] == offs[i - 1])
      && r.hdr[offs[i]].prev == a.hdr[offs[i]].prev
      && (forall o :: o in r.hdr <==> o in a.hdr)
      && (forall o :: o in a.hdr && o != offs[i] ==> r.hdr[o] == a.hdr[o])
      && r.last == a.last && r.total == a.total
  {
    ChainOrder(a, offs);
    var m := MarkFree(a, offs[i]);
    MarkFreeChain(a, offs, i);
    assert Linked(m, offs, i);
    if i + 1 < |offs| && IsFree(a, offs[i + 1]) {
      MergeChain(m, offs, i);
    }
  }

  lemma ForwardApart(a: Area, offs: seq<nat>, i: nat, j: nat)
    requires Chain(a, offs) && NoTwoFree(a, offs) && i < |offs| && j + 1 < |ForwardOffs(a, offs, i)| && j + 1 != i
    ensures offs[i] in a.hdr && NotBothFree(Forward(a, offs[i]), ForwardOffs(a, offs, i), j)
  {
    ChainOrder(a, offs);
    ForwardChain(a, offs, i);
    if i + 1 < |offs| && IsFree(a, offs[i + 1]) && j >= i {
      assert NotBothFree(a, offs, j + 1);
    } else {
      assert NotBothFree(a, offs, j);
    }
  }

  function FreedOffs(a: Area, offs: seq<nat>, i: nat): seq<nat>
    requires i < |offs|
  {
    var offs1 := ForwardOffs(a, offs, i);
    if i > 0 && i < |offs1| && IsFree(a, offs[i - 1]) then Without(offs1, i) else offs1
  }

  lemma FreedChain(a: Area, offs: seq<nat>, i: nat)
    requires Chain(a, offs) && i < |offs| && BackLink(a, offs, i)
    ensures Chain(Freed(a, offs[i]), FreedOffs(a, offs, i))
    ensures forall o :: o in FreedOffs(a, offs, i) ==> o == offs[i] || IsFree(Freed(a, offs[i]), o) == IsFree(a, o)
  {
    ForwardChain(a, offs, i);
    var b, offs1 := Forward(a, offs[i]), ForwardOffs(a, offs, i);
    ChainOrder(b, offs1);
    if i > 0 && IsFree(a, offs[i - 1]) {
      MergeChain(b, offs1, i - 1);
    }
  }

  lemma FreedApart(a: Area, offs: seq<nat>, i: nat, j: nat)
    requires Chain(a, offs) && NoTwoFree(a, offs) && i < |offs| && BackLink(a, offs, i)
    requires !(i > 0 && IsFree(a, offs[i - 1])) && j + 1 < |FreedOffs(a, offs, i)|
    ensures NotBothFree(Freed(a, offs[i]), FreedOffs(a, offs, i), j)
  {
    ChainOrder(a, offs);
    ForwardChain(a, offs, i);
    if j + 1 != i {
      ForwardApart(a, offs, i, j);
    }
  }

  lemma FreedMergedApart(a: Area, offs: seq<nat>, i: nat, j: nat)
    requires Chain(a, offs) && NoTwoFree(a, offs) && i < |offs| && BackLink(a, offs, i)
    requires i > 0 && IsFree(a, offs[i - 1]) && j + 1 < |FreedOffs(a, offs, i)|
    ensures NotBothFree(Freed(a, offs[i]), FreedOffs(a, offs, i), j)
  {
    ForwardChain(a, offs, i);
    var offs1, offs2 := ForwardOffs(a, offs, i), FreedOffs(a, offs, i);
    if j >= i - 1 {
      ForwardApart(a, offs, i, j + 1);
      assert offs2[j + 1] == offs1[j + 2];
    } else {
      ForwardApart(a, offs, i, j);
    }
  }

  /** Freeing a block whose back link names its true predecessor keeps the tiling and leaves no two free neighbours. */
  lemma FreeWithBackLink(a: Area, offs: seq<nat>, i: nat)
    requires Chain(a, offs) && NoTwoFree(a, offs) && i < |offs| && BackLink(a, offs, i)
    ensures Chain(Freed(a, offs[i]), FreedOffs(a, offs, i)) && NoTwoFree(Freed(a, offs[i]), FreedOffs(a, offs, i))
  {
    FreedChain(a, offs, i);
    forall j: nat | j + 1 < |FreedOffs(a, offs, i)| ensures NotBothFree(Freed(a, offs[i]), FreedOffs(a, offs, i), j) {
      if i > 0 && IsFree(a, offs[i - 1]) {
        FreedMergedApart(a, offs, i, j);
      } else {
        FreedApart(a, offs, i, j);
      }
    }
  }

  // ----- exactly when freeing, as written, is right -----

  /** The list is determined by the links. */
  lemma {:induction false} ChainUnique(a: Area, offs: seq<nat>, offs': seq<nat>, k: nat)
    requires Chain(a, offs') && k < |offs| && offs[0] == a.first
    requires forall i: nat :: i < k ==> Leads(a, offs, i)
    ensures k < |offs'| && offs'[k] == offs[k]
    decreases k
  {
    if k == 0 {
    } else {
      ChainUnique(a, offs, offs', k - 1);
      assert Leads(a, offs, k - 1) && Linked(a, offs', k - 1);
    }
  }

  ghost predicate Leads(a: Area, offs: seq<nat>, i: nat) {
    i + 1 < |offs| && offs[i] in a.hdr && offs[i + 1] != 0 && a.hdr[offs[i]].next == offs[i + 1]
  }

  lemma ChainLeads(a: Area, offs: seq<nat>, offs': seq<nat>, k: nat)
    requires Chain(a, offs) && Chain(a, offs') && k < |offs|
    ensures k < |offs'| && offs'[k] == offs[k]
  {
    ChainOrder(a, offs);
    forall i: nat | i < k ensures Leads(a, offs, i) {
      assert Linked(a, offs, i);
    }
    ChainUnique(a, offs, offs', k);
  }

  lemma SameChain(a: Area, offs: seq<nat>, offs': seq<nat>)
    requires Chain(a, offs) && Chain(a, offs')
    ensures offs == offs'
  {
    ChainLeads(a, offs, offs', |offs| - 1);
    ChainLeads(a, offs', offs, |offs'| - 1);
    forall k: nat | k < |offs| ensures offs'[k] == offs[k] {
      ChainLeads(a, offs, offs', k);
    }
  }

  /** The back link names a block, other than the predecessor, that is free when the merge looks at it. */
  ghost predicate StrayFree(a: Area, offs: seq<nat>, i: nat)
    requires i < |offs| && offs[i] in a.hdr
  {
    var p := a.hdr[offs[i]].prev;
    p in ForwardOffs(a, offs, i) && (p == offs[i] || IsFree(a, p))
  }

  /** What a caller can check before freeing. */
  ghost predicate SafeToFree(a: Area, offs: seq<nat>, i: nat)
    requires i < |offs| && offs[i] in a.hdr
  {
    || BackLink(a, offs, i)
    || (!(i > 0 && IsFree(a, offs[i - 1])) && !StrayFree(a, offs, i))
  }

  ghost predicate SoundAs(a: Area, offs: seq<nat>) {
    Chain(a, offs) && NoTwoFree(a, offs)
  }

  ghost predicate Sound(a: Area) {
    exists offs :: SoundAs(a, offs)
  }

  /** After a stray merge the block at index `j` no longer ends where its `next` points. */
  lemma StrayMergeUnlinks(a: Area, offs: seq<nat>, i: nat, j: nat, offs': seq<nat>)
    requires Chain(a, offs) && i < |offs| && j < |offs| && j + 1 != i
    requires IsFree(a, offs[i]) && IsFree(a, offs[j]) && j < |offs'| && offs'[j] == offs[j]
    ensures !Linked(Merge(a, offs[j], offs[i]), offs', j)
  {
    ChainOrder(a, offs);
    assert Linked(a, offs, j) && Linked(a, offs, i);
  }

  lemma StrayMergePrefix(a: Area, offs: seq<nat>, i: nat, j: nat, offs': seq<nat>)
    requires Chain(a, offs) && i < |offs| && j < |offs|
    requires IsFree(a, offs[i]) && IsFree(a, offs[j]) && Chain(Merge(a, offs[j], offs[i]), offs')
    ensures j < |offs'| && offs'[j] == offs[j]
  {
    ChainOrder(a, offs);
    var r := Merge(a, offs[j], offs[i]);
    forall t: nat | t < j ensures Leads(r, offs, t) {
      assert Linked(a, offs, t);
    }
    ChainUnique(r, offs, offs', j);
  }

  lemma StrayMergeBreaks(a: Area, offs: seq<nat>, i: nat, j: nat, offs': seq<nat>)
    requires Chain(a, offs) && i < |offs| && j < |offs| && j + 1 != i
    requires IsFree(a, offs[i]) && IsFree(a, offs[j])
    ensures !Chain(Merge(a, offs[j], offs[i]), offs')
  {
    if Chain(Merge(a, offs[j], offs[i]), offs') {
      StrayMergePrefix(a, offs, i, j, offs');
      StrayMergeUnlinks(a, offs, i, j, offs');
    }
  }

  /** Freeing as written leaves a sound area if and only if the condition holds. */
  lemma FreeSoundIff(a: Area, offs: seq<nat>, i: nat)
    requires Chain(a, offs) && NoTwoFree(a, offs) && i < |offs|
    ensures offs[i] in a.hdr
    ensures Sound(Freed(a, offs[i])) <==> SafeToFree(a, offs, i)
  {
    ChainOrder(a, offs);
    if BackLink(a, offs, i) {
      FreeWithBackLink(a, offs, i);
      assert SoundAs(Freed(a, offs[i]), FreedOffs(a, offs, i));
    } else if StrayFree(a, offs, i) {
      ForwardChain(a, offs, i);
      var b, offs1 := Forward(a, offs[i]), ForwardOffs(a, offs, i);
      ChainOrder(b, offs1);
      var p := a.hdr[offs[i]].prev;
      var j: nat :| j < |offs1| && offs1[j] == p;
      forall offs' ensures !SoundAs(Freed(a, offs[i]), offs') {
        StrayMergeBreaks(b, offs1, i, j, offs');
      }
    } else {
      FreeWithoutMerge(a, offs, i);
    }
  }

  /** The back link is wrong and leads nowhere on the list: the backward merge has no effect on the list. */
  lemma FreeWithoutMerge(a: Area, offs: seq<nat>, i: nat)
    requires Chain(a, offs) && NoTwoFree(a, offs) && i < |offs| && !BackLink(a, offs, i)
    requires offs[i] in a.hdr && !StrayFree(a, offs, i)
    ensures Sound(Freed(a, offs[i])) <==> !(i > 0 && IsFree(a, offs[i - 1]))
  {
    ForwardChain(a, offs, i);
    var b, offs1 := Forward(a, offs[i]), ForwardOffs(a, offs, i);
    ChainOrder(b, offs1);
    var r := Freed(a, offs[i]);
    assert forall o :: o in offs1 ==> r.hdr[o] == b.hdr[o];
    forall j: nat | j < |offs1| ensures Linked(r, offs1, j) {
      assert Linked(b, offs1, j);
    }
    if i > 0 && IsFree(a, offs[i - 1]) {
      assert !NotBothFree(r, offs1, i - 1);
      forall offs' ensures !SoundAs(r, offs') {
        if Chain(r, offs') {
          SameChain(r, offs1, offs');
        }
      }
    } else {
      forall j: nat | j + 1 < |offs1| ensures NotBothFree(r, offs1, j) {
        if j + 1 != i {
          ForwardApart(a, offs, i, j);
        }
      }
      assert SoundAs(r, offs1);
    }
  }
}
