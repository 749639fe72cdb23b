/**
 Many modules sharing the global map. Taking the lock, each word of an update, and releasing
 the lock are separate steps, interleaved in any order with the steps of other modules
 (lib/gmm/gmm_local.c, the three update functions; lib/gmm/gmm.c, plc_set and plc_seti).
 */
module Sharing {
  import opened Wrappers
  import opened Words
  import opened PointMemory

  /** `pending` is what remains of the update that the process is executing. */
  datatype Proc = Proc(priv: seq<Word>, mask: seq<Word>, pending: seq<Exchange>)

  datatype World = World(glob: seq<Word>, procs: seq<Proc>, holder: Option<nat>)

  datatype Action =
    | Write(p: nat, pt: Pt, v: Word)          // plc_set on the private map
    | WriteInverted(p: nat, pt: Pt, v: Word)  // plc_seti
    | Lock(p: nat, job: seq<Exchange>)        // enter plc_update, plc_update_pt or plc_update_pts
    | Move(p: nat)                            // one word (or point) of the update loop
    | Unlock(p: nat)

  ghost predicate Okay(w: World) {
    && (forall p :: 0 <= p < |w.procs| ==>
          && |w.procs[p].priv| == |w.procs[p].mask| == |w.glob|
          && InMap(w.procs[p].pending, |w.glob|)
          && (w.holder != Some(p) ==> w.procs[p].pending == []))
    && (w.holder.Some? ==> w.holder.value < |w.procs|)
  }

  ghost predicate Enabled(w: World, a: Action) {
    && a.p < |w.procs|
    && match a
       case Write(p, pt, _) => w.holder != Some(p) && pt.Pt? && pt.ofs < |w.glob|
       case WriteInverted(p, pt, _) => w.holder != Some(p) && pt.Pt? && pt.ofs < |w.glob|
       case Lock(_, job) => w.holder == None && InMap(job, |w.glob|)
       case Move(p) => w.holder == Some(p) && w.procs[p].pending != []
       case Unlock(p) => w.holder == Some(p) && w.procs[p].pending == []
  }

  ghost function MapsOf(w: World, p: nat): Maps
    requires p < |w.procs|
  {
    Maps(w.glob, w.procs[p].priv, w.procs[p].mask)
  }

  ghost function WithMaps(w: World, p: nat, m: Maps, pending: seq<Exchange>): World
    requires p < |w.procs|
  {
    w.(glob := m.glob, procs := w.procs[p := Proc(m.priv, m.mask, pending)])
  }

  ghost function Next(w: World, a: Action): World
    requires Okay(w) && Enabled(w, a)
  {
    var proc := w.procs[a.p];
    match a
    case Write(p, pt, v) => w.(procs := w.procs[p := proc.(priv := Set(proc.priv, proc.mask, pt, v))])
    case WriteInverted(p, pt, v) => w.(procs := w.procs[p := proc.(priv := SetInverted(proc.priv, proc.mask, pt, v))])
    case Lock(p, job) => w.(holder := Some(p), procs := w.procs[p := proc.(pending := job)])
    case Move(p) => WithMaps(w, p, Exchanged(MapsOf(w, p), proc.pending[0]), proc.pending[1..])
    case Unlock(p) => w.(holder := None)
  }

  ghost predicate RunEnabled(w: World, acts: seq<Action>)
    requires Okay(w)
    decreases |acts|
  {
    acts == [] || (Enabled(w, acts[0]) && (StaysOkay(w, acts[0]); RunEnabled(Next(w, acts[0]), acts[1..])))
  }

  ghost function Run(w: World, acts: seq<Action>): (r: World)
    requires Okay(w) && RunEnabled(w, acts)
    ensures Okay(r) && |r.glob| == |w.glob| && |r.procs| == |w.procs|
    ensures forall p :: 0 <= p < |w.procs| ==> r.procs[p].mask == w.procs[p].mask
    decreases |acts|
  {
    if acts == [] then w else StaysOkay(w, acts[0]); Run(Next(w, acts[0]), acts[1..])
  }

  lemma StaysOkay(w: World, a: Action)
    requires Okay(w) && Enabled(w, a)
    ensures Okay(Next(w, a)) && |Next(w, a).glob| == |w.glob| && |Next(w, a).procs| == |w.procs|
    ensures forall p :: 0 <= p < |w.procs| ==> Next(w, a).procs[p].mask == w.procs[p].mask
  {}

  // ----- every run is a run of atomic updates, in lock order -----

  /** The world once the update in progress, if any, has been finished. */
  ghost function Complete(w: World): (r: World)
    requires Okay(w)
    ensures Okay(r) && r.holder == None && |r.glob| == |w.glob| && |r.procs| == |w.procs|
    ensures forall p :: 0 <= p < |w.procs| ==> r.procs[p].mask == w.procs[p].mask
    ensures forall p :: 0 <= p < |w.procs| && w.holder != Some(p) ==> r.procs[p] == w.procs[p]
  {
    match w.holder
    case None => w
    case Some(p) => WithMaps(w, p, ExchangedAll(MapsOf(w, p), w.procs[p].pending), []).(holder := None)
  }

  /** An update happens in one step, when the lock is taken. */
  ghost function AtomicNext(w: World, a: Action): (r: World)
    requires Okay(w) && w.holder == None && a.p < |w.procs|
    requires a.Write? || a.WriteInverted? || a.Lock? ==> Enabled(w, a)
    ensures Okay(r) && r.holder == None && |r.glob| == |w.glob| && |r.procs| == |w.procs|
    ensures forall p :: 0 <= p < |w.procs| ==> r.procs[p].mask == w.procs[p].mask
  {
    match a
    case Lock(p, job) => WithMaps(w, p, ExchangedAll(MapsOf(w, p), job), [])
    case Move(_) => w
    case Unlock(_) => w
    case _ => StaysOkay(w, a); Next(w, a)
  }

  lemma AtomicStep(w: World, a: Action)
    requires Okay(w) && Enabled(w, a)
    ensures Okay(Next(w, a))
    ensures a.Write? || a.WriteInverted? || a.Lock? ==> Enabled(Complete(w), a)
    ensures Complete(Next(w, a)) == AtomicNext(Complete(w), a)
  {
    StaysOkay(w, a);
    if a.Write? || a.WriteInverted? {
      if w.holder.Some? {
        assert Complete(Next(w, a)).procs == AtomicNext(Complete(w), a).procs;
      }
    } else {
      assert Complete(Next(w, a)).procs == AtomicNext(Complete(w), a).procs;
    }
  }

  ghost predicate AtomicEnabled(w: World, acts: seq<Action>)
    requires Okay(w) && w.holder == None
    decreases |acts|
  {
    acts == [] ||
    (&& acts[0].p < |w.procs|
     && (acts[0].Write? || acts[0].WriteInverted? || acts[0].Lock? ==> Enabled(w, acts[0]))
     && AtomicEnabled(AtomicNext(w, acts[0]), acts[1..]))
  }

  ghost function AtomicRun(w: World, acts: seq<Action>): (r: World)
    requires Okay(w) && w.holder == None && AtomicEnabled(w, acts)
    ensures Okay(r) && r.holder == None && |r.glob| == |w.glob| && |r.procs| == |w.procs|
    ensures forall p :: 0 <= p < |w.procs| ==> r.procs[p].mask == w.procs[p].mask
    decreases |acts|
  {
    if acts == [] then w else AtomicRun(AtomicNext(w, acts[0]), acts[1..])
  }

  /** Every interleaved run leaves, once its last update is finished, what the atomic updates leave in lock order. */
  lemma {:induction false} Atomicity(w: World, acts: seq<Action>)
    requires Okay(w) && RunEnabled(w, acts)
    ensures AtomicEnabled(Complete(w), acts)
    ensures Complete(Run(w, acts)) == AtomicRun(Complete(w), acts)
    decreases |acts|
  {
    if acts == [] {
    } else {
      AtomicStep(w, acts[0]);
      Atomicity(Next(w, acts[0]), acts[1..]);
    }
  }

  /** While p holds the lock, other modules only write their own private maps. */
  lemma {:induction false} LockHeld(w: World, p: nat, acts: seq<Action>)
    requires Okay(w) && w.holder == Some(p) && RunEnabled(w, acts) && Unlock(p) !in acts
    ensures Run(w, acts).holder == Some(p)
    ensures Complete(Run(w, acts)).glob == Complete(w).glob
    ensures Complete(Run(w, acts)).procs[p] == Complete(w).procs[p]
    decreases |acts|
  {
    if acts == [] {
    } else {
      AtomicStep(w, acts[0]);
      LockHeld(Next(w, acts[0]), p, acts[1..]);
    }
  }

  /** When plc_update returns, the private map is one single global state: the one just after its lock step. */
  lemma UpdateIsSnapshot(w: World, p: nat, mid: seq<Action>)
    requires Okay(w) && w.holder == None
    requires RunEnabled(w, [Lock(p, WholeMap(|w.glob|))] + mid) && Unlock(p) !in mid
    requires Run(w, [Lock(p, WholeMap(|w.glob|))] + mid).procs[p].pending == []
    ensures var r := Run(w, [Lock(p, WholeMap(|w.glob|))] + mid);
      r.procs[p].priv == r.glob == AtomicNext(w, Lock(p, WholeMap(|w.glob|))).glob
  {
    var a := Lock(p, WholeMap(|w.glob|));
    assert ([a] + mid)[1..] == mid;
    AtomicStep(w, a);
    LockHeld(Next(w, a), p, mid);
    var m := MapsOf(w, p);
    forall i | 0 <= i < |w.glob|
      ensures ExchangedAll(m, WholeMap(|w.glob|)).glob[i] == ExchangedAll(m, WholeMap(|w.glob|)).priv[i]
    {
      WholeMapUpdate(m, i);
    }
  }

  // ----- single writer -----

  ghost predicate MasksDisjoint(w: World)
    requires Okay(w)
  {
    forall p, q, i :: 0 <= p < |w.procs| && 0 <= q < |w.procs| && p != q && 0 <= i < |w.glob| ==>
      Disjoint(w.procs[p].mask[i], w.procs[q].mask[i])
  }

  lemma StepKeepsBits(w: World, a: Action, i: nat, bits: Word)
    requires Okay(w) && Enabled(w, a) && i < |w.glob|
    requires a.Move? ==> Disjoint(w.procs[a.p].mask[i], bits)
    ensures And(Next(w, a).glob[i], bits) == And(w.glob[i], bits)
  {
    if a.Move? {
      var e, proc := w.procs[a.p].pending[0], w.procs[a.p];
      if e.ofs == i {
        var m := And(proc.mask[i], e.bits);
        DisjointBits(proc.mask[i], bits);
        DisjointBits(m, bits);
        BlendKeeps(w.glob[i], proc.priv[i], m, bits);
      }
    }
  }

  /** Bits of the global map change only in word steps of modules whose mask has them. */
  lemma {:induction false} RunKeepsBits(w: World, acts: seq<Action>, i: nat, bits: Word)
    requires Okay(w) && RunEnabled(w, acts) && i < |w.glob|
    requires forall p :: 0 <= p < |w.procs| && Move(p) in acts ==> Disjoint(w.procs[p].mask[i], bits)
    ensures And(Run(w, acts).glob[i], bits) == And(w.glob[i], bits)
    decreases |acts|
  {
    if acts == [] {
    } else {
      StaysOkay(w, acts[0]);
      if acts[0].Move? {
        assert Move(acts[0].p) in acts;
      }
      StepKeepsBits(w, acts[0], i, bits);
      RunKeepsBits(Next(w, acts[0]), acts[1..], i, bits);
    }
  }

  /** In any run without a word step of the owner, none of the bits it owns changes. */
  lemma SingleWriter(w: World, acts: seq<Action>, owner: nat, i: nat)
    requires Okay(w) && MasksDisjoint(w) && RunEnabled(w, acts)
    requires owner < |w.procs| && i < |w.glob| && Move(owner) !in acts
    ensures And(Run(w, acts).glob[i], w.procs[owner].mask[i]) == And(w.glob[i], w.procs[owner].mask[i])
  {
    RunKeepsBits(w, acts, i, w.procs[owner].mask[i]);
  }

  // ----- a point is an atomic single-writer register -----

  /** What is in the global map for one point, and in each module's private map. */
  datatype Register = Register(published: Word, copies: seq<Word>)

  ghost predicate Owns(w: World, o: nat, pt: Pt)
    requires Okay(w)
  {
    && o < |w.procs| && ValidPt(pt, |w.glob|)
    && Within(pt.mask, w.procs[o].mask[pt.ofs])
    && forall q :: 0 <= q < |w.procs| && q != o ==> Disjoint(w.procs[q].mask[pt.ofs], pt.mask)
  }

  /** The part of a word that the point covers, shifted down. */
  ghost function Part(bits: Word, pt: Pt): Word
    requires pt.Pt?
  {
    Shr(And(bits, pt.mask), pt.shift)
  }

  ghost function RegisterOf(w: World, pt: Pt): Register
    requires Okay(w) && ValidPt(pt, |w.glob|)
  {
    Register(Part(w.glob[pt.ofs], pt), seq(|w.procs|, p requires 0 <= p < |w.procs| => Part(w.procs[p].priv[pt.ofs], pt)))
  }

  /** The copy after its owner writes `raw` through `h`, whatever part of the point that handle covers. */
  ghost function Overwritten(copy: Word, h: Pt, raw: Word, pt: Pt): Word
    requires pt.Pt?
  {
    if h.Pt? && h.ofs == pt.ofs then Blend(copy, Part(raw, pt), Part(h.mask, pt)) else copy
  }

  /** Every action, with any handle and any update job, by what it does to the point. */
  ghost function RegisterNext(r: Register, a: Action, o: nat, pt: Pt): Register
    requires pt.Pt? && o < |r.copies| && a.p < |r.copies|
  {
    match a
    case Write(p, h, v) =>
      if p == o && h.Pt? then r.(copies := r.copies[o := Overwritten(r.copies[o], h, Shl(v, h.shift), pt)]) else r
    case WriteInverted(p, h, v) =>
      if p == o && h.Pt? then r.(copies := r.copies[o := Overwritten(r.copies[o], h, Not(Shl(v, h.shift)), pt)]) else r
    case Lock(p, job) =>
      var m := Part(Touched(job, pt.ofs), pt);
      if p == o then r.(published := Blend(r.published, r.copies[o], m))
      else r.(copies := r.copies[p := Blend(r.copies[p], r.published, m)])
    case _ => r
  }

  /** The part of a blend is the blend of the parts. */
  lemma PartOfBlend(a: Word, b: Word, m: Word, pt: Pt)
    requires pt.Pt?
    ensures Part(Blend(a, b, m), pt) == Blend(Part(a, pt), Part(b, pt), Part(m, pt))
  {}

  lemma PartOfOwned(bits: Word, mask: Word, pt: Pt)
    requires pt.Pt? && Within(pt.mask, mask)
    ensures Part(And(mask, bits), pt) == Part(bits, pt) == Part(And(bits, mask), pt)
  {
    WithinBits(pt.mask, mask);
  }

  lemma PartOfForeign(bits: Word, mask: Word, pt: Pt)
    requires pt.Pt? && Disjoint(mask, pt.mask)
    ensures Part(And(mask, bits), pt) == ZERO == Part(And(bits, mask), pt)
  {
    DisjointBits(mask, pt.mask);
  }

  lemma BlendNothing(a: Word, b: Word)
    ensures Blend(a, b, ZERO) == a
  {}

  lemma BlendBack(a: Word, b: Word, m: Word)
    ensures Blend(a, Blend(b, a, m), m) == a
  {}

  lemma ExchangeByOwner(g: Word, p: Word, m: Word, bits: Word, pt: Pt)
    requires pt.Pt? && Within(pt.mask, m)
    ensures Part(NewGlob(g, p, m, bits), pt) == Blend(Part(g, pt), Part(p, pt), Part(bits, pt))
    ensures Part(NewPriv(g, p, m, bits), pt) == Part(p, pt)
  {
    PartOfBlend(g, p, And(m, bits), pt);
    PartOfOwned(bits, m, pt);
    PartOfBlend(p, NewGlob(g, p, m, bits), bits, pt);
    BlendBack(Part(p, pt), Part(g, pt), Part(bits, pt));
  }

  lemma ExchangeByOther(g: Word, p: Word, m: Word, bits: Word, pt: Pt)
    requires pt.Pt? && Disjoint(m, pt.mask)
    ensures Part(NewGlob(g, p, m, bits), pt) == Part(g, pt)
    ensures Part(NewPriv(g, p, m, bits), pt) == Blend(Part(p, pt), Part(g, pt), Part(bits, pt))
  {
    PartOfBlend(g, p, And(m, bits), pt);
    PartOfForeign(bits, m, pt);
    BlendNothing(Part(g, pt), Part(p, pt));
    PartOfBlend(p, NewGlob(g, p, m, bits), bits, pt);
  }

  lemma LockOnRegister(w: World, a: Action, o: nat, pt: Pt)
    requires Okay(w) && w.holder == None && a.Lock? && Enabled(w, a) && Owns(w, o, pt)
    ensures RegisterOf(AtomicNext(w, a), pt) == RegisterNext(RegisterOf(w, pt), a, o, pt)
  {
    var proc := w.procs[a.p];
    var t, i := Touched(a.job, pt.ofs), pt.ofs;
    ExchangesAreOne(MapsOf(w, a.p), a.job, i);
    if a.p == o {
      ExchangeByOwner(w.glob[i], proc.priv[i], proc.mask[i], t, pt);
    } else {
      ExchangeByOther(w.glob[i], proc.priv[i], proc.mask[i], t, pt);
    }
    assert RegisterOf(AtomicNext(w, a), pt).copies == RegisterNext(RegisterOf(w, pt), a, o, pt).copies;
  }

  /** A write of `raw` through any handle, by the owner or by another module. */
  lemma WriteOnWord(priv: Word, mask: Word, h: Pt, raw: Word, pt: Pt)
    requires pt.Pt? && h.Pt? && h.ofs == pt.ofs
    ensures Within(pt.mask, mask) ==> Part(Blend(priv, raw, And(h.mask, mask)), pt) == Overwritten(Part(priv, pt), h, raw, pt)
    ensures Disjoint(mask, pt.mask) ==> Part(Blend(priv, raw, And(h.mask, mask)), pt) == Part(priv, pt)
  {
    PartOfBlend(priv, raw, And(h.mask, mask), pt);
    if Within(pt.mask, mask) {
      PartOfOwned(h.mask, mask, pt);
    }
    if Disjoint(mask, pt.mask) {
      PartOfForeign(h.mask, mask, pt);
      BlendNothing(Part(priv, pt), Part(raw, pt));
    }
  }

  lemma WriteOnRegister(w: World, a: Action, o: nat, pt: Pt)
    requires Okay(w) && w.holder == None && (a.Write? || a.WriteInverted?) && Enabled(w, a) && Owns(w, o, pt)
    ensures RegisterOf(AtomicNext(w, a), pt) == RegisterNext(RegisterOf(w, pt), a, o, pt)
  {
    var proc, raw := w.procs[a.p], if a.Write? then Shl(a.v, a.pt.shift) else Not(Shl(a.v, a.pt.shift));
    var w' := AtomicNext(w, a);
    assert w'.procs == w.procs[a.p := w'.procs[a.p]];
    if a.pt.ofs == pt.ofs {
      WriteOnWord(proc.priv[pt.ofs], proc.mask[pt.ofs], a.pt, raw, pt);
      assert w'.procs[a.p].priv[pt.ofs] == Blend(proc.priv[pt.ofs], raw, And(a.pt.mask, proc.mask[pt.ofs]));
    } else {
      assert w'.procs[a.p].priv[pt.ofs] == proc.priv[pt.ofs];
    }
    assert RegisterOf(w', pt).copies == RegisterNext(RegisterOf(w, pt), a, o, pt).copies;
  }

  ghost function RegisterRun(r: Register, acts: seq<Action>, o: nat, pt: Pt): (r': Register)
    requires pt.Pt? && o < |r.copies| && forall a :: a in acts ==> a.p < |r.copies|
    ensures |r'.copies| == |r.copies|
    decreases |acts|
  {
    if acts == [] then r else RegisterRun(RegisterNext(r, acts[0], o, pt), acts[1..], o, pt)
  }

  lemma {:induction false} AtomicRunOnRegister(w: World, acts: seq<Action>, o: nat, pt: Pt)
    requires Okay(w) && w.holder == None && AtomicEnabled(w, acts) && Owns(w, o, pt)
    ensures forall a :: a in acts ==> a.p < |w.procs|
    ensures RegisterOf(AtomicRun(w, acts), pt) == RegisterRun(RegisterOf(w, pt), acts, o, pt)
    decreases |acts|
  {
    if acts == [] {
    } else {
      var a := acts[0];
      if a.Lock? {
        LockOnRegister(w, a, o, pt);
      } else if a.Write? || a.WriteInverted? {
        WriteOnRegister(w, a, o, pt);
      }
      AtomicRunOnRegister(AtomicNext(w, a), acts[1..], o, pt);
    }
  }

  /** In every interleaved run, what a module outside the lock reads for a point is its register copy. */
  lemma PointIsRegister(w: World, acts: seq<Action>, o: nat, pt: Pt, q: nat)
    requires Okay(w) && w.holder == None && RunEnabled(w, acts) && Owns(w, o, pt)
    requires q < |w.procs| && Run(w, acts).holder != Some(q)
    ensures forall a :: a in acts ==> a.p < |w.procs|
    ensures Get(Run(w, acts).procs[q].priv, pt) == RegisterRun(RegisterOf(w, pt), acts, o, pt).copies[q]
  {
    Atomicity(w, acts);
    AtomicRunOnRegister(w, acts, o, pt);
    assert Complete(Run(w, acts)).procs[q] == Run(w, acts).procs[q];
  }

  // ----- what readers see over whole runs -----

  /** All values that the point ever had in the global map. */
  ghost function Published(r: Register, acts: seq<Action>, o: nat, pt: Pt): seq<Word>
    requires pt.Pt? && o < |r.copies| && forall a :: a in acts ==> a.p < |r.copies|
    decreases |acts|
  {
    if acts == [] then [r.published]
    else [r.published] + Published(RegisterNext(r, acts[0], o, pt), acts[1..], o, pt)
  }

  /** The exchange takes the whole point or none of it. */
  ghost predicate Uncut(pt: Pt, bits: Word)
    requires pt.Pt?
  {
    Within(pt.mask, bits) || Disjoint(bits, pt.mask)
  }

  /** So does a job of which every exchange does. */
  lemma {:induction false} UncutTouch(job: seq<Exchange>, pt: Pt)
    requires pt.Pt? && forall k :: 0 <= k < |job| && job[k].ofs == pt.ofs ==> Uncut(pt, job[k].bits)
    ensures Uncut(pt, Touched(job, pt.ofs))
    decreases |job|
  {
    DisjointBits(Touched(job, pt.ofs), pt.mask);
    if job == [] {
    } else {
      UncutTouch(job[1..], pt);
      if job[0].ofs == pt.ofs {
        UnionUncut(pt, job[0].bits, Touched(job[1..], pt.ofs));
      }
    }
  }

  lemma UnionUncut(pt: Pt, x: Word, y: Word)
    requires pt.Pt? && Uncut(pt, x) && Uncut(pt, y)
    ensures Uncut(pt, Or(x, y))
  {}

  /** No update of q takes only a part of the point. */
  ghost predicate ReadsWhole(acts: seq<Action>, q: nat, pt: Pt)
    requires pt.Pt?
  {
    forall a :: a in acts && a.p == q && a.Lock? ==> Uncut(pt, Touched(a.job, pt.ofs))
  }

  ghost predicate Covers(job: seq<Exchange>, pt: Pt)
    requires pt.Pt?
  {
    Within(pt.mask, Touched(job, pt.ofs))
  }

  /** Values of a point have no bits beyond its length. */
  ghost predicate Narrow(r: Register, pt: Pt)
    requires pt.Pt?
  {
    Within(r.published, LowMask(pt.length)) && forall p :: 0 <= p < |r.copies| ==> Within(r.copies[p], LowMask(pt.length))
  }

  lemma PartNarrow(bits: Word, pt: Pt)
    requires pt.Pt? && Fits(pt.shift, pt.length) && pt.mask == Mask(pt.shift, pt.length)
    ensures Within(Part(bits, pt), LowMask(pt.length))
    ensures Within(pt.mask, bits) ==> Part(bits, pt) == LowMask(pt.length)
    ensures Disjoint(bits, pt.mask) ==> Part(bits, pt) == ZERO
  {
    WithinBits(Part(bits, pt), LowMask(pt.length));
    WithinBits(pt.mask, bits);
    DisjointBits(bits, pt.mask);
    forall k | 0 <= k < 32 ensures Part(bits, pt)[k] == (k + pt.shift < 32 && k < pt.length && bits[k + pt.shift]) {
      if k + pt.shift < 32 {
        MaskBits(pt.shift, pt.length, k + pt.shift);
      }
    }
  }

  lemma BlendNarrow(a: Word, b: Word, m: Word, low: Word)
    requires Within(a, low) && Within(b, low)
    ensures Within(Blend(a, b, m), low)
    ensures Blend(a, b, low) == b
  {
    WithinBits(a, low);
    WithinBits(b, low);
    WithinBits(Blend(a, b, m), low);
  }

  ghost predicate WindowPt(pt: Pt) {
    pt.Pt? && Fits(pt.shift, pt.length) && pt.mask == Mask(pt.shift, pt.length)
  }

  lemma StaysNarrow(r: Register, a: Action, o: nat, pt: Pt)
    requires WindowPt(pt) && o < |r.copies| && a.p < |r.copies| && Narrow(r, pt)
    ensures Narrow(RegisterNext(r, a, o, pt), pt)
  {
    match a {
      case Write(_, h, v) => OverwrittenNarrow(r.copies[o], h, Shl(v, if h.Pt? then h.shift else 0), pt);
      case WriteInverted(_, h, v) => OverwrittenNarrow(r.copies[o], h, Not(Shl(v, if h.Pt? then h.shift else 0)), pt);
      case Lock(p, job) =>
        BlendNarrow(r.published, r.copies[o], Part(Touched(job, pt.ofs), pt), LowMask(pt.length));
        BlendNarrow(r.copies[p], r.published, Part(Touched(job, pt.ofs), pt), LowMask(pt.length));
      case _ =>
    }
  }

  lemma OverwrittenNarrow(copy: Word, h: Pt, raw: Word, pt: Pt)
    requires WindowPt(pt) && Within(copy, LowMask(pt.length))
    ensures Within(Overwritten(copy, h, raw, pt), LowMask(pt.length))
    ensures h == pt ==> Overwritten(copy, h, raw, pt) == Part(raw, pt)
    ensures h.Pt? && (h.ofs != pt.ofs || Disjoint(h.mask, pt.mask)) ==> Overwritten(copy, h, raw, pt) == copy
  {
    PartNarrow(raw, pt);
    BlendNarrow(copy, Part(raw, pt), if h.Pt? then Part(h.mask, pt) else ZERO, LowMask(pt.length));
    if h.Pt? {
      PartNarrow(h.mask, pt);
      WithinBits(pt.mask, pt.mask);
      BlendNothing(copy, Part(raw, pt));
    }
  }

  lemma RegisterNarrow(w: World, pt: Pt)
    requires Okay(w) && ValidPt(pt, |w.glob|)
    ensures Narrow(RegisterOf(w, pt), pt)
  {
    PartNarrow(w.glob[pt.ofs], pt);
    forall p | 0 <= p < |w.procs| ensures Within(RegisterOf(w, pt).copies[p], LowMask(pt.length)) {
      PartNarrow(w.procs[p].priv[pt.ofs], pt);
    }
  }

  /** An uncut update of a reader leaves its copy or replaces it by the published value. */
  lemma WholeRead(r: Register, a: Action, o: nat, pt: Pt)
    requires WindowPt(pt) && o < |r.copies| && a.Lock? && a.p < |r.copies| && a.p != o && Narrow(r, pt)
    ensures Disjoint(Touched(a.job, pt.ofs), pt.mask) ==> RegisterNext(r, a, o, pt) == r
    ensures Covers(a.job, pt) ==> RegisterNext(r, a, o, pt).copies[a.p] == r.published
  {
    PartNarrow(Touched(a.job, pt.ofs), pt);
    BlendNothing(r.copies[a.p], r.published);
    BlendNarrow(r.copies[a.p], r.published, ZERO, LowMask(pt.length));
  }

  lemma {:induction false} CopiesArePublished(r: Register, acts: seq<Action>, o: nat, pt: Pt, q: nat)
    requires WindowPt(pt) && o < |r.copies| && q < |r.copies| && q != o && Narrow(r, pt)
    requires (forall a :: a in acts ==> a.p < |r.copies|) && ReadsWhole(acts, q, pt)
    ensures var c := RegisterRun(r, acts, o, pt).copies[q];
      c == r.copies[q] || c in Published(r, acts, o, pt)
    decreases |acts|
  {
    if acts == [] {
    } else {
      var a := acts[0];
      StaysNarrow(r, a, o, pt);
      CopiesArePublished(RegisterNext(r, a, o, pt), acts[1..], o, pt, q);
      if a.Lock? && a.p == q {
        WholeRead(r, a, o, pt);
      }
    }
  }

  /** The value was the owner's own copy when it entered its update at index `j` of the run. */
  ghost predicate OwnerCopyAt(r: Register, acts: seq<Action>, o: nat, pt: Pt, v: Word, j: nat)
    requires pt.Pt? && o < |r.copies| && forall a :: a in acts ==> a.p < |r.copies|
  {
    j < |acts| && acts[j].Lock? && acts[j].p == o && v == RegisterRun(r, acts[..j], o, pt).copies[o]
  }

  ghost predicate FromOwner(r: Register, acts: seq<Action>, o: nat, pt: Pt, v: Word)
    requires pt.Pt? && o < |r.copies| && forall a :: a in acts ==> a.p < |r.copies|
  {
    v == r.published || exists j: nat :: OwnerCopyAt(r, acts, o, pt, v, j)
  }

  /** An update of the owner that does not cut the point publishes its whole copy or leaves the published value. */
  lemma PublishStep(r: Register, a: Action, o: nat, pt: Pt)
    requires WindowPt(pt) && o < |r.copies| && a.p < |r.copies| && Narrow(r, pt) && ReadsWhole([a], o, pt)
    ensures var p := RegisterNext(r, a, o, pt).published; p == r.published || (a.Lock? && a.p == o && p == r.copies[o])
  {
    assert a in [a];
    if a.Lock? && a.p == o {
      if Covers(a.job, pt) {
        OwnPublish(r, o, pt, a.job);
      } else {
        QuietStep(r, a, o, pt, o);
      }
    }
  }

  lemma LaterOwnerCopy(r: Register, acts: seq<Action>, o: nat, pt: Pt, v: Word, j: nat)
    requires pt.Pt? && o < |r.copies| && acts != [] && forall a :: a in acts ==> a.p < |r.copies|
    requires OwnerCopyAt(RegisterNext(r, acts[0], o, pt), acts[1..], o, pt, v, j)
    ensures OwnerCopyAt(r, acts, o, pt, v, j + 1)
  {
    assert acts[..j + 1][1..] == acts[1..][..j];
  }

  /** If the owner's updates do not cut the point, each published value is the first one or one whole copy of the owner. */
  lemma {:induction false} PublishedByOwner(r: Register, acts: seq<Action>, o: nat, pt: Pt, k: nat)
    requires WindowPt(pt) && o < |r.copies| && Narrow(r, pt) && k <= |acts|
    requires (forall a :: a in acts ==> a.p < |r.copies|) && ReadsWhole(acts, o, pt)
    ensures |Published(r, acts, o, pt)| == |acts| + 1
    ensures FromOwner(r, acts, o, pt, Published(r, acts, o, pt)[k])
    decreases |acts|
  {
    if acts == [] {
    } else {
      var a, r' := acts[0], RegisterNext(r, acts[0], o, pt);
      StaysNarrow(r, a, o, pt);
      PublishStep(r, a, o, pt);
      PublishedByOwner(r', acts[1..], o, pt, if k == 0 then 0 else k - 1);
      if k > 0 {
        var v := Published(r, acts, o, pt)[k];
        assert v == Published(r', acts[1..], o, pt)[k - 1];
        if v == r'.published {
          assert v == r.copies[o] && a.Lock? && a.p == o ==> OwnerCopyAt(r, acts, o, pt, v, 0);
        } else {
          var j: nat :| OwnerCopyAt(r', acts[1..], o, pt, v, j);
          LaterOwnerCopy(r, acts, o, pt, v, j);
        }
      }
    }
  }

  lemma {:induction false} RunPrefix(w: World, acts: seq<Action>, j: nat)
    requires Okay(w) && RunEnabled(w, acts) && j <= |acts|
    ensures RunEnabled(w, acts[..j])
    ensures j < |acts| ==> Enabled(Run(w, acts[..j]), acts[j])
    decreases j
  {
    if j == 0 {
    } else {
      StaysOkay(w, acts[0]);
      RunPrefix(Next(w, acts[0]), acts[1..], j - 1);
      assert acts[..j][1..] == acts[1..][..j - 1];
    }
  }

  /** What plc_get of the owner returned when it entered its update at index `j` of the run. */
  ghost predicate OwnerHadAt(w: World, acts: seq<Action>, o: nat, pt: Pt, v: Word, j: nat)
    requires Okay(w) && RunEnabled(w, acts) && ValidPt(pt, |w.glob|) && o < |w.procs|
  {
    j < |acts| && acts[j].Lock? && acts[j].p == o && RunEnabled(w, acts[..j]) && v == Get(Run(w, acts[..j]).procs[o].priv, pt)
  }

  /** The owner published the value in one update. */
  ghost predicate OwnerHad(w: World, acts: seq<Action>, o: nat, pt: Pt, v: Word)
    requires Okay(w) && RunEnabled(w, acts) && ValidPt(pt, |w.glob|) && o < |w.procs|
  {
    exists j: nat :: OwnerHadAt(w, acts, o, pt, v, j)
  }

  lemma OwnerCopyIsPrivate(w: World, acts: seq<Action>, o: nat, pt: Pt, v: Word, j: nat)
    requires Okay(w) && w.holder == None && RunEnabled(w, acts) && Owns(w, o, pt)
    requires j < |acts| && acts[j].Lock? && acts[j].p == o
    ensures forall a :: a in acts ==> a.p < |w.procs|
    ensures OwnerCopyAt(RegisterOf(w, pt), acts, o, pt, v, j) <==> OwnerHadAt(w, acts, o, pt, v, j)
  {
    Atomicity(w, acts);
    AtomicRunOnRegister(w, acts, o, pt);
    RunPrefix(w, acts, j);
    PointIsRegister(w, acts[..j], o, pt, o);
  }

  /**
   A reader never sees a mix. If neither its own updates nor the owner's cut the point, its value is one that the
   owner had as a whole and published in a single update, or one of the two first values, whatever handles the
   owner writes through and the others update through. If only its own do not, its value is one that the point
   had in the global map.
   */
  lemma NeverMixed(w: World, acts: seq<Action>, o: nat, pt: Pt, q: nat)
    requires Okay(w) && w.holder == None && RunEnabled(w, acts) && Owns(w, o, pt)
    requires q < |w.procs| && q != o && Run(w, acts).holder != Some(q) && ReadsWhole(acts, q, pt)
    ensures forall a :: a in acts ==> a.p < |w.procs|
    ensures var v := Get(Run(w, acts).procs[q].priv, pt);
      && (v == Get(w.procs[q].priv, pt) || v in Published(RegisterOf(w, pt), acts, o, pt))
      && (ReadsWhole(acts, o, pt) ==> v == Get(w.procs[q].priv, pt) || v == Get(w.glob, pt) || OwnerHad(w, acts, o, pt, v))
  {
    var v, r := Get(Run(w, acts).procs[q].priv, pt), RegisterOf(w, pt);
    PointIsRegister(w, acts, o, pt, q);
    RegisterNarrow(w, pt);
    CopiesArePublished(r, acts, o, pt, q);
    if ReadsWhole(acts, o, pt) && v != Get(w.procs[q].priv, pt) && v != Get(w.glob, pt) {
      PublishedByOwner(r, acts, o, pt, 0);
      var k :| 0 <= k < |Published(r, acts, o, pt)| && Published(r, acts, o, pt)[k] == v;
      PublishedByOwner(r, acts, o, pt, k);
      var j: nat :| OwnerCopyAt(r, acts, o, pt, v, j);
      OwnerCopyIsPrivate(w, acts, o, pt, v, j);
    }
  }

  lemma {:induction false} AtomicPrefix(w: World, acts: seq<Action>, k: nat)
    requires Okay(w) && w.holder == None && AtomicEnabled(w, acts) && k <= |acts|
    ensures AtomicEnabled(w, acts[..k]) && forall a :: a in acts ==> a.p < |w.procs|
    decreases |acts|
  {
    if acts == [] {
    } else {
      AtomicPrefix(AtomicNext(w, acts[0]), acts[1..], if k == 0 then 0 else k - 1);
      if k > 0 {
        assert acts[..k][1..] == acts[1..][..k - 1];
      }
    }
  }

  lemma {:induction false} PublishedAfter(r: Register, acts: seq<Action>, o: nat, pt: Pt, k: nat)
    requires pt.Pt? && o < |r.copies| && k <= |acts| && forall a :: a in acts ==> a.p < |r.copies|
    ensures |Published(r, acts, o, pt)| == |acts| + 1
    ensures Published(r, acts, o, pt)[k] == RegisterRun(r, acts[..k], o, pt).published
    decreases |acts|
  {
    if acts == [] {
    } else {
      PublishedAfter(RegisterNext(r, acts[0], o, pt), acts[1..], o, pt, if k == 0 then 0 else k - 1);
      if k > 0 {
        assert acts[..k][1..] == acts[1..][..k - 1];
      }
    }
  }

  /** `Published` lists what the global map held: each prefix of the run contributes its value. */
  lemma PublishedAt(w: World, acts: seq<Action>, o: nat, pt: Pt, k: nat)
    requires Okay(w) && w.holder == None && AtomicEnabled(w, acts) && Owns(w, o, pt) && k <= |acts|
    ensures (forall a :: a in acts ==> a.p < |w.procs|) && AtomicEnabled(w, acts[..k])
    ensures |Published(RegisterOf(w, pt), acts, o, pt)| == |acts| + 1
    ensures Published(RegisterOf(w, pt), acts, o, pt)[k] == Get(AtomicRun(w, acts[..k]).glob, pt)
  {
    AtomicPrefix(w, acts, k);
    PublishedAfter(RegisterOf(w, pt), acts, o, pt, k);
    AtomicRunOnRegister(w, acts[..k], o, pt);
  }

  /** Module p writes nothing into the point. */
  ghost predicate NoWrites(acts: seq<Action>, p: nat, pt: Pt)
    requires pt.Pt?
  {
    forall a :: a in acts && a.p == p && (a.Write? || a.WriteInverted?) && a.pt.Pt? ==>
      a.pt.ofs != pt.ofs || Disjoint(a.pt.mask, pt.mask)
  }

  /** No update of module p touches the point. */
  ghost predicate NoUpdates(acts: seq<Action>, p: nat, pt: Pt)
    requires pt.Pt?
  {
    forall a :: a in acts && a.p == p && a.Lock? ==> Disjoint(Touched(a.job, pt.ofs), pt.mask)
  }

  lemma QuietStep(r: Register, a: Action, o: nat, pt: Pt, q: nat)
    requires WindowPt(pt) && o < |r.copies| && q < |r.copies| && a.p < |r.copies| && Narrow(r, pt)
    ensures NoUpdates([a], q, pt) && q != o ==> RegisterNext(r, a, o, pt).copies[q] == r.copies[q]
    ensures NoWrites([a], o, pt) ==> RegisterNext(r, a, o, pt).copies[o] == r.copies[o]
    ensures NoUpdates([a], o, pt) || (NoWrites([a], o, pt) && r.published == r.copies[o]) ==>
      RegisterNext(r, a, o, pt).published == r.published
  {
    assert a in [a];
    match a {
      case Write(_, h, v) => OverwrittenNarrow(r.copies[o], h, Shl(v, if h.Pt? then h.shift else 0), pt);
      case WriteInverted(_, h, v) => OverwrittenNarrow(r.copies[o], h, Not(Shl(v, if h.Pt? then h.shift else 0)), pt);
      case Lock(p, job) =>
        PartNarrow(Touched(job, pt.ofs), pt);
        BlendNothing(r.published, r.copies[o]);
        BlendNothing(r.copies[p], r.published);
        BlendBack(r.published, r.copies[o], Part(Touched(job, pt.ofs), pt));
      case _ =>
    }
  }

  /** A reader's copy stays without its own updates, the owner's without writes, the published value without either kind. */
  lemma {:induction false} QuietRun(r: Register, acts: seq<Action>, o: nat, pt: Pt, q: nat)
    requires WindowPt(pt) && o < |r.copies| && q < |r.copies| && Narrow(r, pt) && forall a :: a in acts ==> a.p < |r.copies|
    ensures Narrow(RegisterRun(r, acts, o, pt), pt)
    ensures NoUpdates(acts, q, pt) && q != o ==> RegisterRun(r, acts, o, pt).copies[q] == r.copies[q]
    ensures NoWrites(acts, o, pt) ==> RegisterRun(r, acts, o, pt).copies[o] == r.copies[o]
    ensures NoUpdates(acts, o, pt) || (NoWrites(acts, o, pt) && r.published == r.copies[o]) ==>
      RegisterRun(r, acts, o, pt).published == r.published
    decreases |acts|
  {
    if acts == [] {
    } else {
      StaysNarrow(r, acts[0], o, pt);
      QuietStep(r, acts[0], o, pt, q);
      QuietRun(RegisterNext(r, acts[0], o, pt), acts[1..], o, pt, q);
      assert acts == [acts[0]] + acts[1..];
    }
  }

  lemma {:induction false} RegisterRunAppend(r: Register, xs: seq<Action>, ys: seq<Action>, o: nat, pt: Pt)
    requires pt.Pt? && o < |r.copies| && forall a :: a in xs + ys ==> a.p < |r.copies|
    ensures (forall a :: a in xs ==> a.p < |r.copies|) && (forall a :: a in ys ==> a.p < |r.copies|)
    ensures RegisterRun(r, xs + ys, o, pt) == RegisterRun(RegisterRun(r, xs, o, pt), ys, o, pt)
    decreases |xs|
  {
    assert forall a :: a in xs || a in ys ==> a in xs + ys;
    if xs == [] {
      assert xs + ys == ys;
    } else {
      assert (xs + ys)[1..] == xs[1..] + ys;
      RegisterRunAppend(RegisterNext(r, xs[0], o, pt), xs[1..], ys, o, pt);
    }
  }

  ghost function Handover(o: nat, q: nat, pt: Pt, v: Word, wjob: seq<Exchange>, rjob: seq<Exchange>,
                          a1: seq<Action>, a2: seq<Action>, a3: seq<Action>): seq<Action>
  {
    [Write(o, pt, v)] + a1 + ([Lock(o, wjob)] + a2 + ([Lock(q, rjob)] + a3))
  }

  lemma SegmentRun(r: Register, a: Action, rest: seq<Action>, tail: seq<Action>, o: nat, pt: Pt)
    requires pt.Pt? && o < |r.copies| && forall b :: b in [a] + rest + tail ==> b.p < |r.copies|
    ensures a.p < |r.copies| && (forall b :: b in rest ==> b.p < |r.copies|) && (forall b :: b in tail ==> b.p < |r.copies|)
    ensures RegisterRun(r, [a] + rest + tail, o, pt)
         == RegisterRun(RegisterRun(RegisterNext(r, a, o, pt), rest, o, pt), tail, o, pt)
  {
    assert a in [a] + rest + tail;
    assert forall b :: b in rest || b in tail ==> b in [a] + rest + tail;
    RegisterRunAppend(r, [a] + rest, tail, o, pt);
    assert ([a] + rest)[1..] == rest;
  }

  lemma OwnWrite(r: Register, o: nat, pt: Pt, v: Word)
    requires WindowPt(pt) && o < |r.copies| && Narrow(r, pt)
    ensures RegisterNext(r, Write(o, pt, v), o, pt).copies[o] == And(v, LowMask(pt.length))
  {
    OverwrittenNarrow(r.copies[o], pt, Shl(v, pt.shift), pt);
    ShiftedField(pt.shift, pt.length, v);
  }

  lemma OwnPublish(r: Register, o: nat, pt: Pt, job: seq<Exchange>)
    requires WindowPt(pt) && o < |r.copies| && Narrow(r, pt) && Covers(job, pt)
    ensures var r' := RegisterNext(r, Lock(o, job), o, pt); r'.published == r.copies[o] == r'.copies[o]
  {
    PartNarrow(Touched(job, pt.ofs), pt);
    BlendNarrow(r.published, r.copies[o], ZERO, LowMask(pt.length));
  }

  lemma HandoverOnRegister(r: Register, o: nat, q: nat, pt: Pt, v: Word, wjob: seq<Exchange>, rjob: seq<Exchange>,
                           a1: seq<Action>, a2: seq<Action>, a3: seq<Action>)
    requires WindowPt(pt) && o < |r.copies| && q < |r.copies| && q != o && Narrow(r, pt)
    requires forall a :: a in Handover(o, q, pt, v, wjob, rjob, a1, a2, a3) ==> a.p < |r.copies|
    requires Covers(wjob, pt) && Covers(rjob, pt)
    requires NoWrites(a1, o, pt) && (NoWrites(a2, o, pt) || NoUpdates(a2, o, pt)) && NoUpdates(a3, q, pt)
    ensures RegisterRun(r, Handover(o, q, pt, v, wjob, rjob, a1, a2, a3), o, pt).copies[q] == And(v, LowMask(pt.length))
  {
    var s3 := [Lock(q, rjob)] + a3;
    var s2 := [Lock(o, wjob)] + a2 + s3;
    SegmentRun(r, Write(o, pt, v), a1, s2, o, pt);
    var r1 := RegisterNext(r, Write(o, pt, v), o, pt);
    StaysNarrow(r, Write(o, pt, v), o, pt);
    OwnWrite(r, o, pt, v);
    QuietRun(r1, a1, o, pt, o);
    var r2 := RegisterRun(r1, a1, o, pt);
    SegmentRun(r2, Lock(o, wjob), a2, s3, o, pt);
    var r3 := RegisterNext(r2, Lock(o, wjob), o, pt);
    StaysNarrow(r2, Lock(o, wjob), o, pt);
    OwnPublish(r2, o, pt, wjob);
    QuietRun(r3, a2, o, pt, o);
    var r4 := RegisterRun(r3, a2, o, pt);
    assert s3 + [] == s3;
    SegmentRun(r4, Lock(q, rjob), a3, [], o, pt);
    StaysNarrow(r4, Lock(q, rjob), o, pt);
    WholeRead(r4, Lock(q, rjob), o, pt);
    QuietRun(RegisterNext(r4, Lock(q, rjob), o, pt), a3, o, pt, q);
  }

  /**
   set(v), a later update by the owner and a later update by the reader, each covering the point: the reader gets
   v mod 2^length, if the owner does not write into the point before its update, nor both write and update
   before the reader's. Everything else may go on in between, and before and after.
   */
  lemma ValueArrives(w: World, before: seq<Action>, o: nat, q: nat, pt: Pt, v: Word, wjob: seq<Exchange>, rjob: seq<Exchange>,
                     a1: seq<Action>, a2: seq<Action>, a3: seq<Action>)
    requires Okay(w) && w.holder == None && Owns(w, o, pt) && q < |w.procs| && q != o
    requires var acts := before + Handover(o, q, pt, v, wjob, rjob, a1, a2, a3);
      RunEnabled(w, acts) && Run(w, acts).holder != Some(q)
    requires Covers(wjob, pt) && Covers(rjob, pt)
    requires NoWrites(a1, o, pt) && (NoWrites(a2, o, pt) || NoUpdates(a2, o, pt)) && NoUpdates(a3, q, pt)
    ensures var r := Run(w, before + Handover(o, q, pt, v, wjob, rjob, a1, a2, a3));
      && Get(r.procs[q].priv, pt) == And(v, LowMask(pt.length))
      && Value(Get(r.procs[q].priv, pt)) == Value(v) % Pow2(pt.length)
  {
    var hand := Handover(o, q, pt, v, wjob, rjob, a1, a2, a3);
    var r0 := RegisterOf(w, pt);
    PointIsRegister(w, before + hand, o, pt, q);
    RegisterRunAppend(r0, before, hand, o, pt);
    RegisterNarrow(w, pt);
    QuietRun(r0, before, o, pt, q);
    HandoverOnRegister(RegisterRun(r0, before, o, pt), o, q, pt, v, wjob, rjob, a1, a2, a3);
    LowBitsAreMod(v, pt.length);
  }

  /** With disjoint masks, a point inside one module's mask is owned by that module. */
  lemma OwnershipFromMasks(w: World, o: nat, pt: Pt)
    requires Okay(w) && MasksDisjoint(w) && o < |w.procs| && ValidPt(pt, |w.glob|)
    requires Within(pt.mask, w.procs[o].mask[pt.ofs])
    ensures Owns(w, o, pt)
  {}

  // ----- an update that cuts the point, of the owner or of the reader, can mix two values -----

  lemma {:induction false} RunAppend(w: World, xs: seq<Action>, ys: seq<Action>)
    requires Okay(w) && RunEnabled(w, xs) && RunEnabled(Run(w, xs), ys)
    ensures RunEnabled(w, xs + ys) && Run(w, xs + ys) == Run(Run(w, xs), ys)
    decreases |xs|
  {
    if xs == [] {
      assert xs + ys == ys;
    } else {
      assert (xs + ys)[1..] == xs[1..] + ys;
      StaysOkay(w, xs[0]);
      RunAppend(Next(w, xs[0]), xs[1..], ys);
    }
  }

  lemma RunOne(w: World, a: Action)
    requires Okay(w) && Enabled(w, a)
    ensures Okay(Next(w, a)) && RunEnabled(w, [a]) && Run(w, [a]) == Next(w, a)
  {
    StaysOkay(w, a);
    assert [a][1..] == [];
  }

  /** The steps of an update of one point. */
  ghost function OneUpdate(p: nat, e: Exchange): seq<Action> {
    [Lock(p, [e])] + ([Move(p)] + [Unlock(p)])
  }

  lemma OneUpdateRuns(w: World, p: nat, e: Exchange)
    requires Okay(w) && w.holder == None && p < |w.procs| && e.ofs < |w.glob|
    ensures RunEnabled(w, OneUpdate(p, e)) && Run(w, OneUpdate(p, e)).holder == None
  {
    RunOne(w, Lock(p, [e]));
    var w1 := Next(w, Lock(p, [e]));
    assert w1.procs[p].pending == [e];
    RunOne(w1, Move(p));
    var w2 := Next(w1, Move(p));
    assert w2.procs[p].pending == [];
    RunOne(w2, Unlock(p));
    RunAppend(w1, [Move(p)], [Unlock(p)]);
    RunAppend(w, [Lock(p, [e])], [Move(p)] + [Unlock(p)]);
  }

  /** Module 0 owns the point, everything is 0. */
  ghost function TwoModules(n: nat, pt: Pt): (w: World)
    requires ValidPt(pt, n)
    ensures Okay(w) && w.holder == None && |w.glob| == n && |w.procs| == 2
  {
    var zeros := seq(n, _ => ZERO);
    World(zeros, [Proc(zeros, zeros[pt.ofs := pt.mask], []), Proc(zeros, zeros, [])], None)
  }

  /** The owner sets ones and updates, then the reader updates; one of the two through a handle for `bits`. */
  ghost function CutRun(pt: Pt, bits: Word, ownerCuts: bool): seq<Action>
    requires pt.Pt?
  {
    var whole, cut := ExchangeOf(pt), Exchange(pt.ofs, bits);
    [Write(0, pt, ONES)] + (OneUpdate(0, if ownerCuts then cut else whole) + OneUpdate(1, if ownerCuts then whole else cut))
  }

  lemma CutRunEnabled(n: nat, pt: Pt, bits: Word, ownerCuts: bool)
    requires ValidPt(pt, n)
    ensures Owns(TwoModules(n, pt), 0, pt)
    ensures RunEnabled(TwoModules(n, pt), CutRun(pt, bits, ownerCuts))
    ensures Run(TwoModules(n, pt), CutRun(pt, bits, ownerCuts)).holder == None
  {
    var w := TwoModules(n, pt);
    var x, y := if ownerCuts then Exchange(pt.ofs, bits) else ExchangeOf(pt), if ownerCuts then ExchangeOf(pt) else Exchange(pt.ofs, bits);
    AndIdentity(pt.mask, pt.mask);
    DisjointBits(ZERO, pt.mask);
    RunOne(w, Write(0, pt, ONES));
    var w1 := Next(w, Write(0, pt, ONES));
    OneUpdateRuns(w1, 0, x);
    OneUpdateRuns(Run(w1, OneUpdate(0, x)), 1, y);
    RunAppend(w1, OneUpdate(0, x), OneUpdate(1, y));
    RunAppend(w, [Write(0, pt, ONES)], OneUpdate(0, x) + OneUpdate(1, y));
  }

  ghost function Zeros(): (r: Register) {
    Register(ZERO, [ZERO, ZERO])
  }

  lemma ZerosNarrow(pt: Pt)
    requires WindowPt(pt)
    ensures Narrow(Zeros(), pt)
  {
    WithinBits(ZERO, LowMask(pt.length));
  }

  lemma TwoModulesRegister(n: nat, pt: Pt)
    requires ValidPt(pt, n)
    ensures RegisterOf(TwoModules(n, pt), pt) == Zeros()
  {
    assert Part(ZERO, pt) == ZERO;
    assert RegisterOf(TwoModules(n, pt), pt).copies == [ZERO, ZERO];
  }

  /** The register after the owner's ones, and after an update of one exchange. */
  lemma OnesRegister(pt: Pt)
    requires WindowPt(pt)
    ensures RegisterNext(Zeros(), Write(0, pt, ONES), 0, pt) == Register(ZERO, [LowMask(pt.length), ZERO])
    ensures RegisterRun(Zeros(), [Write(0, pt, ONES)], 0, pt) == Register(ZERO, [LowMask(pt.length), ZERO])
  {
    ZerosNarrow(pt);
    OwnWrite(Zeros(), 0, pt, ONES);
    assert And(ONES, LowMask(pt.length)) == LowMask(pt.length);
    var a := Write(0, pt, ONES);
    assert [a][1..] == [] && a in [a];
  }

  lemma TouchedOne(e: Exchange)
    ensures Touched([e], e.ofs) == e.bits
  {
    assert [e][1..] == [];
  }

  lemma OneUpdateOnRegister(r: Register, p: nat, e: Exchange, pt: Pt)
    requires pt.Pt? && e.ofs == pt.ofs && |r.copies| == 2 && p < 2
    ensures forall a :: a in OneUpdate(p, e) ==> a.p < 2
    ensures var m := Part(e.bits, pt);
      RegisterRun(r, OneUpdate(p, e), 0, pt) ==
        if p == 0 then r.(published := Blend(r.published, r.copies[0], m)) else r.(copies := r.copies[p := Blend(r.copies[p], r.published, m)])
  {
    TouchedOne(e);
    var acts := OneUpdate(p, e);
    var r1 := RegisterNext(r, Lock(p, [e]), 0, pt);
    assert acts[1..] == [Move(p), Unlock(p)] && acts[1..][1..] == [Unlock(p)] && acts[1..][1..][1..] == [];
    assert RegisterRun(r1, [Unlock(p)], 0, pt) == r1;
    assert RegisterRun(r1, [Move(p), Unlock(p)], 0, pt) == r1;
  }

  lemma BlendOnes(low: Word, m: Word)
    ensures Within(m, low) ==> Blend(ZERO, low, m) == m && Blend(ZERO, m, low) == m && Blend(ZERO, low, low) == low
  {
    WithinBits(m, low);
  }

  lemma CutRunOnRegister(pt: Pt, bits: Word, ownerCuts: bool)
    requires WindowPt(pt)
    ensures forall a :: a in CutRun(pt, bits, ownerCuts) ==> a.p < 2
    ensures RegisterRun(Zeros(), CutRun(pt, bits, ownerCuts), 0, pt).copies[1] == Part(bits, pt)
  {
    var x, y := if ownerCuts then Exchange(pt.ofs, bits) else ExchangeOf(pt), if ownerCuts then ExchangeOf(pt) else Exchange(pt.ofs, bits);
    var low, m := LowMask(pt.length), Part(bits, pt);
    PartNarrow(bits, pt);
    PartNarrow(pt.mask, pt);
    WithinBits(pt.mask, pt.mask);
    BlendOnes(low, m);
    OnesRegister(pt);
    var r1 := Register(ZERO, [low, ZERO]);
    OneUpdateOnRegister(r1, 0, x, pt);
    var r2 := RegisterRun(r1, OneUpdate(0, x), 0, pt);
    OneUpdateOnRegister(r2, 1, y, pt);
    RegisterRunAppend(r1, OneUpdate(0, x), OneUpdate(1, y), 0, pt);
    RegisterRunAppend(Zeros(), [Write(0, pt, ONES)], OneUpdate(0, x) + OneUpdate(1, y), 0, pt);
  }

  lemma CutPart(pt: Pt, bits: Word)
    requires WindowPt(pt) && !Uncut(pt, bits)
    ensures Part(bits, pt) != ZERO && Part(bits, pt) != LowMask(pt.length)
  {
    WithinBits(pt.mask, bits);
    DisjointBits(bits, pt.mask);
    var i :| 0 <= i < 32 && pt.mask[i] && !bits[i];
    var j :| 0 <= j < 32 && bits[j] && pt.mask[j];
    MaskBits(pt.shift, pt.length, i);
    MaskBits(pt.shift, pt.length, j);
    assert !Part(bits, pt)[i - pt.shift] && LowMask(pt.length)[i - pt.shift];
    assert Part(bits, pt)[j - pt.shift] && !ZERO[j - pt.shift];
  }

  /** The only value that the owner has at an update of the run is all ones. */
  lemma CutRunOwner(n: nat, pt: Pt, bits: Word, ownerCuts: bool, v: Word)
    requires ValidPt(pt, n) && v != LowMask(pt.length)
    ensures RunEnabled(TwoModules(n, pt), CutRun(pt, bits, ownerCuts))
    ensures !OwnerHad(TwoModules(n, pt), CutRun(pt, bits, ownerCuts), 0, pt, v)
  {
    var w, acts := TwoModules(n, pt), CutRun(pt, bits, ownerCuts);
    CutRunEnabled(n, pt, bits, ownerCuts);
    if j: nat :| OwnerHadAt(w, acts, 0, pt, v, j) {
      assert j == 1 && acts[..j] == [Write(0, pt, ONES)];
      PointIsRegister(w, acts[..j], 0, pt, 0);
      TwoModulesRegister(n, pt);
      OnesRegister(pt);
    }
  }

  /**
   Both conditions of NeverMixed are needed. For every handle that cuts the point there are two runs of two modules,
   one in which the owner and one in which the reader updates through it, and in each the reader gets a value that
   the owner never had at an update, nor was there at first.
   */
  lemma CutMixes(n: nat, pt: Pt, bits: Word, ownerCuts: bool)
    requires ValidPt(pt, n) && !Uncut(pt, bits)
    ensures var w, acts := TwoModules(n, pt), CutRun(pt, bits, ownerCuts);
      && Owns(w, 0, pt) && RunEnabled(w, acts) && Run(w, acts).holder == None
      && var v := Get(Run(w, acts).procs[1].priv, pt);
         v == Part(bits, pt) && v != Get(w.procs[1].priv, pt) && v != Get(w.glob, pt) && !OwnerHad(w, acts, 0, pt, v)
  {
    CutRunEnabled(n, pt, bits, ownerCuts);
    CutRunOnRegister(pt, bits, ownerCuts);
    TwoModulesRegister(n, pt);
    PointIsRegister(TwoModules(n, pt), CutRun(pt, bits, ownerCuts), 0, pt, 1);
    CutPart(pt, bits);
    CutRunOwner(n, pt, bits, ownerCuts, Part(bits, pt));
  }
}
