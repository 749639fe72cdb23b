/**
 Point handles, the private map and write mask of one module, and the exchanges between the
 private map and the global map (lib/gmm/gmm.c and lib/gmm/gmm_local.c).
 */
module PointMemory {
  import opened Words

  // ----- point handles -----

  datatype Pt = NoPt | Pt(ofs: nat, mask: Word, shift: nat, length: nat)

  ghost predicate ValidPt(p: Pt, n: nat) {
    p.Pt? && p.ofs < n && Fits(p.shift, p.length) && p.mask == Mask(p.shift, p.length)
  }

  /** Handle for a window of a map of `n` words; the 32-bit mask is a special case of the code. */
  function PtByLoc(n: nat, ofs: int, bit: nat, length: nat): (p: Pt)
    ensures p.Pt? <==> Fits(bit, length) && 0 <= ofs < n
    ensures p.Pt? ==> ValidPt(p, n) && (p.ofs, p.shift, p.length) == (ofs, bit, length)
  {
    if bit + length > 32 || ofs < 0 || ofs >= n then NoPt
    else
      assert length == 32 ==> Shl(Not(Shl(ONES, length)), bit) == ONES;
      Pt(ofs, if length == 32 then ONES else Shl(Not(Shl(ONES, length)), bit), bit, length)
  }

  function SubPt(n: nat, p: Pt, bit: nat, length: nat): Pt {
    if p.NoPt? || p.length < bit + length then NoPt
    else PtByLoc(n, p.ofs, p.shift + bit, length)
  }

  /** A sub-point stays inside its parent, reads the parent's bits, and sub-points compose. */
  lemma SubPtInside(n: nat, p: Pt, bit: nat, length: nat, priv: seq<Word>)
    requires ValidPt(p, n) && |priv| == n
    ensures var q := SubPt(n, p, bit, length);
      && (q.Pt? <==> bit + length <= p.length)
      && (q.Pt? ==> && ValidPt(q, n) && q.ofs == p.ofs && Within(q.mask, p.mask)
                    && Get(priv, q) == And(Shr(Get(priv, p), bit), LowMask(length)))
  {}

  lemma SubPtCompose(n: nat, p: Pt, bit: nat, length: nat, bit': nat, length': nat)
    requires ValidPt(p, n) && bit + length <= p.length && bit' + length' <= length
    ensures SubPt(n, SubPt(n, p, bit, length), bit', length') == SubPt(n, p, bit + bit', length')
  {}

  // ----- reading and writing the private map -----

  function Get(priv: seq<Word>, p: Pt): Word
    requires p.Pt? && p.ofs < |priv|
  {
    Shr(And(priv[p.ofs], p.mask), p.shift)
  }

  function GetInverted(priv: seq<Word>, p: Pt): Word
    requires p.Pt? && p.ofs < |priv|
  {
    Shr(Not(And(priv[p.ofs], p.mask)), p.shift)
  }

  function Set(priv: seq<Word>, mask: seq<Word>, p: Pt, v: Word): seq<Word>
    requires p.Pt? && p.ofs < |priv| == |mask|
  {
    priv[p.ofs := Blend(priv[p.ofs], Shl(v, p.shift), And(p.mask, mask[p.ofs]))]
  }

  function SetInverted(priv: seq<Word>, mask: seq<Word>, p: Pt, v: Word): seq<Word>
    requires p.Pt? && p.ofs < |priv| == |mask|
  {
    priv[p.ofs := Blend(priv[p.ofs], Not(Shl(v, p.shift)), And(p.mask, mask[p.ofs]))]
  }

  /** 0 null, 1 read-only, 2 read-write, 3 mixed. */
  function Rw(mask: seq<Word>, p: Pt): nat
    requires p.Pt? && p.ofs < |mask|
  {
    (if And(Not(mask[p.ofs]), p.mask) != ZERO then 1 else 0) + (if And(mask[p.ofs], p.mask) != ZERO then 2 else 0)
  }

  /** Bit k of a read is bit shift + k of the word, inside the point, and 0 above it. */
  lemma GetBits(priv: seq<Word>, p: Pt, k: nat)
    requires ValidPt(p, |priv|) && k < 32
    ensures Get(priv, p)[k] <==> k < p.length && priv[p.ofs][p.shift + k]
  {
    if k + p.shift < 32 {
      MaskBits(p.shift, p.length, k + p.shift);
    }
  }

  /** A write gives bit j the value's bit j - shift where the point and the write mask have it, inverted or not, and keeps all else. */
  lemma SetBits(priv: seq<Word>, mask: seq<Word>, p: Pt, v: Word, i: nat, j: nat)
    requires ValidPt(p, |priv|) && |mask| == |priv| && i < |priv| && j < 32
    ensures var inside := i == p.ofs && p.shift <= j < p.shift + p.length && mask[i][j];
      && (Set(priv, mask, p, v)[i][j] <==> if inside then v[j - p.shift] else priv[i][j])
      && (SetInverted(priv, mask, p, v)[i][j] <==> if inside then !v[j - p.shift] else priv[i][j])
  {
    MaskBits(p.shift, p.length, j);
  }

  lemma AndIdentity(v: Word, w: Word)
    requires Within(v, w)
    ensures And(v, w) == v && And(w, v) == v
  {}

  /** On a point the module owns, a value read back is the value written modulo 2^length, in both polarities. */
  lemma SetThenGet(priv: seq<Word>, mask: seq<Word>, p: Pt, v: Word)
    requires ValidPt(p, |priv|) && |mask| == |priv| && Within(p.mask, mask[p.ofs])
    ensures Get(Set(priv, mask, p, v), p) == And(v, LowMask(p.length))
    ensures Value(Get(Set(priv, mask, p, v), p)) == Value(v) % Pow2(p.length)
    ensures And(GetInverted(SetInverted(priv, mask, p, v), p), LowMask(p.length)) == And(v, LowMask(p.length))
  {
    AndIdentity(p.mask, mask[p.ofs]);
    AndIdentity(p.mask, p.mask);
    BlendTakes(priv[p.ofs], Shl(v, p.shift), p.mask, p.mask);
    ShiftedField(p.shift, p.length, v);
    BlendTakes(priv[p.ofs], Not(Shl(v, p.shift)), p.mask, p.mask);
    InvertedField(p.shift, p.length, v);
    LowBitsAreMod(v, p.length);
  }

  /** The inverted read, bit by bit: the point inverted, then ones up to where the shift brings in zeros. */
  lemma InvertedBits(priv: seq<Word>, p: Pt, k: nat)
    requires ValidPt(p, |priv|) && k < 32
    ensures GetInverted(priv, p)[k] <==> if k < p.length then !Get(priv, p)[k] else k + p.shift < 32
  {
    if k + p.shift < 32 {
      MaskBits(p.shift, p.length, k + p.shift);
    }
  }

  /** It is the plain inverted value of the point exactly when the point ends at the top of its word. */
  lemma InvertedReadIff(priv: seq<Word>, p: Pt)
    requires ValidPt(p, |priv|)
    ensures GetInverted(priv, p) == And(Not(Get(priv, p)), LowMask(p.length)) <==> p.shift + p.length == 32
    ensures GetInverted(priv, p) == And(GetInverted(priv, p), LowMask(p.length)) <==> p.shift + p.length == 32
  {
    forall k | 0 <= k < 32
      ensures GetInverted(priv, p)[k] <==> if k < p.length then !Get(priv, p)[k] else k + p.shift < 32
    {
      InvertedBits(priv, p, k);
    }
    if p.shift + p.length < 32 {
      assert GetInverted(priv, p)[p.length] && !LowMask(p.length)[p.length];
    } else {
      assert GetInverted(priv, p) == And(Not(Get(priv, p)), LowMask(p.length));
    }
  }

  /** seti then geti gives the value modulo 2^length exactly for such points, whatever the value. */
  lemma SetThenGetInvertedIff(priv: seq<Word>, mask: seq<Word>, p: Pt, v: Word)
    requires ValidPt(p, |priv|) && |mask| == |priv| && Within(p.mask, mask[p.ofs])
    ensures GetInverted(SetInverted(priv, mask, p, v), p) == And(v, LowMask(p.length)) <==> p.shift + p.length == 32
  {
    SetThenGet(priv, mask, p, v);
    InvertedReadIff(SetInverted(priv, mask, p, v), p);
    AndIdentity(And(v, LowMask(p.length)), LowMask(p.length));
  }

  /** An owned one-bit point at bit 0: seti(0) and then geti gives 0xFFFFFFFE. */
  lemma InvertedReadFails()
    ensures var p := PtByLoc(1, 0, 0, 1);
      p.Pt? && GetInverted(SetInverted([ZERO], [ONES], p, ZERO), p) == Not(LowMask(1)) != ZERO
  {
    var p := PtByLoc(1, 0, 0, 1);
    var r := GetInverted(SetInverted([ZERO], [ONES], p, ZERO), p);
    forall k | 0 <= k < 32 ensures r[k] == Not(LowMask(1))[k] {
      MaskBits(0, 1, k);
    }
    assert r[1] && !ZERO[1];
  }

  /** A write reaches only writable bits of its own point. */
  lemma SetConfined(priv: seq<Word>, mask: seq<Word>, p: Pt, v: Word, i: nat, w: Word)
    requires p.Pt? && p.ofs < |priv| == |mask| && i < |priv|
    requires i == p.ofs ==> Disjoint(And(p.mask, mask[i]), w)
    ensures And(Set(priv, mask, p, v)[i], w) == And(priv[i], w)
    ensures And(SetInverted(priv, mask, p, v)[i], w) == And(priv[i], w)
  {
    if i == p.ofs {
      BlendKeeps(priv[i], Shl(v, p.shift), And(p.mask, mask[i]), w);
      BlendKeeps(priv[i], Not(Shl(v, p.shift)), And(p.mask, mask[i]), w);
    }
  }

  /** The four access classes, by what a write can do. */
  lemma RwMeaning(mask: seq<Word>, p: Pt)
    requires p.Pt? && p.ofs < |mask|
    ensures Rw(mask, p) == 0 <==> p.mask == ZERO
    ensures Rw(mask, p) == 1 <==> p.mask != ZERO && Disjoint(mask[p.ofs], p.mask)
    ensures Rw(mask, p) == 2 <==> p.mask != ZERO && Within(p.mask, mask[p.ofs])
    ensures Rw(mask, p) <= 3
  {
    var m, w := mask[p.ofs], p.mask;
    DisjointBits(Not(m), w);
    DisjointBits(m, w);
    WithinBits(w, m);
    if Disjoint(Not(m), w) && Disjoint(m, w) {
      assert w == ZERO;
    }
    if w == ZERO {
      assert Disjoint(Not(m), w) && Disjoint(m, w);
    }
  }

  // ----- exchanges with the global map -----

  datatype Maps = Maps(glob: seq<Word>, priv: seq<Word>, mask: seq<Word>)

  ghost predicate Sized(m: Maps, n: nat) {
    |m.glob| == |m.priv| == |m.mask| == n
  }

  /** One locked read-modify-write of word `ofs`, restricted to `bits`. */
  datatype Exchange = Exchange(ofs: nat, bits: Word)

  function NewGlob(g: Word, p: Word, m: Word, bits: Word): Word {
    Blend(g, p, And(m, bits))
  }

  function NewPriv(g: Word, p: Word, m: Word, bits: Word): Word {
    Blend(p, NewGlob(g, p, m, bits), bits)
  }

  function Exchanged(m: Maps, e: Exchange): Maps
    requires Sized(m, |m.glob|) && e.ofs < |m.glob|
  {
    var g, p, w := m.glob[e.ofs], m.priv[e.ofs], m.mask[e.ofs];
    m.(glob := m.glob[e.ofs := NewGlob(g, p, w, e.bits)], priv := m.priv[e.ofs := NewPriv(g, p, w, e.bits)])
  }

  ghost predicate InMap(es: seq<Exchange>, n: nat) {
    forall k :: 0 <= k < |es| ==> es[k].ofs < n
  }

  ghost function ExchangedAll(m: Maps, es: seq<Exchange>): (r: Maps)
    requires Sized(m, |m.glob|) && InMap(es, |m.glob|)
    ensures Sized(r, |m.glob|) && r.mask == m.mask
    decreases |es|
  {
    if es == [] then m else ExchangedAll(Exchanged(m, es[0]), es[1..])
  }

  /** plc_update goes through every word with all bits. */
  function WholeMap(n: nat): seq<Exchange> {
    seq(n, i requires 0 <= i < n => Exchange(i, ONES))
  }

  function ExchangeOf(p: Pt): Exchange
    requires p.Pt?
  {
    Exchange(p.ofs, p.mask)
  }

  function ExchangesOf(ps: seq<Pt>): seq<Exchange>
    requires forall k :: 0 <= k < |ps| ==> ps[k].Pt?
  {
    seq(|ps|, k requires 0 <= k < |ps| => ExchangeOf(ps[k]))
  }

  /** The bits of word `i` that a list of exchanges touches. */
  ghost function Touched(es: seq<Exchange>, i: nat): Word
    decreases |es|
  {
    if es == [] then ZERO
    else if es[0].ofs == i then Or(es[0].bits, Touched(es[1..], i))
    else Touched(es[1..], i)
  }

  lemma NothingTouched(g: Word, p: Word, m: Word)
    ensures NewGlob(g, p, m, ZERO) == g && NewPriv(g, p, m, ZERO) == p
  {}

  /** Two exchanges of one word are one exchange over the union of their bits. */
  lemma FuseExchanges(g: Word, p: Word, m: Word, x: Word, y: Word)
    ensures var g1, p1 := NewGlob(g, p, m, x), NewPriv(g, p, m, x);
            NewGlob(g1, p1, m, y) == NewGlob(g, p, m, Or(x, y)) && NewPriv(g1, p1, m, y) == NewPriv(g, p, m, Or(x, y))
  {}

  /** A list of exchanges is one masked exchange per word, over the union of its bits. */
  lemma {:induction false} ExchangesAreOne(m: Maps, es: seq<Exchange>, i: nat)
    requires Sized(m, |m.glob|) && InMap(es, |m.glob|) && i < |m.glob|
    ensures ExchangedAll(m, es).glob[i] == NewGlob(m.glob[i], m.priv[i], m.mask[i], Touched(es, i))
    ensures ExchangedAll(m, es).priv[i] == NewPriv(m.glob[i], m.priv[i], m.mask[i], Touched(es, i))
    decreases |es|
  {
    if es == [] {
      NothingTouched(m.glob[i], m.priv[i], m.mask[i]);
    } else {
      ExchangesAreOne(Exchanged(m, es[0]), es[1..], i);
      if es[0].ofs == i {
        FuseExchanges(m.glob[i], m.priv[i], m.mask[i], es[0].bits, Touched(es[1..], i));
      }
    }
  }

  lemma {:induction false} TouchedBits(es: seq<Exchange>, i: nat, k: nat)
    requires k < 32
    ensures Touched(es, i)[k] <==> exists j :: 0 <= j < |es| && es[j].ofs == i && es[j].bits[k]
    decreases |es|
  {
    if es == [] {
    } else {
      TouchedBits(es[1..], i, k);
      if Touched(es[1..], i)[k] {
        var j :| 0 <= j < |es[1..]| && es[1..][j].ofs == i && es[1..][j].bits[k];
        assert es[j + 1].ofs == i && es[j + 1].bits[k];
      }
      if j :| 0 <= j < |es| && es[j].ofs == i && es[j].bits[k] {
        if j > 0 {
          assert es[1..][j - 1].ofs == i && es[1..][j - 1].bits[k];
        }
      }
    }
  }

  /** Neither order nor repetition of the exchanged points matters. */
  lemma OrderIrrelevant(m: Maps, es: seq<Exchange>, fs: seq<Exchange>)
    requires Sized(m, |m.glob|) && InMap(es, |m.glob|) && InMap(fs, |m.glob|)
    requires forall e :: e in es <==> e in fs
    ensures ExchangedAll(m, es) == ExchangedAll(m, fs)
  {
    forall i | 0 <= i < |m.glob|
      ensures ExchangedAll(m, es).glob[i] == ExchangedAll(m, fs).glob[i]
      ensures ExchangedAll(m, es).priv[i] == ExchangedAll(m, fs).priv[i]
    {
      ExchangesAreOne(m, es, i);
      ExchangesAreOne(m, fs, i);
      forall k | 0 <= k < 32 ensures Touched(es, i)[k] == Touched(fs, i)[k] {
        TouchedBits(es, i, k);
        TouchedBits(fs, i, k);
        SameTouch(es, fs, i, k);
        SameTouch(fs, es, i, k);
      }
      assert Touched(es, i) == Touched(fs, i);
    }
  }

  lemma SameTouch(es: seq<Exchange>, fs: seq<Exchange>, i: nat, k: nat)
    requires k < 32 && forall e :: e in es ==> e in fs
    ensures (exists j :: 0 <= j < |es| && es[j].ofs == i && es[j].bits[k])
        ==> exists j :: 0 <= j < |fs| && fs[j].ofs == i && fs[j].bits[k]
  {
    if j :| 0 <= j < |es| && es[j].ofs == i && es[j].bits[k] {
      assert es[j] in fs;
      var j' :| 0 <= j' < |fs| && fs[j'] == es[j];
    }
  }

  /** Some point of the list has bit k of word i. */
  ghost predicate Selects(ps: seq<Pt>, i: nat, k: nat)
    requires k < 32
  {
    exists p :: p in ps && p.Pt? && p.ofs == i && p.mask[k]
  }

  /** Bit by bit: a selected bit goes to the global word where the write mask has it, and from it elsewhere; no other bit moves. */
  ghost predicate BitMoved(old0: Maps, new0: Maps, selected: bool, i: nat, k: nat)
    requires Sized(old0, |old0.glob|) && Sized(new0, |old0.glob|) && i < |old0.glob| && k < 32
  {
    && (new0.glob[i][k] <==> if selected && old0.mask[i][k] then old0.priv[i][k] else old0.glob[i][k])
    && (new0.priv[i][k] <==> if selected && !old0.mask[i][k] then old0.glob[i][k] else old0.priv[i][k])
  }

  /** What an update of a list of points does to the maps, by the masks of the points. */
  ghost predicate PointsMoved(old0: Maps, new0: Maps, ps: seq<Pt>) {
    && Sized(old0, |old0.glob|) && Sized(new0, |old0.glob|) && new0.mask == old0.mask
    && forall i: nat, k: nat :: i < |old0.glob| && k < 32 ==> BitMoved(old0, new0, Selects(ps, i, k), i, k)
  }

  lemma ListedBits(m: Maps, ps: seq<Pt>, i: nat, k: nat)
    requires Sized(m, |m.glob|) && (forall p :: p in ps ==> p.Pt? && p.ofs < |m.glob|) && i < |m.glob| && k < 32
    ensures BitMoved(m, ExchangedAll(m, ExchangesOf(ps)), Selects(ps, i, k), i, k)
  {
    var es := ExchangesOf(ps);
    ExchangesAreOne(m, es, i);
    TouchedBits(es, i, k);
    if Selects(ps, i, k) {
      var p :| p in ps && p.ofs == i && p.mask[k];
      var j :| 0 <= j < |ps| && ps[j] == p;
      assert es[j].ofs == i && es[j].bits[k];
    }
    if j :| 0 <= j < |es| && es[j].ofs == i && es[j].bits[k] {
      assert ps[j] in ps;
    }
  }

  /** The exchanges of a list of points move exactly the bits of their masks. */
  lemma ListedPointsMoved(m: Maps, ps: seq<Pt>)
    requires Sized(m, |m.glob|) && forall p :: p in ps ==> p.Pt? && p.ofs < |m.glob|
    ensures PointsMoved(m, ExchangedAll(m, ExchangesOf(ps)), ps)
  {
    forall i: nat, k: nat | i < |m.glob| && k < 32
      ensures BitMoved(m, ExchangedAll(m, ExchangesOf(ps)), Selects(ps, i, k), i, k)
    {
      ListedBits(m, ps, i, k);
    }
  }

  /** A full update moves every bit. */
  lemma AllBitsMoved(m: Maps, i: nat, k: nat)
    requires Sized(m, |m.glob|) && i < |m.glob| && k < 32
    ensures BitMoved(m, ExchangedAll(m, WholeMap(|m.glob|)), true, i, k)
  {
    WholeMapUpdate(m, i);
  }

  lemma WholeMapTouch(n: nat, i: nat)
    requires i < n
    ensures Touched(WholeMap(n), i) == ONES
  {
    var es := WholeMap(n);
    forall k | 0 <= k < 32 ensures Touched(es, i)[k] {
      TouchedBits(es, i, k);
      assert es[i] == Exchange(i, ONES);
      assert ONES[k] && es[i].bits[k];
    }
  }

  /** A full update publishes the owned bits, reads all others, and leaves both maps equal. */
  lemma WholeMapUpdate(m: Maps, i: nat)
    requires Sized(m, |m.glob|) && i < |m.glob|
    ensures InMap(WholeMap(|m.glob|), |m.glob|)
    ensures var r := ExchangedAll(m, WholeMap(|m.glob|));
            r.glob[i] == r.priv[i] == Blend(m.glob[i], m.priv[i], m.mask[i])
  {
    ExchangesAreOne(m, WholeMap(|m.glob|), i);
    WholeMapTouch(|m.glob|, i);
    OnesExchange(m.glob[i], m.priv[i], m.mask[i]);
  }

  /** Attaching runs one update before the mask is set up: it leaves a global word alone, whatever the private word holds, only if that mask word is zero. */
  lemma AttachHarmlessIff(g: Word, m: Word)
    ensures (forall p: Word :: NewGlob(g, p, m, ONES) == g) <==> m == ZERO
  {
    if m != ZERO {
      var k :| 0 <= k < 32 && m[k];
      assert NewGlob(g, Not(g), m, ONES)[k] != g[k];
    } else {
      forall p: Word ensures NewGlob(g, p, m, ONES) == g {
        OnesExchange(g, p, m);
      }
    }
  }

  /** For a given private word it does exactly when the two words agree under the mask. */
  lemma AttachSparesIff(g: Word, p: Word, m: Word)
    ensures NewGlob(g, p, m, ONES) == g <==> And(p, m) == And(g, m)
  {
    OnesExchange(g, p, m);
    forall k | 0 <= k < 32 ensures Blend(g, p, m)[k] == g[k] <==> And(p, m)[k] == And(g, m)[k] {
    }
    if Blend(g, p, m) == g {
      assert And(p, m) == And(g, m);
    }
    if And(p, m) == And(g, m) {
      assert Blend(g, p, m) == g;
    }
  }

  /** Fresh memory of all ones sets every bit of a global word of zeros. */
  lemma AttachOverwrites()
    ensures NewGlob(ZERO, ONES, ONES, ONES) == ONES != ZERO
  {
    assert ONES[0] && !ZERO[0];
  }

  // ----- the maps of one process -----

  class ModuleMaps {
    const glob: array<Word>
    const priv: array<Word>
    const mask: array<Word>

    ghost predicate Valid() {
      glob != priv && glob != mask && priv != mask && glob.Length == priv.Length == mask.Length
    }

    ghost function View(): Maps
      reads glob, priv, mask
    {
      Maps(glob[..], priv[..], mask[..])
    }

    /** Attach to the global map with zeroed private arrays. */
    constructor (glob: array<Word>)
      ensures Valid() && this.glob == glob && fresh(priv) && fresh(mask)
      ensures forall i :: 0 <= i < glob.Length ==> priv[i] == mask[i] == ZERO
    {
      this.glob := glob;
      var p := new Word[glob.Length](_ => ZERO);
      var m := new Word[glob.Length](_ => ZERO);
      priv, mask := p, m;
    }

    method Update()
      requires Valid()
      modifies glob, priv
      ensures InMap(WholeMap(glob.Length), glob.Length)
      ensures View() == ExchangedAll(old(View()), WholeMap(glob.Length))
      ensures mask[..] == old(mask[..])
      ensures forall i: nat, k: nat :: i < glob.Length && k < 32 ==> BitMoved(old(View()), View(), true, i, k)
    {
      ghost var es := WholeMap(glob.Length);
      var i := 0;
      while i < glob.Length
        invariant 0 <= i <= glob.Length
        invariant mask[..] == old(mask[..])
        invariant ExchangedAll(View(), es[i..]) == ExchangedAll(old(View()), es)
      {
        ghost var before := View();
        assert es[i..][0] == es[i] && es[i..][1..] == es[i + 1..];
        glob[i] := Blend(glob[i], priv[i], mask[i]);
        priv[i] := glob[i];
        OnesExchange(before.glob[i], before.priv[i], before.mask[i]);
        assert View() == Exchanged(before, es[i]);
        i := i + 1;
      }
      assert es[i..] == [];
      forall i: nat, k: nat | i < glob.Length && k < 32 ensures BitMoved(old(View()), View(), true, i, k) {
        AllBitsMoved(old(View()), i, k);
      }
    }

    method ExchangeWord(p: Pt)
      requires Valid() && p.Pt? && p.ofs < glob.Length
      modifies glob, priv
      ensures View() == Exchanged(old(View()), ExchangeOf(p))
    {
      glob[p.ofs] := Blend(glob[p.ofs], priv[p.ofs], And(mask[p.ofs], p.mask));
      priv[p.ofs] := Blend(priv[p.ofs], glob[p.ofs], p.mask);
      assert View() == Exchanged(old(View()), ExchangeOf(p));
    }

    /** A handle without the magic number ends the process; the points before it were exchanged. */
    method UpdatePts(ps: seq<Pt>) returns (exited: bool)
      requires Valid()
      requires forall k :: 0 <= k < |ps| && ps[k].Pt? ==> ps[k].ofs < glob.Length
      modifies glob, priv
      ensures exited <==> NoPt in ps
      ensures View() == ExchangedAll(old(View()), ExchangesOf(BeforeNoPt(ps)))
      ensures PointsMoved(old(View()), View(), BeforeNoPt(ps))
    {
      ghost var good := BeforeNoPt(ps);
      ghost var es := ExchangesOf(good);
      var i := 0;
      while i < |ps|
        invariant 0 <= i <= |good|
        invariant ExchangedAll(View(), es[i..]) == ExchangedAll(old(View()), es)
      {
        if ps[i].NoPt? {
          assert i == |good| && es[i..] == [];
          GoodPointsMoved(old(View()), ps);
          return true;
        }
        assert i < |good|;
        assert es[i..][0] == es[i] && es[i..][1..] == es[i + 1..];
        ExchangeWord(ps[i]);
        i := i + 1;
      }
      assert es[i..] == [];
      GoodPointsMoved(old(View()), ps);
      return false;
    }

    method UpdatePt(p: Pt) returns (exited: bool)
      requires Valid() && (p.Pt? ==> p.ofs < glob.Length)
      modifies glob, priv
      ensures exited <==> p.NoPt?
      ensures View() == if p.NoPt? then old(View()) else Exchanged(old(View()), ExchangeOf(p))
      ensures p.Pt? ==> PointsMoved(old(View()), View(), [p])
    {
      if p.NoPt? {
        return true;
      }
      ExchangeWord(p);
      ListedPointsMoved(old(View()), [p]);
      assert ExchangesOf([p]) == [ExchangeOf(p)] && [ExchangeOf(p)][1..] == [];
      assert ExchangedAll(old(View()), ExchangesOf([p])) == Exchanged(old(View()), ExchangeOf(p));
      return false;
    }

    method SetPoint(p: Pt, v: Word)
      requires Valid() && p.Pt? && p.ofs < glob.Length
      modifies priv
      ensures View() == old(View()).(priv := Set(old(priv[..]), old(mask[..]), p, v))
    {
      priv[p.ofs] := Blend(priv[p.ofs], Shl(v, p.shift), And(p.mask, mask[p.ofs]));
    }

    /** gmm_set_pt_w_perm: write access whoever owns the point. */
    method GrantWrite(p: Pt)
      requires Valid() && p.Pt? && p.ofs < glob.Length
      modifies mask
      ensures View() == old(View()).(mask := old(mask[..])[p.ofs := Or(old(mask[p.ofs]), p.mask)])
    {
      mask[p.ofs] := Or(mask[p.ofs], p.mask);
    }
  }

  lemma OnesExchange(g: Word, p: Word, m: Word)
    ensures NewGlob(g, p, m, ONES) == NewPriv(g, p, m, ONES) == Blend(g, p, m)
  {}

  /** The points before the first invalid handle; all of them when there is none. */
  ghost function BeforeNoPt(ps: seq<Pt>): (r: seq<Pt>)
    ensures |r| <= |ps| && r == ps[..|r|] && NoPt !in r
    ensures |r| < |ps| ==> ps[|r|].NoPt?
    ensures NoPt !in ps ==> r == ps
  {
    if ps == [] || ps[0].NoPt? then [] else [ps[0]] + BeforeNoPt(ps[1..])
  }

  lemma GoodPointsMoved(m: Maps, ps: seq<Pt>)
    requires Sized(m, |m.glob|) && forall k :: 0 <= k < |ps| && ps[k].Pt? ==> ps[k].ofs < |m.glob|
    ensures InMap(ExchangesOf(BeforeNoPt(ps)), |m.glob|)
    ensures PointsMoved(m, ExchangedAll(m, ExchangesOf(BeforeNoPt(ps))), BeforeNoPt(ps))
  {
    var good := BeforeNoPt(ps);
    forall p | p in good ensures p.Pt? && p.ofs < |m.glob| {
      var k :| 0 <= k < |good| && good[k] == p;
      assert ps[k] == p;
    }
    ListedPointsMoved(m, good);
  }

  // ----- isolate mode: the same points in requests of at most eight -----

  const MAX_POINTS := 8

  /** The requests that carry `ps`, each filled from the end of the remaining list. */
  method Chunks(ps: seq<Pt>) returns (requests: seq<seq<Pt>>)
    ensures forall r :: r in requests ==> 1 <= |r| <= MAX_POINTS
    ensures Flat(requests) == Reversed(ps)
    ensures |requests| == (|ps| + 7) / 8
  {
    requests := [];
    var count := |ps|;
    while count > 0
      invariant 0 <= count <= |ps|
      invariant forall r :: r in requests ==> 1 <= |r| <= MAX_POINTS
      invariant Flat(requests) == Reversed(ps)[..|ps| - count]
      invariant |requests| + (count + 7) / 8 == (|ps| + 7) / 8
    {
      var packet: seq<Pt> := [];
      ghost var start := count;
      while |packet| < MAX_POINTS && count > 0
        invariant 0 <= count <= start && |packet| == start - count <= MAX_POINTS
        invariant packet == Reversed(ps)[|ps| - start..|ps| - count]
      {
        packet := packet + [ps[count - 1]];
        count := count - 1;
      }
      FlatAppend(requests, packet);
      assert Flat(requests) + packet == Reversed(ps)[..|ps| - count];
      requests := requests + [packet];
    }
  }

  ghost function Flat(requests: seq<seq<Pt>>): seq<Pt> {
    if requests == [] then [] else requests[0] + Flat(requests[1..])
  }

  lemma {:induction false} FlatAppend(requests: seq<seq<Pt>>, r: seq<Pt>)
    ensures Flat(requests + [r]) == Flat(requests) + r
  {
    if requests == [] {
    } else {
      FlatAppend(requests[1..], r);
      assert (requests + [r])[1..] == requests[1..] + [r];
    }
  }

  function Reversed(ps: seq<Pt>): seq<Pt> {
    seq(|ps|, k requires 0 <= k < |ps| => ps[|ps| - 1 - k])
  }

  lemma ReversedSame(ps: seq<Pt>, p: Pt)
    ensures p in Reversed(ps) <==> p in ps
  {
    if p in ps {
      var k :| 0 <= k < |ps| && ps[k] == p;
      assert Reversed(ps)[|ps| - 1 - k] == p;
    }
  }

  /** What the proxy does for a list of requests, one local update_pts each. */
  ghost function Served(m: Maps, requests: seq<seq<Pt>>): (r: Maps)
    requires Sized(m, |m.glob|)
    requires forall r, p :: r in requests && p in r ==> p.Pt? && p.ofs < |m.glob|
    ensures Sized(r, |m.glob|)
    decreases |requests|
  {
    if requests == [] then m
    else assert forall p :: p in requests[0] ==> p.Pt? && p.ofs < |m.glob|;
         Served(ExchangedAll(m, ExchangesOf(requests[0])), requests[1..])
  }

  lemma {:induction false} ExchangedAllAppend(m: Maps, es: seq<Exchange>, fs: seq<Exchange>)
    requires Sized(m, |m.glob|) && InMap(es, |m.glob|) && InMap(fs, |m.glob|)
    ensures InMap(es + fs, |m.glob|)
    ensures ExchangedAll(m, es + fs) == ExchangedAll(ExchangedAll(m, es), fs)
    decreases |es|
  {
    if es == [] {
      assert es + fs == fs;
    } else {
      assert (es + fs)[1..] == es[1..] + fs;
      ExchangedAllAppend(Exchanged(m, es[0]), es[1..], fs);
    }
  }

  lemma ExchangesOfAppend(ps: seq<Pt>, qs: seq<Pt>)
    requires (forall k :: 0 <= k < |ps| ==> ps[k].Pt?) && (forall k :: 0 <= k < |qs| ==> qs[k].Pt?)
    ensures ExchangesOf(ps + qs) == ExchangesOf(ps) + ExchangesOf(qs)
  {}

  /** Two update calls are one call over both lists. */
  lemma UpdateAppend(m: Maps, ps: seq<Pt>, qs: seq<Pt>)
    requires Sized(m, |m.glob|) && (forall p :: p in ps ==> p.Pt? && p.ofs < |m.glob|) && (forall p :: p in qs ==> p.Pt? && p.ofs < |m.glob|)
    ensures forall p :: p in ps + qs ==> p.Pt? && p.ofs < |m.glob|
    ensures ExchangedAll(m, ExchangesOf(ps + qs)) == ExchangedAll(ExchangedAll(m, ExchangesOf(ps)), ExchangesOf(qs))
  {
    ExchangesOfAppend(ps, qs);
    ExchangedAllAppend(m, ExchangesOf(ps), ExchangesOf(qs));
  }

  lemma {:induction false} ServedIsFlat(m: Maps, requests: seq<seq<Pt>>)
    requires Sized(m, |m.glob|)
    requires forall r, p :: r in requests && p in r ==> p.Pt? && p.ofs < |m.glob|
    ensures forall p :: p in Flat(requests) ==> p.Pt? && p.ofs < |m.glob|
    ensures Served(m, requests) == ExchangedAll(m, ExchangesOf(Flat(requests)))
    decreases |requests|
  {
    if requests == [] {
    } else {
      var r := requests[0];
      assert forall p :: p in r ==> p.Pt? && p.ofs < |m.glob|;
      ServedIsFlat(ExchangedAll(m, ExchangesOf(r)), requests[1..]);
      UpdateAppend(m, r, Flat(requests[1..]));
    }
  }

  lemma ReversedExchanges(m: Maps, ps: seq<Pt>)
    requires Sized(m, |m.glob|) && forall p :: p in ps ==> p.Pt? && p.ofs < |m.glob|
    ensures forall p :: p in Reversed(ps) ==> p in ps
    ensures ExchangedAll(m, ExchangesOf(Reversed(ps))) == ExchangedAll(m, ExchangesOf(ps))
  {
    forall p ensures p in Reversed(ps) <==> p in ps {
      ReversedSame(ps, p);
    }
    var es, fs := ExchangesOf(ps), ExchangesOf(Reversed(ps));
    forall e ensures e in es <==> e in fs {
      SameExchanges(ps, Reversed(ps), e);
      SameExchanges(Reversed(ps), ps, e);
    }
    OrderIrrelevant(m, es, fs);
  }

  /** Without interference the chunked requests of the proxy leave the maps that one local call leaves. */
  lemma ChunksLikeLocal(m: Maps, ps: seq<Pt>, requests: seq<seq<Pt>>)
    requires Sized(m, |m.glob|) && forall p :: p in ps ==> p.Pt? && p.ofs < |m.glob|
    requires Flat(requests) == Reversed(ps)
    ensures forall r, p :: r in requests && p in r ==> p.Pt? && p.ofs < |m.glob|
    ensures Served(m, requests) == ExchangedAll(m, ExchangesOf(ps))
  {
    ReversedExchanges(m, ps);
    forall r, p | r in requests && p in r ensures p in ps {
      InFlat(requests, r, p);
    }
    ServedIsFlat(m, requests);
  }

  lemma SameExchanges(ps: seq<Pt>, qs: seq<Pt>, e: Exchange)
    requires forall p :: p in ps ==> p.Pt? && p in qs
    requires forall p :: p in qs ==> p.Pt?
    ensures e in ExchangesOf(ps) ==> e in ExchangesOf(qs)
  {
    if e in ExchangesOf(ps) {
      var k :| 0 <= k < |ps| && ExchangesOf(ps)[k] == e;
      assert ps[k] in qs;
      var j :| 0 <= j < |qs| && qs[j] == ps[k];
      assert ExchangesOf(qs)[j] == e;
    }
  }

  lemma {:induction false} InFlat(requests: seq<seq<Pt>>, r: seq<Pt>, p: Pt)
    requires r in requests && p in r
    ensures p in Flat(requests)
  {
    if r != requests[0] {
      InFlat(requests[1..], r, p);
    }
  }
}
