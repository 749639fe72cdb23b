/**
 Loading the configured points into the map, and the write masks that modules derive from the
 registry (lib/gmm/gmm_setup.c, gmm_load_confmap and below; lib/gmm/gmm.c, gmm_init_mapmask).
 */
module Loader {
  import opened Wrappers
  import opened Words
  import opened PointMemory
  import opened Numerals
  import opened RowParser

  // ----- the registry of points -----

  /** `exact` tells whether the point's block has the size of an entry; a block too small to split is larger. */
  datatype PointConf = PointConf(name: string, owner: string, ofs: int, bit: nat, length: nat, exact: bool)

  type Registry = seq<PointConf>

  datatype Place = Place(index: nat, exact: bool)

  /** Where the configuration memory puts the next point in its block order, and in what block; None when it is full. */
  type Placement = Registry -> Option<Place>

  function NewEntry(reg: Registry, place: Placement, name: string, owner: string, ofs: int, bit: nat, length: nat): (e: PointConf)
    ensures (e.name, e.owner, e.ofs, e.bit, e.length) == (name, owner, ofs, bit, length)
  {
    PointConf(name, owner, ofs, bit, length, if place(reg).Some? then place(reg).value.exact else true)
  }

  function Insert(reg: Registry, e: PointConf, place: Placement): Option<Registry> {
    match place(reg)
    case None => None
    case Some(k) => var j := if k.index <= |reg| then k.index else |reg|;
                    Some(reg[..j] + [e] + reg[j..])
  }

  predicate AllExact(reg: Registry) {
    forall e :: e in reg ==> e.exact
  }

  /** The first point of the name, unless its block has another size. */
  function Find(reg: Registry, name: string): (r: Option<PointConf>)
    ensures r.Some? ==> r.value in reg && r.value.name == name && r.value.exact
    ensures r.None? ==> (forall e :: e in reg ==> e.name != name) || exists e :: e in reg && e.name == name && !e.exact
  {
    if reg == [] then None
    else if reg[0].name == name then
      assert reg[0] in reg;
      if reg[0].exact then Some(reg[0]) else None
    else Find(reg[1..], name)
  }

  /** Find looks at the first point of the name and at no other. */
  lemma {:induction false} FindFirst(reg: Registry, name: string, k: nat)
    requires k < |reg| && reg[k].name == name && forall j :: 0 <= j < k ==> reg[j].name != name
    ensures Find(reg, name) == if reg[k].exact then Some(reg[k]) else None
    decreases k
  {
    if k == 0 {
    } else {
      assert reg[1..][k - 1] == reg[k] && reg[0].name != name;
      FindFirst(reg[1..], name, k - 1);
    }
  }

  function Remove(reg: Registry, name: string): Registry {
    if reg == [] then [] else if reg[0].name == name then reg[1..] else [reg[0]] + Remove(reg[1..], name)
  }

  function HandleOf(n: nat, e: PointConf): Pt {
    PtByLoc(n, e.ofs, e.bit, e.length)
  }

  function PtByName(n: nat, reg: Registry, name: string): Pt {
    match Find(reg, name)
    case None => NoPt
    case Some(e) => HandleOf(n, e)
  }

  /** Bit k of word i belongs to the point. */
  predicate Holds(e: PointConf, i: int, k: int) {
    e.ofs == i && e.bit <= k < e.bit + e.length
  }

  ghost predicate InWord(e: PointConf, n: nat) {
    0 <= e.ofs < n && Fits(e.bit, e.length)
  }

  ghost predicate UniqueNames(reg: Registry) {
    forall a, b :: 0 <= a < |reg| && 0 <= b < |reg| && a != b ==> reg[a].name != reg[b].name
  }

  /** Names are unique as long as every block has the size of an entry; others hide the points of their name. */
  ghost predicate Named(reg: Registry) {
    AllExact(reg) ==> UniqueNames(reg)
  }

  ghost predicate Overlap(d: PointConf, e: PointConf) {
    exists i, k :: Holds(d, i, k) && Holds(e, i, k)
  }

  lemma Inserted(reg: Registry, e: PointConf, place: Placement)
    ensures var r := Insert(reg, e, place); r.Some? ==>
      && |r.value| == |reg| + 1
      && (forall d :: d in r.value <==> d == e || d in reg)
      && (Named(reg) && Find(reg, e.name).None? ==> Named(r.value))
  {
    var r := Insert(reg, e, place);
    if r.Some? {
      var k := place(reg).value.index;
      var j := if k <= |reg| then k else |reg|;
      assert r.value[j] == e;
      forall d | d in reg ensures d in r.value {
        var a :| 0 <= a < |reg| && reg[a] == d;
        assert r.value[if a < j then a else a + 1] == d;
      }
      if Named(reg) && Find(reg, e.name).None? && AllExact(r.value) {
        InsertedUnique(reg, e, j);
      }
    }
  }

  /** The new entry has the number that the configuration memory gives its block, and the others keep their order. */
  lemma InsertKeepsOrder(reg: Registry, e: PointConf, place: Placement, k: nat, exact: bool, a: nat)
    requires place(reg) == Some(Place(k, exact)) && k <= |reg| && a < |reg|
    ensures var r := Insert(reg, e, place);
      r.Some? && |r.value| == |reg| + 1 && r.value[k] == e && r.value[if a < k then a else a + 1] == reg[a]
  {}

  lemma InsertedUnique(reg: Registry, e: PointConf, j: nat)
    requires j <= |reg| && UniqueNames(reg) && forall d :: d in reg ==> d.name != e.name
    ensures UniqueNames(reg[..j] + [e] + reg[j..])
  {}

  // ----- first-fit search -----

  ghost predicate FreeAt(priv: seq<Word>, i: int, b: int, length: nat) {
    0 <= i < |priv| && 0 <= b && b + length <= 32 && Get(priv, PtByLoc(|priv|, i, b, length)) == ZERO
  }

  /** (i, b) is free and comes before every other free place in the order of word, then bit. */
  ghost predicate IsFirstFit(priv: seq<Word>, i: int, b: int, length: nat) {
    && FreeAt(priv, i, b, length)
    && forall i', b' :: FreeAt(priv, i', b', length) ==> i < i' || (i == i' && b <= b')
  }

  ghost function FirstFit(priv: seq<Word>, length: nat): (r: Option<(nat, nat)>)
    ensures r.Some? ==> IsFirstFit(priv, r.value.0, r.value.1, length)
  {
    if i: nat, b: nat :| IsFirstFit(priv, i, b, length) then Some((i, b)) else None
  }

  lemma FirstFitUnique(priv: seq<Word>, i: nat, b: nat, length: nat)
    requires IsFirstFit(priv, i, b, length)
    ensures FirstFit(priv, length) == Some((i, b))
  {}

  /** The nested scan returns the least free place, and fails only when no word has one. */
  method FindLocation(priv: array<Word>, length: nat) returns (r: Option<(nat, nat)>)
    ensures r == FirstFit(priv[..], length)
    ensures r == None <==> forall i, b :: !FreeAt(priv[..], i, b, length)
  {
    if length > 32 {
      return None;
    }
    var bitMax := 32 - length + 1;
    var ofs := 0;
    while ofs < priv.Length
      invariant 0 <= ofs <= priv.Length
      invariant forall i, b :: FreeAt(priv[..], i, b, length) ==> i >= ofs
    {
      var bit := 0;
      while bit < bitMax
        invariant 0 <= bit <= bitMax
        invariant forall i, b :: FreeAt(priv[..], i, b, length) ==> i > ofs || (i == ofs && b >= bit)
      {
        var p := PtByLoc(priv.Length, ofs, bit, length);
        if p.Pt? && Get(priv[..], p) == ZERO {
          assert IsFirstFit(priv[..], ofs, bit, length);
          FirstFitUnique(priv[..], ofs, bit, length);
          return Some((ofs, bit));
        }
        bit := bit + 1;
      }
      ofs := ofs + 1;
    }
    return None;
  }

  lemma FreeBits(priv: seq<Word>, p: Pt)
    requires ValidPt(p, |priv|)
    ensures Get(priv, p) == ZERO <==> forall k :: p.shift <= k < p.shift + p.length ==> !priv[p.ofs][k]
  {
    var w := priv[p.ofs];
    if Get(priv, p) == ZERO {
      forall k | p.shift <= k < p.shift + p.length ensures !w[k] {
        MaskBits(p.shift, p.length, k);
        assert Get(priv, p)[k - p.shift] == And(w, p.mask)[k];
      }
    } else {
      var j :| 0 <= j < 32 && Get(priv, p)[j];
      MaskBits(p.shift, p.length, j + p.shift);
    }
  }

  // ----- loading one point -----

  /** `x` is the offset variable of the loader, `loaded` the points written so far with their initial values. */
  datatype LoadState = LoadState(maps: Maps, reg: Registry, x: int, loaded: seq<(PointConf, Word)>)

  function Granted(m: Maps, p: Pt): Maps
    requires p.Pt? && p.ofs < |m.mask|
  {
    m.(mask := m.mask[p.ofs := Or(m.mask[p.ofs], p.mask)])
  }

  function Written(m: Maps, p: Pt, v: Word): Maps
    requires Sized(m, |m.glob|) && p.Pt? && p.ofs < |m.glob|
  {
    m.(priv := Set(m.priv, m.mask, p, v))
  }

  /** The maps after the loader has taken the point and published its initial value. */
  function Initialised(m: Maps, p: Pt, v: Word): Maps
    requires Sized(m, |m.glob|) && p.Pt? && p.ofs < |m.glob|
  {
    Exchanged(Written(Granted(m, p), p, v), ExchangeOf(p))
  }

  ghost function LoadDef(s: LoadState, def: PointDef, place: Placement): LoadState
    requires Sized(s.maps, |s.maps.glob|)
  {
    var n := |s.maps.glob|;
    var at := if def.fixed then Some((def.x, def.y)) else FirstFit(s.maps.priv, def.length);
    if at == None then s.(x := def.x)
    else
      var (ofs, bit) := at.value;
      var t := s.(x := ofs);
      var e := NewEntry(s.reg, place, def.id, def.owner, ofs, bit, def.length);
      var p := HandleOf(n, e);
      if PtByName(n, s.reg, def.id).Pt? || p.NoPt? || Get(s.maps.priv, p) != ZERO then t
      else match Insert(s.reg, e, place)
           case None => t
           case Some(reg) =>
             var m := Initialised(s.maps, p, def.init);
             if Get(m.priv, p) != def.init then t.(maps := m, reg := Remove(reg, def.id))
             else t.(maps := Written(m, p, ONES), reg := reg, loaded := s.loaded + [(e, def.init)])
  }

  /** One row in the pass for fixed points or in the pass for floating ones. */
  ghost function LoadRow(s: LoadState, row: seq<string>, fixedPass: bool, place: Placement, num: Numbers): LoadState
    requires Sized(s.maps, |s.maps.glob|)
  {
    match ParseRow(row, s.x, num)
    case None => s
    case Some(def) => if def.fixed != fixedPass then s.(x := def.x) else LoadDef(s, def, place)
  }

  ghost function LoadRows(s: LoadState, rows: seq<seq<string>>, fixedPass: bool, place: Placement, num: Numbers): (r: LoadState)
    requires Sized(s.maps, |s.maps.glob|)
    ensures Sized(r.maps, |s.maps.glob|)
    decreases |rows|
  {
    if rows == [] then s else LoadRows(LoadRow(s, rows[0], fixedPass, place, num), rows[1..], fixedPass, place, num)
  }

  // ----- what every step of the loading keeps -----

  ghost predicate Occupied(reg: Registry, i: int, k: int) {
    exists e :: e in reg && Holds(e, i, k)
  }

  /** Points are inside the map and apart, and the 1 bits of the private map and of the mask are exactly theirs. */
  ghost predicate Laid(m: Maps, reg: Registry) {
    && Sized(m, |m.glob|)
    && Named(reg)
    && (forall e :: e in reg ==> InWord(e, |m.glob|) && e.length >= 1)
    && (forall d, e :: d in reg && e in reg && d != e ==> !Overlap(d, e))
    && (forall i, k :: 0 <= i < |m.glob| && 0 <= k < 32 ==>
          && (m.priv[i][k] <==> Occupied(reg, i, k))
          && (m.mask[i][k] <==> Occupied(reg, i, k)))
  }

  ghost predicate ValuesWritten(m: Maps, loaded: seq<(PointConf, Word)>) {
    forall j :: 0 <= j < |loaded| ==>
      HandleOf(|m.glob|, loaded[j].0).Pt? && Get(m.glob, HandleOf(|m.glob|, loaded[j].0)) == loaded[j].1
  }

  ghost predicate Loaded(s: LoadState) {
    && Laid(s.maps, s.reg)
    && ValuesWritten(s.maps, s.loaded)
    && (forall e :: e in s.reg <==> exists j :: 0 <= j < |s.loaded| && s.loaded[j].0 == e)
  }

  /** Bit by bit: the effect of taking a free point. */
  lemma TakenBits(m: Maps, p: Pt, v: Word, i: nat, k: nat)
    requires Sized(m, |m.glob|) && ValidPt(p, |m.glob|) && i < |m.glob| && k < 32
    ensures var m1 := Initialised(m, p, v); var m2 := Written(m1, p, ONES);
      var inside := i == p.ofs && p.shift <= k < p.shift + p.length;
      && (m2.mask[i][k] <==> m.mask[i][k] || inside)
      && (m2.priv[i][k] <==> m.priv[i][k] || inside)
      && m2.glob == m1.glob && (m1.glob[i][k] <==> if inside then v[k - p.shift] else m.glob[i][k])
      && (m1.priv[i][k] <==> if inside then v[k - p.shift] else m.priv[i][k])
  {}

  lemma TakenValue(m: Maps, p: Pt, v: Word)
    requires Sized(m, |m.glob|) && ValidPt(p, |m.glob|) && Within(v, LowMask(p.length))
    ensures Get(Initialised(m, p, v).priv, p) == v && Get(Initialised(m, p, v).glob, p) == v
  {}

  lemma OtherValue(m: Maps, p: Pt, v: Word, q: Pt)
    requires Sized(m, |m.glob|) && ValidPt(p, |m.glob|) && ValidPt(q, |m.glob|)
    requires p.ofs == q.ofs ==> Apart(p.shift, p.length, q.shift, q.length)
    ensures Get(Initialised(m, p, v).glob, q) == Get(m.glob, q)
  {}

  lemma NewPointApart(m: Maps, reg: Registry, e: PointConf, d: PointConf)
    requires Laid(m, reg) && InWord(e, |m.glob|) && Get(m.priv, HandleOf(|m.glob|, e)) == ZERO && d in reg
    ensures !Overlap(d, e) && (d.ofs == e.ofs ==> Apart(e.bit, e.length, d.bit, d.length))
  {
    FreeBits(m.priv, HandleOf(|m.glob|, e));
    forall i, k ensures !(Holds(d, i, k) && Holds(e, i, k)) {
      if Holds(d, i, k) && Holds(e, i, k) {
        assert Occupied(reg, i, k);
      }
    }
    if d.ofs == e.ofs && !Apart(e.bit, e.length, d.bit, d.length) {
      var k := if e.bit <= d.bit then d.bit else e.bit;
      assert Holds(d, e.ofs, k) && Holds(e, e.ofs, k);
    }
  }

  lemma LaidAfter(m: Maps, reg: Registry, e: PointConf, v: Word, place: Placement)
    requires Laid(m, reg) && InWord(e, |m.glob|) && e.length >= 1
    requires Find(reg, e.name).None? && Get(m.priv, HandleOf(|m.glob|, e)) == ZERO
    requires Insert(reg, e, place).Some?
    ensures Laid(Written(Initialised(m, HandleOf(|m.glob|, e), v), HandleOf(|m.glob|, e), ONES), Insert(reg, e, place).value)
  {
    var p := HandleOf(|m.glob|, e);
    var m2 := Written(Initialised(m, p, v), p, ONES);
    var reg' := Insert(reg, e, place).value;
    Inserted(reg, e, place);
    forall d | d in reg ensures !Overlap(d, e) && !Overlap(e, d) {
      NewPointApart(m, reg, e, d);
    }
    forall i, k | 0 <= i < |m.glob| && 0 <= k < 32
      ensures (m2.priv[i][k] <==> Occupied(reg', i, k)) && (m2.mask[i][k] <==> Occupied(reg', i, k))
    {
      TakenBits(m, p, v, i, k);
      assert Occupied(reg', i, k) <==> Occupied(reg, i, k) || Holds(e, i, k);
    }
  }

  lemma ValuesAfter(s: LoadState, e: PointConf, v: Word)
    requires Loaded(s) && InWord(e, |s.maps.glob|) && Get(s.maps.priv, HandleOf(|s.maps.glob|, e)) == ZERO
    requires Within(v, LowMask(e.length))
    ensures var p := HandleOf(|s.maps.glob|, e);
      ValuesWritten(Written(Initialised(s.maps, p, v), p, ONES), s.loaded + [(e, v)])
  {
    var p := HandleOf(|s.maps.glob|, e);
    TakenValue(s.maps, p, v);
    forall j | 0 <= j < |s.loaded|
      ensures Get(Initialised(s.maps, p, v).glob, HandleOf(|s.maps.glob|, s.loaded[j].0)) == s.loaded[j].1
    {
      var d := s.loaded[j].0;
      assert d in s.reg;
      NewPointApart(s.maps, s.reg, e, d);
      OtherValue(s.maps, p, v, HandleOf(|s.maps.glob|, d));
    }
  }

  lemma LoadDefKeeps(s: LoadState, def: PointDef, place: Placement)
    requires Loaded(s) && 1 <= def.length <= 32 && Within(def.init, LowMask(def.length))
    ensures Loaded(LoadDef(s, def, place))
    ensures forall e :: e in s.reg ==> e in LoadDef(s, def, place).reg
  {
    var at := if def.fixed then Some((def.x, def.y)) else FirstFit(s.maps.priv, def.length);
    if at.Some? {
      var e := NewEntry(s.reg, place, def.id, def.owner, at.value.0, at.value.1, def.length);
      var p := HandleOf(|s.maps.glob|, e);
      if PtByName(|s.maps.glob|, s.reg, def.id).NoPt? && p.Pt? && Get(s.maps.priv, p) == ZERO
         && Insert(s.reg, e, place).Some? {
        TakenValue(s.maps, p, def.init);
        LaidAfter(s.maps, s.reg, e, def.init, place);
        ValuesAfter(s, e, def.init);
        Inserted(s.reg, e, place);
        LogExtended(s, e, def.init, Insert(s.reg, e, place).value);
      }
    }
  }

  lemma LogExtended(s: LoadState, e: PointConf, v: Word, reg: Registry)
    requires forall d :: d in s.reg <==> exists j :: 0 <= j < |s.loaded| && s.loaded[j].0 == d
    requires forall d :: d in reg <==> d == e || d in s.reg
    ensures var l := s.loaded + [(e, v)]; forall d :: d in reg <==> exists j :: 0 <= j < |l| && l[j].0 == d
  {
    var l := s.loaded + [(e, v)];
    forall d ensures d in reg <==> exists j :: 0 <= j < |l| && l[j].0 == d {
      if d == e {
        assert l[|s.loaded|].0 == d;
      } else if d in s.reg {
        var j :| 0 <= j < |s.loaded| && s.loaded[j].0 == d;
        assert l[j].0 == d;
      }
    }
  }

  /** The window of the definition meets a registered point. */
  ghost predicate Taken(reg: Registry, e: PointConf) {
    exists d :: d in reg && Overlap(d, e)
  }

  lemma FreeIffNotTaken(m: Maps, reg: Registry, e: PointConf)
    requires Laid(m, reg) && InWord(e, |m.glob|)
    ensures Get(m.priv, HandleOf(|m.glob|, e)) == ZERO <==> !Taken(reg, e)
  {
    var p := HandleOf(|m.glob|, e);
    FreeBits(m.priv, p);
    if Get(m.priv, p) != ZERO {
      var k :| p.shift <= k < p.shift + p.length && m.priv[p.ofs][k];
      assert Occupied(reg, p.ofs, k);
      var d :| d in reg && Holds(d, p.ofs, k);
      assert Holds(e, p.ofs, k) && Overlap(d, e);
    } else if Taken(reg, e) {
      var d :| d in reg && Overlap(d, e);
      NewPointApart(m, reg, e, d);
    }
  }

  /** Where a definition can go: its own location, or any place for a floating one. */
  ghost predicate HasRoom(s: LoadState, def: PointDef) {
    if def.fixed then
      var e := PointConf(def.id, def.owner, def.x, def.y, def.length, true);
      InWord(e, |s.maps.glob|) && !Taken(s.reg, e)
    else exists i, b :: FreeAt(s.maps.priv, i, b, def.length)
  }

  lemma FirstFitExists(priv: seq<Word>, length: nat, i: int, b: int)
    requires FreeAt(priv, i, b, length)
    ensures FirstFit(priv, length).Some?
    decreases i, b
  {
    if !IsFirstFit(priv, i, b, length) {
      var i', b' :| FreeAt(priv, i', b', length) && !(i < i' || (i == i' && b <= b'));
      FirstFitExists(priv, length, i', b');
    }
  }

  lemma NewPointLoaded(s: LoadState, def: PointDef, place: Placement, e: PointConf)
    requires Loaded(s) && 1 <= def.length <= 32 && Within(def.init, LowMask(def.length)) && Find(s.reg, def.id).None?
    requires e.name == def.id && e.length == def.length && InWord(e, |s.maps.glob|) && Insert(s.reg, e, place).Some?
    ensures |Insert(s.reg, e, place).value| == |s.reg| + 1
    ensures e in Insert(s.reg, e, place).value && Get(Initialised(s.maps, HandleOf(|s.maps.glob|, e), def.init).priv, HandleOf(|s.maps.glob|, e)) == def.init
  {
    Inserted(s.reg, e, place);
    TakenValue(s.maps, HandleOf(|s.maps.glob|, e), def.init);
  }

  lemma TakenAnyEntry(reg: Registry, e: PointConf)
    ensures Taken(reg, e) <==> Taken(reg, e.(exact := true))
  {
    assert forall d :: Overlap(d, e) <==> Overlap(d, e.(exact := true)) by {
      assert forall i, k :: Holds(e, i, k) <==> Holds(e.(exact := true), i, k);
    }
  }

  ghost function Location(s: LoadState, def: PointDef): Option<(int, nat)> {
    if def.fixed then Some((def.x, def.y))
    else match FirstFit(s.maps.priv, def.length) case None => None case Some(l) => Some((l.0, l.1))
  }

  lemma LoadedAt(s: LoadState, def: PointDef, place: Placement)
    requires Loaded(s) && 1 <= def.length <= 32 && Within(def.init, LowMask(def.length)) && Location(s, def).Some?
    ensures var e := NewEntry(s.reg, place, def.id, def.owner, Location(s, def).value.0, Location(s, def).value.1, def.length);
      var reg := LoadDef(s, def, place).reg;
      if Find(s.reg, def.id).None? && place(s.reg).Some? && InWord(e, |s.maps.glob|) && !Taken(s.reg, e)
      then Some(reg) == Insert(s.reg, e, place) else reg == s.reg
  {
    var e := NewEntry(s.reg, place, def.id, def.owner, Location(s, def).value.0, Location(s, def).value.1, def.length);
    if InWord(e, |s.maps.glob|) {
      FreeIffNotTaken(s.maps, s.reg, e);
      if Find(s.reg, def.id).None? && place(s.reg).Some? {
        NewPointLoaded(s, def, place, e);
      }
    }
  }

  lemma RoomIffLocation(s: LoadState, def: PointDef, place: Placement)
    requires Loaded(s) && 1 <= def.length <= 32
    ensures Location(s, def).None? ==> !HasRoom(s, def)
    ensures Location(s, def).Some? ==>
      var e := NewEntry(s.reg, place, def.id, def.owner, Location(s, def).value.0, Location(s, def).value.1, def.length);
      HasRoom(s, def) == (InWord(e, |s.maps.glob|) && !Taken(s.reg, e))
  {
    if def.fixed {
      TakenAnyEntry(s.reg, NewEntry(s.reg, place, def.id, def.owner, def.x, def.y, def.length));
    } else {
      if HasRoom(s, def) {
        var i, b :| FreeAt(s.maps.priv, i, b, def.length);
        FirstFitExists(s.maps.priv, def.length, i, b);
      }
      if Location(s, def).Some? {
        var l := Location(s, def).value;
        FreeIffNotTaken(s.maps, s.reg, NewEntry(s.reg, place, def.id, def.owner, l.0, l.1, def.length));
      }
    }
  }

  /** A point of a new name is loaded exactly when its place is free, or some place is, and the registry has room. */
  lemma LoadedIff(s: LoadState, def: PointDef, place: Placement)
    requires Loaded(s) && 1 <= def.length <= 32 && Within(def.init, LowMask(def.length))
    ensures Find(s.reg, def.id).None? && place(s.reg).Some? && HasRoom(s, def)
      <==> LoadDef(s, def, place).reg != s.reg
    ensures var reg := LoadDef(s, def, place).reg; reg != s.reg ==>
      && |reg| == |s.reg| + 1 && (exists e :: e in reg && e.name == def.id && e.owner == def.owner && e.length == def.length)
      && (AllExact(reg) ==> Find(reg, def.id).Some?)
  {
    RoomIffLocation(s, def, place);
    if Location(s, def).Some? {
      LoadedAt(s, def, place);
      Inserted(s.reg, NewEntry(s.reg, place, def.id, def.owner, Location(s, def).value.0, Location(s, def).value.1, def.length), place);
    }
  }

  /** Loading keeps the layout and every value already written; points are never dropped. */
  lemma {:induction false} LoadRowsKeeps(s: LoadState, rows: seq<seq<string>>, fixedPass: bool, place: Placement, num: Numbers)
    requires Loaded(s)
    ensures Loaded(LoadRows(s, rows, fixedPass, place, num))
    ensures forall e :: e in s.reg ==> e in LoadRows(s, rows, fixedPass, place, num).reg
    decreases |rows|
  {
    if rows == [] {
    } else {
      RowSound(rows[0], s.x, num);
      var r := ParseRow(rows[0], s.x, num);
      if r.Some? && r.value.fixed == fixedPass {
        LoadDefKeeps(s, r.value, place);
      }
      LoadRowsKeeps(LoadRow(s, rows[0], fixedPass, place, num), rows[1..], fixedPass, place, num);
    }
  }

  // ----- the loader as a program -----

  method LoadPoint(mm: ModuleMaps, def: PointDef, place: Placement, reg0: Registry, ghost s: LoadState)
    returns (reg: Registry, x: int, ghost loaded: seq<(PointConf, Word)>)
    requires mm.Valid() && s.maps == mm.View() && s.reg == reg0
    modifies mm.glob, mm.priv, mm.mask
    ensures LoadState(mm.View(), reg, x, loaded) == LoadDef(s, def, place)
  {
    reg, x, loaded := reg0, def.x, s.loaded;
    var at := Some((def.x, def.y));
    if !def.fixed {
      var found := FindLocation(mm.priv, def.length);
      if found == None {
        return;
      }
      at := Some((found.value.0, found.value.1));
    }
    x := at.value.0;
    var n := mm.priv.Length;
    if PtByName(n, reg, def.id).Pt? {
      return;  // duplicate definition
    }
    var e := NewEntry(reg, place, def.id, def.owner, x, at.value.1, def.length);
    var p := HandleOf(n, e);
    if p.NoPt? {
      return;
    }
    if Get(mm.priv[..], p) != ZERO {
      return;  // overlaps a point loaded before
    }
    var r := Insert(reg, e, place);
    if r == None {
      return;
    }
    mm.GrantWrite(p);
    mm.SetPoint(p, def.init);
    mm.ExchangeWord(p);
    if Get(mm.priv[..], p) != def.init {
      reg := Remove(r.value, def.id);
    } else {
      mm.SetPoint(p, ONES);
      reg, loaded := r.value, loaded + [(e, def.init)];
    }
  }

  lemma AlreadyMarked(m: Maps, reg: Registry, e: PointConf)
    requires Laid(m, reg) && e in reg
    ensures Written(m, HandleOf(|m.glob|, e), ONES) == m
  {
    var p := HandleOf(|m.glob|, e);
    forall k | 0 <= k < 32 ensures Written(m, p, ONES).priv[p.ofs][k] == m.priv[p.ofs][k] {
      MaskBits(p.shift, p.length, k);
      assert p.shift <= k < p.shift + p.length ==> Holds(e, p.ofs, k);
    }
    assert Written(m, p, ONES).priv[p.ofs] == m.priv[p.ofs];
  }

  /** Marking the points that are already registered changes nothing: their bits are still set. */
  method MarkTaken(mm: ModuleMaps, reg: Registry)
    requires mm.Valid() && Laid(mm.View(), reg)
    modifies mm.priv
    ensures mm.View() == old(mm.View())
  {
    var index := 0;
    while index < |reg|
      invariant 0 <= index <= |reg|
      invariant mm.View() == old(mm.View())
    {
      var p := HandleOf(mm.priv.Length, reg[index]);
      if !reg[index].exact || p.NoPt? {
        break;  // the enumeration ends
      }
      AlreadyMarked(mm.View(), reg, reg[index]);
      mm.SetPoint(p, ONES);
      index := index + 1;
    }
  }

  method LoadPoints(mm: ModuleMaps, rows: seq<seq<string>>, fixedPass: bool, place: Placement, num: Numbers,
                    reg0: Registry, ghost s: LoadState)
    returns (reg: Registry, ghost r: LoadState)
    requires mm.Valid() && s.maps == mm.View() && s.reg == reg0 && s.x == 0 && Loaded(s)
    modifies mm.glob, mm.priv, mm.mask
    ensures r == LoadRows(s, rows, fixedPass, place, num)
    ensures r.maps == mm.View() && r.reg == reg
  {
    MarkTaken(mm, reg0);
    reg, r := reg0, s;
    var x, index := 0, 0;
    while index < |rows|
      invariant 0 <= index <= |rows|
      invariant r.maps == mm.View() && r.reg == reg && r.x == x
      invariant LoadRows(r, rows[index..], fixedPass, place, num) == LoadRows(s, rows, fixedPass, place, num)
    {
      assert rows[index..][0] == rows[index] && rows[index..][1..] == rows[index + 1..];
      var def := ParsePoint(rows[index], x, num);
      index := index + 1;
      if def.Some? {
        x := def.value.x;
        if def.value.fixed == fixedPass {
          ghost var loaded;
          reg, x, loaded := LoadPoint(mm, def.value, place, reg, r);
          r := LoadState(mm.View(), reg, x, loaded);
        } else {
          r := r.(x := x);
        }
      }
    }
  }

  // ----- aliases -----

  datatype AliasDef = AliasDef(id: string, original: string, bit: nat, length: nat)

  /** point_alias ID "full name" original [bit [length]]; length 0 stands for the original's length. */
  function ParseAlias(row: seq<string>, num: Numbers): Option<AliasDef> {
    if |row| < 3 || |row| > 5 then None
    else if |row| == 3 then Some(AliasDef(row[0], row[2], 0, 0))
    else match num.unsigned(row[3])
         case None => None
         case Some(bit) =>
           if bit > 31 then None
           else var length := if |row| == 5 then num.unsigned(row[4]) else None;
                Some(AliasDef(row[0], row[2], bit, if length.Some? && 1 <= length.value <= 32 then length.value else 1))
  }

  function LoadAlias(n: nat, reg: Registry, row: seq<string>, place: Placement, num: Numbers): Registry {
    match ParseAlias(row, num)
    case None => reg
    case Some(a) =>
      var o := PtByName(n, reg, a.original);
      if PtByName(n, reg, a.id).Pt? || o.NoPt? then reg
      else
        var length := if a.length == 0 then o.length else a.length;
        var p := SubPt(n, o, a.bit, length);
        if p.NoPt? then reg
        else match Insert(reg, NewEntry(reg, place, a.id, "", p.ofs, p.shift, length), place)
             case None => reg
             case Some(r) => r
  }

  ghost function LoadAliasRows(n: nat, reg: Registry, rows: seq<seq<string>>, place: Placement, num: Numbers): Registry
    decreases |rows|
  {
    if rows == [] then reg else LoadAliasRows(n, LoadAlias(n, reg, rows[0], place, num), rows[1..], place, num)
  }

  method LoadAliases(n: nat, rows: seq<seq<string>>, place: Placement, num: Numbers, reg0: Registry) returns (reg: Registry)
    ensures reg == LoadAliasRows(n, reg0, rows, place, num)
  {
    reg := reg0;
    var index := 0;
    while index < |rows|
      invariant 0 <= index <= |rows|
      invariant LoadAliasRows(n, reg, rows[index..], place, num) == LoadAliasRows(n, reg0, rows, place, num)
    {
      assert rows[index..][0] == rows[index] && rows[index..][1..] == rows[index + 1..];
      reg := LoadAlias(n, reg, rows[index], place, num);
      index := index + 1;
    }
  }

  ghost predicate Inside(e: PointConf, d: PointConf) {
    e.ofs == d.ofs && d.bit <= e.bit && e.bit + e.length <= d.bit + d.length
  }

  /** `reg` is the original points plus ownerless aliases, each inside one original. */
  ghost predicate AliasesOf(points: Registry, reg: Registry, n: nat) {
    && Named(reg)
    && (forall e :: e in points ==> e in reg)
    && (forall e :: e in reg ==> InWord(e, n) && (e in points || (e.owner == "" && exists d :: d in points && Inside(e, d))))
  }

  lemma LoadAliasKeeps(n: nat, points: Registry, reg: Registry, row: seq<string>, place: Placement, num: Numbers)
    requires AliasesOf(points, reg, n)
    ensures AliasesOf(points, LoadAlias(n, reg, row, place, num), n)
  {
    var a := ParseAlias(row, num);
    if a.Some? && PtByName(n, reg, a.value.id).NoPt? && PtByName(n, reg, a.value.original).Pt? {
      var original := Find(reg, a.value.original).value;
      var o := HandleOf(n, original);
      var length := if a.value.length == 0 then o.length else a.value.length;
      var p := SubPt(n, o, a.value.bit, length);
      if p.Pt? {
        var e := NewEntry(reg, place, a.value.id, "", p.ofs, p.shift, length);
        Inserted(reg, e, place);
        assert Inside(e, original);
        if original in points {
        } else {
          var d :| d in points && Inside(original, d);
          assert Inside(e, d);
        }
      }
    }
  }

  /** Every alias, even an alias of an alias, lies inside a point and has no owner. */
  lemma {:induction false} LoadAliasesKeeps(n: nat, points: Registry, reg: Registry, rows: seq<seq<string>>, place: Placement, num: Numbers)
    requires AliasesOf(points, reg, n)
    ensures AliasesOf(points, LoadAliasRows(n, reg, rows, place, num), n)
    decreases |rows|
  {
    if rows == [] {
    } else {
      LoadAliasKeeps(n, points, reg, rows[0], place, num);
      LoadAliasesKeeps(n, points, LoadAlias(n, reg, rows[0], place, num), rows[1..], place, num);
    }
  }

  // ----- write masks -----

  ghost predicate OwnedBit(reg: Registry, n: nat, owner: string, i: int, k: int) {
    owner != "" && exists e :: e in reg && e.owner == owner && InWord(e, n) && Holds(e, i, k)
  }

  /** The mask has exactly the bits of the points that the module owns. */
  ghost predicate IsMask(mask: seq<Word>, reg: Registry, owner: string) {
    forall i, k :: 0 <= i < |mask| && 0 <= k < 32 ==> (mask[i][k] <==> OwnedBit(reg, |mask|, owner, i, k))
  }

  /** The points that an enumeration by index reaches: it ends at the first block of another size. */
  function Visible(reg: Registry): (r: Registry)
    ensures AllExact(r) && r <= reg && (|r| < |reg| ==> !reg[|r|].exact)
    ensures AllExact(reg) ==> r == reg
  {
    if reg == [] || !reg[0].exact then [] else [reg[0]] + Visible(reg[1..])
  }

  method InitMapmask(owner: string, reg: Registry, mask: array<Word>)
    modifies mask
    ensures IsMask(mask[..], Visible(reg), owner)
  {
    var z := 0;
    while z < mask.Length
      invariant 0 <= z <= mask.Length && forall i :: 0 <= i < z ==> mask[i] == ZERO
    {
      mask[z] := ZERO;
      z := z + 1;
    }
    var index := 0;
    while index < |reg| && reg[index].exact
      invariant 0 <= index <= |Visible(reg)|
      invariant IsMask(mask[..], reg[..index], owner)
    {
      var e := reg[index];
      ghost var before := mask[..];
      assert index < |Visible(reg)|;
      if e.owner != "" && e.owner == owner {
        var p := HandleOf(mask.Length, e);
        if p.Pt? {
          mask[e.ofs] := Or(mask[e.ofs], p.mask);
          assert mask[..] == before[e.ofs := Or(before[e.ofs], p.mask)];
        }
      }
      MaskExtended(before, reg[..index], owner, e);
      assert reg[..index + 1] == reg[..index] + [e];
      index := index + 1;
    }
    assert reg[..index] == Visible(reg);
  }

  /** The mask has no other bits than those of points that the module owns. */
  ghost predicate MaskWithin(mask: seq<Word>, reg: Registry, owner: string) {
    forall i, k :: 0 <= i < |mask| && 0 <= k < 32 && mask[i][k] ==> OwnedBit(reg, |mask|, owner, i, k)
  }

  /** A mask from the enumeration has no foreign bits, and has all bits of the points that the enumeration reaches. */
  lemma VisibleMask(mask: seq<Word>, reg: Registry, owner: string)
    requires IsMask(mask, Visible(reg), owner)
    ensures MaskWithin(mask, reg, owner)
    ensures forall e :: e in Visible(reg) && e.owner == owner && owner != "" && InWord(e, |mask|) ==>
      Within(HandleOf(|mask|, e).mask, mask[e.ofs])
  {
    forall i, k | 0 <= i < |mask| && 0 <= k < 32 && mask[i][k] ensures OwnedBit(reg, |mask|, owner, i, k) {
      var e :| e in Visible(reg) && e.owner == owner && InWord(e, |mask|) && Holds(e, i, k);
      assert e in reg;
    }
    forall e | e in Visible(reg) && e.owner == owner && owner != "" && InWord(e, |mask|)
      ensures Within(HandleOf(|mask|, e).mask, mask[e.ofs])
    {
      var h := HandleOf(|mask|, e);
      WithinBits(h.mask, mask[h.ofs]);
      forall k | 0 <= k < 32 && h.mask[k] ensures mask[h.ofs][k] {
        MaskBits(h.shift, h.length, k);
        assert Holds(e, h.ofs, k);
      }
    }
  }

  lemma MaskExtended(mask: seq<Word>, reg: Registry, owner: string, e: PointConf)
    requires IsMask(mask, reg, owner)
    ensures var p := HandleOf(|mask|, e);
      IsMask(if owner != "" && e.owner == owner && p.Pt? then mask[p.ofs := Or(mask[p.ofs], p.mask)] else mask, reg + [e], owner)
  {}

  // ----- end to end -----

  ghost function EmptyMaps(n: nat): Maps {
    var z := seq(n, _ => ZERO);
    Maps(z, z, z)
  }

  /** The three passes of gmm_load_confmap over a fresh map. */
  ghost function LoadedPoints(n: nat, rows: seq<seq<string>>, place: Placement, num: Numbers): LoadState {
    var s1 := LoadRows(LoadState(EmptyMaps(n), [], 0, []), rows, true, place, num);
    LoadRows(s1.(x := 0), rows, false, place, num)
  }

  ghost function FinalRegistry(n: nat, rows: seq<seq<string>>, aliases: seq<seq<string>>, place: Placement, num: Numbers): Registry {
    LoadAliasRows(n, LoadedPoints(n, rows, place, num).reg, aliases, place, num)
  }

  /** gmm_load_confmap: fixed points, floating points, aliases. */
  method LoadConfmap(mm: ModuleMaps, rows: seq<seq<string>>, aliases: seq<seq<string>>, place: Placement, num: Numbers)
    returns (reg: Registry)
    requires mm.Valid() && mm.View() == EmptyMaps(mm.glob.Length)
    modifies mm.glob, mm.priv, mm.mask
    ensures mm.View() == LoadedPoints(mm.glob.Length, rows, place, num).maps
    ensures reg == FinalRegistry(mm.glob.Length, rows, aliases, place, num)
  {
    ghost var n := mm.glob.Length;
    ghost var s0 := LoadState(EmptyMaps(n), [], 0, []);
    assert Loaded(s0);
    LoadRowsKeeps(s0, rows, true, place, num);
    ghost var s;
    reg, s := LoadPoints(mm, rows, true, place, num, [], s0);
    reg, s := LoadPoints(mm, rows, false, place, num, reg, s.(x := 0));
    reg := LoadAliases(mm.priv.Length, aliases, place, num, reg);
  }

  lemma LayoutOfConfiguration(n: nat, rows: seq<seq<string>>, aliases: seq<seq<string>>, place: Placement, num: Numbers)
    ensures Loaded(LoadedPoints(n, rows, place, num)) && |LoadedPoints(n, rows, place, num).maps.glob| == n
    ensures AliasesOf(LoadedPoints(n, rows, place, num).reg, FinalRegistry(n, rows, aliases, place, num), n)
  {
    var s0 := LoadState(EmptyMaps(n), [], 0, []);
    assert Loaded(s0);
    LoadRowsKeeps(s0, rows, true, place, num);
    var s1 := LoadRows(s0, rows, true, place, num);
    LoadRowsKeeps(s1.(x := 0), rows, false, place, num);
    var points := LoadedPoints(n, rows, place, num).reg;
    LoadAliasesKeeps(n, points, points, aliases, place, num);
  }

  /** Aliases add nothing that anyone may write. */
  lemma AliasesAddNoWriteBit(points: Registry, reg: Registry, n: nat, owner: string, i: int, k: int)
    requires AliasesOf(points, reg, n)
    ensures OwnedBit(reg, n, owner, i, k) <==> OwnedBit(points, n, owner, i, k)
  {}

  /** Modules of different names share no write bit. */
  lemma MasksApart(m: Maps, points: Registry, reg: Registry, m1: seq<Word>, m2: seq<Word>, o1: string, o2: string, i: nat)
    requires Laid(m, points) && AliasesOf(points, reg, |m.glob|) && o1 != o2
    requires |m1| == |m2| == |m.glob| && MaskWithin(m1, reg, o1) && MaskWithin(m2, reg, o2) && i < |m.glob|
    ensures Disjoint(m1[i], m2[i])
  {}
}
