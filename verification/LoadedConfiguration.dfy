/**
 Which points and aliases a whole configuration leads to (lib/gmm/gmm_setup.c, gmm_load_confmap and below),
 row by row: nothing is registered that no row asks for, and nothing is left out that has room.
 */
module LoadedConfiguration {
  import opened Wrappers
  import opened Words
  import opened PointMemory
  import opened Numerals
  import opened RowParser
  import opened Loader

  // ----- where a point can go -----

  /** Bits b to b + length of word i are in a map of n words, and no registered point has one of them. */
  ghost predicate Gap(reg: Registry, n: nat, i: int, b: int, length: nat) {
    && 0 <= i < n && 0 <= b && b + length <= 32
    && forall d :: d in reg && d.ofs == i ==> d.bit + d.length <= b || b + length <= d.bit
  }

  /** The first gap in the order of word, then bit. */
  ghost predicate LeastGap(reg: Registry, n: nat, i: int, b: int, length: nat) {
    && Gap(reg, n, i, b, length)
    && forall i', b' :: Gap(reg, n, i', b', length) ==> i < i' || (i == i' && b <= b')
  }

  /** A fixed point goes to its location, a floating one to the first gap. */
  ghost predicate GoesTo(reg: Registry, n: nat, def: PointDef, i: int, b: int) {
    if def.fixed then i == def.x && b == def.y && Gap(reg, n, i, b, def.length)
    else LeastGap(reg, n, i, b, def.length)
  }

  ghost predicate Admitted(reg: Registry, n: nat, def: PointDef, place: Placement, i: int, b: int) {
    Find(reg, def.id).None? && place(reg).Some? && GoesTo(reg, n, def, i, b)
  }

  /** In state s, the row puts the entry e into the registry. */
  ghost predicate RowLoads(s: LoadState, row: seq<string>, fixedPass: bool, place: Placement, num: Numbers, e: PointConf) {
    var r := ParseRow(row, s.x, num);
    && r.Some? && r.value.fixed == fixedPass
    && Admitted(s.reg, |s.maps.glob|, r.value, place, e.ofs, e.bit)
    && e == NewEntry(s.reg, place, r.value.id, r.value.owner, e.ofs, e.bit, r.value.length)
  }

  lemma GapEntry(reg: Registry, n: nat, e: PointConf)
    requires e.length >= 1
    requires forall d :: d in reg ==> d.length >= 1
    ensures Gap(reg, n, e.ofs, e.bit, e.length) <==> InWord(e, n) && !Taken(reg, e)
  {
    if InWord(e, n) {
      forall d | d in reg ensures Overlap(d, e) <==> d.ofs == e.ofs && !(d.bit + d.length <= e.bit || e.bit + e.length <= d.bit) {
        if d.ofs == e.ofs && !(d.bit + d.length <= e.bit || e.bit + e.length <= d.bit) {
          var k := if d.bit <= e.bit then e.bit else d.bit;
          assert Holds(d, e.ofs, k) && Holds(e, e.ofs, k);
        }
      }
    }
  }

  lemma GapIffFree(m: Maps, reg: Registry, i: int, b: int, length: nat)
    requires Laid(m, reg) && length >= 1
    ensures Gap(reg, |m.glob|, i, b, length) <==> FreeAt(m.priv, i, b, length)
  {
    if 0 <= i < |m.glob| && 0 <= b && b + length <= 32 {
      var e := PointConf("", "", i, b, length, true);
      FreeIffNotTaken(m, reg, e);
      GapEntry(reg, |m.glob|, e);
    }
  }

  lemma GoesToLocation(s: LoadState, def: PointDef, i: int, b: nat)
    requires Laid(s.maps, s.reg) && 1 <= def.length
    ensures GoesTo(s.reg, |s.maps.glob|, def, i, b)
      <==> Location(s, def) == Some((i, b)) && Gap(s.reg, |s.maps.glob|, i, b, def.length)
  {
    var n := |s.maps.glob|;
    if !def.fixed {
      forall i', b' ensures Gap(s.reg, n, i', b', def.length) <==> FreeAt(s.maps.priv, i', b', def.length) {
        GapIffFree(s.maps, s.reg, i', b', def.length);
      }
      if LeastGap(s.reg, n, i, b, def.length) {
        assert IsFirstFit(s.maps.priv, i, b, def.length);
        FirstFitUnique(s.maps.priv, i, b, def.length);
      }
      if Location(s, def) == Some((i, b)) {
        assert IsFirstFit(s.maps.priv, i, b, def.length);
      }
    }
  }

  // ----- one row -----

  /** One row registers the entry it asks for if there is one, with its initial value, and nothing else. */
  lemma RowEffect(s: LoadState, row: seq<string>, fixedPass: bool, place: Placement, num: Numbers)
    requires Loaded(s)
    ensures var t := LoadRow(s, row, fixedPass, place, num);
      && (forall e :: RowLoads(s, row, fixedPass, place, num, e) ==>
            && Some(t.reg) == Insert(s.reg, e, place) && e in t.reg
            && t.loaded == s.loaded + [(e, ParseRow(row, s.x, num).value.init)])
      && ((forall e :: !RowLoads(s, row, fixedPass, place, num, e)) ==> t.reg == s.reg && t.loaded == s.loaded)
  {
    RowSound(row, s.x, num);
    var r := ParseRow(row, s.x, num);
    if r.Some? && r.value.fixed == fixedPass {
      forall e | RowLoads(s, row, fixedPass, place, num, e)
        ensures Some(LoadDef(s, r.value, place).reg) == Insert(s.reg, e, place) && e in LoadDef(s, r.value, place).reg
        ensures LoadDef(s, r.value, place).loaded == s.loaded + [(e, r.value.init)]
      {
        Registers(s, r.value, place, e);
      }
      if forall e :: !RowLoads(s, row, fixedPass, place, num, e) {
        NotRegistered(s, row, fixedPass, place, num);
      }
    }
  }

  /** The log of written values goes along with the registry. */
  lemma LogFollows(s: LoadState, def: PointDef, place: Placement)
    requires Loaded(s) && 1 <= def.length <= 32 && Within(def.init, LowMask(def.length))
    ensures var l, t := Location(s, def), LoadDef(s, def, place);
      t.loaded == if t.reg == s.reg || l.None? then s.loaded
                  else s.loaded + [(NewEntry(s.reg, place, def.id, def.owner, l.value.0, l.value.1, def.length), def.init)]
  {
    var l := Location(s, def);
    if l.Some? {
      var e := NewEntry(s.reg, place, def.id, def.owner, l.value.0, l.value.1, def.length);
      Inserted(s.reg, e, place);
      if HandleOf(|s.maps.glob|, e).Pt? {
        TakenValue(s.maps, HandleOf(|s.maps.glob|, e), def.init);
      }
    }
  }

  lemma Registers(s: LoadState, def: PointDef, place: Placement, e: PointConf)
    requires Loaded(s) && 1 <= def.length <= 32 && Within(def.init, LowMask(def.length))
    requires Admitted(s.reg, |s.maps.glob|, def, place, e.ofs, e.bit)
    requires e == NewEntry(s.reg, place, def.id, def.owner, e.ofs, e.bit, def.length)
    ensures var t := LoadDef(s, def, place);
      Some(t.reg) == Insert(s.reg, e, place) && e in t.reg && t.loaded == s.loaded + [(e, def.init)]
  {
    GoesToLocation(s, def, e.ofs, e.bit);
    GapEntry(s.reg, |s.maps.glob|, e);
    LoadedAt(s, def, place);
    Inserted(s.reg, e, place);
    LogFollows(s, def, place);
  }

  lemma NotRegistered(s: LoadState, row: seq<string>, fixedPass: bool, place: Placement, num: Numbers)
    requires Loaded(s) && forall e :: !RowLoads(s, row, fixedPass, place, num, e)
    ensures var t := LoadRow(s, row, fixedPass, place, num); t.reg == s.reg && t.loaded == s.loaded
  {
    RowSound(row, s.x, num);
    var r := ParseRow(row, s.x, num);
    if r.Some? && r.value.fixed == fixedPass && Location(s, r.value).Some? {
      var def := r.value;
      var l := Location(s, def).value;
      var e := NewEntry(s.reg, place, def.id, def.owner, l.0, l.1, def.length);
      GoesToLocation(s, def, l.0, l.1);
      GapEntry(s.reg, |s.maps.glob|, e);
      LoadedAt(s, def, place);
      assert !RowLoads(s, row, fixedPass, place, num, e);
      LogFollows(s, def, place);
    }
  }

  lemma OneEntry(reg: Registry, n: nat, def: PointDef, i: int, b: int, i': int, b': int)
    requires GoesTo(reg, n, def, i, b) && GoesTo(reg, n, def, i', b')
    ensures i == i' && b == b'
  {}

  lemma RowAdds(s: LoadState, row: seq<string>, fixedPass: bool, place: Placement, num: Numbers, e: PointConf)
    requires Loaded(s)
    ensures e in LoadRow(s, row, fixedPass, place, num).reg <==> e in s.reg || RowLoads(s, row, fixedPass, place, num, e)
  {
    RowEffect(s, row, fixedPass, place, num);
    if d :| RowLoads(s, row, fixedPass, place, num, d) {
      Inserted(s.reg, d, place);
      if RowLoads(s, row, fixedPass, place, num, e) {
        OneEntry(s.reg, |s.maps.glob|, ParseRow(row, s.x, num).value, d.ofs, d.bit, e.ofs, e.bit);
      }
    }
  }

  // ----- a pass over all rows -----

  lemma {:induction false} RowByRow(s: LoadState, rows: seq<seq<string>>, row: seq<string>, fixedPass: bool, place: Placement, num: Numbers)
    requires Sized(s.maps, |s.maps.glob|)
    ensures LoadRows(s, rows + [row], fixedPass, place, num) == LoadRow(LoadRows(s, rows, fixedPass, place, num), row, fixedPass, place, num)
    decreases |rows|
  {
    if rows == [] {
      assert ([row])[1..] == [];
    } else {
      assert (rows + [row])[1..] == rows[1..] + [row];
      RowByRow(LoadRow(s, rows[0], fixedPass, place, num), rows[1..], row, fixedPass, place, num);
    }
  }

  /** The state before row r of a pass that starts in s. */
  ghost function Before(s: LoadState, rows: seq<seq<string>>, r: nat, fixedPass: bool, place: Placement, num: Numbers): LoadState
    requires Sized(s.maps, |s.maps.glob|) && r <= |rows|
  {
    LoadRows(s, rows[..r], fixedPass, place, num)
  }

  lemma BeforeNext(s: LoadState, rows: seq<seq<string>>, r: nat, fixedPass: bool, place: Placement, num: Numbers)
    requires Loaded(s) && r < |rows|
    ensures Loaded(Before(s, rows, r, fixedPass, place, num))
    ensures Before(s, rows, r + 1, fixedPass, place, num) == LoadRow(Before(s, rows, r, fixedPass, place, num), rows[r], fixedPass, place, num)
  {
    assert rows[..r + 1] == rows[..r] + [rows[r]];
    RowByRow(s, rows[..r], rows[r], fixedPass, place, num);
    LoadRowsKeeps(s, rows[..r], fixedPass, place, num);
  }

  /** Row r of the pass loads the entry. */
  ghost predicate LoadsAt(s: LoadState, rows: seq<seq<string>>, r: nat, fixedPass: bool, place: Placement, num: Numbers, e: PointConf)
    requires Sized(s.maps, |s.maps.glob|) && r < |rows|
  {
    RowLoads(Before(s, rows, r, fixedPass, place, num), rows[r], fixedPass, place, num, e)
  }

  lemma NextRowAdds(s: LoadState, rows: seq<seq<string>>, r: nat, fixedPass: bool, place: Placement, num: Numbers, e: PointConf)
    requires Loaded(s) && r < |rows|
    ensures e in Before(s, rows, r + 1, fixedPass, place, num).reg
      <==> e in Before(s, rows, r, fixedPass, place, num).reg || LoadsAt(s, rows, r, fixedPass, place, num, e)
  {
    BeforeNext(s, rows, r, fixedPass, place, num);
    RowAdds(Before(s, rows, r, fixedPass, place, num), rows[r], fixedPass, place, num, e);
  }

  /** One of the first k rows of the pass loads the entry. */
  ghost predicate LoadsBefore(s: LoadState, rows: seq<seq<string>>, k: nat, fixedPass: bool, place: Placement, num: Numbers, e: PointConf)
    requires Sized(s.maps, |s.maps.glob|) && k <= |rows|
  {
    exists r :: 0 <= r < k && LoadsAt(s, rows, r, fixedPass, place, num, e)
  }

  /** What is added step by step is there in the end, and nothing else. */
  lemma {:induction false} Accumulates(has: seq<bool>, adds: seq<bool>)
    requires |has| == |adds| + 1 && forall j :: 0 <= j < |adds| ==> (has[j + 1] <==> has[j] || adds[j])
    ensures has[|adds|] <==> has[0] || exists j :: 0 <= j < |adds| && adds[j]
    decreases |adds|
  {
    if adds == [] {
    } else {
      var k := |adds| - 1;
      Accumulates(has[..k + 1], adds[..k]);
      assert forall j :: 0 <= j < k ==> adds[..k][j] == adds[j];
      assert has[k + 1] <==> has[k] || adds[k];
    }
  }

  /** A pass registers what its rows load, each in the state that the rows before it leave. */
  lemma PassAdds(s: LoadState, rows: seq<seq<string>>, k: nat, fixedPass: bool, place: Placement, num: Numbers, e: PointConf)
    requires Loaded(s) && k <= |rows|
    ensures e in Before(s, rows, k, fixedPass, place, num).reg <==> e in s.reg || LoadsBefore(s, rows, k, fixedPass, place, num, e)
  {
    var has := seq(k + 1, j requires 0 <= j <= k => e in Before(s, rows, j, fixedPass, place, num).reg);
    var adds := seq(k, j requires 0 <= j < k => LoadsAt(s, rows, j, fixedPass, place, num, e));
    forall j | 0 <= j < k ensures has[j + 1] <==> has[j] || adds[j] {
      NextRowAdds(s, rows, j, fixedPass, place, num, e);
    }
    Accumulates(has, adds);
    assert forall j :: 0 <= j < k ==> adds[j] == LoadsAt(s, rows, j, fixedPass, place, num, e);
    assert Before(s, rows, 0, fixedPass, place, num) == s;
  }

  /** What a pass has written stays in its log. */
  lemma {:induction false} LogKept(s: LoadState, rows: seq<seq<string>>, r: nat, k: nat, fixedPass: bool, place: Placement, num: Numbers)
    requires Loaded(s) && r <= k <= |rows|
    ensures Before(s, rows, r, fixedPass, place, num).loaded <= Before(s, rows, k, fixedPass, place, num).loaded
    decreases k
  {
    if r == k {
    } else {
      LogKept(s, rows, r, k - 1, fixedPass, place, num);
      BeforeNext(s, rows, k - 1, fixedPass, place, num);
      RowEffect(Before(s, rows, k - 1, fixedPass, place, num), rows[k - 1], fixedPass, place, num);
    }
  }

  // ----- both passes -----

  ghost function Start(n: nat): (s: LoadState)
    ensures Loaded(s) && |s.maps.glob| == n
  {
    LoadState(EmptyMaps(n), [], 0, [])
  }

  ghost function AfterFixed(n: nat, rows: seq<seq<string>>, place: Placement, num: Numbers): (s: LoadState)
    ensures Loaded(s) && |s.maps.glob| == n
  {
    LoadRowsKeeps(Start(n), rows, true, place, num);
    LoadRows(Start(n), rows, true, place, num).(x := 0)
  }

  /** The state before row r: in the pass for fixed points, or in the pass for floating ones after it. */
  ghost function StateBefore(n: nat, rows: seq<seq<string>>, r: nat, fixedPass: bool, place: Placement, num: Numbers): (s: LoadState)
    requires r <= |rows|
    ensures |s.maps.glob| == n
  {
    Before(if fixedPass then Start(n) else AfterFixed(n, rows, place, num), rows, r, fixedPass, place, num)
  }

  /** Row r loads the entry, in the pass for rows of its kind. */
  ghost predicate Loads(n: nat, rows: seq<seq<string>>, r: nat, fixedPass: bool, place: Placement, num: Numbers, e: PointConf) {
    r < |rows| && RowLoads(StateBefore(n, rows, r, fixedPass, place, num), rows[r], fixedPass, place, num, e)
  }

  lemma PassOver(s: LoadState, rows: seq<seq<string>>, fixedPass: bool, place: Placement, num: Numbers)
    requires Sized(s.maps, |s.maps.glob|)
    ensures Before(s, rows, |rows|, fixedPass, place, num) == LoadRows(s, rows, fixedPass, place, num)
  {
    assert rows[..|rows|] == rows;
  }

  /** The registered points are exactly those that some row loads: fixed ones first, then floating ones. */
  lemma LoadedPointsAre(n: nat, rows: seq<seq<string>>, place: Placement, num: Numbers, e: PointConf)
    ensures e in LoadedPoints(n, rows, place, num).reg <==> exists r, fixedPass :: Loads(n, rows, r, fixedPass, place, num, e)
  {
    PassOver(Start(n), rows, true, place, num);
    PassAdds(Start(n), rows, |rows|, true, place, num, e);
    PassOver(AfterFixed(n, rows, place, num), rows, false, place, num);
    PassAdds(AfterFixed(n, rows, place, num), rows, |rows|, false, place, num, e);
    assert e in AfterFixed(n, rows, place, num).reg <==> LoadsBefore(Start(n), rows, |rows|, true, place, num, e);
    if LoadsBefore(Start(n), rows, |rows|, true, place, num, e) {
      var r :| 0 <= r < |rows| && LoadsAt(Start(n), rows, r, true, place, num, e);
      assert Loads(n, rows, r, true, place, num, e);
    }
    if LoadsBefore(AfterFixed(n, rows, place, num), rows, |rows|, false, place, num, e) {
      var r :| 0 <= r < |rows| && LoadsAt(AfterFixed(n, rows, place, num), rows, r, false, place, num, e);
      assert Loads(n, rows, r, false, place, num, e);
    }
    if r, fixedPass :| Loads(n, rows, r, fixedPass, place, num, e) {
      assert LoadsAt(if fixedPass then Start(n) else AfterFixed(n, rows, place, num), rows, r, fixedPass, place, num, e);
    }
  }

  /** A loaded point has its initial value in the global map at the end, whatever is loaded after it. */
  lemma LoadedValue(n: nat, rows: seq<seq<string>>, r: nat, fixedPass: bool, place: Placement, num: Numbers, e: PointConf)
    requires Loads(n, rows, r, fixedPass, place, num, e)
    ensures ParseRow(rows[r], 0, num).Some? && HandleOf(n, e).Pt? && |LoadedPoints(n, rows, place, num).maps.glob| == n
    ensures Get(LoadedPoints(n, rows, place, num).maps.glob, HandleOf(n, e)) == ParseRow(rows[r], 0, num).value.init
  {
    var s := if fixedPass then Start(n) else AfterFixed(n, rows, place, num);
    var t := Before(s, rows, r, fixedPass, place, num);
    RowAlone(rows[r], 0, t.x, num);
    BeforeNext(s, rows, r, fixedPass, place, num);
    RowEffect(t, rows[r], fixedPass, place, num);
    LogKept(s, rows, r + 1, |rows|, fixedPass, place, num);
    PassOver(s, rows, fixedPass, place, num);
    var f := AfterFixed(n, rows, place, num);
    LogKept(f, rows, 0, |rows|, false, place, num);
    PassOver(f, rows, false, place, num);
    LoadRowsKeeps(f, rows, false, place, num);
    var final := LoadedPoints(n, rows, place, num);
    assert final == Before(f, rows, |rows|, false, place, num);
    assert t.loaded + [(e, ParseRow(rows[r], t.x, num).value.init)] <= final.loaded;
    assert final.loaded[|t.loaded|] == (e, ParseRow(rows[r], t.x, num).value.init);
  }

  // ----- by conditions on the rows -----

  /** The row defines a point of the name, with a location or without. */
  ghost predicate Defines(row: seq<string>, fixed: bool, id: string, num: Numbers) {
    var d := ParseRow(row, 0, num);
    d.Some? && d.value.fixed == fixed && d.value.id == id
  }

  /** Registered names are those of the rows of the pass. */
  lemma NewInPass(s: LoadState, rows: seq<seq<string>>, k: nat, fixedPass: bool, place: Placement, num: Numbers, id: string)
    requires Loaded(s) && k <= |rows| && forall e :: e in s.reg ==> e.name != id
    requires forall j :: 0 <= j < k ==> !Defines(rows[j], fixedPass, id, num)
    ensures forall e :: e in Before(s, rows, k, fixedPass, place, num).reg ==> e.name != id
  {
    forall e | e in Before(s, rows, k, fixedPass, place, num).reg ensures e.name != id {
      PassAdds(s, rows, k, fixedPass, place, num, e);
      if e !in s.reg {
        var j :| 0 <= j < k && LoadsAt(s, rows, j, fixedPass, place, num, e);
        RowAlone(rows[j], 0, Before(s, rows, j, fixedPass, place, num).x, num);
      }
    }
  }

  /**
   The point is registered to the end with its name, owner and window, has its initial value in the global
   map, and is what a lookup by its name gives as long as all blocks have the size of an entry.
   */
  ghost predicate Present(n: nat, rows: seq<seq<string>>, aliases: seq<seq<string>>, place: Placement, num: Numbers,
                          name: string, owner: string, i: int, b: nat, length: nat, init: Word) {
    var final, reg := LoadedPoints(n, rows, place, num), FinalRegistry(n, rows, aliases, place, num);
    && (exists e :: e in final.reg && e in reg && (e.name, e.owner, e.ofs, e.bit, e.length) == (name, owner, i, b, length))
    && |final.maps.glob| == n && PtByLoc(n, i, b, length).Pt?
    && Get(final.maps.glob, PtByLoc(n, i, b, length)) == init
    && (AllExact(reg) ==> PtByName(n, reg, name) == PtByLoc(n, i, b, length))
  }

  lemma FindUnique(reg: Registry, e: PointConf)
    requires AllExact(reg) && UniqueNames(reg) && e in reg
    ensures Find(reg, e.name) == Some(e)
  {}

  lemma LoadedIsPresent(n: nat, rows: seq<seq<string>>, aliases: seq<seq<string>>, place: Placement, num: Numbers,
                        r: nat, fixedPass: bool, e: PointConf)
    requires Loads(n, rows, r, fixedPass, place, num, e)
    ensures ParseRow(rows[r], 0, num).Some?
    ensures Present(n, rows, aliases, place, num, e.name, e.owner, e.ofs, e.bit, e.length, ParseRow(rows[r], 0, num).value.init)
  {
    LoadedPointsAre(n, rows, place, num, e);
    LoadedValue(n, rows, r, fixedPass, place, num, e);
    LayoutOfConfiguration(n, rows, aliases, place, num);
    var reg := FinalRegistry(n, rows, aliases, place, num);
    if AllExact(reg) {
      FindUnique(reg, e);
    }
  }

  /**
   A row with a location is loaded if its name is new among the rows with a location before it, its window is in
   the map and meets no such point that is loaded already, and the registry has room. Rows without a location and
   rows after it do not matter.
   */
  lemma FixedRowLoaded(n: nat, rows: seq<seq<string>>, aliases: seq<seq<string>>, place: Placement, num: Numbers, r: nat)
    requires r < |rows|
    ensures var s := StateBefore(n, rows, r, true, place, num); var d := ParseRow(rows[r], s.x, num);
      d.Some? && d.value.fixed && 0 <= d.value.x < n && place(s.reg).Some?
      && (forall j :: 0 <= j < r ==> !Defines(rows[j], true, d.value.id, num))
      && (forall p :: p in s.reg && p.ofs == d.value.x ==>
            p.bit + p.length <= d.value.y || d.value.y + d.value.length <= p.bit)
      ==> Present(n, rows, aliases, place, num, d.value.id, d.value.owner, d.value.x, d.value.y, d.value.length, d.value.init)
  {
    var s := StateBefore(n, rows, r, true, place, num);
    var d := ParseRow(rows[r], s.x, num);
    if d.Some? && d.value.fixed && (forall j :: 0 <= j < r ==> !Defines(rows[j], true, d.value.id, num)) && place(s.reg).Some?
       && Gap(s.reg, n, d.value.x, d.value.y, d.value.length) {
      NewInPass(Start(n), rows, r, true, place, num, d.value.id);
      var e := NewEntry(s.reg, place, d.value.id, d.value.owner, d.value.x, d.value.y, d.value.length);
      LoadedIsPresent(n, rows, aliases, place, num, r, true, e);
      RowAlone(rows[r], 0, s.x, num);
    }
    RowSound(rows[r], s.x, num);
  }

  /**
   A row without a location is loaded at the first gap that all rows with a location and the earlier rows without
   one leave, if there is a gap, its name is new among all those rows, and the registry has room.
   */
  lemma FloatingRowLoaded(n: nat, rows: seq<seq<string>>, aliases: seq<seq<string>>, place: Placement, num: Numbers, r: nat, i: nat, b: nat)
    requires r < |rows|
    ensures var s := StateBefore(n, rows, r, false, place, num); var d := ParseRow(rows[r], 0, num);
      d.Some? && !d.value.fixed && LeastGap(s.reg, n, i, b, d.value.length) && place(s.reg).Some?
      && (forall j :: 0 <= j < |rows| ==> !Defines(rows[j], true, d.value.id, num))
      && (forall j :: 0 <= j < r ==> !Defines(rows[j], false, d.value.id, num))
      ==> Present(n, rows, aliases, place, num, d.value.id, d.value.owner, i, b, d.value.length, d.value.init)
  {
    var s := StateBefore(n, rows, r, false, place, num);
    var d := ParseRow(rows[r], 0, num);
    if d.Some? && !d.value.fixed && LeastGap(s.reg, n, i, b, d.value.length) && place(s.reg).Some?
       && (forall j :: 0 <= j < |rows| ==> !Defines(rows[j], true, d.value.id, num))
       && (forall j :: 0 <= j < r ==> !Defines(rows[j], false, d.value.id, num)) {
      PassOver(Start(n), rows, true, place, num);
      NewInPass(Start(n), rows, |rows|, true, place, num, d.value.id);
      NewInPass(AfterFixed(n, rows, place, num), rows, r, false, place, num, d.value.id);
      RowAlone(rows[r], 0, s.x, num);
      var e := NewEntry(s.reg, place, d.value.id, d.value.owner, i, b, d.value.length);
      LoadedIsPresent(n, rows, aliases, place, num, r, false, e);
    }
  }

  lemma LeastGapExists(reg: Registry, n: nat, i: nat, b: nat, length: nat) returns (i': nat, b': nat)
    requires Gap(reg, n, i, b, length)
    ensures LeastGap(reg, n, i', b', length)
    decreases i, b
  {
    if LeastGap(reg, n, i, b, length) {
      i', b' := i, b;
    } else {
      var j, c :| Gap(reg, n, j, c, length) && !(i < j || (i == j && b <= c));
      i', b' := LeastGapExists(reg, n, j, c, length);
    }
  }

  // ----- the offset that a row inherits, and rows without a location -----

  lemma FixedPassOffset(s: LoadState, row: seq<string>, place: Placement, num: Numbers)
    requires Sized(s.maps, |s.maps.glob|)
    ensures var r := ParseRow(row, s.x, num);
      LoadRow(s, row, true, place, num).x == if r.Some? then r.value.x else s.x
  {}

  /** The row gives the offset c of its own. */
  ghost predicate Gives(row: seq<string>, c: int, num: Numbers) {
    forall x :: var r := ParseRow(row, x, num); r.Some? && r.value.x == c
  }

  /** The row has no offset of its own. */
  ghost predicate Keeps(row: seq<string>, num: Numbers) {
    forall x :: var r := ParseRow(row, x, num); r.Some? ==> r.value.x == x
  }

  lemma GivesOrKeeps(row: seq<string>, num: Numbers)
    ensures Keeps(row, num) || exists c :: Gives(row, c, num)
  {
    var given, c := RowOffset(row, num);
    if given && ParseRow(row, 0, num).Some? {
      forall x ensures ParseRow(row, x, num).Some? {
        RowAlone(row, 0, x, num);
      }
      assert Gives(row, c, num);
    } else {
      forall x ensures ParseRow(row, x, num).Some? ==> ParseRow(row, x, num).value.x == x {
        RowAlone(row, 0, x, num);
      }
    }
  }

  /** Among the rows before row k, the last with an offset of its own gives c, or there is none and c is 0. */
  ghost predicate LastOffset(rows: seq<seq<string>>, k: nat, c: int, num: Numbers)
    requires k <= |rows|
  {
    || (c == 0 && forall j :: 0 <= j < k ==> Keeps(rows[j], num))
    || exists j :: 0 <= j < k && Gives(rows[j], c, num) && forall l :: j < l < k ==> Keeps(rows[l], num)
  }

  /** A location whose offset cannot be read is taken from the last row before it that has one, or is 0. */
  lemma {:induction false} InheritedOffset(n: nat, rows: seq<seq<string>>, k: nat, place: Placement, num: Numbers)
    requires k <= |rows|
    ensures LastOffset(rows, k, StateBefore(n, rows, k, true, place, num).x, num)
    decreases k
  {
    if k == 0 {
    } else {
      var s := StateBefore(n, rows, k - 1, true, place, num);
      InheritedOffset(n, rows, k - 1, place, num);
      BeforeNext(Start(n), rows, k - 1, true, place, num);
      FixedPassOffset(s, rows[k - 1], place, num);
      GivesOrKeeps(rows[k - 1], num);
      NextOffset(rows, k - 1, s.x, StateBefore(n, rows, k, true, place, num).x, num);
    }
  }

  lemma NextOffset(rows: seq<seq<string>>, k: nat, x: int, x': int, num: Numbers)
    requires k < |rows| && LastOffset(rows, k, x, num)
    requires var r := ParseRow(rows[k], x, num); x' == if r.Some? then r.value.x else x
    requires Keeps(rows[k], num) || exists c :: Gives(rows[k], c, num)
    ensures LastOffset(rows, k + 1, x', num)
  {
    if Keeps(rows[k], num) {
      assert x' == x;
      if j :| 0 <= j < k && Gives(rows[j], x, num) && forall l :: j < l < k ==> Keeps(rows[l], num) {
        assert 0 <= j < k + 1 && Gives(rows[j], x', num) && forall l :: j < l < k + 1 ==> Keeps(rows[l], num);
      } else {
        assert forall j :: 0 <= j < k + 1 ==> Keeps(rows[j], num);
      }
    } else {
      var c :| Gives(rows[k], c, num);
      assert ParseRow(rows[k], x, num).Some? && x' == c;
      assert 0 <= k < k + 1 && Gives(rows[k], x', num);
    }
  }

  /** The rows with a location. */
  ghost function WithLocation(rows: seq<seq<string>>, num: Numbers): seq<seq<string>> {
    if rows == [] then []
    else var d := ParseRow(rows[0], 0, num);
         (if d.Some? && d.value.fixed then [rows[0]] else []) + WithLocation(rows[1..], num)
  }

  /** Rows without a location have no effect on where the others go. */
  lemma {:induction false} FixedPassIgnoresOthers(s: LoadState, rows: seq<seq<string>>, place: Placement, num: Numbers)
    requires Sized(s.maps, |s.maps.glob|)
    ensures LoadRows(s, rows, true, place, num) == LoadRows(s, WithLocation(rows, num), true, place, num)
    decreases |rows|
  {
    if rows == [] {
    } else {
      RowAlone(rows[0], 0, s.x, num);
      var given, c := RowOffset(rows[0], num);
      var d := ParseRow(rows[0], 0, num);
      var t := LoadRow(s, rows[0], true, place, num);
      FixedPassIgnoresOthers(t, rows[1..], place, num);
      var rest := WithLocation(rows[1..], num);
      if d.Some? && d.value.fixed {
        assert ([rows[0]] + rest)[1..] == rest;
      } else {
        assert t == s;
        assert WithLocation(rows, num) == rest;
      }
    }
  }

  // ----- aliases -----

  /** Bit and length that the row selects in an original of that length. */
  ghost predicate Window(row: seq<string>, original: nat, bit: nat, length: nat, num: Numbers) {
    || (|row| == 3 && bit == 0 && length == original)
    || (4 <= |row| <= 5 && num.unsigned(row[3]) == Some(bit) && bit <= 31
        && (if |row| == 5 && exists l :: num.unsigned(row[4]) == Some(l) && 1 <= l <= 32
            then num.unsigned(row[4]) == Some(length) else length == 1))
  }

  /** In the registry as it is, the row makes e an alias within the point that its third field names. */
  ghost predicate RowAliases(reg: Registry, row: seq<string>, place: Placement, num: Numbers, e: PointConf) {
    && 3 <= |row| <= 5 && Find(reg, row[0]).None? && Find(reg, row[2]).Some? && place(reg).Some?
    && var o := Find(reg, row[2]).value;
       && e.bit >= o.bit && Window(row, o.length, e.bit - o.bit, e.length, num) && e.bit + e.length <= o.bit + o.length
       && e == NewEntry(reg, place, row[0], "", o.ofs, e.bit, e.length)
  }

  lemma WindowParsed(row: seq<string>, original: nat, bit: nat, length: nat, num: Numbers)
    ensures var a := ParseAlias(row, num);
      3 <= |row| <= 5 && Window(row, original, bit, length, num)
      <==> && a.Some? && a.value.id == row[0] && a.value.original == row[2] && bit == a.value.bit
           && length == if a.value.length == 0 then original else a.value.length
  {
    if |row| == 5 && exists l :: num.unsigned(row[4]) == Some(l) && 1 <= l <= 32 {
      assert num.unsigned(row[4]).Some?;
    }
  }

  /** One alias row registers the alias it asks for ... */
  lemma AliasRegisters(n: nat, reg: Registry, row: seq<string>, place: Placement, num: Numbers, e: PointConf)
    requires (forall d :: d in reg ==> InWord(d, n)) && RowAliases(reg, row, place, num, e)
    ensures Some(LoadAlias(n, reg, row, place, num)) == Insert(reg, e, place)
  {
    var o := Find(reg, row[2]).value;
    WindowParsed(row, o.length, e.bit - o.bit, e.length, num);
    assert SubPt(n, HandleOf(n, o), e.bit - o.bit, e.length) == PtByLoc(n, o.ofs, e.bit, e.length);
    assert PtByName(n, reg, row[0]).NoPt?;
  }

  /** ... and nothing else. */
  lemma AliasOnly(n: nat, reg: Registry, row: seq<string>, place: Placement, num: Numbers)
    requires (forall d :: d in reg ==> InWord(d, n)) && forall e :: !RowAliases(reg, row, place, num, e)
    ensures LoadAlias(n, reg, row, place, num) == reg
  {
    var a := ParseAlias(row, num);
    if a.Some? && Find(reg, row[2]).Some? && Find(reg, row[0]).None? && place(reg).Some? {
      var o := Find(reg, row[2]).value;
      var length := if a.value.length == 0 then o.length else a.value.length;
      WindowParsed(row, o.length, a.value.bit, length, num);
      if a.value.bit + length <= o.length {
        assert RowAliases(reg, row, place, num, NewEntry(reg, place, row[0], "", o.ofs, o.bit + a.value.bit, length));
      }
    }
  }

  lemma OneAlias(reg: Registry, row: seq<string>, place: Placement, num: Numbers, d: PointConf, e: PointConf)
    requires RowAliases(reg, row, place, num, d) && RowAliases(reg, row, place, num, e)
    ensures d == e
  {}

  lemma AliasAdds(n: nat, reg: Registry, row: seq<string>, place: Placement, num: Numbers, e: PointConf)
    requires forall d :: d in reg ==> InWord(d, n)
    ensures e in LoadAlias(n, reg, row, place, num) <==> e in reg || RowAliases(reg, row, place, num, e)
  {
    if forall d :: !RowAliases(reg, row, place, num, d) {
      AliasOnly(n, reg, row, place, num);
    } else {
      var d :| RowAliases(reg, row, place, num, d);
      AliasRegisters(n, reg, row, place, num, d);
      Inserted(reg, d, place);
      if RowAliases(reg, row, place, num, e) {
        OneAlias(reg, row, place, num, d, e);
      }
    }
  }

  lemma {:induction false} AliasByAlias(n: nat, reg: Registry, rows: seq<seq<string>>, row: seq<string>, place: Placement, num: Numbers)
    ensures LoadAliasRows(n, reg, rows + [row], place, num) == LoadAlias(n, LoadAliasRows(n, reg, rows, place, num), row, place, num)
    decreases |rows|
  {
    if rows == [] {
      assert ([row])[1..] == [];
    } else {
      assert (rows + [row])[1..] == rows[1..] + [row];
      AliasByAlias(n, LoadAlias(n, reg, rows[0], place, num), rows[1..], row, place, num);
    }
  }

  ghost function RegistryBefore(n: nat, points: Registry, rows: seq<seq<string>>, r: nat, place: Placement, num: Numbers): Registry
    requires r <= |rows|
  {
    LoadAliasRows(n, points, rows[..r], place, num)
  }

  /** Alias row r registers the alias in the registry that the rows before it leave. */
  ghost predicate AliasesAt(n: nat, points: Registry, rows: seq<seq<string>>, r: nat, place: Placement, num: Numbers, e: PointConf)
    requires r < |rows|
  {
    RowAliases(RegistryBefore(n, points, rows, r, place, num), rows[r], place, num, e)
  }

  ghost predicate AliasesBefore(n: nat, points: Registry, rows: seq<seq<string>>, k: nat, place: Placement, num: Numbers, e: PointConf)
    requires k <= |rows|
  {
    exists r :: 0 <= r < k && AliasesAt(n, points, rows, r, place, num, e)
  }

  lemma NextAliasAdds(n: nat, points: Registry, rows: seq<seq<string>>, k: nat, place: Placement, num: Numbers, e: PointConf)
    requires AliasesOf(points, points, n) && k < |rows|
    ensures e in RegistryBefore(n, points, rows, k + 1, place, num)
      <==> e in RegistryBefore(n, points, rows, k, place, num) || AliasesAt(n, points, rows, k, place, num, e)
  {
    assert rows[..k + 1] == rows[..k] + [rows[k]];
    AliasByAlias(n, points, rows[..k], rows[k], place, num);
    LoadAliasesKeeps(n, points, points, rows[..k], place, num);
    AliasAdds(n, LoadAliasRows(n, points, rows[..k], place, num), rows[k], place, num, e);
  }

  /** The pass over the alias rows adds to the points exactly the aliases that some row asks for. */
  lemma AliasPassAdds(n: nat, points: Registry, rows: seq<seq<string>>, k: nat, place: Placement, num: Numbers, e: PointConf)
    requires AliasesOf(points, points, n) && k <= |rows|
    ensures e in RegistryBefore(n, points, rows, k, place, num) <==> e in points || AliasesBefore(n, points, rows, k, place, num, e)
  {
    var has := seq(k + 1, j requires 0 <= j <= k => e in RegistryBefore(n, points, rows, j, place, num));
    var adds := seq(k, j requires 0 <= j < k => AliasesAt(n, points, rows, j, place, num, e));
    forall j | 0 <= j < k ensures has[j + 1] <==> has[j] || adds[j] {
      NextAliasAdds(n, points, rows, j, place, num, e);
    }
    Accumulates(has, adds);
    assert forall j :: 0 <= j < k ==> adds[j] == AliasesAt(n, points, rows, j, place, num, e);
    assert RegistryBefore(n, points, rows, 0, place, num) == points;
  }

  /** The final registry: the loaded points, and the aliases that the alias rows ask for one after the other. */
  lemma FinalRegistryIs(n: nat, rows: seq<seq<string>>, aliases: seq<seq<string>>, place: Placement, num: Numbers, e: PointConf)
    ensures var points := LoadedPoints(n, rows, place, num).reg;
      e in FinalRegistry(n, rows, aliases, place, num)
      <==> e in points || exists r :: 0 <= r < |aliases| && AliasesAt(n, points, aliases, r, place, num, e)
  {
    LayoutOfConfiguration(n, rows, [], place, num);
    AliasPassAdds(n, LoadedPoints(n, rows, place, num).reg, aliases, |aliases|, place, num, e);
    assert aliases[..|aliases|] == aliases;
  }

  lemma AliasesStay(n: nat, points: Registry, rows: seq<seq<string>>, k: nat, place: Placement, num: Numbers, e: PointConf)
    requires AliasesOf(points, points, n) && k <= |rows| && e in RegistryBefore(n, points, rows, k, place, num)
    ensures e in LoadAliasRows(n, points, rows, place, num)
  {
    AliasPassAdds(n, points, rows, k, place, num, e);
    AliasPassAdds(n, points, rows, |rows|, place, num, e);
    assert rows[..|rows|] == rows;
  }

  /** The first field of the row names the window that the row selects in the point of its third field. */
  ghost predicate NamesSubPoint(n: nat, reg: Registry, row: seq<string>, num: Numbers, e: PointConf)
    requires |row| >= 3
  {
    var o := PtByName(n, reg, row[2]);
    && o.Pt? && e.bit >= o.shift && Window(row, o.length, e.bit - o.shift, e.length, num)
    && PtByName(n, reg, row[0]) == SubPt(n, o, e.bit - o.shift, e.length) && PtByName(n, reg, row[0]).Pt?
  }

  lemma SubPointByName(n: nat, before: Registry, reg: Registry, row: seq<string>, place: Placement, num: Numbers, e: PointConf)
    requires AllExact(reg) && UniqueNames(reg) && RowAliases(before, row, place, num, e)
    requires e in reg && Find(before, row[2]).value in reg && forall d :: d in reg ==> InWord(d, n)
    ensures NamesSubPoint(n, reg, row, num, e)
  {
    FindUnique(reg, e);
    FindUnique(reg, Find(before, row[2]).value);
  }

  /** As long as all blocks have the size of an entry, the name of a registered alias gives the sub-point of its original. */
  lemma AliasIsSubPoint(n: nat, rows: seq<seq<string>>, aliases: seq<seq<string>>, place: Placement, num: Numbers, r: nat, e: PointConf)
    requires r < |aliases| && AliasesAt(n, LoadedPoints(n, rows, place, num).reg, aliases, r, place, num, e)
    requires AllExact(FinalRegistry(n, rows, aliases, place, num))
    ensures NamesSubPoint(n, FinalRegistry(n, rows, aliases, place, num), aliases[r], num, e)
  {
    var points := LoadedPoints(n, rows, place, num).reg;
    var before, reg := RegistryBefore(n, points, aliases, r, place, num), FinalRegistry(n, rows, aliases, place, num);
    LayoutOfConfiguration(n, rows, [], place, num);
    LoadAliasesKeeps(n, points, points, aliases, place, num);
    NextAliasAdds(n, points, aliases, r, place, num, e);
    AliasesStay(n, points, aliases, r + 1, place, num, e);
    AliasesStay(n, points, aliases, r, place, num, Find(before, aliases[r][2]).value);
    SubPointByName(n, before, reg, aliases[r], place, num, e);
  }
}
