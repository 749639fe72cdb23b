/**
 One `point` row of the configuration file (lib/gmm/gmm_setup.c, gmm_get_pt_by_index and
 gmm_parse_at_parm): ID "full name" owner [at x[.y]] [length] [init zzz].
 */
module RowParser {
  import opened Numerals
  import opened Words
  import opened Wrappers

  const I32_MAX := 0x7FFF_FFFF

  datatype PointDef = PointDef(id: string, owner: string, fixed: bool, x: int, y: nat, length: nat, init: Word)

  /** What has been parsed of the optional fields. */
  datatype Fields = Fields(at: bool, lengthSeen: bool, initSeen: bool, vtype: ValueType,
                           fixed: bool, x: int, y: nat, length: nat, init: Word)

  /** Defaults; `x` is whatever the caller's variable held. */
  function Defaults(x: int): Fields {
    Fields(false, false, false, AnyType, false, x, 0, 1, ZERO)
  }

  /** The default length is set before the numbers are parsed, so it stays when they are malformed. */
  function AtParm(f: Fields, s: string, num: Numbers): Fields {
    var d := Dot(s);
    var g := f.(at := true, fixed := true, length := if d == |s| then 32 else 1);
    match num.signed(s[..d])
    case None => g
    case Some(x) =>
      if !(0 <= x <= I32_MAX) then g
      else if d == |s| then g.(x := x, y := 0)
      else match num.signed(s[d + 1..])
           case None => g.(x := x)
           case Some(y) => if 0 <= y < 32 then g.(x := x, y := y) else g.(x := x)
  }

  function OrElse(a: Option<Word>, b: Option<Word>): Option<Word> {
    if a.Some? then a else b
  }

  /** A number is accepted for 32-bit points only; an unreadable value leaves the default. */
  function InitParm(f: Fields, s: string, num: Numbers): Fields {
    var try := (t: ValueType) => if f.length == 32 && (f.vtype == AnyType || f.vtype == t) then num.image(t, s) else None;
    var v :=
      if f.vtype == AnyType && s == "FALSE" then Some(ZERO)
      else if f.vtype == AnyType && s == "TRUE" then Some(LowMask(f.length))
      else OrElse(try(Unsigned), OrElse(try(Signed), try(Float)));
    f.(initSeen := true, init := if v.Some? then v.value else f.init)
  }

  function Strip(s: string, c: char): string {
    if s != "" && s[0] == c then s[1..] else s
  }

  function LengthParm(f: Fields, s: string, num: Numbers): Fields {
    var s1 := Strip(s, 'f');
    var s2 := Strip(s1, 'u');
    var s3 := Strip(s2, 'i');
    var vtype := if s3 != s2 then Signed else if s2 != s1 then Unsigned else if s1 != s then Float else f.vtype;
    var parsed := num.unsigned(s3);
    var length := if parsed.Some? && 1 <= parsed.value <= 32 then parsed.value else f.length;
    f.(lengthSeen := true, vtype := vtype, length := if length + f.y > 32 && f.y <= 32 then 32 - f.y else length)
  }

  /** The optional fields in order; duplicates and fields in the wrong order are ignored. */
  function ParseFields(row: seq<string>, f: Fields, num: Numbers): Fields
    decreases |row|
  {
    if row == [] then f
    else if row[0] == "at" then
      if |row| == 1 then f
      else ParseFields(row[2..], if f.at || f.initSeen || f.lengthSeen then f else AtParm(f, row[1], num), num)
    else if row[0] == "init" then
      if |row| == 1 then f
      else ParseFields(row[2..], if f.initSeen then f else InitParm(f, row[1], num), num)
    else ParseFields(row[1..], if f.lengthSeen || f.initSeen then f else LengthParm(f, row[0], num), num)
  }

  /** `x` is the caller's offset variable, which keeps its old value when no location is read. */
  function ParseRow(row: seq<string>, x: int, num: Numbers): Option<PointDef> {
    if |row| < 3 || |row| > 8 then None
    else var f := ParseFields(row[3..], Defaults(x), num);
         Some(PointDef(row[0], row[2], f.fixed, f.x, f.y, f.length, f.init))
  }

  method ParsePoint(row: seq<string>, x0: int, num: Numbers) returns (r: Option<PointDef>)
    ensures r == ParseRow(row, x0, num)
  {
    if |row| < 3 || |row| > 8 {
      return None;
    }
    var f := Defaults(x0);
    var field := 3;
    while field < |row|
      invariant 3 <= field <= |row|
      invariant ParseFields(row[field..], f, num) == ParseFields(row[3..], Defaults(x0), num)
    {
      var word := row[field];
      field := field + 1;
      assert row[field - 1..][1..] == row[field..];
      if word == "at" || word == "init" {
        if field == |row| {
          break;  // the keyword has no parameter: the row ends here
        }
        var parm := row[field];
        field := field + 1;
        assert row[field - 2..][2..] == row[field..];
        if word == "at" {
          if !f.at && !f.initSeen && !f.lengthSeen {
            f := AtParm(f, parm, num);
          }
        } else if !f.initSeen {
          f := InitParm(f, parm, num);
        }
      } else if !f.lengthSeen && !f.initSeen {
        f := LengthParm(f, word, num);
      }
    }
    return Some(PointDef(row[0], row[2], f.fixed, f.x, f.y, f.length, f.init));
  }

  ghost predicate Sound(f: Fields) {
    && 1 <= f.length && f.y + f.length <= 32 && Within(f.init, LowMask(f.length))
    && (!f.at ==> f.y == 0) && (!f.initSeen ==> f.init == ZERO)
  }

  lemma ZeroWithin(w: Word)
    ensures Within(ZERO, w)
  {}

  lemma StepSound(f: Fields, s: string, num: Numbers)
    requires Sound(f) && !f.initSeen
    ensures !f.at ==> Sound(AtParm(f, s, num))
    ensures Sound(LengthParm(f, s, num))
    ensures Sound(InitParm(f, s, num))
  {}

  lemma {:induction false} FieldsSound(row: seq<string>, f: Fields, num: Numbers)
    requires Sound(f)
    ensures Sound(ParseFields(row, f, num))
    decreases |row|
  {
    if row != [] && !f.initSeen {
      if |row| > 1 {
        StepSound(f, row[1], num);
      }
      StepSound(f, row[0], num);
    }
    if row == [] {
    } else {
      if row[0] == "at" || row[0] == "init" {
        if |row| > 1 {
          FieldsSound(row[2..], if row[0] == "at" then if f.at || f.initSeen || f.lengthSeen then f else AtParm(f, row[1], num)
                                else if f.initSeen then f else InitParm(f, row[1], num), num);
        }
      } else {
        FieldsSound(row[1..], if f.lengthSeen || f.initSeen then f else LengthParm(f, row[0], num), num);
      }
    }
  }

  /** Whatever the order or repetition of the optional fields, the point fits a word and can hold its initial value. */
  lemma RowSound(row: seq<string>, x: int, num: Numbers)
    ensures var r := ParseRow(row, x, num); r.Some? ==>
      && 1 <= r.value.length && r.value.y + r.value.length <= 32
      && Within(r.value.init, LowMask(r.value.length))
  {
    if 3 <= |row| <= 8 {
      ZeroWithin(LowMask(1));
      FieldsSound(row[3..], Defaults(x), num);
    }
  }

  /** Nothing after an `init` parameter has any effect. */
  lemma {:induction false} InitSeals(row: seq<string>, f: Fields, num: Numbers)
    requires f.initSeen
    ensures ParseFields(row, f, num) == f
    decreases |row|
  {
    if row == [] {
    } else {
      if row[0] == "at" || row[0] == "init" {
        if |row| > 1 {
          InitSeals(row[2..], f, num);
        }
      } else {
        InitSeals(row[1..], f, num);
      }
    }
  }

  /** After a length, a location is no longer accepted. */
  lemma {:induction false} LengthSealsLocation(row: seq<string>, f: Fields, num: Numbers)
    requires f.lengthSeen
    ensures var g := ParseFields(row, f, num); (g.fixed, g.x, g.y, g.length) == (f.fixed, f.x, f.y, f.length)
    decreases |row|
  {
    if row == [] {
    } else {
      if row[0] == "at" || row[0] == "init" {
        if |row| > 1 {
          LengthSealsLocation(row[2..], if row[0] == "init" && !f.initSeen then InitParm(f, row[1], num) else f, num);
        }
      } else {
        LengthSealsLocation(row[1..], f, num);
      }
    }
  }

  /** The full form of the documented syntax means what it says; a length that would leave the word is cut. */
  lemma FullRow(id: string, title: string, owner: string, ofs: string, bit: string, len: string,
                x: nat, y: nat, l: nat, x0: int, num: Numbers)
    requires '.' !in ofs && num.signed(ofs) == Some(x) && num.signed(bit) == Some(y) && num.unsigned(len) == Some(l)
    requires x <= I32_MAX && y < 32 && 1 <= l <= 32
    requires len != "at" && len != "init" && len != "" && len[0] !in "fui"
    ensures var cut := if y + l > 32 then 32 - y else l;
      ParseRow([id, title, owner, "at", ofs + "." + bit, len, "init", "TRUE"], x0, num)
      == Some(PointDef(id, owner, true, x, y, cut, LowMask(cut)))
  {
    var s := ofs + "." + bit;
    assert s[|ofs|] == '.' && s[..|ofs|] == ofs && s[|ofs| + 1..] == bit;
    DotAt(s, |ofs|);
    var row := [id, title, owner, "at", s, len, "init", "TRUE"];
    assert row[3..] == ["at", s, len, "init", "TRUE"];
    assert row[3..][2..] == [len, "init", "TRUE"] && [len, "init", "TRUE"][1..] == ["init", "TRUE"] && ["init", "TRUE"][2..] == [];
    var f1 := AtParm(Defaults(x0), s, num);
    var f2 := LengthParm(f1, len, num);
    assert ParseFields(["init", "TRUE"], f2, num) == InitParm(f2, "TRUE", num);
    assert ParseFields([len, "init", "TRUE"], f1, num) == ParseFields(["init", "TRUE"], f2, num);
  }

  // ----- what a row says, from its optional parts -----

  datatype AtPart = NoAt | AtWord(x: string) | AtBit(x: string, y: string)
  datatype LengthPart = NoLength | Length(t: ValueType, l: string)
  datatype InitPart = NoInit | Init(v: string)

  function AtText(a: AtPart): seq<string> {
    match a case NoAt => [] case AtWord(x) => ["at", x] case AtBit(x, y) => ["at", x + "." + y]
  }

  function Prefix(t: ValueType): string {
    match t case AnyType => "" case Unsigned => "u" case Signed => "i" case Float => "f"
  }

  function LengthText(l: LengthPart): seq<string> {
    if l.NoLength? then [] else [Prefix(l.t) + l.l]
  }

  function InitText(i: InitPart): seq<string> {
    if i.NoInit? then [] else ["init", i.v]
  }

  function RowText(id: string, title: string, owner: string, a: AtPart, l: LengthPart, i: InitPart): seq<string> {
    [id, title, owner] + (AtText(a) + (LengthText(l) + InitText(i)))
  }

  /** The parts can be told apart. */
  predicate Readable(a: AtPart, l: LengthPart) {
    && (a.NoAt? || '.' !in a.x)
    && (l.Length? ==> l.l != "" && l.l[0] !in "fui" && Prefix(l.t) + l.l != "at" && Prefix(l.t) + l.l != "init")
  }

  ghost predicate ReadX(a: AtPart, x: int, num: Numbers) {
    !a.NoAt? && num.signed(a.x) == Some(x) && 0 <= x <= 0x7FFF_FFFF
  }

  ghost predicate ReadY(a: AtPart, y: int, num: Numbers) {
    a.AtBit? && num.signed(a.y) == Some(y) && 0 <= y <= 31
  }

  ghost predicate ReadLength(l: LengthPart, n: int, num: Numbers) {
    l.Length? && num.unsigned(l.l) == Some(n) && 1 <= n <= 32
  }

  /** A text that is a number of the wanted kind. */
  ghost predicate ReadImage(t: ValueType, kind: ValueType, v: string, w: Word, num: Numbers) {
    (t == AnyType || t == kind) && num.image(kind, v) == Some(w)
  }

  function TypeOf(l: LengthPart): ValueType {
    if l.Length? then l.t else AnyType
  }

  /** FALSE and TRUE for points of no stated type; a number for 32 bits only, read as unsigned before signed before float; 0 otherwise. */
  ghost predicate InitialValue(t: ValueType, length: nat, i: InitPart, w: Word, num: Numbers) {
    if i.NoInit? then w == ZERO
    else if t == AnyType && i.v == "FALSE" then w == ZERO
    else if t == AnyType && i.v == "TRUE" then w == LowMask(length)
    else if length != 32 then w == ZERO
    else if exists u :: ReadImage(t, Unsigned, i.v, u, num) then ReadImage(t, Unsigned, i.v, w, num)
    else if exists u :: ReadImage(t, Signed, i.v, u, num) then ReadImage(t, Signed, i.v, w, num)
    else if exists u :: ReadImage(t, Float, i.v, u, num) then ReadImage(t, Float, i.v, w, num)
    else w == ZERO
  }

  /** The point that the row defines; x0 is the offset of the row before, which an unreadable offset leaves in place. */
  ghost predicate Means(def: PointDef, id: string, owner: string, a: AtPart, l: LengthPart, i: InitPart, x0: int, num: Numbers) {
    && def.id == id && def.owner == owner && def.fixed == !a.NoAt?
    && (if exists x :: ReadX(a, x, num) then ReadX(a, def.x, num) else def.x == x0)
    && (if (exists x :: ReadX(a, x, num)) && exists y :: ReadY(a, y, num) then ReadY(a, def.y, num) else def.y == 0)
    && (exists n: nat :: LengthOr(n, l, DefaultLength(a), num) && def.length == Cut(n, def.y))
    && InitialValue(TypeOf(l), def.length, i, def.init, num)
  }

  /** The stated length if it can be read, else the default. */
  ghost predicate LengthOr(n: nat, l: LengthPart, default: nat, num: Numbers) {
    if exists k :: ReadLength(l, k, num) then ReadLength(l, n, num) else n == default
  }

  /** The default is 32 for a location without a bit, 1 otherwise. */
  function DefaultLength(a: AtPart): nat {
    if a.AtWord? then 32 else 1
  }

  function Cut(n: nat, y: nat): nat {
    if n + y > 32 && y <= 32 then 32 - y else n
  }

  lemma NoDot(s: string)
    requires '.' !in s
    ensures Dot(s) == |s|
  {}

  ghost predicate Located(g: Fields, a: AtPart, x0: int, num: Numbers) {
    && g.fixed == g.at == !a.NoAt? && !g.lengthSeen && !g.initSeen && g.vtype == AnyType && g.init == ZERO
    && g.length == DefaultLength(a)
    && (if exists x :: ReadX(a, x, num) then ReadX(a, g.x, num) else g.x == x0)
    && (if (exists x :: ReadX(a, x, num)) && exists y :: ReadY(a, y, num) then ReadY(a, g.y, num) else g.y == 0)
  }

  lemma LocationRead(a: AtPart, x0: int, num: Numbers)
    requires !a.NoAt? && '.' !in a.x
    ensures Located(AtParm(Defaults(x0), AtText(a)[1], num), a, x0, num)
  {
    var s := AtText(a)[1];
    if num.signed(a.x).Some? && 0 <= num.signed(a.x).value <= I32_MAX {
      assert ReadX(a, num.signed(a.x).value, num);
    }
    if a.AtBit? && num.signed(a.y).Some? && 0 <= num.signed(a.y).value < 32 {
      assert ReadY(a, num.signed(a.y).value, num);
    }
    if a.AtWord? {
      NoDot(s);
      assert s[..|s|] == a.x;
    } else {
      assert s[|a.x|] == '.' && s[..|a.x|] == a.x && s[|a.x| + 1..] == a.y;
      DotAt(s, |a.x|);
    }
  }

  lemma LengthRead(f: Fields, t: ValueType, l: string, num: Numbers) returns (n: nat)
    requires l != "" && l[0] !in "fui" && f.vtype == AnyType
    ensures LengthOr(n, Length(t, l), f.length, num)
    ensures LengthParm(f, Prefix(t) + l, num) == f.(lengthSeen := true, vtype := t, length := Cut(n, f.y))
  {
    var s := Prefix(t) + l;
    if t == AnyType {
      assert s == l;
    } else {
      assert s[1..] == l && s[0] == Prefix(t)[0];
    }
    assert l[0] != 'f' && l[0] != 'u' && l[0] != 'i';
    n := f.length;
    if num.unsigned(l).Some? && 1 <= num.unsigned(l).value <= 32 {
      n := num.unsigned(l).value;
      assert ReadLength(Length(t, l), n, num);
    }
  }

  lemma InitRead(f: Fields, v: string, num: Numbers)
    requires f.init == ZERO
    ensures InitialValue(f.vtype, f.length, Init(v), InitParm(f, v, num).init, num)
    ensures InitParm(f, v, num) == f.(initSeen := true, init := InitParm(f, v, num).init)
  {
    var w := InitParm(f, v, num).init;
    if num.image(Unsigned, v).Some? && (f.vtype == AnyType || f.vtype == Unsigned) {
      assert ReadImage(f.vtype, Unsigned, v, num.image(Unsigned, v).value, num);
    }
    if num.image(Signed, v).Some? && (f.vtype == AnyType || f.vtype == Signed) {
      assert ReadImage(f.vtype, Signed, v, num.image(Signed, v).value, num);
    }
    if num.image(Float, v).Some? && (f.vtype == AnyType || f.vtype == Float) {
      assert ReadImage(f.vtype, Float, v, num.image(Float, v).value, num);
    }
  }

  lemma ParseAtPart(a: AtPart, rest: seq<string>, x0: int, num: Numbers) returns (g: Fields)
    requires !a.NoAt? ==> '.' !in a.x
    ensures Located(g, a, x0, num) && ParseFields(AtText(a) + rest, Defaults(x0), num) == ParseFields(rest, g, num)
  {
    if a.NoAt? {
      g := Defaults(x0);
      assert AtText(a) + rest == rest;
    } else {
      g := AtParm(Defaults(x0), AtText(a)[1], num);
      LocationRead(a, x0, num);
      var row := AtText(a) + rest;
      assert row[0] == "at" && row[1] == AtText(a)[1] && row[2..] == rest;
    }
  }

  lemma ParseLengthPart(f: Fields, l: LengthPart, rest: seq<string>, num: Numbers) returns (g: Fields, n: nat)
    requires !f.lengthSeen && !f.initSeen && f.vtype == AnyType && Readable(NoAt, l)
    requires l.NoLength? ==> f.length + f.y <= 32
    ensures ParseFields(LengthText(l) + rest, f, num) == ParseFields(rest, g, num)
    ensures LengthOr(n, l, f.length, num)
    ensures g == f.(lengthSeen := g.lengthSeen, vtype := TypeOf(l), length := Cut(n, f.y))
  {
    if l.NoLength? {
      g, n := f, f.length;
      assert LengthText(l) + rest == rest;
    } else {
      g := LengthParm(f, LengthText(l)[0], num);
      n := LengthRead(f, l.t, l.l, num);
      assert l == Length(l.t, l.l);
      var row := LengthText(l) + rest;
      assert row[0] == LengthText(l)[0] && row[1..] == rest;
    }
  }

  lemma ParseInitPart(f: Fields, i: InitPart, num: Numbers) returns (g: Fields)
    requires !f.initSeen && f.init == ZERO
    ensures ParseFields(InitText(i), f, num) == g && InitialValue(f.vtype, f.length, i, g.init, num)
    ensures g == f.(initSeen := g.initSeen, init := g.init)
  {
    if i.NoInit? {
      g := f;
    } else {
      g := InitParm(f, i.v, num);
      InitRead(f, i.v, num);
      assert InitText(i)[2..] == [];
    }
  }

  /** Every row in the documented order means what its parts say, whether its numbers can be read or not. */
  lemma RowMeaning(id: string, title: string, owner: string, a: AtPart, l: LengthPart, i: InitPart, x0: int, num: Numbers)
    requires Readable(a, l)
    ensures var r := ParseRow(RowText(id, title, owner, a, l, i), x0, num);
      r.Some? && Means(r.value, id, owner, a, l, i, x0, num)
  {
    var row := RowText(id, title, owner, a, l, i);
    assert row[3..] == AtText(a) + (LengthText(l) + InitText(i));
    var f1 := ParseAtPart(a, LengthText(l) + InitText(i), x0, num);
    var f2, n := ParseLengthPart(f1, l, InitText(i), num);
    var f3 := ParseInitPart(f2, i, num);
    assert LengthOr(n, l, DefaultLength(a), num) && f3.length == Cut(n, f3.y);
  }

  /** A row is refused for its number of fields only. */
  lemma RefusedRows(row: seq<string>, x: int, num: Numbers)
    ensures ParseRow(row, x, num).None? <==> |row| < 3 || |row| > 8
  {}

  /** After a location, another one is not accepted. */
  lemma {:induction false} LocationSeals(row: seq<string>, f: Fields, num: Numbers)
    requires f.at
    ensures var g := ParseFields(row, f, num); (g.fixed, g.x, g.y) == (f.fixed, f.x, f.y)
    decreases |row|
  {
    if row == [] {
    } else if row[0] == "at" || row[0] == "init" {
      if |row| > 1 {
        LocationSeals(row[2..], if row[0] == "init" && !f.initSeen then InitParm(f, row[1], num) else f, num);
      }
    } else {
      LocationSeals(row[1..], if f.lengthSeen || f.initSeen then f else LengthParm(f, row[0], num), num);
    }
  }

  function AfterWord(f: Fields, row: seq<string>, num: Numbers): Fields
    requires row != []
  {
    if row[0] == "at" then (if |row| == 1 || f.at || f.initSeen || f.lengthSeen then f else AtParm(f, row[1], num))
    else if row[0] == "init" then (if |row| == 1 || f.initSeen then f else InitParm(f, row[1], num))
    else if f.lengthSeen || f.initSeen then f else LengthParm(f, row[0], num)
  }

  /** An offset that can be read replaces the one of the row before; an unreadable one leaves it. */
  lemma AtOffset(f: Fields, s: string, num: Numbers) returns (given: bool, c: int)
    ensures forall v :: AtParm(f.(x := v), s, num) == AtParm(f, s, num).(x := if given then c else v)
  {
    given := num.signed(s[..Dot(s)]).Some? && 0 <= num.signed(s[..Dot(s)]).value <= I32_MAX;
    c := if given then num.signed(s[..Dot(s)]).value else 0;
  }

  lemma InitOffset(f: Fields, v: int, s: string, num: Numbers)
    ensures InitParm(f.(x := v), s, num) == InitParm(f, s, num).(x := v)
  {}

  lemma LengthOffset(f: Fields, v: int, s: string, num: Numbers)
    ensures LengthParm(f.(x := v), s, num) == LengthParm(f, s, num).(x := v)
  {}

  lemma AfterWordOffset(f: Fields, row: seq<string>, num: Numbers) returns (given: bool, c: int)
    requires row != []
    ensures forall v :: AfterWord(f.(x := v), row, num) == AfterWord(f, row, num).(x := if given then c else v)
    ensures f.fixed || given ==> AfterWord(f, row, num).fixed
  {
    given, c := false, 0;
    if row[0] == "at" && |row| > 1 && !(f.at || f.initSeen || f.lengthSeen) {
      given, c := AtOffset(f, row[1], num);
    }
    forall v ensures AfterWord(f.(x := v), row, num) == AfterWord(f, row, num).(x := if given then c else v) {
      if |row| > 1 {
        InitOffset(f, v, row[1], num);
      }
      LengthOffset(f, v, row[0], num);
    }
  }

  lemma FieldsAfterWord(row: seq<string>, f: Fields, num: Numbers)
    requires row != []
    ensures var n := if row[0] == "at" || row[0] == "init" then 2 else 1;
      ParseFields(row, f, num) == if |row| < n then f else ParseFields(row[n..], AfterWord(f, row, num), num)
  {}

  /** The offset of the row before changes nothing but the offset, and not even that once a location is read. */
  lemma {:induction false} OffsetOnly(row: seq<string>, f: Fields, num: Numbers) returns (given: bool, c: int)
    ensures forall v :: ParseFields(row, f.(x := v), num) == ParseFields(row, f, num).(x := if given then c else v)
    ensures f.fixed || given ==> ParseFields(row, f, num).fixed
    decreases |row|
  {
    given, c := false, 0;
    if row == [] {
    } else {
      var n := if row[0] == "at" || row[0] == "init" then 2 else 1;
      var given1, c1, given2, c2 := false, 0, false, 0;
      if n <= |row| {
        given1, c1 := AfterWordOffset(f, row, num);
        given2, c2 := OffsetOnly(row[n..], AfterWord(f, row, num), num);
        given, c := given1 || given2, if given2 then c2 else c1;
      }
      FieldsAfterWord(row, f, num);
      forall v ensures ParseFields(row, f.(x := v), num) == ParseFields(row, f, num).(x := if given then c else v) {
        FieldsAfterWord(row, f.(x := v), num);
      }
    }
  }

  /** The offset of a row is its own or that of the row before; without a location it is the latter. */
  lemma RowOffset(row: seq<string>, num: Numbers) returns (given: bool, c: int)
    ensures forall x :: var r := ParseRow(row, x, num);
      r.Some? ==> r.value.x == (if given then c else x) && (given ==> r.value.fixed)
    ensures forall x, x' :: var r, r' := ParseRow(row, x, num), ParseRow(row, x', num);
      (r.Some? <==> r'.Some?) && (r.Some? ==> r.value.(x := 0) == r'.value.(x := 0))
  {
    given, c := false, 0;
    if 3 <= |row| <= 8 {
      given, c := OffsetOnly(row[3..], Defaults(0), num);
      forall x ensures ParseFields(row[3..], Defaults(x), num)
        == ParseFields(row[3..], Defaults(0), num).(x := if given then c else x)
      {
        assert Defaults(x) == Defaults(0).(x := x);
      }
    }
  }

  /** What a row defines apart from its offset does not depend on the rows before it. */
  lemma RowAlone(row: seq<string>, x: int, x': int, num: Numbers)
    ensures var r, r' := ParseRow(row, x, num), ParseRow(row, x', num);
      (r.Some? <==> r'.Some?) && (r.Some? ==> r.value.(x := 0) == r'.value.(x := 0))
  {
    var given, c := RowOffset(row, num);
  }
}
