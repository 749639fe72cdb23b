/**
 Words, values and quoted strings of the configuration file (lib/conffile/conffile.c).
 A line is a string; the terminating NUL of C stands just past its end.
 */
module ConfLexer {
  const COMMENT := '#'

  predicate Blank(c: char) {
    c == ' ' || c == '\t' || c == '\U{0C}' || c == '\U{0B}' || c == '\r' || c == '\n'
  }

  // ----- blanks and comments -----

  /** The first position at or after `i` that is neither blank nor in a comment. */
  function Skip(s: string, i: nat): (j: nat)
    requires i <= |s|
    ensures i <= j <= |s|
    decreases |s| - i
  {
    if i == |s| then i
    else if Blank(s[i]) then Skip(s, i + 1)
    else if s[i] == COMMENT then |s|
    else i
  }

  method SkipSpace(s: string, i: nat) returns (j: nat)
    requires i <= |s|
    ensures j == Skip(s, i)
  {
    j := i;
    while j < |s| && Blank(s[j])
      invariant i <= j <= |s| && Skip(s, j) == Skip(s, i)
    {
      j := j + 1;
    }
    if j < |s| && s[j] == COMMENT {
      j := |s|;
    }
  }

  /** A comment starts at `c`, with only blanks between `i` and it. */
  predicate CommentAt(s: string, i: nat, c: nat) {
    i <= c < |s| && s[c] == COMMENT && forall b :: i <= b < c ==> Blank(s[b])
  }

  ghost predicate Skippable(s: string, i: nat, k: nat)
    requires k < |s|
  {
    Blank(s[k]) || exists c: nat :: c <= k && CommentAt(s, i, c)
  }

  lemma SkippableEarlier(s: string, i: nat, k: nat)
    requires i < |s| && Blank(s[i]) && k < |s| && Skippable(s, i + 1, k)
    ensures Skippable(s, i, k)
  {
    if !Blank(s[k]) {
      var c: nat :| c <= k && CommentAt(s, i + 1, c);
      assert CommentAt(s, i, c);
    }
  }

  /** Skipping stops at the end or at a meaningful character, and passes only blanks and at most one comment. */
  lemma {:induction false} SkipStops(s: string, i: nat)
    requires i <= |s|
    ensures var j := Skip(s, i);
      && (j < |s| ==> !Blank(s[j]) && s[j] != COMMENT)
      && forall k :: i <= k < j ==> Skippable(s, i, k)
    decreases |s| - i
  {
    if i < |s| {
      if Blank(s[i]) {
        SkipStops(s, i + 1);
        forall k | i < k < Skip(s, i) ensures Skippable(s, i, k) {
          SkippableEarlier(s, i, k);
        }
      } else if s[i] == COMMENT {
        assert CommentAt(s, i, i);
      }
    }
  }

  // ----- quoted strings -----

  datatype Scan = Close(at: nat) | NoClose | PastEnd

  /** The scanner: a backslash skips two characters, even over the terminating NUL. */
  function ScanQuote(s: string, t: nat): (r: Scan)
    ensures r.Close? ==> t <= r.at < |s| && s[r.at] == '"'
    decreases |s| + 2 - t
  {
    if t > |s| then PastEnd
    else if t == |s| then NoClose
    else if s[t] == '"' then Close(t)
    else if s[t] == '\\' then ScanQuote(s, t + 2)
    else ScanQuote(s, t + 1)
  }

  predicate Escaped(s: string, i: nat) {
    i + 1 < |s| && s[i] == '\\' && (s[i + 1] == '\\' || s[i + 1] == '"')
  }

  /** The copier: drops a backslash before a backslash or a quote, keeps every other one. */
  function Copy(s: string, i: nat, end: nat): string
    requires end <= |s|
    decreases end - i
  {
    if i >= end then ""
    else if Escaped(s, i) then [s[i + 1]] + Copy(s, i + 2, end)
    else [s[i]] + Copy(s, i + 1, end)
  }

  /** Where the copier's cursor stops. */
  function CopyStop(s: string, i: nat, end: nat): nat
    decreases end - i
  {
    if i >= end then i else CopyStop(s, if Escaped(s, i) then i + 2 else i + 1, end)
  }

  /** Scanner and copier agree on every escape: the copier stops exactly on the closing quote. */
  lemma {:induction false} CopierMeetsScanner(s: string, t: nat)
    requires ScanQuote(s, t).Close?
    ensures CopyStop(s, t, ScanQuote(s, t).at) == ScanQuote(s, t).at
    decreases |s| - t
  {
    var k := ScanQuote(s, t).at;
    if t == k {
    } else {
      if s[t] == '\\' {
        CopierMeetsScanner(s, t + 2);
        if !Escaped(s, t) {
          assert CopyStop(s, t, k) == CopyStop(s, t + 1, k);
          assert CopyStop(s, t + 1, k) == CopyStop(s, t + 2, k);
        }
      } else {
        CopierMeetsScanner(s, t + 1);
      }
    }
  }

  datatype Token = Nothing | Overrun | Text(value: string, rest: nat)

  /** getquoted as a function of the line: NULL leaves the cursor where it was. */
  function Quoted(s: string, w: nat): (r: Token)
    requires w <= |s|
    ensures r.Text? ==> r.rest <= |s|
  {
    if w == |s| || s[w] != '"' then Nothing
    else match ScanQuote(s, w + 1)
         case NoClose => Nothing
         case PastEnd => Overrun
         case Close(k) => Text(Copy(s, w + 1, k), Skip(s, k + 1))
  }

  lemma CopyStep(s: string, i: nat, end: nat)
    requires i < end <= |s|
    ensures var k := if Escaped(s, i) then i + 1 else i;
      k < |s| && Copy(s, i, end) == [s[k]] + Copy(s, k + 1, end) && CopyStop(s, i, end) == CopyStop(s, k + 1, end)
  {}

  lemma Regroup(text: string, c: char, rest: string)
    ensures text + ([c] + rest) == text + [c] + rest
  {}

  method GetSpan(s: string, start: nat, end: nat) returns (text: string, stop: nat)
    requires start < end <= |s|
    ensures text == Copy(s, start, end) && stop == CopyStop(s, start, end)
  {
    text, stop := "", start;
    while stop < end
      invariant start <= stop
      invariant text + Copy(s, stop, end) == Copy(s, start, end)
      invariant CopyStop(s, stop, end) == CopyStop(s, start, end)
      decreases end - stop
    {
      CopyStep(s, stop, end);
      if stop + 1 < |s| && s[stop] == '\\' && (s[stop + 1] == '\\' || s[stop + 1] == '"') {
        stop := stop + 1;
      }
      Regroup(text, s[stop], Copy(s, stop + 1, end));
      text := text + [s[stop]];
      stop := stop + 1;
    }
  }

  method GetQuoted(s: string, w: nat) returns (r: Token)
    requires w <= |s|
    ensures r == Quoted(s, w)
  {
    if w == |s| || s[w] != '"' {
      return Nothing;
    }
    var tmp := w + 1;
    while tmp < |s| && s[tmp] != '"'
      invariant w < tmp <= |s| + 1
      invariant ScanQuote(s, tmp) == ScanQuote(s, w + 1)
      decreases |s| + 2 - tmp
    {
      if s[tmp] == '\\' {
        tmp := tmp + 2;
      } else {
        tmp := tmp + 1;
      }
    }
    if tmp > |s| {
      return Overrun;  // the scan has stepped over the terminating NUL
    }
    if tmp == |s| {
      return Nothing;
    }
    var text, stop := "", tmp;
    if tmp != w + 1 {
      CopierMeetsScanner(s, w + 1);
      text, stop := GetSpan(s, w + 1, tmp);
      stop := SkipSpace(s, stop);
    }
    stop := SkipSpace(s, stop + 1);
    r := Text(text, stop);
  }

  // ----- when a scan steps over the end of the line -----

  /** How many backslashes stand directly before `k`, not counting any before `t`. */
  function Slashes(s: string, t: nat, k: nat): nat
    requires k <= |s|
    decreases k
  {
    if k <= t || s[k - 1] != '\\' then 0 else 1 + Slashes(s, t, k - 1)
  }

  /** The character at `k`, or the terminating NUL, is escaped for a scan that starts at `t`. */
  predicate Odd(s: string, t: nat, k: nat)
    requires k <= |s|
  {
    Slashes(s, t, k) % 2 == 1
  }

  lemma {:induction false} OddFrom(s: string, t: nat, k: nat)
    requires t < k <= |s| && s[t] != '\\'
    ensures Slashes(s, t, k) == Slashes(s, t + 1, k)
    decreases k
  {
    if k > t + 1 {
      OddFrom(s, t, k - 1);
    }
  }

  /** Skipping an escaped pair shortens a run that reaches it by two, or by the one backslash of the pair. */
  lemma {:induction false} OddFromPair(s: string, t: nat, k: nat)
    requires t + 2 <= k <= |s| && s[t] == '\\'
    ensures Odd(s, t, k) == Odd(s, t + 2, k)
    ensures Slashes(s, t, k) == Slashes(s, t + 2, k) || Slashes(s, t, k) == Slashes(s, t + 2, k) + 2
    decreases k
  {
    if k > t + 2 {
      OddFromPair(s, t, k - 1);
    } else {
      assert Slashes(s, t, t + 1) == 1 + Slashes(s, t, t);
      assert Slashes(s, t, t + 2) == if s[t + 1] == '\\' then 1 + Slashes(s, t, t + 1) else 0;
    }
  }

  /** Every character that would end the scan is escaped, and so is the NUL. */
  ghost predicate RunsOver(s: string, t: nat, ends: char -> bool)
    requires t <= |s|
  {
    Odd(s, t, |s|) && forall q: nat :: t <= q < |s| && ends(s[q]) ==> Odd(s, t, q)
  }

  lemma RunsOverOne(s: string, t: nat, ends: char -> bool)
    requires t < |s| && s[t] != '\\'
    ensures RunsOver(s, t, ends) <==> !ends(s[t]) && RunsOver(s, t + 1, ends)
  {
    OddFrom(s, t, |s|);
    forall q: nat | t < q < |s| ensures Odd(s, t, q) == Odd(s, t + 1, q) {
      OddFrom(s, t, q);
    }
    assert !Odd(s, t, t);
  }

  lemma RunsOverPair(s: string, t: nat, ends: char -> bool)
    requires t + 2 <= |s| && s[t] == '\\' && !ends('\\')
    ensures RunsOver(s, t, ends) <==> RunsOver(s, t + 2, ends)
  {
    OddFromPair(s, t, |s|);
    forall q: nat | t + 2 <= q < |s| ensures Odd(s, t, q) == Odd(s, t + 2, q) {
      OddFromPair(s, t, q);
    }
    assert Slashes(s, t, t + 1) == 1 + Slashes(s, t, t);
  }

  lemma RunsOverLast(s: string, t: nat, ends: char -> bool)
    requires t + 1 == |s| && s[t] == '\\' && !ends('\\')
    ensures RunsOver(s, t, ends)
  {
    assert Slashes(s, t, t + 1) == 1 + Slashes(s, t, t);
  }

  predicate IsQuote(c: char) {
    c == '"'
  }

  /** The quoted scan leaves the line exactly when every quote from its start on is escaped, and the NUL too. */
  lemma {:induction false} QuoteOverrunIff(s: string, t: nat)
    requires t <= |s|
    ensures ScanQuote(s, t) == PastEnd <==> RunsOver(s, t, IsQuote)
    decreases |s| - t
  {
    if t == |s| {
    } else {
      if s[t] != '\\' {
        RunsOverOne(s, t, IsQuote);
        if s[t] != '"' {
          QuoteOverrunIff(s, t + 1);
        }
      } else if t + 1 == |s| {
        RunsOverLast(s, t, IsQuote);
      } else {
        RunsOverPair(s, t, IsQuote);
        QuoteOverrunIff(s, t + 2);
      }
    }
  }

  /** Position k holds the first quote, from t on, that is not escaped. */
  ghost predicate FirstQuote(s: string, t: nat, k: nat) {
    t <= k < |s| && s[k] == '"' && !Odd(s, t, k) && forall q: nat :: t <= q < k && s[q] == '"' ==> Odd(s, t, q)
  }

  lemma FirstQuoteLater(s: string, t: nat, d: nat, k: nat)
    requires d == 1 || d == 2
    requires t + d <= |s| && (if d == 1 then s[t] != '\\' && s[t] != '"' else s[t] == '\\')
    ensures FirstQuote(s, t, k) <==> FirstQuote(s, t + d, k)
  {
    forall q: nat | t + d <= q <= |s| ensures Odd(s, t, q) == Odd(s, t + d, q) {
      if d == 2 {
        OddFromPair(s, t, q);
      } else if q > t {
        OddFrom(s, t, q);
      }
    }
    if d == 2 {
      assert Slashes(s, t, t + 1) == 1 + Slashes(s, t, t);
    }
  }

  /** The quoted scan closes exactly at the first quote that is not escaped; so it finds none exactly when there is none and it stays in the line. */
  lemma {:induction false} QuoteClosesIff(s: string, t: nat, k: nat)
    requires t <= |s|
    ensures ScanQuote(s, t) == Close(k) <==> FirstQuote(s, t, k)
    decreases |s| - t
  {
    if t == |s| {
    } else if s[t] == '"' {
      assert Slashes(s, t, t) == 0;
    } else if s[t] != '\\' {
      FirstQuoteLater(s, t, 1, k);
      QuoteClosesIff(s, t + 1, k);
    } else if t + 2 <= |s| {
      FirstQuoteLater(s, t, 2, k);
      QuoteClosesIff(s, t + 2, k);
    }
  }

  /** What ends an unquoted scan; a backslash never does. */
  function Ends(good: char -> bool): char -> bool {
    c => c != '\\' && !good(c)
  }

  /** An unquoted scan leaves the line exactly when every character that would end it, from its start on, is escaped, and the NUL too. */
  lemma {:induction false} RunOverrunIff(s: string, t: nat, good: char -> bool)
    requires t <= |s|
    ensures ScanRun(s, t, good) > |s| <==> RunsOver(s, t, Ends(good))
    decreases |s| - t
  {
    if t == |s| {
    } else if s[t] != '\\' {
      RunsOverOne(s, t, Ends(good));
      if good(s[t]) {
        RunOverrunIff(s, t + 1, good);
      }
    } else if t + 1 == |s| {
      RunsOverLast(s, t, Ends(good));
    } else {
      RunsOverPair(s, t, Ends(good));
      RunOverrunIff(s, t + 2, good);
    }
  }

  /** One backslash as the last character of the file is enough, quoted or not; two are not. */
  lemma OverrunInputs()
    ensures Quoted("\"\\", 0) == ValueAt("\\", 0) == WordAt("\\", 0) == Overrun
    ensures Quoted("\"\\\\", 0) == Nothing
  {
    QuoteOverrunIff("\"\\", 1);
    assert Odd("\"\\", 1, 2) by {
      assert Slashes("\"\\", 1, 2) == 1 + Slashes("\"\\", 1, 1);
    }
    RunsOverLast("\\", 0, Ends(Graph));
    RunOverrunIff("\\", 0, Graph);
    RunsOverLast("\\", 0, Ends(WordChar));
    RunOverrunIff("\\", 0, WordChar);
    assert ScanQuote("\"\\\\", 1) == ScanQuote("\"\\\\", 3);
  }

  /** A line that still has its newline is never left. */
  lemma NewlineStops(s: string, w: nat)
    requires w <= |s| && s != "" && s[|s| - 1] == '\n'
    ensures ValueAt(s, w) != Overrun && WordAt(s, w) != Overrun
  {
    if w < |s| {
      QuoteOverrunIff(s, w + 1);
      RunOverrunIff(s, w, Graph);
      RunOverrunIff(s, w, WordChar);
    }
  }

  // ----- quoting and reading back -----

  function EscapeChar(c: char): string {
    if c == '\\' || c == '"' then ['\\', c] else [c]
  }

  function Escape(v: string): string {
    if v == "" then "" else EscapeChar(v[0]) + Escape(v[1..])
  }

  function Quote(v: string): string {
    "\"" + Escape(v) + "\""
  }

  /** The text `v` stands at position `t` of the line. */
  ghost predicate Stands(s: string, t: nat, v: string) {
    t + |v| <= |s| && forall k :: 0 <= k < |v| ==> v[k] == s[t + k]
  }

  lemma StandsParts(s: string, t: nat, a: string, b: string)
    requires Stands(s, t, a + b)
    ensures Stands(s, t, a) && Stands(s, t + |a|, b)
  {
    forall k | 0 <= k < |a| ensures a[k] == s[t + k] {
      assert (a + b)[k] == a[k];
    }
    forall k | 0 <= k < |b| ensures b[k] == s[t + |a| + k] {
      assert (a + b)[|a| + k] == b[k];
    }
  }

  // ----- values and records -----

  /** isgraph, or the high bit set. */
  predicate Graph(c: char) {
    '!' <= c <= '~' || c >= '\U{80}'
  }

  /** isalnum, an underscore, or the high bit set. */
  predicate WordChar(c: char) {
    '0' <= c <= '9' || 'A' <= c <= 'Z' || 'a' <= c <= 'z' || c == '_' || c >= '\U{80}'
  }

  function ScanRun(s: string, t: nat, good: char -> bool): (k: nat)
    ensures t <= k
    decreases |s| + 2 - t
  {
    if t >= |s| then t
    else if s[t] == '\\' then ScanRun(s, t + 2, good)
    else if good(s[t]) then ScanRun(s, t + 1, good)
    else t
  }

  function RunAt(s: string, w: nat, good: char -> bool): (r: Token)
    requires w <= |s|
    ensures r.Text? ==> w < r.rest <= |s|
  {
    var k := ScanRun(s, w, good);
    if k > |s| then Overrun
    else if k == w then Nothing
    else RunStops(s, w, k, good); Text(Copy(s, w, k), Skip(s, k))
  }

  /** getvalue: a quoted string or a run of visible characters. */
  function ValueAt(s: string, w: nat): (r: Token)
    requires w <= |s|
    ensures r.Text? ==> w < r.rest <= |s|
  {
    if w < |s| && s[w] == '"' then Quoted(s, w) else RunAt(s, w, Graph)
  }

  /** getword: a quoted string or a run of word characters. */
  function WordAt(s: string, w: nat): (r: Token)
    requires w <= |s|
    ensures r.Text? ==> w < r.rest <= |s|
  {
    if w < |s| && s[w] == '"' then Quoted(s, w) else RunAt(s, w, WordChar)
  }

  /** Scanner and copier agree on unquoted text, too. */
  lemma {:induction false} RunStops(s: string, t: nat, k: nat, good: char -> bool)
    requires t <= k <= |s| && ScanRun(s, t, good) == k
    ensures CopyStop(s, t, k) == k
    decreases k - t
  {
    if t == k {
    } else if s[t] == '\\' {
      RunStops(s, t + 2, k, good);
      if !Escaped(s, t) {
        assert CopyStop(s, t, k) == CopyStop(s, t + 1, k);
        assert CopyStop(s, t + 1, k) == CopyStop(s, t + 2, k);
      }
    } else {
      RunStops(s, t + 1, k, good);
    }
  }

  /** getspan_ on the scanned run, as getvalue and getword end. */
  method GetRun(s: string, w: nat, end: nat, ghost good: char -> bool) returns (r: Token)
    requires w <= |s| && end == ScanRun(s, w, good)
    ensures r == RunAt(s, w, good)
  {
    if end > |s| {
      return Overrun;
    }
    if end == w {
      return Nothing;
    }
    RunStops(s, w, end, good);
    var text, stop := GetSpan(s, w, end);
    stop := SkipSpace(s, stop);
    r := Text(text, stop);
  }

  method GetValue(s: string, w: nat) returns (r: Token)
    requires w <= |s|
    ensures r == ValueAt(s, w)
  {
    if w < |s| && s[w] == '"' {
      r := GetQuoted(s, w);
      return;
    }
    var tmp := w;
    while tmp < |s| && (s[tmp] == '\\' || Graph(s[tmp]))
      invariant w <= tmp && ScanRun(s, tmp, Graph) == ScanRun(s, w, Graph)
      decreases |s| + 2 - tmp
    {
      tmp := tmp + (if s[tmp] == '\\' then 2 else 1);
    }
    r := GetRun(s, w, tmp, Graph);
  }

  method GetWord(s: string, w: nat) returns (r: Token)
    requires w <= |s|
    ensures r == WordAt(s, w)
  {
    if w < |s| && s[w] == '"' {
      r := GetQuoted(s, w);
      return;
    }
    var tmp := w;
    while tmp < |s| && (s[tmp] == '\\' || WordChar(s[tmp]))
      invariant w <= tmp && ScanRun(s, tmp, WordChar) == ScanRun(s, w, WordChar)
      decreases |s| + 2 - tmp
    {
      tmp := tmp + (if s[tmp] == '\\' then 2 else 1);
    }
    r := GetRun(s, w, tmp, WordChar);
  }

  /** The character classes by code: letters, digits and the like of the C locale, and every character with the high bit. */
  lemma CharacterClasses(c: char)
    ensures var k := c as int;
      && (Blank(c) <==> 9 <= k <= 13 || k == 32)
      && (Graph(c) <==> 33 <= k <= 126 || k >= 128)
      && (WordChar(c) <==> 48 <= k <= 57 || 65 <= k <= 90 || 97 <= k <= 122 || k == 95 || k >= 128)
  {}

  // ----- any text as one could write it -----

  /** A character as it is, an escaped quote or backslash, or a backslash that stays because of what follows it. */
  datatype Unit = Plain(c: char) | Esc(c: char) | Pass(c: char)

  function RawUnit(u: Unit): string {
    match u case Plain(c) => [c] case Esc(c) => ['\\', c] case Pass(c) => ['\\', c]
  }

  function UnitMeaning(u: Unit): string {
    match u case Plain(c) => [c] case Esc(c) => [c] case Pass(c) => ['\\', c]
  }

  function Raw(us: seq<Unit>): string {
    if us == [] then "" else RawUnit(us[0]) + Raw(us[1..])
  }

  function Meaning(us: seq<Unit>): string {
    if us == [] then "" else UnitMeaning(us[0]) + Meaning(us[1..])
  }

  predicate UnitOk(u: Unit, good: char -> bool) {
    match u
    case Plain(c) => good(c) && c != '\\'
    case Esc(c) => c == '\\' || c == '"'
    case Pass(c) => c != '\\' && c != '"'
  }

  predicate UnitsOk(us: seq<Unit>, good: char -> bool) {
    forall u :: u in us ==> UnitOk(u, good)
  }

  lemma UnitStands(s: string, t: nat, u: Unit)
    requires Stands(s, t, RawUnit(u))
    ensures s[t] == (if u.Plain? then u.c else '\\') && (!u.Plain? ==> s[t + 1] == u.c)
  {
    assert RawUnit(u)[0] == s[t];
    assert !u.Plain? ==> RawUnit(u)[1] == s[t + 1];
  }

  lemma UnitCopied(s: string, t: nat, u: Unit, end: nat, good: char -> bool)
    requires UnitOk(u, good) && Stands(s, t, RawUnit(u)) && t + |RawUnit(u)| <= end <= |s|
    ensures Copy(s, t, end) == UnitMeaning(u) + Copy(s, t + |RawUnit(u)|, end)
  {
    UnitStands(s, t, u);
    if u.Pass? {
      assert Copy(s, t + 1, end) == [u.c] + Copy(s, t + 2, end);
      assert ['\\'] + ([u.c] + Copy(s, t + 2, end)) == ['\\', u.c] + Copy(s, t + 2, end);
    }
  }

  lemma {:induction false} UnitsCopied(s: string, t: nat, us: seq<Unit>, end: nat, good: char -> bool)
    requires UnitsOk(us, good) && Stands(s, t, Raw(us)) && end == t + |Raw(us)|
    ensures Copy(s, t, end) == Meaning(us)
    decreases |us|
  {
    if us == [] {
    } else {
      assert us[0] in us;
      StandsParts(s, t, RawUnit(us[0]), Raw(us[1..]));
      UnitCopied(s, t, us[0], end, good);
      UnitsCopied(s, t + |RawUnit(us[0])|, us[1..], end, good);
    }
  }

  lemma {:induction false} UnitsScanned(s: string, t: nat, us: seq<Unit>, good: char -> bool)
    requires UnitsOk(us, good) && Stands(s, t, Raw(us))
    ensures ScanRun(s, t, good) == ScanRun(s, t + |Raw(us)|, good)
    decreases |us|
  {
    if us == [] {
    } else {
      assert us[0] in us;
      StandsParts(s, t, RawUnit(us[0]), Raw(us[1..]));
      UnitStands(s, t, us[0]);
      UnitsScanned(s, t + |RawUnit(us[0])|, us[1..], good);
    }
  }

  predicate NoQuote(c: char) {
    c != '"'
  }

  lemma {:induction false} UnitsQuoteScanned(s: string, t: nat, us: seq<Unit>)
    requires UnitsOk(us, NoQuote) && Stands(s, t, Raw(us))
    ensures ScanQuote(s, t) == ScanQuote(s, t + |Raw(us)|)
    decreases |us|
  {
    if us == [] {
    } else {
      assert us[0] in us;
      StandsParts(s, t, RawUnit(us[0]), Raw(us[1..]));
      UnitStands(s, t, us[0]);
      ScanStep(s, t);
      UnitsQuoteScanned(s, t + |RawUnit(us[0])|, us[1..]);
    }
  }

  lemma ScanStep(s: string, t: nat)
    requires t < |s|
    ensures s[t] == '\\' ==> ScanQuote(s, t) == ScanQuote(s, t + 2)
    ensures s[t] != '\\' && s[t] != '"' ==> ScanQuote(s, t) == ScanQuote(s, t + 1)
  {}

  /** Where an unquoted run ends. */
  predicate StopsAt(s: string, e: nat, good: char -> bool) {
    e >= |s| || (s[e] != '\\' && !good(s[e]))
  }

  lemma {:induction false} RawNonempty(us: seq<Unit>)
    requires us != []
    ensures |Raw(us)| > 0 && Raw(us)[0] == (if us[0].Plain? then us[0].c else '\\')
  {
    assert Raw(us)[0] == RawUnit(us[0])[0];
  }

  lemma ScanStops(s: string, e: nat, good: char -> bool)
    requires StopsAt(s, e, good)
    ensures ScanRun(s, e, good) == e
  {}

  lemma RunIs(s: string, w: nat, good: char -> bool, e: nat, v: string)
    requires w < e <= |s| && ScanRun(s, w, good) == e && Copy(s, w, e) == v
    ensures RunAt(s, w, good) == Text(v, Skip(s, e))
  {}

  /** An unquoted run, with any escapes, is read as what it stands for, up to the first character that ends it. */
  lemma RunReadsBack(s: string, w: nat, us: seq<Unit>, good: char -> bool)
    requires us != [] && UnitsOk(us, good) && Stands(s, w, Raw(us)) && StopsAt(s, w + |Raw(us)|, good)
    ensures RunAt(s, w, good) == Text(Meaning(us), Skip(s, w + |Raw(us)|))
  {
    var e := w + |Raw(us)|;
    RawNonempty(us);
    UnitsScanned(s, w, us, good);
    ScanStops(s, e, good);
    UnitsCopied(s, w, us, e, good);
    RunIs(s, w, good, e, Meaning(us));
  }

  /** getvalue and getword on unquoted text. */
  lemma UnquotedReadsBack(s: string, w: nat, us: seq<Unit>)
    requires us != [] && us[0] != Plain('"') && Stands(s, w, Raw(us))
    ensures UnitsOk(us, Graph) && StopsAt(s, w + |Raw(us)|, Graph) ==> ValueAt(s, w) == Text(Meaning(us), Skip(s, w + |Raw(us)|))
    ensures UnitsOk(us, WordChar) && StopsAt(s, w + |Raw(us)|, WordChar) ==> WordAt(s, w) == Text(Meaning(us), Skip(s, w + |Raw(us)|))
  {
    RawNonempty(us);
    assert us[0] in us;
    assert Raw(us)[0] == s[w];
    if UnitsOk(us, Graph) && StopsAt(s, w + |Raw(us)|, Graph) {
      RunReadsBack(s, w, us, Graph);
    }
    if UnitsOk(us, WordChar) && StopsAt(s, w + |Raw(us)|, WordChar) {
      RunReadsBack(s, w, us, WordChar);
    }
  }

  function PlainUnits(v: string): seq<Unit> {
    seq(|v|, k requires 0 <= k < |v| => Plain(v[k]))
  }

  lemma {:induction false} PlainIsItself(v: string)
    ensures Raw(PlainUnits(v)) == v && Meaning(PlainUnits(v)) == v
  {
    if v == "" {
    } else {
      assert PlainUnits(v)[1..] == PlainUnits(v[1..]);
      PlainIsItself(v[1..]);
      assert v == [v[0]] + v[1..];
    }
  }

  lemma PlainOk(v: string, good: char -> bool)
    requires '\\' !in v && forall c :: c in v ==> good(c)
    ensures UnitsOk(PlainUnits(v), good)
  {}

  lemma RunOfUnits(s: string, w: nat, v: string, us: seq<Unit>, good: char -> bool)
    requires v != "" && Raw(us) == v && Meaning(us) == v && UnitsOk(us, good) && Stands(s, w, v) && StopsAt(s, w + |v|, good)
    ensures RunAt(s, w, good) == Text(v, Skip(s, w + |v|))
  {
    RunReadsBack(s, w, us, good);
  }

  lemma PlainRun(s: string, w: nat, v: string, good: char -> bool)
    requires v != "" && '\\' !in v && (forall c :: c in v ==> good(c)) && Stands(s, w, v) && StopsAt(s, w + |v|, good)
    ensures RunAt(s, w, good) == Text(v, Skip(s, w + |v|))
  {
    PlainIsItself(v);
    PlainOk(v, good);
    RunOfUnits(s, w, v, PlainUnits(v), good);
  }

  /** A word or value without backslashes is read as it stands. */
  lemma PlainReadsBack(s: string, w: nat, v: string)
    requires v != "" && v[0] != '"' && '\\' !in v && Stands(s, w, v)
    ensures (forall c :: c in v ==> Graph(c)) && StopsAt(s, w + |v|, Graph) ==> ValueAt(s, w) == Text(v, Skip(s, w + |v|))
    ensures (forall c :: c in v ==> WordChar(c)) && StopsAt(s, w + |v|, WordChar) ==> WordAt(s, w) == Text(v, Skip(s, w + |v|))
  {
    assert s[w] == v[0];
    if (forall c :: c in v ==> Graph(c)) && StopsAt(s, w + |v|, Graph) {
      PlainRun(s, w, v, Graph);
    }
    if (forall c :: c in v ==> WordChar(c)) && StopsAt(s, w + |v|, WordChar) {
      PlainRun(s, w, v, WordChar);
    }
  }

  /** Quoted text with any escapes, also backslashes that stay. */
  lemma QuotedUnitsReadBack(s: string, w: nat, us: seq<Unit>)
    requires UnitsOk(us, NoQuote) && Stands(s, w, "\"" + Raw(us) + "\"")
    ensures Quoted(s, w) == Text(Meaning(us), Skip(s, w + |Raw(us)| + 2))
  {
    StandsParts(s, w, "\"" + Raw(us), "\"");
    StandsParts(s, w, "\"", Raw(us));
    assert "\""[0] == s[w] && "\""[0] == s[w + 1 + |Raw(us)|];
    UnitsQuoteScanned(s, w + 1, us);
    UnitsCopied(s, w + 1, us, w + 1 + |Raw(us)|, NoQuote);
  }

  /** The fields of a record; a malformed field ends it. */
  function Fields(s: string, w: nat): seq<string>
    requires w <= |s|
    decreases |s| - w
  {
    if w == |s| then []
    else match ValueAt(s, w)
         case Text(v, rest) => [v] + Fields(s, rest)
         case _ => []
  }

  /** Some field of the record is scanned beyond the line. */
  predicate RecordOverruns(s: string, w: nat)
    requires w <= |s|
    decreases |s| - w
  {
    w < |s| && match ValueAt(s, w)
               case Text(_, rest) => RecordOverruns(s, rest)
               case Overrun => true
               case Nothing => false
  }

  /** The fields up to a malformed one; `overrun` tells that the code would go on past the buffer. */
  method ParseRecord(s: string, w: nat) returns (fields: seq<string>, overrun: bool)
    requires w <= |s|
    ensures fields == Fields(s, w) && overrun == RecordOverruns(s, w)
  {
    fields := [];
    var line := w;
    while line < |s|
      invariant w <= line <= |s| && fields + Fields(s, line) == Fields(s, w)
      invariant RecordOverruns(s, line) == RecordOverruns(s, w)
    {
      var field := GetValue(s, line);
      if !field.Text? {
        return fields, field.Overrun?;
      }
      fields := fields + [field.value];
      line := field.rest;
    }
    return fields, false;
  }

  /** On every line but an unterminated last one, the record is read inside the line. */
  lemma {:induction false} RecordStaysInLine(s: string, w: nat)
    requires w <= |s| && s != "" && s[|s| - 1] == '\n'
    ensures !RecordOverruns(s, w)
    decreases |s| - w
  {
    if w < |s| {
      NewlineStops(s, w);
      if ValueAt(s, w).Text? {
        RecordStaysInLine(s, ValueAt(s, w).rest);
      }
    }
  }

  function EscapeUnits(v: string): seq<Unit> {
    seq(|v|, k requires 0 <= k < |v| => if v[k] == '\\' || v[k] == '"' then Esc(v[k]) else Plain(v[k]))
  }

  lemma {:induction false} EscapeIsUnits(v: string)
    ensures Raw(EscapeUnits(v)) == Escape(v) && Meaning(EscapeUnits(v)) == v && UnitsOk(EscapeUnits(v), NoQuote)
  {
    if v == "" {
    } else {
      assert EscapeUnits(v)[1..] == EscapeUnits(v[1..]);
      EscapeIsUnits(v[1..]);
      assert v == [v[0]] + v[1..];
      assert RawUnit(EscapeUnits(v)[0]) == EscapeChar(v[0]) && UnitMeaning(EscapeUnits(v)[0]) == [v[0]];
    }
  }

  /** Wherever the quoted form of a text stands in a line, exactly that text is read back, and the cursor is on the first meaningful character after it. */
  lemma QuoteReadsBack(s: string, w: nat, v: string)
    requires Stands(s, w, Quote(v))
    ensures Quoted(s, w) == Text(v, Skip(s, w + |Quote(v)|))
  {
    EscapeIsUnits(v);
    QuotedOfUnits(s, w, v, Escape(v), EscapeUnits(v));
  }

  lemma QuotedOfUnits(s: string, w: nat, v: string, e: string, us: seq<Unit>)
    requires Raw(us) == e && Meaning(us) == v && UnitsOk(us, NoQuote) && Stands(s, w, "\"" + e + "\"")
    ensures Quoted(s, w) == Text(v, Skip(s, w + |e| + 2))
  {
    QuotedUnitsReadBack(s, w, us);
  }

  predicate AllBlank(g: string) {
    forall c :: c in g ==> Blank(c)
  }

  datatype Field = InQuotes(us: seq<Unit>) | Bare(us: seq<Unit>)

  function FieldText(f: Field): string {
    if f.InQuotes? then "\"" + Raw(f.us) + "\"" else Raw(f.us)
  }

  /** A bare field begins with neither a quote nor a comment. */
  predicate FieldOk(f: Field) {
    if f.InQuotes? then UnitsOk(f.us, NoQuote)
    else f.us != [] && f.us[0] != Plain('"') && f.us[0] != Plain(COMMENT) && UnitsOk(f.us, Graph)
  }

  /** A record line as one would write it: fields quoted or bare, each followed by any blanks, or none. */
  function RecordLine(fields: seq<Field>, gaps: seq<string>): string
    requires |gaps| == |fields|
  {
    if fields == [] then "" else FieldText(fields[0]) + gaps[0] + RecordLine(fields[1..], gaps[1..])
  }

  function Values(fields: seq<Field>): seq<string> {
    seq(|fields|, k requires 0 <= k < |fields| => Meaning(fields[k].us))
  }

  lemma {:induction false} SkipBlanks(s: string, i: nat, g: string)
    requires Stands(s, i, g) && AllBlank(g)
    ensures Skip(s, i) == Skip(s, i + |g|)
    decreases |g|
  {
    if g == "" {
    } else {
      assert g[0] == s[i] && g == [g[0]] + g[1..];
      StandsParts(s, i, [g[0]], g[1..]);
      SkipBlanks(s, i + 1, g[1..]);
    }
  }

  /** One field, wherever it stands. */
  lemma OneField(s: string, w: nat, f: Field)
    requires FieldOk(f) && Stands(s, w, FieldText(f)) && (f.Bare? ==> StopsAt(s, w + |FieldText(f)|, Graph))
    ensures w < |s| && Skip(s, w) == w && ValueAt(s, w) == Text(Meaning(f.us), Skip(s, w + |FieldText(f)|))
  {
    if f.InQuotes? {
      assert FieldText(f)[0] == s[w];
      QuotedUnitsReadBack(s, w, f.us);
    } else {
      RawNonempty(f.us);
      assert Raw(f.us)[0] == s[w];
      assert f.us[0] in f.us;
      UnquotedReadsBack(s, w, f.us);
    }
  }

  lemma FirstField(s: string, w: nat, f: Field, gap: string, rest: string)
    requires FieldOk(f) && Stands(s, w, FieldText(f) + gap + rest) && AllBlank(gap)
    requires f.Bare? ==> gap != "" || (rest == "" && StopsAt(s, w + |FieldText(f)|, Graph))
    ensures var n := w + |FieldText(f)| + |gap|;
      w < n <= |s| && Stands(s, n, rest) && Skip(s, w) == w && ValueAt(s, w) == Text(Meaning(f.us), Skip(s, n))
  {
    var q := FieldText(f);
    StandsParts(s, w, q + gap, rest);
    StandsParts(s, w, q, gap);
    if gap != "" {
      assert gap[0] in gap && gap[0] == s[w + |q|];
    }
    OneField(s, w, f);
    SkipBlanks(s, w + |q|, gap);
  }

  lemma FieldsStep(s: string, w: nat, v: string, n: nat)
    requires w < |s| && n <= |s| && ValueAt(s, w) == Text(v, n)
    ensures Fields(s, w) == [v] + Fields(s, n)
    ensures RecordOverruns(s, w) == RecordOverruns(s, n)
  {}

  /** A bare field needs a blank after it, or to be the last one, with the end of its run at e. */
  ghost predicate SeparatedTo(s: string, e: nat, fields: seq<Field>, gaps: seq<string>)
    requires |gaps| == |fields|
  {
    && (forall g :: g in gaps ==> AllBlank(g))
    && forall k :: 0 <= k < |fields| && fields[k].Bare? && gaps[k] == "" ==> k + 1 == |fields| && StopsAt(s, e, Graph)
  }

  /** Reading from w gives the values and goes on at e. */
  ghost predicate ReadsTo(s: string, w: nat, values: seq<string>, e: nat) {
    w <= |s| && e <= |s| && Fields(s, w) == values + Fields(s, e) && RecordOverruns(s, w) == RecordOverruns(s, e)
  }

  lemma ReadsNothing(s: string, w: nat, values: seq<string>)
    requires w <= |s| && |values| == 0
    ensures ReadsTo(s, Skip(s, w), values, Skip(s, w))
  {
    assert values + Fields(s, Skip(s, w)) == Fields(s, Skip(s, w));
  }

  lemma ReadsOneMore(s: string, w: nat, v: string, n: nat, values: seq<string>, e: nat)
    requires w < |s| && n <= |s| && ValueAt(s, w) == Text(v, n) && ReadsTo(s, n, values, e)
    ensures ReadsTo(s, w, [v] + values, e)
  {
    FieldsStep(s, w, v, n);
    assert [v] + (values + Fields(s, e)) == [v] + values + Fields(s, e);
  }

  lemma RecordLineStep(fields: seq<Field>, gaps: seq<string>)
    requires |gaps| == |fields| && fields != []
    ensures RecordLine(fields, gaps) == FieldText(fields[0]) + gaps[0] + RecordLine(fields[1..], gaps[1..])
    ensures |RecordLine(fields, gaps)| == |FieldText(fields[0])| + |gaps[0]| + |RecordLine(fields[1..], gaps[1..])|
    ensures |fields| == 1 ==> RecordLine(fields[1..], gaps[1..]) == ""
  {}

  lemma SeparatedRest(s: string, fields: seq<Field>, gaps: seq<string>, e: nat)
    requires |gaps| == |fields| && fields != [] && SeparatedTo(s, e, fields, gaps)
    ensures SeparatedTo(s, e, fields[1..], gaps[1..]) && AllBlank(gaps[0])
    ensures fields[0].Bare? && gaps[0] == "" ==> |fields| == 1 && StopsAt(s, e, Graph)
  {
    assert gaps[0] in gaps;
    forall k | 0 <= k < |fields[1..]| && fields[1..][k].Bare? && gaps[1..][k] == ""
      ensures k + 1 == |fields[1..]| && StopsAt(s, e, Graph)
    {
      assert fields[k + 1].Bare? && gaps[k + 1] == "";
    }
  }

  lemma ReadStep(s: string, w: nat, f: Field, gap: string, rest: string, values: seq<string>, e: nat)
    requires FieldOk(f) && Stands(s, w, FieldText(f) + gap + rest) && AllBlank(gap)
    requires f.Bare? ==> gap != "" || (rest == "" && StopsAt(s, w + |FieldText(f)|, Graph))
    requires ReadsTo(s, Skip(s, w + |FieldText(f)| + |gap|), values, e)
    ensures ReadsTo(s, Skip(s, w), [Meaning(f.us)] + values, e)
  {
    FirstField(s, w, f, gap, rest);
    ReadsOneMore(s, w, Meaning(f.us), Skip(s, w + |FieldText(f)| + |gap|), values, e);
  }

  lemma ValuesStep(fields: seq<Field>)
    requires fields != []
    ensures Values(fields) == [Meaning(fields[0].us)] + Values(fields[1..])
  {}

  /** The fields stand at w, end at e, and can be told apart. */
  ghost predicate Record(s: string, w: nat, fields: seq<Field>, gaps: seq<string>, e: nat)
    requires |gaps| == |fields|
  {
    && Stands(s, w, RecordLine(fields, gaps)) && e == w + |RecordLine(fields, gaps)|
    && SeparatedTo(s, e, fields, gaps) && forall f :: f in fields ==> FieldOk(f)
  }

  lemma RecordHead(s: string, w: nat, fields: seq<Field>, gaps: seq<string>, e: nat)
    requires |gaps| == |fields| && fields != [] && Record(s, w, fields, gaps, e)
    ensures var f, g, rest := fields[0], gaps[0], RecordLine(fields[1..], gaps[1..]);
      && FieldOk(f) && AllBlank(g) && Stands(s, w, FieldText(f) + g + rest)
      && (f.Bare? ==> g != "" || (rest == "" && StopsAt(s, w + |FieldText(f)|, Graph)))
  {
    assert fields[0] in fields;
    RecordLineStep(fields, gaps);
    SeparatedRest(s, fields, gaps, e);
  }

  lemma RecordTail(s: string, w: nat, fields: seq<Field>, gaps: seq<string>, e: nat, n: nat)
    requires |gaps| == |fields| && fields != [] && Record(s, w, fields, gaps, e) && n == w + |FieldText(fields[0])| + |gaps[0]|
    ensures Record(s, n, fields[1..], gaps[1..], e)
  {
    RecordLineStep(fields, gaps);
    SeparatedRest(s, fields, gaps, e);
    StandsParts(s, w, FieldText(fields[0]) + gaps[0], RecordLine(fields[1..], gaps[1..]));
  }

  lemma RecordStep(s: string, w: nat, fields: seq<Field>, gaps: seq<string>, e: nat, n: nat, end: nat)
    requires |gaps| == |fields| && fields != [] && Record(s, w, fields, gaps, e) && n == w + |FieldText(fields[0])| + |gaps[0]|
    requires n <= |s| && ReadsTo(s, Skip(s, n), Values(fields[1..]), end)
    ensures ReadsTo(s, Skip(s, w), Values(fields), end)
  {
    RecordHead(s, w, fields, gaps, e);
    ReadStep(s, w, fields[0], gaps[0], RecordLine(fields[1..], gaps[1..]), Values(fields[1..]), end);
    ValuesStep(fields);
  }

  /** Fields in front of anything else are read first, as what they stand for. */
  lemma {:induction false} FieldsReadFirst(s: string, w: nat, fields: seq<Field>, gaps: seq<string>, e: nat)
    requires |gaps| == |fields| && Record(s, w, fields, gaps, e)
    ensures w <= e <= |s| && ReadsTo(s, Skip(s, w), Values(fields), Skip(s, e))
    decreases |fields|
  {
    if fields == [] {
      ReadsNothing(s, w, Values(fields));
    } else {
      var n := w + |FieldText(fields[0])| + |gaps[0]|;
      RecordTail(s, w, fields, gaps, e, n);
      FieldsReadFirst(s, n, fields[1..], gaps[1..], e);
      RecordStep(s, w, fields, gaps, e, n, Skip(s, e));
    }
  }

  /** Whatever the fields contain, quoted or not, and whatever blanks or comment end the line, exactly those fields are read back. */
  lemma RecordReadsBack(s: string, w: nat, fields: seq<Field>, gaps: seq<string>, e: nat)
    requires |gaps| == |fields| && Record(s, w, fields, gaps, e) && e <= |s| && Skip(s, e) == |s|
    ensures Fields(s, Skip(s, w)) == Values(fields) && !RecordOverruns(s, Skip(s, w))
  {
    FieldsReadFirst(s, w, fields, gaps, e);
  }

  ghost predicate Unclosed(s: string, t: nat) {
    forall k: nat :: !FirstQuote(s, t, k)
  }

  lemma UnclosedIsMalformed(s: string, e: nat)
    requires e < |s| && s[e] == '"' && Unclosed(s, e + 1)
    ensures Fields(s, e) == []
  {
    if ScanQuote(s, e + 1).Close? {
      QuoteClosesIff(s, e + 1, ScanQuote(s, e + 1).at);
    }
  }

  /** A quote that no later quote closes ends the record at the fields before it. */
  lemma UnclosedQuoteEnds(s: string, w: nat, fields: seq<Field>, gaps: seq<string>, e: nat)
    requires |gaps| == |fields| && Record(s, w, fields, gaps, e)
    requires e <= |s| && Skip(s, e) < |s| && s[Skip(s, e)] == '"' && Unclosed(s, Skip(s, e) + 1)
    ensures Fields(s, Skip(s, w)) == Values(fields)
  {
    FieldsReadFirst(s, w, fields, gaps, e);
    UnclosedIsMalformed(s, Skip(s, e));
  }
}
