/**
 Reading a configuration file and the files it includes, and the sorted dictionary that
 remembers the files already seen (lib/conffile/conffile.c, lib/misc/ds_util.h).
 */
module IncludeFiles {
  import opened Wrappers

  // ----- strcmp -----

  function Compare(a: string, b: string): int {
    if a == "" then (if b == "" then 0 else -1)
    else if b == "" then 1
    else if a[0] < b[0] then -1
    else if a[0] > b[0] then 1
    else Compare(a[1..], b[1..])
  }

  lemma {:induction false} CompareEqual(a: string, b: string)
    ensures Compare(a, b) == 0 <==> a == b
    decreases |a|
  {
    if a != "" && b != "" && a[0] == b[0] {
      CompareEqual(a[1..], b[1..]);
      assert a == [a[0]] + a[1..] && b == [b[0]] + b[1..];
    }
  }

  lemma {:induction false} CompareFlips(a: string, b: string)
    ensures Compare(a, b) == -Compare(b, a)
    decreases |a|
  {
    if a != "" && b != "" && a[0] == b[0] {
      CompareFlips(a[1..], b[1..]);
    }
  }

  lemma {:induction false} CompareTransitive(a: string, b: string, c: string)
    requires Compare(a, b) <= 0 && Compare(b, c) <= 0
    ensures Compare(a, c) <= 0
    ensures Compare(a, b) < 0 || Compare(b, c) < 0 ==> Compare(a, c) < 0
    decreases |a|
  {
    if a != "" && b != "" && c != "" && a[0] == b[0] == c[0] {
      CompareTransitive(a[1..], b[1..], c[1..]);
    }
  }

  // ----- the dictionary -----

  datatype Entry<T> = Entry(key: string, data: T)

  ghost predicate Sorted<T>(s: seq<Entry<T>>) {
    forall i, j :: 0 <= i < j < |s| ==> Compare(s[i].key, s[j].key) <= 0
  }

  /** What qsort does to entries that are in order except for the last one. */
  function Placed<T>(s: seq<Entry<T>>, e: Entry<T>): seq<Entry<T>> {
    if s == [] || Compare(s[|s| - 1].key, e.key) <= 0 then s + [e]
    else Placed(s[..|s| - 1], e) + [s[|s| - 1]]
  }

  lemma SortedLast<T>(s: seq<Entry<T>>, e: Entry<T>)
    requires Sorted(s) && forall x :: x in s ==> Compare(x.key, e.key) <= 0
    ensures Sorted(s + [e])
  {}

  lemma {:induction false} PlacedSorted<T>(s: seq<Entry<T>>, e: Entry<T>)
    requires Sorted(s)
    ensures Sorted(Placed(s, e)) && multiset(Placed(s, e)) == multiset(s) + multiset{e}
    decreases |s|
  {
    if s == [] {
      SortedLast([], e);
    } else {
      var k := |s| - 1;
      var init, last := s[..k], s[k];
      assert s == init + [last];
      if Compare(last.key, e.key) <= 0 {
        forall x | x in s ensures Compare(x.key, e.key) <= 0 {
          CompareEqual(last.key, last.key);
          CompareTransitive(x.key, last.key, e.key);
        }
        SortedLast(s, e);
      } else {
        PlacedSorted(init, e);
        CompareFlips(last.key, e.key);
        forall x | x in Placed(init, e) ensures Compare(x.key, last.key) <= 0 {
          assert x in multiset(Placed(init, e));
          assert x in multiset(init) + multiset{e};
          assert x != e ==> x in init;
        }
        SortedLast(Placed(init, e), last);
      }
    }
  }

  class Dict<T> {
    var data: seq<Entry<T>>

    ghost predicate Valid()
      reads this
    {
      Sorted(data)
    }

    ghost function Keys(): set<string>
      reads this
    {
      set e | e in data :: e.key
    }

    constructor ()
      ensures Valid() && data == []
    {
      data := [];
    }

    /** Append and sort. */
    method Add(key: string, value: T)
      requires Valid()
      modifies this
      ensures Valid() && multiset(data) == multiset(old(data)) + multiset{Entry(key, value)}
      ensures Keys() == old(Keys()) + {key}
    {
      PlacedSorted(data, Entry(key, value));
      var before := data;
      data := Placed(data, Entry(key, value));
      assert forall e :: e in data <==> e in multiset(data);
      assert forall e :: e in before <==> e in multiset(before);
    }

    /** bsearch: finds an entry with the key whenever there is one. */
    method Get(key: string) returns (r: Option<T>)
      requires Valid()
      ensures r.Some? ==> Entry(key, r.value) in data
      ensures r.Some? <==> key in Keys()
    {
      var lo, hi := 0, |data|;
      while lo < hi
        invariant 0 <= lo <= hi <= |data|
        invariant forall i :: 0 <= i < lo ==> Compare(data[i].key, key) < 0
        invariant forall i :: hi <= i < |data| ==> Compare(data[i].key, key) > 0
      {
        var mid := (lo + hi) / 2;
        var c := Compare(data[mid].key, key);
        CompareEqual(data[mid].key, key);
        if c == 0 {
          assert data[mid] in data;
          return Some(data[mid].data);
        } else if c < 0 {
          forall i | lo <= i <= mid ensures Compare(data[i].key, key) < 0 {
            if i < mid {
              CompareTransitive(data[i].key, data[mid].key, key);
            }
          }
          lo := mid + 1;
        } else {
          CompareFlips(data[mid].key, key);
          forall i | mid <= i < hi ensures Compare(data[i].key, key) > 0 {
            if i > mid {
              CompareTransitive(key, data[mid].key, data[i].key);
              CompareFlips(key, data[i].key);
            }
          }
          hi := mid;
        }
      }
      forall e | e in data ensures e.key != key {
        CompareEqual(e.key, key);
      }
      return None;
    }
  }

  // ----- files and includes -----

  /** A line is an include directive with its expanded file names, or anything else. */
  datatype Line = Include(names: seq<string>) | Other(text: string)

  type Files = map<string, seq<Line>>

  ghost predicate Edge(fs: Files, x: string, y: string) {
    x in fs && exists l :: l in fs[x] && l.Include? && y in l.names
  }

  ghost predicate Path(fs: Files, p: seq<string>) {
    p != [] && forall i :: 0 <= i < |p| - 1 ==> Edge(fs, p[i], p[i + 1])
  }

  ghost predicate Reaches(fs: Files, x: string, y: string) {
    exists p :: Path(fs, p) && p[0] == x && p[|p| - 1] == y
  }

  lemma ReachesSelf(fs: Files, x: string)
    ensures Reaches(fs, x, x)
  {
    assert Path(fs, [x]) && [x][0] == x;
  }

  lemma ReachesBehind(fs: Files, x: string, y: string, z: string)
    requires Edge(fs, x, y) && Reaches(fs, y, z)
    ensures Reaches(fs, x, z)
  {
    var p :| Path(fs, p) && p[0] == y && p[|p| - 1] == z;
    var q := [x] + p;
    forall i | 0 <= i < |q| - 1 ensures Edge(fs, q[i], q[i + 1]) {
      if i > 0 {
        assert Edge(fs, p[i - 1], p[i - 1 + 1]);
      }
    }
    assert Path(fs, q) && q[0] == x && q[|q| - 1] == z;
  }

  /** All file names that can come up: a finite set that includes never leave. */
  ghost predicate Universe(fs: Files, u: set<string>) {
    forall x, y :: x in u && Edge(fs, x, y) ==> y in u
  }

  /** Every file in `s` has all its includes in `all`. */
  ghost predicate Closed(fs: Files, s: set<string>, all: set<string>) {
    forall x, y :: x in s && Edge(fs, x, y) ==> y in all
  }

  lemma {:induction false} ClosedReaches(fs: Files, s: set<string>, p: seq<string>)
    requires Closed(fs, s, s) && Path(fs, p) && p[0] in s
    ensures p[|p| - 1] in s
    decreases |p|
  {
    if |p| > 1 {
      assert Edge(fs, p[0], p[1]);
      var q := p[1..];
      forall i | 0 <= i < |q| - 1 ensures Edge(fs, q[i], q[i + 1]) {
        assert Edge(fs, p[i + 1], p[i + 1 + 1]);
      }
      ClosedReaches(fs, s, q);
    }
  }

  ghost predicate NoRepeats(s: seq<string>) {
    forall i, j :: 0 <= i < j < |s| ==> s[i] != s[j]
  }

  /** `log` lists, without repetition, the existing files among those newly seen. */
  ghost predicate Logged(fs: Files, log: seq<string>, seen: set<string>) {
    NoRepeats(log) && forall x :: x in log <==> x in seen && x in fs
  }

  lemma LogsJoin(fs: Files, log1: seq<string>, seen1: set<string>, log2: seq<string>, seen2: set<string>)
    requires Logged(fs, log1, seen1) && Logged(fs, log2, seen2) && seen1 !! seen2
    ensures Logged(fs, log1 + log2, seen1 + seen2)
  {
    forall i, j | 0 <= i < j < |log1 + log2| ensures (log1 + log2)[i] != (log1 + log2)[j] {
      if i < |log1| <= j {
        assert log1[i] in log1 && log2[j - |log1|] in log2;
      }
    }
  }

  // ----- textual inclusion -----

  /** What is still to be read: a file, or a line. */
  datatype Item = File(name: string) | Text(line: Line)

  /** `visited` and `lines` are the files and the lines read so far, in order. */
  datatype Reading = Reading(agenda: seq<Item>, seen: set<string>, visited: seq<string>, lines: seq<string>)

  function FileItems(names: seq<string>): seq<Item> {
    seq(|names|, i requires 0 <= i < |names| => File(names[i]))
  }

  function LineItems(lines: seq<Line>): seq<Item> {
    seq(|lines|, i requires 0 <= i < |lines| => Text(lines[i]))
  }

  /** Textual inclusion: an include line is replaced by its files, and a file by its lines the first time only. */
  function Step(fs: Files, r: Reading): Reading
    requires r.agenda != []
  {
    var rest := r.agenda[1..];
    match r.agenda[0]
    case File(x) =>
      if x in r.seen then r.(agenda := rest)
      else if x !in fs then r.(agenda := rest, seen := r.seen + {x})
      else r.(agenda := LineItems(fs[x]) + rest, seen := r.seen + {x}, visited := r.visited + [x])
    case Text(Include(names)) => r.(agenda := FileItems(names) + rest)
    case Text(Other(t)) => r.(agenda := rest, lines := r.lines + [t])
  }

  function Steps(fs: Files, r: Reading, n: nat): Reading
    decreases n
  {
    if n == 0 || r.agenda == [] then r else Steps(fs, Step(fs, r), n - 1)
  }

  /** Textual inclusion of the agenda ends, having visited these files and read these lines. */
  ghost predicate ReadsAs(fs: Files, agenda: seq<Item>, seen: set<string>, visited: seq<string>, lines: seq<string>, seen': set<string>) {
    exists n: nat :: Steps(fs, Reading(agenda, seen, [], []), n) == Reading([], seen', visited, lines)
  }

  /** More on the agenda, and more already read, do not change what the first items lead to. */
  lemma {:induction false} StepsFrame(fs: Files, r: Reading, n: nat, rest: seq<Item>, visited: seq<string>, lines: seq<string>) returns (k: nat)
    requires Steps(fs, r, n).agenda == []
    ensures var t := Steps(fs, r, n);
      Steps(fs, Reading(r.agenda + rest, r.seen, visited + r.visited, lines + r.lines), k)
      == Reading(rest, t.seen, visited + t.visited, lines + t.lines)
    decreases n
  {
    if r.agenda == [] {
      k := 0;
      assert r.agenda + rest == rest;
    } else {
      var s := Step(fs, r);
      k := StepsFrame(fs, s, n - 1, rest, visited, lines);
      k := k + 1;
      StepFrame(fs, r, rest, visited, lines);
    }
  }

  lemma StepFrame(fs: Files, r: Reading, rest: seq<Item>, visited: seq<string>, lines: seq<string>)
    requires r.agenda != []
    ensures var s := Step(fs, r);
      r.agenda + rest != []
      && Step(fs, Reading(r.agenda + rest, r.seen, visited + r.visited, lines + r.lines))
         == Reading(s.agenda + rest, s.seen, visited + s.visited, lines + s.lines)
  {
    assert (r.agenda + rest)[1..] == r.agenda[1..] + rest;
    match r.agenda[0]
    case File(x) =>
      if x in fs {
        assert LineItems(fs[x]) + (r.agenda[1..] + rest) == LineItems(fs[x]) + r.agenda[1..] + rest;
        assert visited + (r.visited + [x]) == visited + r.visited + [x];
      }
    case Text(Include(names)) =>
      assert FileItems(names) + (r.agenda[1..] + rest) == FileItems(names) + r.agenda[1..] + rest;
    case Text(Other(t)) =>
      assert lines + (r.lines + [t]) == lines + r.lines + [t];
  }

  lemma {:induction false} StepsAdd(fs: Files, r: Reading, n: nat, m: nat)
    ensures Steps(fs, Steps(fs, r, n), m) == Steps(fs, r, n + m)
    decreases n
  {
    if n == 0 || r.agenda == [] {
    } else {
      StepsAdd(fs, Step(fs, r), n - 1, m);
    }
  }

  /** One agenda after the other. */
  lemma ReadsInOrder(fs: Files, a: seq<Item>, b: seq<Item>, s0: set<string>, s1: set<string>, s2: set<string>,
                     o1: seq<string>, l1: seq<string>, o2: seq<string>, l2: seq<string>)
    requires ReadsAs(fs, a, s0, o1, l1, s1) && ReadsAs(fs, b, s1, o2, l2, s2)
    ensures ReadsAs(fs, a + b, s0, o1 + o2, l1 + l2, s2)
  {
    var n: nat :| Steps(fs, Reading(a, s0, [], []), n) == Reading([], s1, o1, l1);
    var m: nat :| Steps(fs, Reading(b, s1, [], []), m) == Reading([], s2, o2, l2);
    var k1 := StepsFrame(fs, Reading(a, s0, [], []), n, b, [], []);
    var k2 := StepsFrame(fs, Reading(b, s1, [], []), m, [], o1, l1);
    assert Reading(a + b, s0, [] + [], [] + []) == Reading(a + b, s0, [], []);
    assert Reading(b + [], s1, o1 + [], l1 + []) == Reading(b, s1, o1, l1);
    assert [] + o1 == o1 && [] + l1 == l1;
    StepsAdd(fs, Reading(a + b, s0, [], []), k1, k2);
  }

  lemma ReadsNothing(fs: Files, seen: set<string>)
    ensures ReadsAs(fs, [], seen, [], [], seen)
  {
    assert Steps(fs, Reading([], seen, [], []), 0) == Reading([], seen, [], []);
  }

  lemma ReadsLine(fs: Files, t: string, seen: set<string>)
    ensures ReadsAs(fs, [Text(Other(t))], seen, [], [t], seen)
  {
    var r := Reading([Text(Other(t))], seen, [], []);
    assert Step(fs, r) == Reading([], seen, [], [t]);
    assert Steps(fs, r, 1) == Steps(fs, Step(fs, r), 0);
  }

  lemma ReadsInclude(fs: Files, names: seq<string>, seen: set<string>, visited: seq<string>, lines: seq<string>, seen': set<string>)
    requires ReadsAs(fs, FileItems(names), seen, visited, lines, seen')
    ensures ReadsAs(fs, [Text(Include(names))], seen, visited, lines, seen')
  {
    var n: nat :| Steps(fs, Reading(FileItems(names), seen, [], []), n) == Reading([], seen', visited, lines);
    var r := Reading([Text(Include(names))], seen, [], []);
    assert FileItems(names) + [] == FileItems(names);
    assert Step(fs, r) == Reading(FileItems(names), seen, [], []);
    assert Steps(fs, r, n + 1) == Steps(fs, Step(fs, r), n);
  }

  lemma ReadsSeen(fs: Files, x: string, seen: set<string>)
    requires x in seen || x !in fs
    ensures ReadsAs(fs, [File(x)], seen, [], [], seen + {x})
  {
    var r := Reading([File(x)], seen, [], []);
    assert x in seen ==> seen + {x} == seen;
    assert Step(fs, r) == Reading([], seen + {x}, [], []);
    assert Steps(fs, r, 1) == Steps(fs, Step(fs, r), 0);
  }

  lemma ReadsFile(fs: Files, x: string, seen: set<string>, visited: seq<string>, lines: seq<string>, seen': set<string>)
    requires x !in seen && x in fs && ReadsAs(fs, LineItems(fs[x]), seen + {x}, visited, lines, seen')
    ensures ReadsAs(fs, [File(x)], seen, [x] + visited, lines, seen')
  {
    var a := Reading(LineItems(fs[x]), seen + {x}, [], []);
    var n: nat :| Steps(fs, a, n) == Reading([], seen', visited, lines);
    var k := StepsFrame(fs, a, n, [], [x], []);
    var r := Reading([File(x)], seen, [], []);
    assert LineItems(fs[x]) + [] == LineItems(fs[x]) && [x] + [] == [x] && [] + lines == lines;
    assert Step(fs, r) == Reading(LineItems(fs[x]) + [], seen + {x}, [x] + [], [] + []);
    assert Steps(fs, r, k + 1) == Steps(fs, Step(fs, r), k);
  }

  /** What the lines before an include line, the files it names one after the other, and the lines after it give, in this order. */
  lemma InclusionInPlace(fs: Files, x: string, before: seq<Line>, a: seq<string>, b: seq<string>, after: seq<Line>,
                         s: seq<set<string>>, o: seq<seq<string>>, l: seq<seq<string>>)
    requires x in fs && fs[x] == before + [Include(a + b)] + after && |s| == 5 && |o| == |l| == 4 && x !in s[0]
    requires ReadsAs(fs, LineItems(before), s[0] + {x}, o[0], l[0], s[1])
    requires ReadsAs(fs, FileItems(a), s[1], o[1], l[1], s[2]) && ReadsAs(fs, FileItems(b), s[2], o[2], l[2], s[3])
    requires ReadsAs(fs, LineItems(after), s[3], o[3], l[3], s[4])
    ensures ReadsAs(fs, [File(x)], s[0], [x] + (o[0] + (o[1] + o[2]) + o[3]), l[0] + (l[1] + l[2]) + l[3], s[4])
  {
    ReadsInOrder(fs, FileItems(a), FileItems(b), s[1], s[2], s[3], o[1], l[1], o[2], l[2]);
    assert FileItems(a) + FileItems(b) == FileItems(a + b);
    ReadsInclude(fs, a + b, s[1], o[1] + o[2], l[1] + l[2], s[3]);
    var directive := [Text(Include(a + b))];
    ReadsInOrder(fs, LineItems(before), directive, s[0] + {x}, s[1], s[3], o[0], l[0], o[1] + o[2], l[1] + l[2]);
    ReadsInOrder(fs, LineItems(before) + directive, LineItems(after), s[0] + {x}, s[3], s[4],
                 o[0] + (o[1] + o[2]), l[0] + (l[1] + l[2]), o[3], l[3]);
    assert LineItems(before) + directive + LineItems(after) == LineItems(fs[x]);
    ReadsFile(fs, x, s[0], o[0] + (o[1] + o[2]) + o[3], l[0] + (l[1] + l[2]) + l[3], s[4]);
  }

  function OtherLines(texts: seq<string>): seq<Line> {
    seq(|texts|, i requires 0 <= i < |texts| => Other(texts[i]))
  }

  lemma {:induction false} ReadsLines(fs: Files, texts: seq<string>, seen: set<string>)
    ensures ReadsAs(fs, LineItems(OtherLines(texts)), seen, [], texts, seen)
    decreases |texts|
  {
    if texts == [] {
      ReadsNothing(fs, seen);
      assert LineItems(OtherLines(texts)) == [];
    } else {
      ReadsLine(fs, texts[0], seen);
      ReadsLines(fs, texts[1..], seen);
      ReadsInOrder(fs, [Text(Other(texts[0]))], LineItems(OtherLines(texts[1..])), seen, seen, seen, [], [texts[0]], [], texts[1..]);
      assert [Text(Other(texts[0]))] + LineItems(OtherLines(texts[1..])) == LineItems(OtherLines(texts));
      assert [texts[0]] + texts[1..] == texts;
      var none: seq<string> := [];
      assert none + none == none;
    }
  }

  /** A file without include lines gives its lines the first time, and nothing after that. */
  lemma PlainFile(fs: Files, x: string, texts: seq<string>, seen: set<string>)
    requires x in fs && fs[x] == OtherLines(texts)
    ensures x !in seen ==> ReadsAs(fs, [File(x)], seen, [x], texts, seen + {x})
    ensures x in seen ==> ReadsAs(fs, [File(x)], seen, [], [], seen)
  {
    if x in seen {
      ReadsSeen(fs, x, seen);
      assert seen + {x} == seen;
    } else {
      ReadsLines(fs, texts, seen + {x});
      ReadsFile(fs, x, seen, [], texts, seen + {x});
      assert [x] + [] == [x];
    }
  }

  /** Textual inclusion has one outcome. */
  lemma OneReading(fs: Files, agenda: seq<Item>, seen: set<string>, o1: seq<string>, l1: seq<string>, s1: set<string>,
                   o2: seq<string>, l2: seq<string>, s2: set<string>)
    requires ReadsAs(fs, agenda, seen, o1, l1, s1) && ReadsAs(fs, agenda, seen, o2, l2, s2)
    ensures o1 == o2 && l1 == l2 && s1 == s2
  {
    var r := Reading(agenda, seen, [], []);
    var n: nat :| Steps(fs, r, n) == Reading([], s1, o1, l1);
    var m: nat :| Steps(fs, r, m) == Reading([], s2, o2, l2);
    StepsAdd(fs, r, n, m);
    StepsAdd(fs, r, m, n);
    assert Steps(fs, Steps(fs, r, n), m) == Steps(fs, r, n);
    assert Steps(fs, Steps(fs, r, m), n) == Steps(fs, r, m);
    assert n + m == m + n;
  }

  // ----- reading a file -----

  /** The names newly seen are reached from the file, and `log` lists the existing files among them. */
  ghost predicate SeenFrom(fs: Files, name: string, k0: set<string>, k: set<string>, log: seq<string>) {
    k0 <= k && (forall x :: x in k - k0 ==> Reaches(fs, name, x)) && Logged(fs, log, k - k0)
  }

  /** The file has been read, and all it includes. */
  ghost predicate FileRead(fs: Files, name: string, k0: set<string>, k: set<string>, log: seq<string>, text: seq<string>) {
    && name in k && SeenFrom(fs, name, k0, k, log) && Closed(fs, k - k0, k)
    && ReadsAs(fs, [File(name)], k0, log, text, k)
  }

  /** The first i lines of the new file have been read. */
  ghost predicate LinesRead(fs: Files, name: string, i: nat, k0: set<string>, k: set<string>, visited: seq<string>, text: seq<string>)
    requires name in fs && i <= |fs[name]|
  {
    && name in k && name !in k0 && SeenFrom(fs, name, k0, k, [name] + visited) && Closed(fs, k - k0 - {name}, k)
    && (forall j :: 0 <= j < i ==> Followed(fs[name][j], k))
    && ReadsAs(fs, LineItems(fs[name][..i]), k0 + {name}, visited, text, k)
  }

  /** The first i files of an include line of the file have been read. */
  ghost predicate NamesRead(fs: Files, name: string, names: seq<string>, i: nat, k0: set<string>, k: set<string>, log: seq<string>, text: seq<string>)
    requires i <= |names|
  {
    && (forall j :: 0 <= j < i ==> names[j] in k) && SeenFrom(fs, name, k0, k, log) && Closed(fs, k - k0, k)
    && ReadsAs(fs, FileItems(names[..i]), k0, log, text, k)
  }

  ghost predicate Followed(l: Line, keys: set<string>) {
    l.Include? ==> forall y :: y in l.names ==> y in keys
  }

  lemma SeenJoin(fs: Files, name: string, k0: set<string>, k1: set<string>, k2: set<string>, log1: seq<string>, log2: seq<string>)
    requires SeenFrom(fs, name, k0, k1, log1) && SeenFrom(fs, name, k1, k2, log2)
    ensures SeenFrom(fs, name, k0, k2, log1 + log2)
  {
    LogsJoin(fs, log1, k1 - k0, log2, k2 - k1);
    assert k2 - k0 == (k1 - k0) + (k2 - k1);
  }

  lemma NewFile(fs: Files, name: string, k0: set<string>)
    requires name !in k0
    ensures name in fs ==> LinesRead(fs, name, 0, k0, k0 + {name}, [], [])
    ensures name !in fs ==> FileRead(fs, name, k0, k0 + {name}, [], [])
  {
    ReachesSelf(fs, name);
    assert k0 + {name} - k0 == {name};
    if name in fs {
      assert LineItems(fs[name][..0]) == [];
      ReadsNothing(fs, k0 + {name});
    } else {
      ReadsSeen(fs, name, k0);
    }
  }

  lemma KnownFile(fs: Files, name: string, k: set<string>)
    requires name in k
    ensures FileRead(fs, name, k, k, [], [])
  {
    ReadsSeen(fs, name, k);
    assert k + {name} == k;
  }

  lemma NextLine(fs: Files, name: string, i: nat, k0: set<string>, k1: set<string>, k2: set<string>,
                 visited: seq<string>, text: seq<string>, more: seq<string>, read: seq<string>)
    requires name in fs && i < |fs[name]| && LinesRead(fs, name, i, k0, k1, visited, text)
    requires SeenFrom(fs, name, k1, k2, more) && Closed(fs, k2 - k1, k2) && Followed(fs[name][i], k2)
    requires ReadsAs(fs, [Text(fs[name][i])], k1, more, read, k2)
    ensures LinesRead(fs, name, i + 1, k0, k2, visited + more, text + read)
  {
    var lines := fs[name];
    SeenJoin(fs, name, k0, k1, k2, [name] + visited, more);
    assert [name] + visited + more == [name] + (visited + more);
    assert LineItems(lines[..i + 1]) == LineItems(lines[..i]) + [Text(lines[i])];
    ReadsInOrder(fs, LineItems(lines[..i]), [Text(lines[i])], k0 + {name}, k1, k2, visited, text, more, read);
  }

  lemma IncludeLine(fs: Files, name: string, i: nat, k0: set<string>, k1: set<string>, k2: set<string>,
                    visited: seq<string>, text: seq<string>, more: seq<string>, read: seq<string>)
    requires name in fs && i < |fs[name]| && LinesRead(fs, name, i, k0, k1, visited, text) && fs[name][i].Include?
    requires var names := fs[name][i].names; NamesRead(fs, name, names, |names|, k1, k2, more, read)
    ensures LinesRead(fs, name, i + 1, k0, k2, visited + more, text + read)
  {
    var names := fs[name][i].names;
    assert names[..|names|] == names;
    ReadsInclude(fs, names, k1, more, read, k2);
    NextLine(fs, name, i, k0, k1, k2, visited, text, more, read);
  }

  lemma OtherLine(fs: Files, name: string, i: nat, k0: set<string>, k: set<string>, visited: seq<string>, text: seq<string>)
    requires name in fs && i < |fs[name]| && LinesRead(fs, name, i, k0, k, visited, text) && fs[name][i].Other?
    ensures LinesRead(fs, name, i + 1, k0, k, visited, text + [fs[name][i].text])
  {
    ReadsLine(fs, fs[name][i].text, k);
    NextLine(fs, name, i, k0, k, k, visited, text, [], [fs[name][i].text]);
    assert visited + [] == visited;
  }

  lemma WholeFile(fs: Files, name: string, k0: set<string>, k: set<string>, visited: seq<string>, text: seq<string>)
    requires name in fs && LinesRead(fs, name, |fs[name]|, k0, k, visited, text)
    ensures FileRead(fs, name, k0, k, [name] + visited, text)
  {
    assert fs[name][..|fs[name]|] == fs[name];
    ReadsFile(fs, name, k0, visited, text, k);
    forall y | Edge(fs, name, y) ensures y in k {
      var l :| l in fs[name] && l.Include? && y in l.names;
      var j :| 0 <= j < |fs[name]| && fs[name][j] == l;
      assert Followed(fs[name][j], k);
    }
  }

  lemma NextName(fs: Files, name: string, line: Line, i: nat, k0: set<string>, k1: set<string>, k2: set<string>,
                 log: seq<string>, text: seq<string>, more: seq<string>, read: seq<string>)
    requires name in fs && line in fs[name] && line.Include? && i < |line.names|
    requires NamesRead(fs, name, line.names, i, k0, k1, log, text) && FileRead(fs, line.names[i], k1, k2, more, read)
    ensures NamesRead(fs, name, line.names, i + 1, k0, k2, log + more, text + read)
  {
    var y := line.names[i];
    assert Edge(fs, name, y);
    forall x | x in k2 - k1 ensures Reaches(fs, name, x) {
      ReachesBehind(fs, name, y, x);
    }
    SeenJoin(fs, name, k0, k1, k2, log, more);
    assert FileItems(line.names[..i + 1]) == FileItems(line.names[..i]) + [File(y)];
    ReadsInOrder(fs, FileItems(line.names[..i]), [File(y)], k0, k1, k2, log, text, more, read);
  }

  lemma NoNames(fs: Files, name: string, names: seq<string>, k: set<string>)
    ensures NamesRead(fs, name, names, 0, k, k, [], [])
  {
    assert FileItems(names[..0]) == [];
    ReadsNothing(fs, k);
  }

  /**
   parse_file and, through parse_line and parse_directive, the files it includes. The results list the files that
   were read and their lines in the order of parsing, as textual inclusion gives them. It terminates on every
   include graph: each call that goes on adds a name to `files`.
   */
  method ParseFile(fs: Files, name: string, files: Dict<string>, ghost u: set<string>)
    returns (log: seq<string>, text: seq<string>)
    requires files.Valid() && files.Keys() <= u && name in u && Universe(fs, u)
    modifies files
    ensures files.Valid() && files.Keys() <= u
    ensures FileRead(fs, name, old(files.Keys()), files.Keys(), log, text)
    decreases u - files.Keys(), 1
  {
    log, text := [], [];
    ghost var k0 := files.Keys();
    var seen := files.Get(name);
    if seen.Some? {
      KnownFile(fs, name, k0);
      return;
    }
    files.Add(name, name);
    NewFile(fs, name, k0);
    if name !in fs {
      return;  // the file cannot be opened
    }
    var lines := fs[name];
    var visited: seq<string> := [];
    var i := 0;
    while i < |lines|
      invariant 0 <= i <= |lines|
      invariant files.Valid() && files.Keys() <= u
      invariant LinesRead(fs, name, i, k0, files.Keys(), visited, text)
    {
      if lines[i].Include? {
        ghost var k1 := files.Keys();
        var more, read := ParseIncludes(fs, name, lines[i], files, u);
        IncludeLine(fs, name, i, k0, k1, files.Keys(), visited, text, more, read);
        visited, text := visited + more, text + read;
      } else {
        OtherLine(fs, name, i, k0, files.Keys(), visited, text);
        text := text + [lines[i].text];
      }
      i := i + 1;
    }
    WholeFile(fs, name, k0, files.Keys(), visited, text);
    log := [name] + visited;
  }

  /** The files of one include directive, in order. */
  method ParseIncludes(fs: Files, name: string, line: Line, files: Dict<string>, ghost u: set<string>)
    returns (log: seq<string>, text: seq<string>)
    requires files.Valid() && files.Keys() <= u && name in u && Universe(fs, u)
    requires name in fs && line in fs[name] && line.Include?
    modifies files
    ensures files.Valid() && files.Keys() <= u
    ensures NamesRead(fs, name, line.names, |line.names|, old(files.Keys()), files.Keys(), log, text)
    decreases u - files.Keys(), 2
  {
    log, text := [], [];
    ghost var k0 := files.Keys();
    NoNames(fs, name, line.names, k0);
    var i := 0;
    while i < |line.names|
      invariant 0 <= i <= |line.names|
      invariant files.Valid() && files.Keys() <= u
      invariant NamesRead(fs, name, line.names, i, k0, files.Keys(), log, text)
    {
      ghost var k1 := files.Keys();
      assert Edge(fs, name, line.names[i]);
      var more, read := ParseFile(fs, line.names[i], files, u);
      NextName(fs, name, line, i, k0, k1, files.Keys(), log, text, more, read);
      log, text := log + more, text + read;
      i := i + 1;
    }
  }

  /**
   parse_config: the files seen are exactly those reachable from the given one, each existing one is parsed once, and
   the lines are parsed in the order of textual inclusion.
   */
  method ParseConfig(fs: Files, root: string, ghost u: set<string>) 
    returns (ok: bool, files: Dict<string>, log: seq<string>, text: seq<string>)
    requires root in u && Universe(fs, u)
    ensures ok <==> root in fs
    ensures ReadsAs(fs, [File(root)], {}, log, text, files.Keys())
    ensures fresh(files) && files.Valid()
    ensures forall x :: x in files.Keys() <==> Reaches(fs, root, x)
    ensures NoRepeats(log) && forall x :: x in log <==> Reaches(fs, root, x) && x in fs
  {
    files := new Dict();
    assert files.Keys() == {};
    log, text := ParseFile(fs, root, files, u);
    ok := root in fs;
    forall x | Reaches(fs, root, x) ensures x in files.Keys() {
      var p :| Path(fs, p) && p[0] == root && p[|p| - 1] == x;
      ClosedReaches(fs, files.Keys(), p);
    }
  }
}
