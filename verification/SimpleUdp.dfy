/** Sequence numbers of the point datagrams (io/simple-udp/send.c, io/simple-udp/recv.c). */
module SimpleUdp {
  import opened PointMemory
  import opened Words

  const U16_MAX := 65535
  const WINDOW := 100
  const UDP_MAGIC := 0xF4C6
  const NO_SERIAL := 3 * U16_MAX  // initial last_serial

  /** What recvfrom delivers: the number of bytes, and the message when it is long enough. */
  datatype Datagram = Datagram(bytes: nat, magic: int, serial: int, data: seq<Word>)

  predicate InWindow(serial: int, last: int) {
    || (serial > last && serial - last < U16_MAX - WINDOW)
    || (serial < last && last - serial > WINDOW)
  }

  function NextSerial(serial: int): int {
    if serial != U16_MAX then serial + 1 else 0
  }

  lemma {:induction false} ModStep(t: nat)
    ensures NextSerial(t % 65536) == (t + 1) % 65536
  {}

  /** The sender numbers its datagrams by their count modulo 65536. */
  method SendSerials(n: nat) returns (serials: seq<int>)
    ensures |serials| == n && forall t :: 0 <= t < n ==> serials[t] == t % 65536
  {
    serials := [];
    var serial := 0;
    for t := 0 to n
      invariant |serials| == t && serial == t % 65536
      invariant forall u :: 0 <= u < t ==> serials[u] == u % 65536
    {
      serials := serials + [serial];
      ModStep(t);
      serial := NextSerial(serial);
    }
  }

  /** The window test accepts exactly these differences of serial numbers, modulo 65536. */
  lemma WindowByResidue(s: int, l: int)
    requires 0 <= s < 65536 && 0 <= l < 65536
    ensures var d := (s - l) % 65536;
      InWindow(s, l) <==> 1 <= d <= 65434 || (d == 65435 && s < l)
  {}

  /** Within 100 behind and 65434 ahead, a datagram is accepted if and only if it is strictly newer. */
  lemma AcceptedIffNewer(t: nat, l: nat)
    requires l - 100 <= t <= l + 65434
    ensures InWindow(t % 65536, l % 65536) <==> t > l
  {}

  /**
   One step beyond either bound is the same residue, which is taken for new exactly when `l % 65536` is at least 101.
   So 101 behind goes wrong exactly then, and 65435 ahead exactly otherwise.
   */
  lemma WindowIsSharp(l: nat)
    ensures l >= 101 ==> (InWindow((l - 101) % 65536, l % 65536) <==> l % 65536 >= 101)
    ensures InWindow((l + 65435) % 65536, l % 65536) <==> l % 65536 >= 101
  {
    if l >= 101 {
      WindowByResidue((l - 101) % 65536, l % 65536);
    }
    WindowByResidue((l + 65435) % 65536, l % 65536);
  }

  // ----- the receiver -----

  ghost predicate Handles(m: Maps, ps: seq<Pt>) {
    Sized(m, |m.glob|) && forall p :: p in ps ==> p.Pt? && p.ofs < |m.glob|
  }

  /** plc_set of each point of the list, in order. */
  ghost function SetAll(m: Maps, ps: seq<Pt>, vs: seq<Word>): (r: Maps)
    requires Handles(m, ps) && |ps| == |vs|
    ensures Handles(r, ps) && r.glob == m.glob && r.mask == m.mask
  {
    if ps == [] then m
    else
      var k := |ps| - 1;
      var r := SetAll(m, ps[..k], vs[..k]);
      assert ps[k] in ps;
      r.(priv := Set(r.priv, r.mask, ps[k], vs[k]))
  }

  /** Each point that the receiving module owns has its value modulo 2^length, unless a later point of the list overlaps it. */
  lemma {:induction false} SetAllSets(m: Maps, ps: seq<Pt>, vs: seq<Word>, i: nat)
    requires Handles(m, ps) && |ps| == |vs| && i < |ps|
    requires ValidPt(ps[i], |m.glob|) && Within(ps[i].mask, m.mask[ps[i].ofs])
    requires forall j :: i < j < |ps| && ps[j].ofs == ps[i].ofs ==> Disjoint(ps[j].mask, ps[i].mask)
    ensures Get(SetAll(m, ps, vs).priv, ps[i]) == And(vs[i], LowMask(ps[i].length))
    decreases |ps|
  {
    var k := |ps| - 1;
    var r := SetAll(m, ps[..k], vs[..k]);
    assert ps[k] in ps;
    if i == k {
      SetThenGet(r.priv, r.mask, ps[k], vs[k]);
    } else {
      SetAllSets(m, ps[..k], vs[..k], i);
      if ps[k].ofs == ps[i].ofs {
        DisjointBits(ps[k].mask, ps[i].mask);
        DisjointBits(And(ps[k].mask, r.mask[ps[i].ofs]), ps[i].mask);
        SetConfined(r.priv, r.mask, ps[k], vs[k], ps[i].ofs, ps[i].mask);
      }
    }
  }

  class Receiver {
    var lastSerial: int
    const maps: ModuleMaps
    const points: seq<Pt>

    /** Points that the configuration does not know are null handles, which are valid. */
    ghost predicate Valid() {
      maps.Valid() && forall p :: p in points ==> p.Pt? && p.ofs < maps.glob.Length
    }

    constructor (maps: ModuleMaps, points: seq<Pt>)
      requires maps.Valid() && forall p :: p in points ==> p.Pt? && p.ofs < maps.glob.Length
      ensures Valid() && lastSerial == NO_SERIAL && this.maps == maps && this.points == points
    {
      this.maps, this.points := maps, points;
      lastSerial := NO_SERIAL;
    }

    /** The points of an accepted datagram, through plc_set. */
    method SetPoints(data: seq<Word>)
      requires Valid() && |data| == |points|
      modifies maps.priv
      ensures Handles(old(maps.View()), points) && maps.View() == SetAll(old(maps.View()), points, data)
    {
      ghost var m := maps.View();
      var i := 0;
      while i < |points|
        invariant 0 <= i <= |points|
        invariant Handles(m, points[..i]) && maps.View() == SetAll(m, points[..i], data[..i])
      {
        assert points[i] in points;
        assert points[..i + 1][..i] == points[..i] && data[..i + 1][..i] == data[..i];
        maps.SetPoint(points[i], data[i]);
        i := i + 1;
      }
      assert points[..i] == points && data[..i] == data;
    }

    /** One turn of the loop: accepted or not, it ends with plc_update. */
    method Receive(d: Datagram) returns (accepted: bool)
      requires Valid() && (d.bytes == 4 + 4 * |points| ==> |d.data| == |points|)
      modifies this`lastSerial, maps.glob, maps.priv
      ensures accepted <==> d.bytes == 4 + 4 * |points| && d.magic == UDP_MAGIC && InWindow(d.serial, old(lastSerial))
      ensures lastSerial == if accepted then d.serial else old(lastSerial)
      ensures Handles(old(maps.View()), points) && InMap(WholeMap(maps.glob.Length), maps.glob.Length)
      ensures maps.View()
           == ExchangedAll(if accepted then SetAll(old(maps.View()), points, d.data) else old(maps.View()), WholeMap(maps.glob.Length))
    {
      accepted := false;
      if d.bytes == 4 + 4 * |points| && d.magic == UDP_MAGIC {
        if (d.serial > lastSerial && d.serial - lastSerial < U16_MAX - WINDOW)
           || (d.serial < lastSerial && lastSerial - d.serial > WINDOW) {
          SetPoints(d.data);
          lastSerial := d.serial;
          accepted := true;
        }
      }
      maps.Update();
    }
  }

  /** The arrivals accepted, given by their true numbers, by a receiver whose last serial is `last`. */
  function Accepted(last: int, arrivals: seq<nat>): seq<nat>
    decreases |arrivals|
  {
    if arrivals == [] then []
    else
      var s := arrivals[0] % 65536;
      if InWindow(s, last) then [arrivals[0]] + Accepted(s, arrivals[1..]) else Accepted(last, arrivals[1..])
  }

  /** The arrivals that are newer than everything before them. */
  function Records(l: nat, arrivals: seq<nat>): (r: seq<nat>)
    ensures forall i :: 0 <= i < |r| ==> r[i] > l
    ensures forall i, j :: 0 <= i < j < |r| ==> r[i] < r[j]
    decreases |arrivals|
  {
    if arrivals == [] then []
    else if arrivals[0] > l then [arrivals[0]] + Records(arrivals[0], arrivals[1..])
    else Records(l, arrivals[1..])
  }

  /** Every arrival is at most 100 behind and 65434 ahead of the newest before it. */
  ghost predicate Tame(l: nat, arrivals: seq<nat>)
    decreases |arrivals|
  {
    arrivals == [] ||
    (l - 100 <= arrivals[0] <= l + 65434 && Tame(if arrivals[0] > l then arrivals[0] else l, arrivals[1..]))
  }

  /** Whatever is lost, repeated or overtaken: exactly the new records are accepted, across every wrap. */
  lemma {:induction false} AcceptedAreRecords(l: nat, arrivals: seq<nat>)
    requires Tame(l, arrivals)
    ensures Accepted(l % 65536, arrivals) == Records(l, arrivals)
    decreases |arrivals|
  {
    if arrivals == [] {
    } else {
      AcceptedIffNewer(arrivals[0], l);
      AcceptedAreRecords(if arrivals[0] > l then arrivals[0] else l, arrivals[1..]);
    }
  }

  /** From the initial state the first datagram is accepted whatever its number, and after it exactly the records. */
  lemma ReceivedFromStart(arrivals: seq<nat>)
    requires arrivals != [] && Tame(arrivals[0], arrivals[1..])
    ensures Accepted(NO_SERIAL, arrivals) == [arrivals[0]] + Records(arrivals[0], arrivals[1..])
  {
    AcceptedAreRecords(arrivals[0], arrivals[1..]);
  }
}
