/**
 Isolate mode: the library (parent) and its proxy process (child) joined by two byte channels
 (lib/gmm/protocol.c, lib/gmm/plcproxy.c, lib/gmm/gmm_isolate.c). Reads and writes move any
 number of bytes. The child opens the connection and so acts as the client of the handshake,
 after which the parent sends the requests.
 */
module Proxy {
  type Byte = b: int | 0 <= b < 256
  type U32 = x: int | 0 <= x < 0x1_0000_0000

  // ----- packets and their bytes -----

  const BODY: nat := 132  // the union of message bodies; the largest is the request for eight points
  const SIZE: nat := 148

  const MAGIC := 0xB38A

  const VER_REQ := 0
  const VER_REP := 1
  const INIT_REQ := 2
  const DONE_REQ := 4
  const PT_BY_NAME_REQ := 6
  const UPDATE_REQ := 8
  const UPDATE_POINT_REQ := 10
  const UPDATE_POINTS_REQ := 12

  datatype Packet = Packet(magic: int, major: Byte, minor: Byte, kind: int, crc: int, requestId: int, packetId: int, body: seq<Byte>)

  ghost predicate Representable(p: Packet) {
    && 0 <= p.magic < 0x1_0000 && 0 <= p.kind < 0x1_0000 && 0 <= p.crc < 0x1_0000
    && 0 <= p.requestId < 0x1_0000_0000 && 0 <= p.packetId < 0x1_0000_0000 && |p.body| == BODY
  }

  function Bytes2(x: int): (s: seq<Byte>)
    requires 0 <= x < 0x1_0000
    ensures |s| == 2
  {
    assert 0 <= x / 256 < 256 && 0 <= x % 256 < 256;
    [x % 256, x / 256]
  }

  function Bytes4(x: int): (s: seq<Byte>)
    requires 0 <= x < 0x1_0000_0000
    ensures |s| == 4
  {
    Bytes2(x % 0x1_0000) + Bytes2(x / 0x1_0000)
  }

  function From16(s: seq<Byte>): int
    requires |s| == 2
  {
    s[0] as int + 256 * s[1] as int
  }

  function From32(s: seq<Byte>): int
    requires |s| == 4
  {
    From16(s[..2]) + 0x1_0000 * From16(s[2..])
  }

  function Encode(p: Packet): (s: seq<Byte>)
    requires Representable(p)
    ensures |s| == SIZE
  {
    Bytes2(p.magic) + [p.major, p.minor] + Bytes2(p.kind) + Bytes2(p.crc) + Bytes4(p.requestId) + Bytes4(p.packetId) + p.body
  }

  function Decode(s: seq<Byte>): (p: Packet)
    requires |s| == SIZE
    ensures Representable(p)
  {
    Packet(From16(s[..2]), s[2], s[3], From16(s[4..6]), From16(s[6..8]), From32(s[8..12]), From32(s[12..16]), s[16..])
  }

  lemma U32RoundTrip(x: int)
    requires 0 <= x < 0x1_0000_0000
    ensures From32(Bytes4(x)) == x
  {}

  lemma DecodeEncode(p: Packet)
    requires Representable(p)
    ensures Decode(Encode(p)) == p
  {
    var s := Encode(p);
    assert s[..2] == Bytes2(p.magic) && s[4..6] == Bytes2(p.kind) && s[6..8] == Bytes2(p.crc);
    assert s[8..12] == Bytes4(p.requestId) && s[12..16] == Bytes4(p.packetId) && s[16..] == p.body;
    U32RoundTrip(p.requestId);
    U32RoundTrip(p.packetId);
  }

  // ----- checks on received packets -----

  datatype Version = Version(major: Byte, minor: Byte)

  const KNOWN := Version(1, 0)
  const NONE := Version(0, 0)

  predicate GoodRequest(p: Packet, v: Version) {
    p.magic == MAGIC && p.major == v.major && p.minor == v.minor && p.crc == 0
  }

  predicate GoodReply(p: Packet, v: Version, kind: int, id: int) {
    GoodRequest(p, v) && p.kind == kind && p.requestId == id
  }

  // ----- the two processes -----

  datatype ParentPhase = AwaitVersion | SendVersion | Idle | Sending(id: int, kind: int) | Awaiting(id: int, kind: int) | ParentFailed

  datatype ChildPhase = SendVersionRequest | AwaitVersionReply | Serving | Replying(kind: int) | Exited | ChildFailed

  datatype Request = Request(kind: int, body: seq<Byte>)

  /** What the proxy's library calls do with a request body and what they leave in it for the reply. */
  type Service<!S> = (S, int, seq<Byte>) -> (S, seq<Byte>)

  /** `version` and `number` are what both sides held before the handshake, the latter as the child's next request number. */
  datatype State<S> = State(
    parent: ParentPhase, parentVersion: Version, nextId: U32, parentOut: seq<Byte>, parentIn: seq<Byte>,
    child: ChildPhase, childVersion: Version, childOut: seq<Byte>, childIn: seq<Byte>,
    toChild: seq<Byte>, toParent: seq<Byte>,
    version: Version, number: U32,
    service: S, dropped: nat,
    issued: seq<Request>, executed: seq<Request>, replies: seq<seq<Byte>>)

  /** max 1.0, min 1.0: the only version either side knows; `junk` is the rest of an uninitialised packet. */
  function VersionRequest(junk: Packet, version: Version, number: U32): Packet
    requires |junk.body| == BODY
  {
    Packet(MAGIC, version.major, version.minor, VER_REQ, 0, number, junk.packetId, junk.body[0 := 1][1 := 0][2 := 1][3 := 0])
  }

  /**
   The first session of a process starts with version 0.0 and number 0. The variables are never reset, so a later
   one starts with what the earlier left, and the child has the parent's values.
   */
  function Start<S>(service: S, junk: Packet, version: Version, number: U32): State<S>
    requires Representable(junk)
  {
    State(AwaitVersion, version, number, [], [],
          SendVersionRequest, version, Encode(VersionRequest(junk, version, number)), [],
          [], [], version, number, service, 0, [], [], [])
  }

  datatype Action =
    | Issue(request: Request, packetId: int)
    | ParentWrites(n: nat)
    | ParentReads(n: nat)
    | ChildWrites(n: nat)
    | ChildReads(n: nat)

  /** The requests that the library sends. */
  predicate LibrarySends(kind: int) {
    kind in {INIT_REQ, DONE_REQ, PT_BY_NAME_REQ, UPDATE_REQ, UPDATE_POINT_REQ, UPDATE_POINTS_REQ}
  }

  /** The cases of the switch in handle_requests. */
  predicate Handled(kind: int) {
    match kind
    case 0x0002 => true
    case 0x0004 => true
    case 0x0006 => true
    case 0x0008 => true
    case 0x000A => true
    case 0x000C => true
    case _ => false
  }

  ghost predicate Enabled<S>(s: State<S>, a: Action) {
    match a
    case Issue(r, id) => s.parent == Idle && LibrarySends(r.kind) && |r.body| == BODY && 0 <= id < 0x1_0000_0000
                         && (s.issued != [] ==> s.issued[|s.issued| - 1].kind != DONE_REQ)
    case ParentWrites(n) => (s.parent == SendVersion || s.parent.Sending?) && n <= |s.parentOut|
    case ParentReads(n) => (s.parent == AwaitVersion || s.parent.Awaiting?) && n <= |s.toParent| && n + |s.parentIn| <= SIZE
    case ChildWrites(n) => (s.child == SendVersionRequest || s.child.Replying?) && n <= |s.childOut|
    case ChildReads(n) => (s.child == AwaitVersionReply || s.child == Serving) && n <= |s.toChild| && n + |s.childIn| <= SIZE
  }

  /** server_establish_connection after the packet has been received. */
  ghost function ParentGetsVersionRequest<S>(s: State<S>, p: Packet): State<S>
    requires Representable(p)
  {
    if !GoodRequest(p, s.parentVersion) || p.kind != VER_REQ then s.(parent := ParentFailed)
    else
      var agreed := if p.body[2] == 1 && p.body[3] == 0 && p.body[0] >= 1 then KNOWN else NONE;
      var reply := Packet(MAGIC, s.parentVersion.major, s.parentVersion.minor, VER_REP, 0, p.requestId, p.packetId,
                          p.body[0 := agreed.major][1 := agreed.minor]);
      s.(parent := SendVersion, parentOut := Encode(reply))
  }

  ghost function ParentGetsReply<S>(s: State<S>, p: Packet): State<S>
    requires s.parent.Awaiting?
  {
    if !GoodReply(p, s.parentVersion, s.parent.kind, s.parent.id) then s.(parent := ParentFailed)
    else s.(parent := Idle, replies := s.replies + [p.body])
  }

  ghost function ChildGetsVersionReply<S>(s: State<S>, p: Packet): State<S>
    requires Representable(p)
  {
    if !GoodReply(p, s.childVersion, VER_REP, s.number) then s.(child := ChildFailed)
    else s.(child := Serving, childVersion := Version(p.body[0], p.body[1]))
  }

  ghost predicate FixedBody<S(!new)>(serve: Service<S>) {
    forall t, k, b :: |serve(t, k, b).1| == BODY
  }

  /** One turn of handle_requests: a bad packet or an unknown type is dropped, others are executed and answered in place. */
  ghost function ChildGetsRequest<S(!new)>(s: State<S>, p: Packet, serve: Service<S>): State<S>
    requires Representable(p) && FixedBody(serve)
  {
    if !GoodRequest(p, s.childVersion) || !Handled(p.kind) then s.(dropped := s.dropped + 1)
    else
      var (t, body) := serve(s.service, p.kind, p.body);
      var reply := Packet(MAGIC, s.childVersion.major, s.childVersion.minor, p.kind + 1, 0, p.requestId, p.packetId, body);
      s.(child := Replying(p.kind), childOut := Encode(reply), service := t, executed := s.executed + [Request(p.kind, p.body)])
  }

  ghost function Next<S(!new)>(s: State<S>, a: Action, serve: Service<S>): State<S>
    requires Enabled(s, a) && FixedBody(serve)
  {
    match a
    case Issue(r, packetId) =>
      var p := Packet(MAGIC, s.parentVersion.major, s.parentVersion.minor, r.kind, 0, s.nextId, packetId, r.body);
      s.(parent := Sending(s.nextId, r.kind + 1), nextId := (s.nextId + 1) % 0x1_0000_0000, parentOut := Encode(p),
         issued := s.issued + [r])
    case ParentWrites(n) =>
      var t := s.(toChild := s.toChild + s.parentOut[..n], parentOut := s.parentOut[n..]);
      if n < |s.parentOut| then t
      else if s.parent == SendVersion then t.(parent := Idle, parentVersion := KNOWN)
      else t.(parent := Awaiting(s.parent.id, s.parent.kind))
    case ParentReads(n) =>
      var t := s.(toParent := s.toParent[n..], parentIn := s.parentIn + s.toParent[..n]);
      if |t.parentIn| < SIZE then t
      else
        var u := t.(parentIn := []);
        if s.parent == AwaitVersion then ParentGetsVersionRequest(u, Decode(t.parentIn)) else ParentGetsReply(u, Decode(t.parentIn))
    case ChildWrites(n) =>
      var t := s.(toParent := s.toParent + s.childOut[..n], childOut := s.childOut[n..]);
      if n < |s.childOut| then t
      else if s.child == SendVersionRequest then t.(child := AwaitVersionReply)
      else t.(child := if s.child.kind == DONE_REQ then Exited else Serving)
    case ChildReads(n) =>
      var t := s.(toChild := s.toChild[n..], childIn := s.childIn + s.toChild[..n]);
      if |t.childIn| < SIZE then t
      else
        var u := t.(childIn := []);
        if s.child == AwaitVersionReply then ChildGetsVersionReply(u, Decode(t.childIn)) else ChildGetsRequest(u, Decode(t.childIn), serve)
  }

  // ----- what every step keeps -----

  ghost function EncodeAll(ps: seq<Packet>): seq<Byte>
    requires forall p :: p in ps ==> Representable(p)
  {
    if ps == [] then [] else Encode(ps[0]) + EncodeAll(ps[1..])
  }

  /** The service's state and the reply bodies when requests are executed one after the other, as local calls would be. */
  ghost function Served<S>(t: S, requests: seq<Request>, serve: Service<S>): (S, seq<seq<Byte>>) {
    if requests == [] then (t, [])
    else
      var k := |requests| - 1;
      var (u, bodies) := Served(t, requests[..k], serve);
      var (v, body) := serve(u, requests[k].kind, requests[k].body);
      (v, bodies + [body])
  }

  datatype Stage = Hello | Answering | Quiet | Requested | Answered

  ghost predicate RequestIs<S>(s: State<S>, p: Packet) {
    && Representable(p) && GoodRequest(p, KNOWN) && LibrarySends(p.kind) && s.issued != []
    && (s.parent.Sending? || s.parent.Awaiting?)
    && Request(p.kind, p.body) == s.issued[|s.issued| - 1]
    && p.requestId == s.parent.id && p.kind + 1 == s.parent.kind
  }

  ghost predicate ReplyIs<S(!new)>(s: State<S>, p: Packet, t0: S, serve: Service<S>) {
    && Representable(p) && s.parent.Awaiting? && GoodReply(p, KNOWN, s.parent.kind, s.parent.id)
    && s.executed != [] && Served(t0, s.executed, serve).1 == s.replies + [p.body]
  }

  ghost predicate VersionReplyIs<S>(s: State<S>, p: Packet) {
    Representable(p) && GoodReply(p, s.version, VER_REP, s.number) && p.body[0] == 1 && p.body[1] == 0
  }

  ghost predicate VersionRequestIs<S>(s: State<S>, p: Packet) {
    Representable(p) && GoodReply(p, s.version, VER_REQ, s.number) && p.body[0] == 1 && p.body[2] == 1 && p.body[3] == 0
  }

  /** The packets on their way to the child, `qc`, and to the parent, `qp`, at each stage of the protocol. */
  ghost predicate AtStage<S(!new)>(s: State<S>, g: Stage, qc: seq<Packet>, qp: seq<Packet>, t0: S, serve: Service<S>) {
    match g
    case Hello =>
      && s.parent == AwaitVersion && (s.child == SendVersionRequest || s.child == AwaitVersionReply)
      && qc == [] && |qp| == 1 && VersionRequestIs(s, qp[0]) && s.issued == s.executed == [] && s.replies == []
    case Answering =>
      && (s.parent == SendVersion || s.parent == Idle || s.parent.Sending? || s.parent.Awaiting?) && s.child == AwaitVersionReply
      && qp == [] && qc != [] && VersionReplyIs(s, qc[0]) && s.executed == [] && s.replies == []
      && (if s.parent == SendVersion || s.parent == Idle then |qc| == 1 && s.issued == []
          else |qc| == 2 && RequestIs(s, qc[1]) && |s.issued| == 1)
    case Quiet =>
      s.parent == Idle && (s.child == Serving || s.child == Exited) && qc == qp == [] && s.executed == s.issued
      && s.replies == Served(t0, s.executed, serve).1
    case Requested =>
      && s.child == Serving && |qc| == 1 && RequestIs(s, qc[0]) && qp == []
      && s.executed == s.issued[..|s.issued| - 1] && s.replies == Served(t0, s.executed, serve).1
    case Answered =>
      && (s.child.Replying? || s.child == Serving || s.child == Exited) && qc == [] && |qp| == 1
      && ReplyIs(s, qp[0], t0, serve) && s.executed == s.issued
  }

  /** The bytes read but not yet a packet, in the channel and still to be written are whole packets, in order. */
  ghost predicate Wired<S>(s: State<S>, qc: seq<Packet>, qp: seq<Packet>) {
    && (forall p :: p in qc ==> Representable(p)) && (forall p :: p in qp ==> Representable(p))
    && s.childIn + s.toChild + s.parentOut == EncodeAll(qc)
    && s.parentIn + s.toParent + s.childOut == EncodeAll(qp)
    && |s.childIn| < SIZE && |s.parentIn| < SIZE
    && (s.parentOut != [] <==> s.parent == SendVersion || s.parent.Sending?)
    && (s.childOut != [] <==> s.child == SendVersionRequest || s.child.Replying?)
  }

  ghost predicate Settled<S(!new)>(s: State<S>, t0: S, serve: Service<S>) {
    && s.dropped == 0
    && s.service == Served(t0, s.executed, serve).0
    && s.parentVersion == (if s.parent == AwaitVersion || s.parent == SendVersion then s.version else KNOWN)
    && s.childVersion == (if s.child == SendVersionRequest || s.child == AwaitVersionReply then s.version else KNOWN)
    && (s.child.Replying? ==> s.executed != [] && s.executed[|s.executed| - 1].kind == s.child.kind)
    && (s.child == Exited ==> s.executed != [] && s.executed[|s.executed| - 1].kind == DONE_REQ)
    && (s.child == Serving && s.executed != [] ==> s.executed[|s.executed| - 1].kind != DONE_REQ)
  }

  ghost predicate InvAs<S(!new)>(s: State<S>, g: Stage, qc: seq<Packet>, qp: seq<Packet>, t0: S, serve: Service<S>) {
    AtStage(s, g, qc, qp, t0, serve) && Wired(s, qc, qp) && Settled(s, t0, serve)
  }

  ghost predicate Inv<S(!new)>(s: State<S>, t0: S, serve: Service<S>) {
    exists g, qc, qp :: InvAs(s, g, qc, qp, t0, serve)
  }

  lemma OnePacket(p: Packet)
    requires Representable(p)
    ensures EncodeAll([p]) == Encode(p)
  {}

  lemma StartInv<S(!new)>(t0: S, junk: Packet, version: Version, number: U32, serve: Service<S>)
    requires Representable(junk)
    ensures Inv(Start(t0, junk, version, number), t0, serve)
  {
    var v := VersionRequest(junk, version, number);
    OnePacket(v);
    assert InvAs(Start(t0, junk, version, number), Hello, [], [v], t0, serve);
  }

  /** A receiver that has a packet's worth of bytes has exactly the first packet of its queue. */
  lemma FirstPacket(read: seq<Byte>, channel: seq<Byte>, n: nat, unsent: seq<Byte>, q: seq<Packet>)
    requires forall p :: p in q ==> Representable(p)
    requires read + channel + unsent == EncodeAll(q) && n <= |channel| && |read| + n == SIZE
    ensures q != [] && read + channel[..n] == Encode(q[0]) && Decode(read + channel[..n]) == q[0]
    ensures channel[n..] + unsent == EncodeAll(q[1..])
  {
    var all := read + channel + unsent;
    assert all[..SIZE] == read + channel[..n];
    assert all[SIZE..] == channel[n..] + unsent;
    assert q != [];
    assert EncodeAll(q)[..SIZE] == Encode(q[0]);
    assert EncodeAll(q)[SIZE..] == EncodeAll(q[1..]);
    DecodeEncode(q[0]);
  }

  lemma NoPacketYet(read: seq<Byte>, channel: seq<Byte>, n: nat, unsent: seq<Byte>)
    requires n <= |channel|
    ensures (read + channel[..n]) + channel[n..] + unsent == read + channel + unsent
  {}

  lemma SomeWritten(read: seq<Byte>, channel: seq<Byte>, n: nat, unsent: seq<Byte>)
    requires n <= |unsent|
    ensures read + (channel + unsent[..n]) + unsent[n..] == read + channel + unsent
  {}

  lemma {:induction false} QueueEnd(qc: seq<Packet>, p: Packet)
    requires Representable(p) && forall r :: r in qc ==> Representable(r)
    ensures forall r :: r in qc + [p] ==> Representable(r)
    ensures EncodeAll(qc + [p]) == EncodeAll(qc) + Encode(p)
    decreases |qc|
  {
    if qc == [] {
      OnePacket(p);
      assert [] + [p] == [p];
    } else {
      assert (qc + [p])[1..] == qc[1..] + [p];
      QueueEnd(qc[1..], p);
    }
  }

  lemma ParentWritesWired<S(!new)>(s: State<S>, n: nat, g: Stage, qc: seq<Packet>, qp: seq<Packet>, t0: S, serve: Service<S>)
    requires InvAs(s, g, qc, qp, t0, serve) && Enabled(s, ParentWrites(n)) && FixedBody(serve)
    ensures Wired(Next(s, ParentWrites(n), serve), qc, qp)
  {
    SomeWritten(s.childIn, s.toChild, n, s.parentOut);
  }

  lemma ParentWritesInv<S(!new)>(s: State<S>, n: nat, g: Stage, qc: seq<Packet>, qp: seq<Packet>, t0: S, serve: Service<S>)
    requires InvAs(s, g, qc, qp, t0, serve) && Enabled(s, ParentWrites(n)) && FixedBody(serve)
    ensures InvAs(Next(s, ParentWrites(n), serve), g, qc, qp, t0, serve)
  {
    ParentWritesWired(s, n, g, qc, qp, t0, serve);
  }

  lemma ChildWritesWired<S(!new)>(s: State<S>, n: nat, g: Stage, qc: seq<Packet>, qp: seq<Packet>, t0: S, serve: Service<S>)
    requires InvAs(s, g, qc, qp, t0, serve) && Enabled(s, ChildWrites(n)) && FixedBody(serve)
    ensures Wired(Next(s, ChildWrites(n), serve), qc, qp)
  {
    SomeWritten(s.parentIn, s.toParent, n, s.childOut);
  }

  lemma ChildWritesInv<S(!new)>(s: State<S>, n: nat, g: Stage, qc: seq<Packet>, qp: seq<Packet>, t0: S, serve: Service<S>)
    requires InvAs(s, g, qc, qp, t0, serve) && Enabled(s, ChildWrites(n)) && FixedBody(serve)
    ensures InvAs(Next(s, ChildWrites(n), serve), g, qc, qp, t0, serve)
  {
    ChildWritesWired(s, n, g, qc, qp, t0, serve);
  }

  function IssuedPacket(s: State, r: Request, id: int): Packet {
    Packet(MAGIC, 1, 0, r.kind, 0, s.nextId, id, r.body)
  }

  lemma QueueGrows(read: seq<Byte>, channel: seq<Byte>, qc: seq<Packet>, p: Packet)
    requires Representable(p) && forall r :: r in qc ==> Representable(r)
    requires read + channel + [] == EncodeAll(qc)
    ensures forall r :: r in qc + [p] ==> Representable(r)
    ensures read + channel + Encode(p) == EncodeAll(qc + [p])
  {
    QueueEnd(qc, p);
  }

  lemma IssueWired<S(!new)>(s: State<S>, r: Request, id: int, qc: seq<Packet>, qp: seq<Packet>, serve: Service<S>)
    requires Wired(s, qc, qp) && s.parentVersion == KNOWN && Enabled(s, Issue(r, id)) && FixedBody(serve)
    ensures Wired(Next(s, Issue(r, id), serve), qc + [IssuedPacket(s, r, id)], qp)
  {
    QueueGrows(s.childIn, s.toChild, qc, IssuedPacket(s, r, id));
  }

  lemma IssueStage<S(!new)>(s: State<S>, r: Request, id: int, g: Stage, qc: seq<Packet>, qp: seq<Packet>, t0: S, serve: Service<S>)
    requires AtStage(s, g, qc, qp, t0, serve) && Settled(s, t0, serve) && Enabled(s, Issue(r, id)) && FixedBody(serve)
    ensures AtStage(Next(s, Issue(r, id), serve), if g == Quiet then Requested else Answering, qc + [IssuedPacket(s, r, id)], qp, t0, serve)
  {
    var t, p := Next(s, Issue(r, id), serve), IssuedPacket(s, r, id);
    assert t.issued[..|t.issued| - 1] == s.issued;
    assert RequestIs(t, p);
  }

  lemma IssueInv<S(!new)>(s: State<S>, r: Request, id: int, g: Stage, qc: seq<Packet>, qp: seq<Packet>, t0: S, serve: Service<S>)
    requires InvAs(s, g, qc, qp, t0, serve) && Enabled(s, Issue(r, id)) && FixedBody(serve)
    ensures InvAs(Next(s, Issue(r, id), serve), if g == Quiet then Requested else Answering, qc + [IssuedPacket(s, r, id)], qp, t0, serve)
  {
    IssueWired(s, r, id, qc, qp, serve);
    IssueStage(s, r, id, g, qc, qp, t0, serve);
  }

  /** A read that completes no packet leaves the queues as they are. */
  lemma ParentReadsPart<S(!new)>(s: State<S>, n: nat, g: Stage, qc: seq<Packet>, qp: seq<Packet>, t0: S, serve: Service<S>)
    requires InvAs(s, g, qc, qp, t0, serve) && Enabled(s, ParentReads(n)) && n + |s.parentIn| < SIZE && FixedBody(serve)
    ensures InvAs(Next(s, ParentReads(n), serve), g, qc, qp, t0, serve)
  {
    NoPacketYet(s.parentIn, s.toParent, n, s.childOut);
    assert Wired(Next(s, ParentReads(n), serve), qc, qp);
  }

  lemma ChildReadsPart<S(!new)>(s: State<S>, n: nat, g: Stage, qc: seq<Packet>, qp: seq<Packet>, t0: S, serve: Service<S>)
    requires InvAs(s, g, qc, qp, t0, serve) && Enabled(s, ChildReads(n)) && n + |s.childIn| < SIZE && FixedBody(serve)
    ensures InvAs(Next(s, ChildReads(n), serve), g, qc, qp, t0, serve)
  {
    NoPacketYet(s.childIn, s.toChild, n, s.parentOut);
    assert Wired(Next(s, ChildReads(n), serve), qc, qp);
  }

  lemma ParentGetsVersionInv<S(!new)>(s: State<S>, n: nat, qc: seq<Packet>, qp: seq<Packet>, t0: S, serve: Service<S>) returns (reply: Packet)
    requires InvAs(s, Hello, qc, qp, t0, serve) && Enabled(s, ParentReads(n)) && n + |s.parentIn| == SIZE && FixedBody(serve)
    ensures InvAs(Next(s, ParentReads(n), serve), Answering, [reply], [], t0, serve)
  {
    FirstPacket(s.parentIn, s.toParent, n, s.childOut, qp);
    var p := qp[0];
    assert qp[1..] == [];
    reply := Packet(MAGIC, s.version.major, s.version.minor, VER_REP, 0, p.requestId, p.packetId, p.body[0 := 1][1 := 0]);
    OnePacket(reply);
  }

  lemma ParentGetsReplyInv<S(!new)>(s: State<S>, n: nat, qc: seq<Packet>, qp: seq<Packet>, t0: S, serve: Service<S>)
    requires InvAs(s, Answered, qc, qp, t0, serve) && Enabled(s, ParentReads(n)) && n + |s.parentIn| == SIZE && FixedBody(serve)
    ensures InvAs(Next(s, ParentReads(n), serve), Quiet, [], [], t0, serve)
  {
    FirstPacket(s.parentIn, s.toParent, n, s.childOut, qp);
    assert qp[1..] == [];
  }

  /** What the child takes off its channel, whatever it then does with the packet. */
  lemma ChildTakesPacket<S>(s: State<S>, n: nat, qc: seq<Packet>, qp: seq<Packet>)
    requires Wired(s, qc, qp) && n <= |s.toChild| && n + |s.childIn| == SIZE
    ensures qc != [] && Decode(s.childIn + s.toChild[..n]) == qc[0]
    ensures [] + s.toChild[n..] + s.parentOut == EncodeAll(qc[1..])
    ensures |qc| == 1 ==> s.parentOut == []
  {
    FirstPacket(s.childIn, s.toChild, n, s.parentOut, qc);
  }

  lemma ChildGetsVersionInv<S(!new)>(s: State<S>, n: nat, qc: seq<Packet>, qp: seq<Packet>, t0: S, serve: Service<S>)
    requires InvAs(s, Answering, qc, qp, t0, serve) && Enabled(s, ChildReads(n)) && n + |s.childIn| == SIZE && FixedBody(serve)
    ensures qc != [] && InvAs(Next(s, ChildReads(n), serve), if s.parent == Idle then Quiet else Requested, qc[1..], qp, t0, serve)
  {
    ChildTakesPacket(s, n, qc, qp);
    var t := Next(s, ChildReads(n), serve);
    assert t == s.(toChild := s.toChild[n..], childIn := [], child := Serving, childVersion := KNOWN);
    assert Wired(t, qc[1..], qp);
  }

  function ReplyTo(p: Packet, body: seq<Byte>): Packet {
    Packet(MAGIC, 1, 0, p.kind + 1, 0, p.requestId, p.packetId, body)
  }

  ghost function AfterRequest<S(!new)>(s: State<S>, n: nat, p: Packet, serve: Service<S>): State<S>
    requires n <= |s.toChild| && Representable(p) && Handled(p.kind) && FixedBody(serve)
  {
    var (u, body) := serve(s.service, p.kind, p.body);
    s.(toChild := s.toChild[n..], childIn := [], child := Replying(p.kind), childOut := Encode(ReplyTo(p, body)),
       service := u, executed := s.executed + [Request(p.kind, p.body)])
  }

  lemma ChildGetsRequestStep<S(!new)>(s: State<S>, n: nat, qc: seq<Packet>, qp: seq<Packet>, serve: Service<S>)
    requires Wired(s, qc, qp) && Enabled(s, ChildReads(n)) && n + |s.childIn| == SIZE && FixedBody(serve)
    requires s.child == Serving && s.childVersion == KNOWN && qc != [] && GoodRequest(qc[0], KNOWN) && Handled(qc[0].kind)
    ensures Next(s, ChildReads(n), serve) == AfterRequest(s, n, qc[0], serve)
  {
    ChildTakesPacket(s, n, qc, qp);
  }

  lemma ServedOneMore<S>(t: S, rs: seq<Request>, r: Request, serve: Service<S>)
    ensures var u := Served(t, rs, serve);
      Served(t, rs + [r], serve) == (serve(u.0, r.kind, r.body).0, u.1 + [serve(u.0, r.kind, r.body).1])
  {}

  lemma ChildGetsRequestInv<S(!new)>(s: State<S>, n: nat, qc: seq<Packet>, qp: seq<Packet>, t0: S, serve: Service<S>)
    requires InvAs(s, Requested, qc, qp, t0, serve) && Enabled(s, ChildReads(n)) && n + |s.childIn| == SIZE && FixedBody(serve)
    ensures InvAs(Next(s, ChildReads(n), serve), Answered, [], [ReplyTo(qc[0], serve(s.service, qc[0].kind, qc[0].body).1)], t0, serve)
  {
    ChildTakesPacket(s, n, qc, qp);
    ChildGetsRequestStep(s, n, qc, qp, serve);
    var p := qc[0];
    ServedOneMore(t0, s.executed, Request(p.kind, p.body), serve);
    OnePacket(ReplyTo(p, serve(s.service, p.kind, p.body).1));
    assert s.issued == s.executed + [Request(p.kind, p.body)];
    assert Wired(AfterRequest(s, n, p, serve), [], [ReplyTo(p, serve(s.service, p.kind, p.body).1)]);
  }

  lemma WritesAndIssueInv<S(!new)>(s: State<S>, a: Action, g: Stage, qc: seq<Packet>, qp: seq<Packet>, t0: S, serve: Service<S>)
    requires InvAs(s, g, qc, qp, t0, serve) && Enabled(s, a) && FixedBody(serve) && !a.ParentReads? && !a.ChildReads?
    ensures Inv(Next(s, a, serve), t0, serve)
  {
    if a.Issue? {
      IssueInv(s, a.request, a.packetId, g, qc, qp, t0, serve);
    } else if a.ParentWrites? {
      ParentWritesInv(s, a.n, g, qc, qp, t0, serve);
    } else {
      ChildWritesInv(s, a.n, g, qc, qp, t0, serve);
    }
  }

  /** Every enabled step keeps the invariant. */
  lemma StepInv<S(!new)>(s: State<S>, a: Action, t0: S, serve: Service<S>)
    requires Inv(s, t0, serve) && Enabled(s, a) && FixedBody(serve)
    ensures Inv(Next(s, a, serve), t0, serve)
  {
    var g, qc, qp :| InvAs(s, g, qc, qp, t0, serve);
    if a.ParentReads? {
      ParentReadsInv(s, a.n, g, qc, qp, t0, serve);
    } else if a.ChildReads? {
      ChildReadsInv(s, a.n, g, qc, qp, t0, serve);
    } else {
      WritesAndIssueInv(s, a, g, qc, qp, t0, serve);
    }
  }

  lemma ParentReadsInv<S(!new)>(s: State<S>, n: nat, g: Stage, qc: seq<Packet>, qp: seq<Packet>, t0: S, serve: Service<S>)
    requires InvAs(s, g, qc, qp, t0, serve) && Enabled(s, ParentReads(n)) && FixedBody(serve)
    ensures Inv(Next(s, ParentReads(n), serve), t0, serve)
  {
    if n + |s.parentIn| < SIZE {
      ParentReadsPart(s, n, g, qc, qp, t0, serve);
    } else {
      FirstPacket(s.parentIn, s.toParent, n, s.childOut, qp);
      if g == Hello {
        var reply := ParentGetsVersionInv(s, n, qc, qp, t0, serve);
      } else {
        ParentGetsReplyInv(s, n, qc, qp, t0, serve);
      }
    }
  }

  lemma ChildReadsInv<S(!new)>(s: State<S>, n: nat, g: Stage, qc: seq<Packet>, qp: seq<Packet>, t0: S, serve: Service<S>)
    requires InvAs(s, g, qc, qp, t0, serve) && Enabled(s, ChildReads(n)) && FixedBody(serve)
    ensures Inv(Next(s, ChildReads(n), serve), t0, serve)
  {
    if n + |s.childIn| < SIZE {
      ChildReadsPart(s, n, g, qc, qp, t0, serve);
    } else {
      ChildTakesPacket(s, n, qc, qp);
      if g == Answering {
        ChildGetsVersionInv(s, n, qc, qp, t0, serve);
      } else {
        ChildGetsRequestInv(s, n, qc, qp, t0, serve);
      }
    }
  }

  // ----- whole runs -----

  ghost predicate RunEnabled<S(!new)>(s: State<S>, acts: seq<Action>, serve: Service<S>)
    requires FixedBody(serve)
    decreases |acts|
  {
    acts == [] || (Enabled(s, acts[0]) && RunEnabled(Next(s, acts[0], serve), acts[1..], serve))
  }

  ghost function Run<S(!new)>(s: State<S>, acts: seq<Action>, serve: Service<S>): State<S>
    requires FixedBody(serve) && RunEnabled(s, acts, serve)
    decreases |acts|
  {
    if acts == [] then s else Run(Next(s, acts[0], serve), acts[1..], serve)
  }

  lemma {:induction false} RunInv<S(!new)>(s: State<S>, acts: seq<Action>, t0: S, serve: Service<S>)
    requires FixedBody(serve) && Inv(s, t0, serve) && RunEnabled(s, acts, serve)
    ensures Inv(Run(s, acts, serve), t0, serve)
    decreases |acts|
  {
    if acts == [] {
    } else {
      StepInv(s, acts[0], t0, serve);
      RunInv(Next(s, acts[0], serve), acts[1..], t0, serve);
    }
  }

  /** What the invariant says to the two processes. */
  ghost predicate Healthy<S(!new)>(s: State<S>, t0: S, serve: Service<S>) {
    && s.parent != ParentFailed && s.child != ChildFailed && s.dropped == 0
    && (s.parent == Idle || s.parent.Sending? || s.parent.Awaiting? ==> s.parentVersion == KNOWN)
    && (s.child == Serving || s.child.Replying? || s.child == Exited ==> s.childVersion == KNOWN)
    && |s.replies| <= |s.executed| <= |s.issued| <= |s.replies| + 1
    && (s.parent == Idle ==> |s.replies| == |s.issued|)
    && s.executed == s.issued[..|s.executed|]
    && s.service == Served(t0, s.executed, serve).0
    && |Served(t0, s.issued, serve).1| == |s.issued| && s.replies == Served(t0, s.issued, serve).1[..|s.replies|]
  }

  lemma {:induction false} ServedPrefix<S>(t: S, rs: seq<Request>, k: nat, serve: Service<S>)
    requires k <= |rs|
    ensures |Served(t, rs, serve).1| == |rs|
    ensures Served(t, rs[..k], serve).1 == Served(t, rs, serve).1[..k]
    decreases |rs|
  {
    if k == |rs| {
      assert rs[..k] == rs;
    }
    if rs == [] {
    } else {
      var m := |rs| - 1;
      ServedPrefix(t, rs[..m], if k < m then k else m, serve);
      if k <= m {
        assert rs[..m][..k] == rs[..k];
      }
    }
  }

  lemma InvHealthy<S(!new)>(s: State<S>, g: Stage, qc: seq<Packet>, qp: seq<Packet>, t0: S, serve: Service<S>)
    requires InvAs(s, g, qc, qp, t0, serve)
    ensures Healthy(s, t0, serve)
  {
    ServedPrefix(t0, s.issued, |s.executed|, serve);
    assert s.executed == s.issued[..|s.executed|];
  }

  /**
   In every run: no genuine packet is refused, both sides agree on version 1.0, at most one request is
   outstanding, requests are executed once and in order, and the i-th reply accepted is what the i-th
   request returns when the requests are executed one after the other.
   */
  lemma RunsAreHealthy<S(!new)>(t0: S, junk: Packet, version: Version, number: U32, acts: seq<Action>, serve: Service<S>)
    requires Representable(junk) && FixedBody(serve) && RunEnabled(Start(t0, junk, version, number), acts, serve)
    ensures Healthy(Run(Start(t0, junk, version, number), acts, serve), t0, serve)
  {
    StartInv(t0, junk, version, number, serve);
    RunInv(Start(t0, junk, version, number), acts, t0, serve);
    var s := Run(Start(t0, junk, version, number), acts, serve);
    var g, qc, qp :| InvAs(s, g, qc, qp, t0, serve);
    InvHealthy(s, g, qc, qp, t0, serve);
  }

  /** Whenever the library is idle, the service is in the state that its requests, executed in order, lead to. */
  lemma IdleIsServed<S(!new)>(s0: State<S>, t0: S, acts: seq<Action>, serve: Service<S>)
    requires FixedBody(serve) && Inv(s0, t0, serve) && RunEnabled(s0, acts, serve) && Run(s0, acts, serve).parent == Idle
    ensures var s := Run(s0, acts, serve); s.service == Served(t0, s.issued, serve).0 && s.replies == Served(t0, s.issued, serve).1
  {
    RunInv(s0, acts, t0, serve);
  }

  ghost predicate NoIssue(acts: seq<Action>) {
    forall a :: a in acts ==> !a.Issue?
  }

  lemma {:induction false} NoIssueRun<S(!new)>(s: State<S>, acts: seq<Action>, serve: Service<S>)
    requires FixedBody(serve) && RunEnabled(s, acts, serve) && NoIssue(acts)
    ensures Run(s, acts, serve).issued == s.issued
    decreases |acts|
  {
    if acts == [] {
    } else {
      assert acts[0] in acts;
      NoIssueRun(Next(s, acts[0], serve), acts[1..], serve);
    }
  }

  lemma IdleState<S(!new)>(s: State<S>, t0: S, serve: Service<S>)
    requires Inv(s, t0, serve) && s.parent == Idle
    ensures s.executed == s.issued && s.service == Served(t0, s.issued, serve).0 && s.replies == Served(t0, s.issued, serve).1
    ensures s.issued != [] && s.issued[|s.issued| - 1].kind == DONE_REQ ==> s.child == Exited || s.child.Replying?
    ensures !s.child.Replying?
  {}

  /**
   A request of each of the six types, by its number, can be issued whenever the library is idle and the proxy has not
   exited, and when the library is idle again the proxy has executed it and the library has its reply.
   */
  lemma EachRequestIsServed<S(!new)>(s: State<S>, t0: S, r: Request, packetId: int, acts: seq<Action>, serve: Service<S>)
    requires FixedBody(serve) && Inv(s, t0, serve) && s.parent == Idle && s.child != Exited
    requires r.kind == 2 || r.kind == 4 || r.kind == 6 || r.kind == 8 || r.kind == 10 || r.kind == 12
    requires |r.body| == BODY && 0 <= packetId < 0x1_0000_0000
    ensures Enabled(s, Issue(r, packetId))
    ensures RunEnabled(Next(s, Issue(r, packetId), serve), acts, serve) && NoIssue(acts)
            && Run(Next(s, Issue(r, packetId), serve), acts, serve).parent == Idle ==>
      var e := Run(Next(s, Issue(r, packetId), serve), acts, serve);
      && e.executed == s.executed + [r] && e.dropped == 0
      && e.service == serve(s.service, r.kind, r.body).0
      && e.replies == s.replies + [serve(s.service, r.kind, r.body).1]
  {
    IdleState(s, t0, serve);
    var n := Next(s, Issue(r, packetId), serve);
    StepInv(s, Issue(r, packetId), t0, serve);
    if RunEnabled(n, acts, serve) && NoIssue(acts) && Run(n, acts, serve).parent == Idle {
      NoIssueRun(n, acts, serve);
      RunInv(n, acts, t0, serve);
      IdleState(Run(n, acts, serve), t0, serve);
      ServedOneMore(t0, s.issued, r, serve);
    }
  }

  /** What each side accepts, field by field, and that nothing else has any effect but a failure or a dropped packet. */
  lemma AcceptanceIff<S(!new)>(s: State<S>, p: Packet, serve: Service<S>)
    requires Representable(p) && FixedBody(serve)
    ensures var genuine := p.magic == 0xB38A && p.crc == 0;
      && (s.parent.Awaiting? ==>
            ParentGetsReply(s, p) ==
              if genuine && Version(p.major, p.minor) == s.parentVersion && p.kind == s.parent.kind && p.requestId == s.parent.id
              then s.(parent := Idle, replies := s.replies + [p.body]) else s.(parent := ParentFailed))
      && ((ParentGetsVersionRequest(s, p).parent == SendVersion <==>
            genuine && Version(p.major, p.minor) == s.parentVersion && p.kind == 0)
          || s.parent == SendVersion)
      && (ChildGetsVersionReply(s, p) ==
            if genuine && Version(p.major, p.minor) == s.childVersion && p.kind == 1 && p.requestId == s.number
            then s.(child := Serving, childVersion := Version(p.body[0], p.body[1])) else s.(child := ChildFailed))
      && (ChildGetsRequest(s, p, serve).dropped == s.dropped <==>
            genuine && Version(p.major, p.minor) == s.childVersion && p.kind in {2, 4, 6, 8, 10, 12})
      && (ChildGetsRequest(s, p, serve).dropped != s.dropped ==> ChildGetsRequest(s, p, serve) == s.(dropped := s.dropped + 1))
  {}

  /** The version that the reply to a version request proposes: 1.0 exactly when that is the least and within the greatest the peer knows. */
  lemma VersionAnswer<S(!new)>(s: State<S>, p: Packet)
    requires Representable(p) && p.magic == 0xB38A && p.crc == 0 && p.kind == 0 && Version(p.major, p.minor) == s.parentVersion
    ensures var r := Decode(ParentGetsVersionRequest(s, p).parentOut);
      && |ParentGetsVersionRequest(s, p).parentOut| == SIZE
      && r.magic == 0xB38A && Version(r.major, r.minor) == s.parentVersion && r.kind == 1 && r.crc == 0 && r.requestId == p.requestId
      && (r.body[0], r.body[1]) == (if p.body[2] == 1 && p.body[3] == 0 && p.body[0] >= 1 then (1, 0) else (0, 0))
  {
    var agreed := if p.body[2] == 1 && p.body[3] == 0 && p.body[0] >= 1 then KNOWN else NONE;
    DecodeEncode(Packet(MAGIC, s.parentVersion.major, s.parentVersion.minor, VER_REP, 0, p.requestId, p.packetId,
                        p.body[0 := agreed.major][1 := agreed.minor]));
  }

  /**
   Between calls the library may change what the service works on, as plc_set does in the shared private map:
   the session goes on from the new state as from a fresh start.
   */
  lemma SessionResumes<S(!new)>(s: State<S>, t0: S, t: S, serve: Service<S>)
    requires Inv(s, t0, serve) && s.parent == Idle && s.child != Exited
    ensures Inv(s.(service := t, issued := [], executed := [], replies := []), t, serve)
  {
    var g, qc, qp :| InvAs(s, g, qc, qp, t0, serve);
    var r := s.(service := t, issued := [], executed := [], replies := []);
    assert Wired(r, qc, qp);
    assert InvAs(r, g, qc, qp, t, serve);
  }

  /** The reply that the parent accepts carries the number and the type of the request it waits for. */
  lemma AcceptedReplyMatches<S(!new)>(t0: S, junk: Packet, version: Version, number: U32, acts: seq<Action>, serve: Service<S>, n: nat)
    requires Representable(junk) && FixedBody(serve) && RunEnabled(Start(t0, junk, version, number), acts, serve)
    requires var s := Run(Start(t0, junk, version, number), acts, serve); s.parent.Awaiting? && Enabled(s, ParentReads(n)) && n + |s.parentIn| == SIZE
    ensures var s := Run(Start(t0, junk, version, number), acts, serve); var p := Decode(s.parentIn + s.toParent[..n]);
      GoodReply(p, KNOWN, s.parent.kind, s.parent.id) && s.executed == s.issued && Served(t0, s.issued, serve).1 == s.replies + [p.body]
  {
    StartInv(t0, junk, version, number, serve);
    RunInv(Start(t0, junk, version, number), acts, t0, serve);
    var s := Run(Start(t0, junk, version, number), acts, serve);
    var g, qc, qp :| InvAs(s, g, qc, qp, t0, serve);
    FirstPacket(s.parentIn, s.toParent, n, s.childOut, qp);
  }

  ghost predicate Progress<S>(s: State<S>) {
    Enabled(s, ParentWrites(1)) || Enabled(s, ParentReads(1)) || Enabled(s, ChildWrites(1)) || Enabled(s, ChildReads(1))
  }

  lemma InvProgress<S(!new)>(s: State<S>, g: Stage, qc: seq<Packet>, qp: seq<Packet>, t0: S, serve: Service<S>)
    requires InvAs(s, g, qc, qp, t0, serve) && s.parent != Idle
    ensures Progress(s)
  {}

  /** No deadlock: while a call of the parent is unfinished some byte can be moved. */
  lemma NeverStuck<S(!new)>(t0: S, junk: Packet, version: Version, number: U32, acts: seq<Action>, serve: Service<S>)
    requires Representable(junk) && FixedBody(serve) && RunEnabled(Start(t0, junk, version, number), acts, serve)
    ensures var s := Run(Start(t0, junk, version, number), acts, serve); s.parent == Idle || Progress(s)
  {
    StartInv(t0, junk, version, number, serve);
    RunInv(Start(t0, junk, version, number), acts, t0, serve);
    var s := Run(Start(t0, junk, version, number), acts, serve);
    var g, qc, qp :| InvAs(s, g, qc, qp, t0, serve);
    if s.parent != Idle {
      InvProgress(s, g, qc, qp, t0, serve);
    }
  }

  // ----- how many bytes a call takes -----

  predicate ReplyPending<S>(s: State<S>) {
    s.parent == AwaitVersion || ((s.parent.Sending? || s.parent.Awaiting?) && |s.executed| < |s.issued|)
  }

  /** The byte moves that the current call still needs: unwritten bytes move twice, and a reply not yet begun is a whole packet. */
  function Work<S>(s: State<S>): nat {
    2 * |s.parentOut| + |s.toChild| + 2 * |s.childOut| + |s.toParent|
    + (if ReplyPending(s) then 2 * SIZE else 0)
  }

  function Bytes(a: Action): nat {
    match a
    case Issue(_, _) => 0
    case ParentWrites(n) => n
    case ParentReads(n) => n
    case ChildWrites(n) => n
    case ChildReads(n) => n
  }

  function Moved(acts: seq<Action>): nat {
    if acts == [] then 0 else Bytes(acts[0]) + Moved(acts[1..])
  }

  lemma ParentReadVersionWork<S(!new)>(s: State<S>, n: nat, qc: seq<Packet>, qp: seq<Packet>, t0: S, serve: Service<S>)
    requires InvAs(s, Hello, qc, qp, t0, serve) && Enabled(s, ParentReads(n)) && n + |s.parentIn| == SIZE && FixedBody(serve)
    ensures Work(Next(s, ParentReads(n), serve)) + n == Work(s)
  {
    FirstPacket(s.parentIn, s.toParent, n, s.childOut, qp);
    assert VersionRequestIs(s, qp[0]) && s.parentOut == [];
  }

  lemma ParentReadReplyWork<S(!new)>(s: State<S>, n: nat, qc: seq<Packet>, qp: seq<Packet>, t0: S, serve: Service<S>)
    requires InvAs(s, Answered, qc, qp, t0, serve) && Enabled(s, ParentReads(n)) && n + |s.parentIn| == SIZE && FixedBody(serve)
    ensures Work(Next(s, ParentReads(n), serve)) + n == Work(s)
  {
    FirstPacket(s.parentIn, s.toParent, n, s.childOut, qp);
    assert ReplyIs(s, qp[0], t0, serve);
  }

  lemma ChildReadVersionWork<S(!new)>(s: State<S>, n: nat, qc: seq<Packet>, qp: seq<Packet>, t0: S, serve: Service<S>)
    requires InvAs(s, Answering, qc, qp, t0, serve) && Enabled(s, ChildReads(n)) && n + |s.childIn| == SIZE && FixedBody(serve)
    ensures Work(Next(s, ChildReads(n), serve)) + n == Work(s)
  {
    ChildTakesPacket(s, n, qc, qp);
  }

  lemma ChildReadRequestWork<S(!new)>(s: State<S>, n: nat, qc: seq<Packet>, qp: seq<Packet>, t0: S, serve: Service<S>)
    requires InvAs(s, Requested, qc, qp, t0, serve) && Enabled(s, ChildReads(n)) && n + |s.childIn| == SIZE && FixedBody(serve)
    ensures Work(Next(s, ChildReads(n), serve)) + n == Work(s)
  {}

  lemma ReadsWork<S(!new)>(s: State<S>, a: Action, g: Stage, qc: seq<Packet>, qp: seq<Packet>, t0: S, serve: Service<S>)
    requires InvAs(s, g, qc, qp, t0, serve) && Enabled(s, a) && FixedBody(serve) && (a.ParentReads? || a.ChildReads?)
    requires if a.ParentReads? then a.n + |s.parentIn| == SIZE else a.n + |s.childIn| == SIZE
    ensures Work(Next(s, a, serve)) + Bytes(a) == Work(s)
  {
    if a.ParentReads? {
      FirstPacket(s.parentIn, s.toParent, a.n, s.childOut, qp);
      if g == Hello {
        ParentReadVersionWork(s, a.n, qc, qp, t0, serve);
      } else {
        ParentReadReplyWork(s, a.n, qc, qp, t0, serve);
      }
    } else {
      ChildTakesPacket(s, a.n, qc, qp);
      if g == Answering {
        ChildReadVersionWork(s, a.n, qc, qp, t0, serve);
      } else {
        ChildReadRequestWork(s, a.n, qc, qp, t0, serve);
      }
    }
  }

  lemma PartReadWork<S(!new)>(s: State<S>, a: Action, serve: Service<S>)
    requires Enabled(s, a) && FixedBody(serve) && (a.ParentReads? || a.ChildReads?)
    requires if a.ParentReads? then a.n + |s.parentIn| < SIZE else a.n + |s.childIn| < SIZE
    ensures Work(Next(s, a, serve)) + Bytes(a) == Work(s)
  {}

  lemma WritesWork<S(!new)>(s: State<S>, a: Action, serve: Service<S>)
    requires Enabled(s, a) && FixedBody(serve) && (a.ParentWrites? || a.ChildWrites?)
    ensures Work(Next(s, a, serve)) + Bytes(a) == Work(s)
  {}

  lemma IssueWork<S(!new)>(s: State<S>, a: Action, g: Stage, qc: seq<Packet>, qp: seq<Packet>, t0: S, serve: Service<S>)
    requires InvAs(s, g, qc, qp, t0, serve) && Enabled(s, a) && a.Issue? && FixedBody(serve)
    ensures Work(Next(s, a, serve)) == Work(s) + 4 * SIZE
  {}

  lemma StepWork<S(!new)>(s: State<S>, a: Action, t0: S, serve: Service<S>)
    requires Inv(s, t0, serve) && Enabled(s, a) && FixedBody(serve)
    ensures Work(Next(s, a, serve)) + Bytes(a) == Work(s) + (if a.Issue? then 4 * SIZE else 0)
  {
    var g, qc, qp :| InvAs(s, g, qc, qp, t0, serve);
    if a.Issue? {
      IssueWork(s, a, g, qc, qp, t0, serve);
    } else if a.ParentWrites? || a.ChildWrites? {
      WritesWork(s, a, serve);
    } else if (if a.ParentReads? then a.n + |s.parentIn| else a.n + |s.childIn|) < SIZE {
      PartReadWork(s, a, serve);
    } else {
      ReadsWork(s, a, g, qc, qp, t0, serve);
    }
  }

  lemma IssuesCount<S(!new)>(s: State<S>, a: Action, serve: Service<S>)
    requires Enabled(s, a) && FixedBody(serve)
    ensures |Next(s, a, serve).issued| == |s.issued| + (if a.Issue? then 1 else 0)
  {}

  lemma {:induction false} RunWork<S(!new)>(s: State<S>, acts: seq<Action>, t0: S, serve: Service<S>)
    requires FixedBody(serve) && Inv(s, t0, serve) && RunEnabled(s, acts, serve)
    ensures Work(Run(s, acts, serve)) + Moved(acts) == Work(s) + 4 * SIZE * (|Run(s, acts, serve).issued| - |s.issued|)
    decreases |acts|
  {
    if acts == [] {
    } else {
      StepInv(s, acts[0], t0, serve);
      StepWork(s, acts[0], t0, serve);
      IssuesCount(s, acts[0], serve);
      RunWork(Next(s, acts[0], serve), acts[1..], t0, serve);
    }
  }

  /**
   Every call returns: however reads and writes are cut, the handshake and each request take 592 byte moves,
   no run moves more, and when that many have been made the parent has its reply.
   */
  lemma CallsReturn<S(!new)>(t0: S, junk: Packet, version: Version, number: U32, acts: seq<Action>, serve: Service<S>)
    requires Representable(junk) && FixedBody(serve) && RunEnabled(Start(t0, junk, version, number), acts, serve)
    ensures var s, all := Run(Start(t0, junk, version, number), acts, serve), 592 * (1 + |Run(Start(t0, junk, version, number), acts, serve).issued|);
      && Moved(acts) <= all
      && (Moved(acts) == all ==> s.parent == Idle && |s.replies| == |s.issued|)
  {
    StartInv(t0, junk, version, number, serve);
    RunWork(Start(t0, junk, version, number), acts, t0, serve);
    NeverStuck(t0, junk, version, number, acts, serve);
    RunsAreHealthy(t0, junk, version, number, acts, serve);
  }
}
