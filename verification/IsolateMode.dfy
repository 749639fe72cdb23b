/** The point updates of isolate mode, through the proxy, against the local ones (lib/gmm/gmm_isolate.c, lib/gmm/plcproxy.c). */
module IsolateMode {
  import opened PointMemory
  import opened Sharing
  import opened Words
  import opened Wrappers
  import Proxy

  /** The points that the body of an update-points request stands for. */
  type PointsIn = seq<Proxy.Byte> -> seq<Pt>

  ghost predicate Usable(m: Maps, ps: seq<Pt>) {
    Sized(m, |m.glob|) && forall p :: p in ps ==> p.Pt? && p.ofs < |m.glob|
  }

  /** handle_update_points: one local update of the points in the packet. Other requests may do anything. */
  ghost predicate UpdatesPoints<S(!new)>(serve: Proxy.Service<S>, maps: S -> Maps, points: PointsIn) {
    forall t: S, b {:trigger serve(t, Proxy.UPDATE_POINTS_REQ, b)} :: Usable(maps(t), points(b)) ==>
      maps(serve(t, Proxy.UPDATE_POINTS_REQ, b).0) == ExchangedAll(maps(t), ExchangesOf(points(b)))
  }

  /** One request per chunk, each with the chunk's points in its body. */
  ghost predicate Carries(requests: seq<Proxy.Request>, chunks: seq<seq<Pt>>, points: PointsIn) {
    |requests| == |chunks| && forall k :: 0 <= k < |requests| ==>
      requests[k].kind == Proxy.UPDATE_POINTS_REQ && points(requests[k].body) == chunks[k]
  }

  /** After `earlier`, the requests `tail` leave what exchanging the points `done` leaves. */
  ghost predicate ServedAs<S(!new)>(t: S, earlier: seq<Proxy.Request>, tail: seq<Proxy.Request>, done: seq<Pt>,
                                     serve: Proxy.Service<S>, maps: S -> Maps) {
    var m := maps(Proxy.Served(t, earlier, serve).0);
    Usable(m, done) && maps(Proxy.Served(t, earlier + tail, serve).0) == ExchangedAll(m, ExchangesOf(done))
  }

  /** One more request of the call exchanges its chunk, too. */
  lemma NextChunk<S(!new)>(t: S, earlier: seq<Proxy.Request>, tail: seq<Proxy.Request>, r: Proxy.Request, done: seq<Pt>,
                           serve: Proxy.Service<S>, maps: S -> Maps, points: PointsIn)
    requires UpdatesPoints(serve, maps, points) && r.kind == Proxy.UPDATE_POINTS_REQ
    requires ServedAs(t, earlier, tail, done, serve, maps) && Usable(maps(Proxy.Served(t, earlier, serve).0), points(r.body))
    ensures ServedAs(t, earlier, tail + [r], done + points(r.body), serve, maps)
  {
    var m := maps(Proxy.Served(t, earlier, serve).0);
    assert earlier + (tail + [r]) == (earlier + tail) + [r];
    Proxy.ServedOneMore(t, earlier + tail, r, serve);
    UpdateAppend(m, done, points(r.body));
  }

  /** The points of a part of the chunks are among those of all. */
  lemma FlatLast(m: Maps, init: seq<seq<Pt>>, last: seq<Pt>)
    requires Usable(m, Flat(init + [last]))
    ensures Flat(init + [last]) == Flat(init) + last && Usable(m, Flat(init)) && Usable(m, last)
  {
    FlatAppend(init, last);
    assert forall p :: p in Flat(init) || p in last ==> p in Flat(init) + last;
  }

  /** After any earlier requests, the requests of one call exchange the points of all its chunks, in order. */
  lemma {:induction false} RequestsExchange<S(!new)>(t: S, earlier: seq<Proxy.Request>, tail: seq<Proxy.Request>,
                                                     chunks: seq<seq<Pt>>, serve: Proxy.Service<S>, maps: S -> Maps, points: PointsIn)
    requires UpdatesPoints(serve, maps, points) && Carries(tail, chunks, points)
    requires Usable(maps(Proxy.Served(t, earlier, serve).0), Flat(chunks))
    ensures ServedAs(t, earlier, tail, Flat(chunks), serve, maps)
    decreases |tail|
  {
    if tail == [] {
      assert earlier + tail == earlier;
    } else {
      var k := |tail| - 1;
      var tail', r, chunks', c := tail[..k], tail[k], chunks[..k], chunks[k];
      assert tail == tail' + [r] && chunks == chunks' + [c] && points(r.body) == c;
      FlatLast(maps(Proxy.Served(t, earlier, serve).0), chunks', c);
      RequestsExchange(t, earlier, tail', chunks', serve, maps, points);
      NextChunk(t, earlier, tail', r, Flat(chunks'), serve, maps, points);
    }
  }

  /**
   plc_update_pts through the proxy is the local plc_update_pts. In every session, with any splitting of the byte
   streams and after any earlier requests, once the chunk requests of the call have been issued and the library
   is idle again, the proxy's maps are those that one local call leaves, beginning where the earlier requests ended.
   */
  lemma IsolatedUpdateIsLocal<S(!new)>(s0: Proxy.State<S>, t0: S, acts: seq<Proxy.Action>, serve: Proxy.Service<S>, maps: S -> Maps,
                                       points: PointsIn, earlier: seq<Proxy.Request>, tail: seq<Proxy.Request>,
                                       ps: seq<Pt>, chunks: seq<seq<Pt>>)
    requires Proxy.FixedBody(serve) && Proxy.Inv(s0, t0, serve) && Proxy.RunEnabled(s0, acts, serve)
    requires var s := Proxy.Run(s0, acts, serve); s.parent == Proxy.Idle && s.issued == earlier + tail
    requires UpdatesPoints(serve, maps, points) && Carries(tail, chunks, points) && Flat(chunks) == Reversed(ps)
    requires Usable(maps(Proxy.Served(t0, earlier, serve).0), ps)
    ensures maps(Proxy.Run(s0, acts, serve).service)
         == ExchangedAll(maps(Proxy.Served(t0, earlier, serve).0), ExchangesOf(ps))
  {
    var m := maps(Proxy.Served(t0, earlier, serve).0);
    Proxy.IdleIsServed(s0, t0, acts, serve);
    forall p ensures p in Reversed(ps) <==> p in ps {
      ReversedSame(ps, p);
    }
    RequestsExchange(t0, earlier, tail, chunks, serve, maps, points);
    ReversedExchanges(m, ps);
  }

  /** handle_update and handle_update_point, likewise one local call each. */
  ghost predicate UpdatesAll<S(!new)>(serve: Proxy.Service<S>, maps: S -> Maps) {
    forall t: S, b {:trigger serve(t, Proxy.UPDATE_REQ, b)} :: Sized(maps(t), |maps(t).glob|) ==>
      maps(serve(t, Proxy.UPDATE_REQ, b).0) == ExchangedAll(maps(t), WholeMap(|maps(t).glob|))
  }

  ghost predicate UpdatesPoint<S(!new)>(serve: Proxy.Service<S>, maps: S -> Maps, points: PointsIn) {
    forall t: S, b {:trigger serve(t, Proxy.UPDATE_POINT_REQ, b)} :: |points(b)| == 1 && Usable(maps(t), points(b)) ==>
      maps(serve(t, Proxy.UPDATE_POINT_REQ, b).0) == Exchanged(maps(t), ExchangeOf(points(b)[0]))
  }

  /** plc_update and plc_update_pt through the proxy leave what the local calls leave. */
  lemma IsolatedCallIsLocal<S(!new)>(s0: Proxy.State<S>, t0: S, acts: seq<Proxy.Action>, serve: Proxy.Service<S>, maps: S -> Maps,
                                     points: PointsIn, earlier: seq<Proxy.Request>, last: Proxy.Request)
    requires Proxy.FixedBody(serve) && Proxy.Inv(s0, t0, serve) && Proxy.RunEnabled(s0, acts, serve)
    requires var s := Proxy.Run(s0, acts, serve); s.parent == Proxy.Idle && s.issued == earlier + [last]
    requires UpdatesAll(serve, maps) && UpdatesPoint(serve, maps, points)
    requires var m := maps(Proxy.Served(t0, earlier, serve).0); Sized(m, |m.glob|)
    ensures var m := maps(Proxy.Served(t0, earlier, serve).0);
      var r := maps(Proxy.Run(s0, acts, serve).service);
      && (last.kind == Proxy.UPDATE_REQ ==> r == ExchangedAll(m, WholeMap(|m.glob|)))
      && (last.kind == Proxy.UPDATE_POINT_REQ && |points(last.body)| == 1 && Usable(m, points(last.body)) ==>
            r == Exchanged(m, ExchangeOf(points(last.body)[0])))
  {
    Proxy.IdleIsServed(s0, t0, acts, serve);
    Proxy.ServedOneMore(t0, earlier, last, serve);
  }

  // ----- under interference: how many locked updates a call is -----

  /** A call with at most eight points is one request. */
  lemma OneRequest(ps: seq<Pt>, chunks: seq<seq<Pt>>)
    requires 1 <= |ps| <= MAX_POINTS && Flat(chunks) == Reversed(ps) && |chunks| == (|ps| + 7) / 8
    ensures chunks == [Reversed(ps)]
  {
    assert |chunks| == 1;
    var c := chunks[0];
    assert chunks == [] + [c];
    FlatAppend([], c);
    assert [] + c == c;
  }

  /** And then, whatever the other modules do, one atomic update of the points. */
  lemma SmallUpdateIsAtomic(w: World, p: nat, ps: seq<Pt>, chunks: seq<seq<Pt>>)
    requires Okay(w) && w.holder == None && p < |w.procs| && (forall q :: q in ps ==> q.Pt? && q.ofs < |w.glob|)
    requires 1 <= |ps| <= MAX_POINTS && Flat(chunks) == Reversed(ps) && |chunks| == (|ps| + 7) / 8
    ensures |chunks| == 1 && (forall q :: q in chunks[0] ==> q.Pt? && q.ofs < |w.glob|)
    ensures AtomicNext(w, Lock(p, ExchangesOf(chunks[0]))) == AtomicNext(w, Lock(p, ExchangesOf(ps)))
  {
    OneRequest(ps, chunks);
    var m := MapsOf(w, p);
    ReversedExchanges(m, ps);
    assert ExchangedAll(m, ExchangesOf(chunks[0])) == ExchangedAll(m, ExchangesOf(ps));
  }

  /** Module 0 owns the whole map and has ones to publish, module 1 reads. */
  ghost function Unpublished(n: nat): (w: World)
    ensures Okay(w) && w.holder == None && |w.glob| == n && |w.procs| == 2
  {
    var zeros, ones := seq(n, _ => ZERO), seq(n, _ => ONES);
    World(zeros, [Proc(ones, ones, []), Proc(zeros, zeros, [])], None)
  }

  /** Whole words of the map. */
  ghost predicate WholeWords(ps: seq<Pt>, n: nat) {
    forall p :: p in ps ==> p.Pt? && p.ofs < n && p.mask == ONES
  }

  lemma {:induction false} WordTouched(ps: seq<Pt>, n: nat, i: nat)
    requires WholeWords(ps, n)
    ensures Touched(ExchangesOf(ps), i) == if exists p :: p in ps && p.ofs == i then ONES else ZERO
    decreases |ps|
  {
    if ps == [] {
      assert ExchangesOf(ps) == [];
    } else {
      assert ps[0] in ps;
      assert ExchangesOf(ps)[1..] == ExchangesOf(ps[1..]);
      WordTouched(ps[1..], n, i);
      OrOnes(Touched(ExchangesOf(ps[1..]), i));
    }
  }

  lemma OrOnes(v: Word)
    ensures Or(ONES, v) == ONES
  {}

  lemma ReaderWord(g: Word, p: Word)
    ensures NewGlob(g, p, ZERO, ONES) == NewGlob(g, p, ZERO, ZERO) == g
    ensures NewPriv(g, p, ZERO, ONES) == g && NewPriv(g, p, ZERO, ZERO) == p
  {}

  lemma ReaderUpdate(w: World, ps: seq<Pt>, i: nat)
    requires Okay(w) && w.holder == None && |w.procs| == 2 && WholeWords(ps, |w.glob|) && i < |w.glob| && w.procs[1].mask[i] == ZERO
    ensures var r := AtomicNext(w, Lock(1, ExchangesOf(ps)));
      && r.glob[i] == w.glob[i] && r.procs[0] == w.procs[0]
      && r.procs[1].priv[i] == if exists p :: p in ps && p.ofs == i then w.glob[i] else w.procs[1].priv[i]
  {
    ExchangesAreOne(MapsOf(w, 1), ExchangesOf(ps), i);
    WordTouched(ps, |w.glob|, i);
    ReaderWord(w.glob[i], w.procs[1].priv[i]);
  }

  lemma OwnerUpdate(w: World, i: nat)
    requires Okay(w) && w.holder == None && |w.procs| == 2 && i < |w.glob| && w.procs[0].priv[i] == w.procs[0].mask[i] == ONES
    ensures var r := AtomicNext(w, Lock(0, WholeMap(|w.glob|))); r.glob[i] == ONES && r.procs[1] == w.procs[1]
  {
    WholeMapUpdate(MapsOf(w, 0), i);
    assert Blend(w.glob[i], ONES, ONES) == ONES;
  }

  /**
   A call that takes two requests is not one update: for any two words, one in each request, there is a run in which
   the owner publishes both in one update, so that they are equal in every global state, and the reader ends
   with the old one and the new one.
   */
  lemma SplitUpdateTears(n: nat, c0: seq<Pt>, c1: seq<Pt>, p: Pt, q: Pt)
    requires WholeWords(c0, n) && WholeWords(c1, n) && p in c0 && q in c1
    requires forall x :: x in c0 ==> x.ofs != q.ofs
    requires forall x :: x in c1 ==> x.ofs != p.ofs
    ensures var w0 := Unpublished(n);
      var w1 := AtomicNext(w0, Lock(1, ExchangesOf(c0)));
      var w2 := AtomicNext(w1, Lock(0, WholeMap(n)));
      var w3 := AtomicNext(w2, Lock(1, ExchangesOf(c1)));
      && w0.glob[p.ofs] == w0.glob[q.ofs] == w1.glob[p.ofs] == w1.glob[q.ofs] == ZERO
      && w2.glob[p.ofs] == w2.glob[q.ofs] == w3.glob[p.ofs] == w3.glob[q.ofs] == ONES
      && w3.procs[1].priv[p.ofs] == ZERO && w3.procs[1].priv[q.ofs] == ONES
  {
    var w0 := Unpublished(n);
    var w1 := AtomicNext(w0, Lock(1, ExchangesOf(c0)));
    var w2 := AtomicNext(w1, Lock(0, WholeMap(n)));
    ReaderUpdate(w0, c0, p.ofs);
    ReaderUpdate(w0, c0, q.ofs);
    OwnerUpdate(w1, p.ofs);
    OwnerUpdate(w1, q.ofs);
    ReaderUpdate(w2, c1, p.ofs);
    ReaderUpdate(w2, c1, q.ofs);
  }
}
