/**
 From configuration rows to runs: what the registry and the write masks mean for modules that run at the same
 time (lib/gmm/gmm_setup.c, gmm_load_confmap; lib/gmm/gmm.c, gmm_init_mapmask).
 */
module ConfiguredRuns {
  import opened Wrappers
  import opened Words
  import opened PointMemory
  import opened Numerals
  import opened Loader
  import opened Sharing

  /** Each process has at most the write bits of its module name, as after gmm_init_mapmask (VisibleMask). */
  ghost predicate MaskedBy(w: World, reg: Registry, names: seq<string>)
    requires Okay(w)
  {
    |names| == |w.procs| && forall p :: 0 <= p < |names| ==> MaskWithin(w.procs[p].mask, reg, names[p])
  }

  /** The module's mask has the whole point. */
  ghost predicate Writes(w: World, p: nat, e: PointConf)
    requires Okay(w) && p < |w.procs|
  {
    var h := HandleOf(|w.glob|, e);
    h.Pt? && Within(h.mask, w.procs[p].mask[h.ofs])
  }

  /** The module has the mask that gmm_init_mapmask builds, and the enumeration reaches the point, which names it as owner. */
  ghost predicate OwnedByName(w: World, p: nat, name: string, reg: Registry, e: PointConf)
    requires Okay(w) && p < |w.procs|
  {
    IsMask(w.procs[p].mask, Visible(reg), name) && e in Visible(reg) && e.owner == name && name != ""
  }

  /** Whatever the configuration, the modules of distinct names have disjoint masks, and each point has one writer. */
  lemma ConfigurationIsSafe(rows: seq<seq<string>>, aliases: seq<seq<string>>, place: Placement, num: Numbers, w: World, names: seq<string>)
    requires Okay(w) && MaskedBy(w, FinalRegistry(|w.glob|, rows, aliases, place, num), names)
    requires forall p, q :: 0 <= p < |names| && 0 <= q < |names| && p != q ==> names[p] != names[q]
    ensures MasksDisjoint(w)
    ensures forall e, p :: e in LoadedPoints(|w.glob|, rows, place, num).reg && 0 <= p < |names| && Writes(w, p, e) ==>
      Owns(w, p, HandleOf(|w.glob|, e))
    ensures forall e, p :: 0 <= p < |names| && OwnedByName(w, p, names[p], FinalRegistry(|w.glob|, rows, aliases, place, num), e) ==> Writes(w, p, e)
  {
    var n := |w.glob|;
    var s, reg := LoadedPoints(n, rows, place, num), FinalRegistry(n, rows, aliases, place, num);
    LayoutOfConfiguration(n, rows, aliases, place, num);
    forall e, p | 0 <= p < |names| && OwnedByName(w, p, names[p], reg, e) ensures Writes(w, p, e) {
      VisibleMask(w.procs[p].mask, reg, names[p]);
    }
    forall p, q, i | 0 <= p < |w.procs| && 0 <= q < |w.procs| && p != q && 0 <= i < n
      ensures Disjoint(w.procs[p].mask[i], w.procs[q].mask[i])
    {
      MasksApart(s.maps, s.reg, reg, w.procs[p].mask, w.procs[q].mask, names[p], names[q], i);
    }
    forall e, p | e in s.reg && 0 <= p < |names| && Writes(w, p, e) ensures Owns(w, p, HandleOf(n, e)) {
      OwnershipFromMasks(w, p, HandleOf(n, e));
    }
  }

  /** A module of another name has no bit of the point, nor has any module a bit of a point without owner. */
  lemma ForeignMask(n: nat, points: Registry, reg: Registry, m: Maps, mask: seq<Word>, name: string, e: PointConf)
    requires Laid(m, points) && AliasesOf(points, reg, n) && n == |m.glob| == |mask| && MaskWithin(mask, reg, name)
    requires e in points && (name != e.owner || e.owner == "")
    ensures HandleOf(n, e).Pt? && Disjoint(mask[e.ofs], HandleOf(n, e).mask)
  {
    var h := HandleOf(n, e);
    DisjointBits(mask[e.ofs], h.mask);
    forall k | 0 <= k < 32 ensures !(mask[e.ofs][k] && h.mask[k]) {
      MaskBits(h.shift, h.length, k);
      if mask[e.ofs][k] && h.mask[k] {
        var d :| d in reg && d.owner == name && InWord(d, n) && Holds(d, e.ofs, k);
        assert Holds(e, e.ofs, k) && Overlap(d, e);
      }
    }
  }

  /** From configuration rows to runs: a point changes only in word steps of a module with the name of its owner, and one without owner never. */
  lemma ConfiguredPointHasOneWriter(rows: seq<seq<string>>, aliases: seq<seq<string>>, place: Placement, num: Numbers,
                                    w: World, names: seq<string>, acts: seq<Action>, e: PointConf)
    requires Okay(w) && MaskedBy(w, FinalRegistry(|w.glob|, rows, aliases, place, num), names) && RunEnabled(w, acts)
    requires e in LoadedPoints(|w.glob|, rows, place, num).reg
    requires e.owner == "" || forall p :: 0 <= p < |names| && names[p] == e.owner ==> Move(p) !in acts
    ensures HandleOf(|w.glob|, e).Pt?
    ensures Get(Run(w, acts).glob, HandleOf(|w.glob|, e)) == Get(w.glob, HandleOf(|w.glob|, e))
  {
    var n := |w.glob|;
    var s, reg := LoadedPoints(n, rows, place, num), FinalRegistry(n, rows, aliases, place, num);
    LayoutOfConfiguration(n, rows, aliases, place, num);
    var h := HandleOf(n, e);
    forall p | 0 <= p < |w.procs| && Move(p) in acts ensures Disjoint(w.procs[p].mask[h.ofs], h.mask) {
      ForeignMask(n, s.reg, reg, s.maps, w.procs[p].mask, names[p], e);
    }
    RunKeepsBits(w, acts, h.ofs, h.mask);
  }

  /**
   And a module whose updates do not cut the point only ever reads values that the owner had as a whole and
   published in one update, or first values, if the owner's updates do not cut it either.
   */
  lemma ConfiguredPointNeverMixed(rows: seq<seq<string>>, aliases: seq<seq<string>>, place: Placement, num: Numbers,
                                  w: World, names: seq<string>, acts: seq<Action>, e: PointConf, o: nat, q: nat)
    requires Okay(w) && w.holder == None && RunEnabled(w, acts)
    requires MaskedBy(w, FinalRegistry(|w.glob|, rows, aliases, place, num), names)
    requires forall p, q :: 0 <= p < |names| && 0 <= q < |names| && p != q ==> names[p] != names[q]
    requires e in LoadedPoints(|w.glob|, rows, place, num).reg && o < |names| && Writes(w, o, e)
    requires q < |names| && q != o && Run(w, acts).holder != Some(q) && ReadsWhole(acts, q, HandleOf(|w.glob|, e))
    ensures var h := HandleOf(|w.glob|, e);
      && Owns(w, o, h) && (forall a :: a in acts ==> a.p < |w.procs|)
      && var v := Get(Run(w, acts).procs[q].priv, h);
         && (v == Get(w.procs[q].priv, h) || v in Published(RegisterOf(w, h), acts, o, h))
         && (ReadsWhole(acts, o, h) ==> v == Get(w.procs[q].priv, h) || v == Get(w.glob, h) || OwnerHad(w, acts, o, h, v))
  {
    ConfigurationIsSafe(rows, aliases, place, num, w, names);
    NeverMixed(w, acts, o, HandleOf(|w.glob|, e), q);
  }
}
