/**
 * find_ancestors: the upward walk from a person through famc[0] and the
 * first person of each partner slot, recording for every ancestor the
 * family it is reached through and the list of families leading to it.
 */
module Ancestors {
  import opened Store

  /**
   * r is an upward route from p to a: one family per generation, each the
   * famc[0] of a parent (first slot person) in the previous one, a being a
   * parent in the last. The empty route leads from p to p.
   */
  ghost predicate IsRoute(store: Store, p: IndiId, r: seq<FamId>, a: IndiId)
    decreases |r|
  {
    if r == [] then a == p
    else
      && p in store.indis && Famc0(store, p) == Some(r[0]) && r[0] in store.fams
      && exists x :: x in Parents(store.fams[r[0]]) && IsRoute(store, x, r[1..], a)
  }

  /** a is reachable upward from p in at least one generation. */
  ghost predicate IsAncestor(store: Store, p: IndiId, a: IndiId)
  {
    exists r :: r != [] && IsRoute(store, p, r, a)
  }

  /**
   * e was written by a walk started at p with the accumulated path `path`:
   * its path extends `path` by a route from p to a, and its family is the
   * last one of its path.
   */
  ghost predicate FromWalk(store: Store, p: IndiId, path: seq<FamId>, a: IndiId, e: AncEntry)
  {
    && |path| < |e.path| && e.path[..|path|] == path
    && e.fam == e.path[|e.path| - 1]
    && IsRoute(store, p, e.path[|path|..], a)
  }

  /** order lists the keys of m, each once: the model's stand-in for a Python dict's iteration order. */
  ghost predicate KeyOrder(m: map<IndiId, AncEntry>, order: seq<IndiId>)
  {
    && Distinct(order)
    && (forall k :: k in m <==> k in order)
  }

  /** Writing key k keeps the order: a new key goes to the end, an existing one keeps its place. */
  lemma {:induction false} KeyOrderWrite(m: map<IndiId, AncEntry>, order: seq<IndiId>, k: IndiId, e: AncEntry)
    requires KeyOrder(m, order)
    ensures KeyOrder(m[k := e], if k in m then order else order + [k])
  {
  }

  lemma {:induction false} RouteStep(store: Store, p: IndiId, fam: FamId, x: IndiId, r: seq<FamId>, a: IndiId)
    requires p in store.indis && Famc0(store, p) == Some(fam) && fam in store.fams
    requires x in Parents(store.fams[fam]) && IsRoute(store, x, r, a)
    ensures IsRoute(store, p, [fam] + r, a)
  {
    assert ([fam] + r)[1..] == r;
  }

  lemma {:induction false} FromWalkLift(store: Store, p: IndiId, path: seq<FamId>, fam: FamId, x: IndiId, a: IndiId, e: AncEntry)
    requires p in store.indis && Famc0(store, p) == Some(fam) && fam in store.fams
    requires x in Parents(store.fams[fam])
    requires FromWalk(store, x, path + [fam], a, e)
    ensures FromWalk(store, p, path, a, e)
  {
    var n := |path| + 1;
    assert e.path[..|path|] == e.path[..n][..|path|];
    assert e.path[|path|..] == [fam] + e.path[n..];
    RouteStep(store, p, fam, x, e.path[n..], a);
  }

  /**
   * What a walk from p, entered with `path` and the accumulator `acc`,
   * leaves in the accumulator `res`.
   */
  ghost predicate WalkPost(store: Store, p: IndiId, path: seq<FamId>, acc: map<IndiId, AncEntry>, res: map<IndiId, AncEntry>)
  {
    // every entry is either untouched or was written by this walk
    && (forall a :: a in res ==> (a in acc && res[a] == acc[a]) || FromWalk(store, p, path, a, res[a]))
    // entries only ever get shorter
    && (forall a :: a in acc ==> a in res && |res[a].path| <= |acc[a].path|)
    // every ancestor is recorded, no longer than any route to it
    && (forall a, r :: IsRoute(store, p, r, a) && r != [] ==> a in res && |res[a].path| <= |path| + |r|)
    // an old entry survives only when it is strictly shorter than every route of this walk
    && (forall a, r :: IsRoute(store, p, r, a) && r != [] && a in acc && |path| + |r| <= |acc[a].path| ==>
          FromWalk(store, p, path, a, res[a]))
  }

  /** The walk from p through famc[0] = fam, after the parents in `done` have been visited. */
  ghost predicate WalkState(store: Store, p: IndiId, path: seq<FamId>, fam: FamId,
                            acc: map<IndiId, AncEntry>, res: map<IndiId, AncEntry>, done: set<IndiId>)
  {
    && (forall a :: a in res ==> (a in acc && res[a] == acc[a]) || FromWalk(store, p, path, a, res[a]))
    && (forall a :: a in acc ==> a in res && |res[a].path| <= |acc[a].path|)
    && (forall x, a, r :: x in done && IsRoute(store, x, r, a) ==> a in res && |res[a].path| <= |path| + 1 + |r|)
    && (forall x, a, r :: x in done && IsRoute(store, x, r, a) && a in acc && |path| + 1 + |r| <= |acc[a].path| ==>
          FromWalk(store, p, path, a, res[a]))
  }

  /** The write find_ancestors makes for a parent x reached through fam, before recursing into x. */
  function Record(res: map<IndiId, AncEntry>, x: IndiId, fam: FamId, newPath: seq<FamId>): map<IndiId, AncEntry>
  {
    if x in res && |res[x].path| < |newPath| then res else res[x := AncEntry(fam, newPath)]
  }

  /** After the recursive call into x, every entry is the one before the call or one this walk wrote. */
  lemma {:induction false} VisitEntries(store: Store, p: IndiId, path: seq<FamId>, fam: FamId, x: IndiId,
                     res1: map<IndiId, AncEntry>, res2: map<IndiId, AncEntry>)
    requires p in store.indis && Famc0(store, p) == Some(fam) && fam in store.fams
    requires x in Parents(store.fams[fam])
    requires forall a :: a in res2 ==> (a in res1 && res2[a] == res1[a]) || FromWalk(store, x, path + [fam], a, res2[a])
    ensures forall a :: a in res2 ==> (a in res1 && res2[a] == res1[a]) || FromWalk(store, p, path, a, res2[a])
  {
    forall a | a in res2 && !(a in res1 && res2[a] == res1[a])
      ensures FromWalk(store, p, path, a, res2[a])
    {
      FromWalkLift(store, p, path, fam, x, a, res2[a]);
    }
  }

  /** The entry written for the parent x itself comes from this walk. */
  lemma {:induction false} RecordFromWalk(store: Store, p: IndiId, path: seq<FamId>, fam: FamId, x: IndiId)
    requires p in store.indis && Famc0(store, p) == Some(fam) && fam in store.fams
    requires x in Parents(store.fams[fam])
    ensures FromWalk(store, p, path, x, AncEntry(fam, path + [fam]))
  {
    var newPath := path + [fam];
    assert newPath[..|path|] == path && newPath[|path|..] == [fam];
    RouteStep(store, p, fam, x, [], x);
  }

  /** The tie clause for a route that starts at the parent x just visited. */
  lemma {:induction false} VisitTie(store: Store, p: IndiId, path: seq<FamId>, fam: FamId, x: IndiId,
                 acc: map<IndiId, AncEntry>, res0: map<IndiId, AncEntry>, res2: map<IndiId, AncEntry>,
                 a: IndiId, r: seq<FamId>)
    requires p in store.indis && Famc0(store, p) == Some(fam) && fam in store.fams
    requires x in Parents(store.fams[fam])
    requires forall b :: b in res0 ==> (b in acc && res0[b] == acc[b]) || FromWalk(store, p, path, b, res0[b])
    requires forall b :: b in acc ==> b in res0
    requires WalkPost(store, x, path + [fam], Record(res0, x, fam, path + [fam]), res2)
    requires IsRoute(store, x, r, a) && a in acc && |path| + 1 + |r| <= |acc[a].path|
    ensures FromWalk(store, p, path, a, res2[a])
  {
    var res1 := Record(res0, x, fam, path + [fam]);
    RecordFromWalk(store, p, path, fam, x);
    VisitEntries(store, p, path, fam, x, res1, res2);
    assert a in res1;
    if !FromWalk(store, p, path, a, res1[a]) {
      assert res1[a] == acc[a];
      if r != [] {
        assert FromWalk(store, x, path + [fam], a, res2[a]);
        FromWalkLift(store, p, path, fam, x, a, res2[a]);
      }
    }
  }

  lemma {:induction false} VisitParent(store: Store, p: IndiId, path: seq<FamId>, fam: FamId, x: IndiId,
                    acc: map<IndiId, AncEntry>, res0: map<IndiId, AncEntry>, res2: map<IndiId, AncEntry>, done: set<IndiId>)
    requires p in store.indis && Famc0(store, p) == Some(fam) && fam in store.fams
    requires x in Parents(store.fams[fam])
    requires WalkState(store, p, path, fam, acc, res0, done)
    requires WalkPost(store, x, path + [fam], Record(res0, x, fam, path + [fam]), res2)
    ensures WalkState(store, p, path, fam, acc, res2, done + {x})
  {
    var res1 := Record(res0, x, fam, path + [fam]);
    RecordFromWalk(store, p, path, fam, x);
    VisitEntries(store, p, path, fam, x, res1, res2);
    forall y, a, r | y in done + {x} && IsRoute(store, y, r, a)
      ensures a in res2 && |res2[a].path| <= |path| + 1 + |r|
    {
      if y == x && r == [] {
        assert a == x;
      }
    }
    forall y, a, r | y in done + {x} && IsRoute(store, y, r, a) && a in acc && |path| + 1 + |r| <= |acc[a].path|
      ensures FromWalk(store, p, path, a, res2[a])
    {
      if y == x {
        VisitTie(store, p, path, fam, x, acc, res0, res2, a, r);
      } else {
        assert FromWalk(store, p, path, a, res0[a]);
        assert FromWalk(store, p, path, a, res1[a]);
      }
    }
  }

  lemma {:induction false} WalkFinished(store: Store, p: IndiId, path: seq<FamId>, fam: FamId,
                     acc: map<IndiId, AncEntry>, res: map<IndiId, AncEntry>, done: set<IndiId>)
    requires p in store.indis && Famc0(store, p) == Some(fam) && fam in store.fams
    requires WalkState(store, p, path, fam, acc, res, done) && Parents(store.fams[fam]) <= done
    ensures WalkPost(store, p, path, acc, res)
  {
    forall a, r | IsRoute(store, p, r, a) && r != []
      ensures a in res && |res[a].path| <= |path| + |r|
      ensures a in acc && |path| + |r| <= |acc[a].path| ==> FromWalk(store, p, path, a, res[a])
    {
      var x :| x in Parents(store.fams[fam]) && IsRoute(store, x, r[1..], a);
    }
  }

  /**
   * The walk of find_ancestors from p, entered with the family path
   * `path` (the families from the subject down to p) and the accumulator
   * `acc` with its key order.
   */
  method FindAncestors(store: Store, ghost rank: map<IndiId, nat>, p: IndiId, path: seq<FamId>,
                       acc: map<IndiId, AncEntry>, order: seq<IndiId>)
    returns (res: map<IndiId, AncEntry>, resOrder: seq<IndiId>)
    requires WellFormed(store) && Ranked(store, rank) && p in store.indis
    requires KeyOrder(acc, order)
    // keys already in the dict keep their place; where new keys go is not stated
    ensures KeyOrder(res, resOrder) && order <= resOrder
    ensures WalkPost(store, p, path, acc, res)
    decreases rank[p], 1
  {
    res, resOrder := acc, order;
    if |store.indis[p].famc| > 0 {
      var fam := store.indis[p].famc[0];
      var f := store.fams[fam];
      // the parents visited so far
      ghost var done: set<IndiId> := {};
      for i := 0 to |PartnerTypes|
        invariant KeyOrder(res, resOrder) && order <= resOrder
        invariant forall j :: 0 <= j < i && Head(f, PartnerTypes[j]).Some? ==> Head(f, PartnerTypes[j]).value in done
        invariant WalkState(store, p, path, fam, acc, res, done)
      {
        var partner := PartnerTypes[i];
        if Slot(f, partner).Some? {
          var ancestor := Slot(f, partner).value[0];
          HeadInParents(f, partner);
          res, resOrder := VisitAncestor(store, rank, p, path, fam, ancestor, acc, res, resOrder, done);
          done := done + {ancestor};
        }
      }
      assert Parents(f) <= done;
      WalkFinished(store, p, path, fam, acc, res, done);
    }
  }

  /**
   * One turn of the loop in find_ancestors, for the parent x reached
   * through fam: the entry for x is overwritten unless the one already
   * there is strictly shorter, and the walk then recurses into x whether or
   * not it wrote, so on acyclic data every route is tried.
   */
  method VisitAncestor(store: Store, ghost rank: map<IndiId, nat>, p: IndiId, path: seq<FamId>, fam: FamId, x: IndiId,
                       ghost acc: map<IndiId, AncEntry>, res: map<IndiId, AncEntry>, order: seq<IndiId>, ghost done: set<IndiId>)
    returns (res': map<IndiId, AncEntry>, order': seq<IndiId>)
    requires WellFormed(store) && Ranked(store, rank) && p in store.indis
    requires Famc0(store, p) == Some(fam) && fam in store.fams && x in Parents(store.fams[fam])
    requires KeyOrder(res, order) && WalkState(store, p, path, fam, acc, res, done)
    ensures KeyOrder(res', order') && order <= order'
    ensures WalkState(store, p, path, fam, acc, res', done + {x})
    decreases rank[p], 0
  {
    assert x in ParentsOf(store, p);
    var newPath := path + [fam];
    res', order' := res, order;
    var doUpdate := true;
    if x in res' {
      // pick the shortest path
      if |res'[x].path| < |newPath| {
        doUpdate := false;
      }
    }
    if doUpdate {
      KeyOrderWrite(res', order', x, AncEntry(fam, newPath));
      if x !in res' {
        order' := order' + [x];
      }
      res' := res'[x := AncEntry(fam, newPath)];
    }
    assert res' == Record(res, x, fam, newPath);
    res', order' := FindAncestors(store, rank, x, newPath, res', order');
    VisitParent(store, p, path, fam, x, acc, res, res', done);
  }

  /**
   * The table find_ancestors builds for p from an empty start: every key is
   * reached by a non-empty route whose last family is the entry's family,
   * and the stored path is no longer than any route to that ancestor.
   */
  ghost predicate AncestorTable(store: Store, p: IndiId, anc: map<IndiId, AncEntry>)
  {
    && (forall a :: a in anc ==>
          |anc[a].path| > 0 && anc[a].fam == anc[a].path[|anc[a].path| - 1] && IsRoute(store, p, anc[a].path, a))
    && (forall a, r :: IsRoute(store, p, r, a) && r != [] ==> a in anc && |anc[a].path| <= |r|)
  }

  /** find_ancestors(p, [], ancestors) with a fresh dict, as both of its callers use it. */
  method AncestorsOf(store: Store, ghost rank: map<IndiId, nat>, p: IndiId)
    returns (anc: map<IndiId, AncEntry>, order: seq<IndiId>)
    requires WellFormed(store) && Ranked(store, rank) && p in store.indis
    ensures KeyOrder(anc, order)
    ensures AncestorTable(store, p, anc)
  {
    anc, order := FindAncestors(store, rank, p, [], map[], []);
    forall a | a in anc
      ensures IsRoute(store, p, anc[a].path, a)
    {
      assert FromWalk(store, p, [], a, anc[a]);
      assert anc[a].path[0..] == anc[a].path;
    }
  }

  /** A route starts with the famc[0] of the person it leaves, and every family on it is in the store. */
  lemma {:induction false} RouteInStore(store: Store, p: IndiId, r: seq<FamId>, a: IndiId)
    requires WellFormed(store) && IsRoute(store, p, r, a)
    ensures r != [] ==> p in store.indis && store.indis[p].famc[0] == r[0]
    ensures forall i :: 0 <= i < |r| ==> r[i] in store.fams
    ensures p in store.indis ==> a in store.indis
    decreases |r|
  {
    if r != [] {
      var x :| x in Parents(store.fams[r[0]]) && IsRoute(store, x, r[1..], a);
      RouteInStore(store, x, r[1..], a);
      forall i | 0 <= i < |r|
        ensures r[i] in store.fams
      {
        if i > 0 {
          assert r[i] == r[1..][i - 1];
        }
      }
    }
  }

  /** On ranked data a route strictly climbs the rank: nobody is their own ancestor. */
  lemma {:induction false} RouteClimbs(store: Store, rank: map<IndiId, nat>, p: IndiId, r: seq<FamId>, a: IndiId)
    requires WellFormed(store) && Ranked(store, rank) && p in store.indis
    requires IsRoute(store, p, r, a) && r != []
    ensures a in store.indis && a in rank && rank[a] < rank[p]
    decreases |r|
  {
    var x :| x in Parents(store.fams[r[0]]) && IsRoute(store, x, r[1..], a);
    assert x in ParentsOf(store, p);
    if r[1..] != [] {
      RouteClimbs(store, rank, x, r[1..], a);
    }
  }

  /** Every stored path leaves p through its famc[0], uses only stored families, and p is not among its own ancestors. */
  lemma {:induction false} AncestorTableFacts(store: Store, rank: map<IndiId, nat>, p: IndiId, anc: map<IndiId, AncEntry>)
    requires WellFormed(store) && Ranked(store, rank) && p in store.indis
    requires AncestorTable(store, p, anc)
    ensures p !in anc
    ensures forall a :: a in anc ==> a in store.indis && anc[a].path[0] == store.indis[p].famc[0]
    ensures forall a, i :: a in anc && 0 <= i < |anc[a].path| ==> anc[a].path[i] in store.fams
  {
    forall a | a in anc
      ensures a != p && a in store.indis && anc[a].path[0] == store.indis[p].famc[0]
      ensures forall i :: 0 <= i < |anc[a].path| ==> anc[a].path[i] in store.fams
    {
      RouteInStore(store, p, anc[a].path, a);
      RouteClimbs(store, rank, p, anc[a].path, a);
    }
  }

  /** The keys of the table are exactly the ancestors of p, and each stored path is a shortest route. */
  lemma {:induction false} AncestorTableKeys(store: Store, p: IndiId, anc: map<IndiId, AncEntry>, a: IndiId)
    requires AncestorTable(store, p, anc)
    ensures a in anc <==> IsAncestor(store, p, a)
    ensures a in anc ==> forall r :: IsRoute(store, p, r, a) && r != [] ==> |anc[a].path| <= |r|
  {
    if a in anc {
      assert IsRoute(store, p, anc[a].path, a);
    }
  }
}
