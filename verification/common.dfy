/**
 * find_common_ancestor: the closest ancestor shared by a match and the base
 * person, tried in three ordered cases.
 */
module Common {
  import opened Store
  import opened Ancestors

  /** The "big number" the collateral search starts from. */
  const Sentinel: nat := 1000000

  /** The record built for an ancestor found in both tables: the match's side first. */
  function Joined(anc: map<IndiId, AncEntry>, baseAnc: map<IndiId, AncEntry>, a: IndiId): (c: CommonRecord)
    requires a in anc && a in baseAnc
    ensures c.indi == a && c.path == anc[a].path && c.matchPath == baseAnc[a].path
    ensures c.fam == anc[a].fam && c.matchFam == baseAnc[a].fam
  {
    CommonRecord(a, anc[a].fam, anc[a].path, baseAnc[a].fam, baseAnc[a].path)
  }

  /**
   * Position i of the match's key order names an ancestor the base person
   * shares, reached from the match in at most Sentinel generations.
   */
  ghost predicate Cand(anc: map<IndiId, AncEntry>, order: seq<IndiId>, baseAnc: map<IndiId, AncEntry>, i: int)
  {
    0 <= i < |order| && order[i] in anc && order[i] in baseAnc && |anc[order[i]].path| <= Sentinel
  }

  /** Both sides reach the shared ancestor through the same family (not a half relation). */
  ghost predicate Full(anc: map<IndiId, AncEntry>, order: seq<IndiId>, baseAnc: map<IndiId, AncEntry>, i: int)
  {
    Cand(anc, order, baseAnc, i) && anc[order[i]].fam == baseAnc[order[i]].fam
  }

  ghost function Len(anc: map<IndiId, AncEntry>, order: seq<IndiId>, i: int): nat
  {
    if 0 <= i < |order| && order[i] in anc then |anc[order[i]].path| else 0
  }

  /**
   * Among the first n keys, k is the one the search holds, with `len` the
   * shortest candidate length: the last full relation of that length if
   * there is one, otherwise the first candidate of that length.
   */
  ghost predicate Picked(anc: map<IndiId, AncEntry>, order: seq<IndiId>, baseAnc: map<IndiId, AncEntry>, n: int, k: int)
  {
    && 0 <= k < n && Cand(anc, order, baseAnc, k)
    && (forall j :: 0 <= j < n && Cand(anc, order, baseAnc, j) ==> Len(anc, order, k) <= Len(anc, order, j))
    && (Full(anc, order, baseAnc, k) ==>
          forall j :: k < j < n && Full(anc, order, baseAnc, j) ==> Len(anc, order, j) != Len(anc, order, k))
    && (!Full(anc, order, baseAnc, k) ==>
          && (forall j :: 0 <= j < n && Full(anc, order, baseAnc, j) ==> Len(anc, order, j) != Len(anc, order, k))
          && (forall j :: 0 <= j < k && Cand(anc, order, baseAnc, j) ==> Len(anc, order, j) != Len(anc, order, k)))
  }

  /**
   * The outcome of the collateral search over the first n keys: nothing when
   * every shared ancestor is further than Sentinel generations from the match
   * or exactly that far through a different family, else the record of the
   * picked key.
   */
  ghost predicate Collateral(anc: map<IndiId, AncEntry>, order: seq<IndiId>, baseAnc: map<IndiId, AncEntry>, n: int,
                             r: Option<CommonRecord>)
  {
    && (r.None? <==>
          forall j :: 0 <= j < n && Cand(anc, order, baseAnc, j) ==>
            Len(anc, order, j) == Sentinel && !Full(anc, order, baseAnc, j))
    && (r.Some? ==> exists k :: Picked(anc, order, baseAnc, n, k) && r.value == Joined(anc, baseAnc, order[k]))
  }

  /**
   * The state of the collateral search after the first n keys: foundLen is
   * the shortest length so far, and k the position of the record held.
   */
  ghost predicate SearchState(anc: map<IndiId, AncEntry>, order: seq<IndiId>, baseAnc: map<IndiId, AncEntry>, n: int,
                              foundLen: nat, r: Option<CommonRecord>, k: int)
  {
    && foundLen <= Sentinel
    && (forall j :: 0 <= j < n && Cand(anc, order, baseAnc, j) ==> foundLen <= Len(anc, order, j))
    && (r.None? ==>
          && foundLen == Sentinel
          && forall j :: 0 <= j < n && Cand(anc, order, baseAnc, j) ==> !Full(anc, order, baseAnc, j))
    && (r.Some? ==>
          && Picked(anc, order, baseAnc, n, k) && r.value == Joined(anc, baseAnc, order[k])
          && Len(anc, order, k) == foundLen
          && (foundLen < Sentinel || Full(anc, order, baseAnc, k)))
  }

  /**
   * The third case of find_common_ancestor: walk the match's ancestors in
   * the order `order` lists them, keeping the one with the shortest match-side path; on a tie a
   * later full relation replaces the one held.
   */
  method ClosestCommonAncestor(anc: map<IndiId, AncEntry>, order: seq<IndiId>, baseAnc: map<IndiId, AncEntry>)
    returns (r: Option<CommonRecord>)
    requires KeyOrder(anc, order)
    ensures Collateral(anc, order, baseAnc, |order|, r)
  {
    var foundLen: nat := Sentinel;
    r := None;
    ghost var k := 0;
    for i := 0 to |order|
      invariant SearchState(anc, order, baseAnc, i, foundLen, r, k)
    {
      var ancestor := order[i];
      assert ancestor in anc;
      if ancestor in baseAnc {
        var pathLen := |anc[ancestor].path|;
        if pathLen == foundLen {
          // prefer the same family over a half relation
          var themFam := anc[ancestor].fam;
          var baseFam := baseAnc[ancestor].fam;
          if themFam == baseFam {
            StepFull(anc, order, baseAnc, i, foundLen, r, k);
            r, k := Some(CommonRecord(ancestor, themFam, anc[ancestor].path, baseFam, baseAnc[ancestor].path)), i;
          } else {
            StepKeep(anc, order, baseAnc, i, foundLen, r, k);
          }
        } else if pathLen < foundLen {
          StepShorter(anc, order, baseAnc, i, foundLen, r, k);
          foundLen := pathLen;
          r, k := Some(CommonRecord(ancestor, anc[ancestor].fam, anc[ancestor].path,
                                    baseAnc[ancestor].fam, baseAnc[ancestor].path)), i;
        } else {
          StepKeep(anc, order, baseAnc, i, foundLen, r, k);
        }
      } else {
        StepKeep(anc, order, baseAnc, i, foundLen, r, k);
      }
    }
    SearchDone(anc, order, baseAnc, foundLen, r, k);
  }

  lemma {:induction false} StepFull(anc: map<IndiId, AncEntry>, order: seq<IndiId>, baseAnc: map<IndiId, AncEntry>, i: int,
                 foundLen: nat, r: Option<CommonRecord>, k: int)
    requires SearchState(anc, order, baseAnc, i, foundLen, r, k)
    requires Full(anc, order, baseAnc, i) && Len(anc, order, i) == foundLen
    ensures SearchState(anc, order, baseAnc, i + 1, foundLen, Some(Joined(anc, baseAnc, order[i])), i)
  {
    PickFull(anc, order, baseAnc, i, foundLen);
  }

  lemma {:induction false} PickFull(anc: map<IndiId, AncEntry>, order: seq<IndiId>, baseAnc: map<IndiId, AncEntry>, i: int, foundLen: nat)
    requires forall j :: 0 <= j < i && Cand(anc, order, baseAnc, j) ==> foundLen <= Len(anc, order, j)
    requires Full(anc, order, baseAnc, i) && Len(anc, order, i) == foundLen
    ensures Picked(anc, order, baseAnc, i + 1, i)
  {
  }

  lemma {:induction false} StepShorter(anc: map<IndiId, AncEntry>, order: seq<IndiId>, baseAnc: map<IndiId, AncEntry>, i: int,
                    foundLen: nat, r: Option<CommonRecord>, k: int)
    requires SearchState(anc, order, baseAnc, i, foundLen, r, k)
    requires 0 <= i < |order| && order[i] in anc && order[i] in baseAnc && Len(anc, order, i) < foundLen
    ensures SearchState(anc, order, baseAnc, i + 1, Len(anc, order, i), Some(Joined(anc, baseAnc, order[i])), i)
  {
    PickShorter(anc, order, baseAnc, i, foundLen);
  }

  lemma {:induction false} PickShorter(anc: map<IndiId, AncEntry>, order: seq<IndiId>, baseAnc: map<IndiId, AncEntry>, i: int, foundLen: nat)
    requires forall j :: 0 <= j < i && Cand(anc, order, baseAnc, j) ==> foundLen <= Len(anc, order, j)
    requires 0 <= i < |order| && order[i] in anc && order[i] in baseAnc && Len(anc, order, i) < foundLen <= Sentinel
    ensures Picked(anc, order, baseAnc, i + 1, i)
  {
  }

  lemma {:induction false} StepKeep(anc: map<IndiId, AncEntry>, order: seq<IndiId>, baseAnc: map<IndiId, AncEntry>, i: int,
                 foundLen: nat, r: Option<CommonRecord>, k: int)
    requires SearchState(anc, order, baseAnc, i, foundLen, r, k) && 0 <= i < |order|
    requires Cand(anc, order, baseAnc, i) ==> foundLen <= Len(anc, order, i)
    requires Full(anc, order, baseAnc, i) ==> Len(anc, order, i) != foundLen
    ensures SearchState(anc, order, baseAnc, i + 1, foundLen, r, k)
  {
    if r.Some? {
      PickedExtend(anc, order, baseAnc, i, k);
    }
  }

  lemma {:induction false} SearchDone(anc: map<IndiId, AncEntry>, order: seq<IndiId>, baseAnc: map<IndiId, AncEntry>,
                   foundLen: nat, r: Option<CommonRecord>, k: int)
    requires SearchState(anc, order, baseAnc, |order|, foundLen, r, k)
    ensures Collateral(anc, order, baseAnc, |order|, r)
  {
    if r.Some? {
      assert !(Len(anc, order, k) == Sentinel && !Full(anc, order, baseAnc, k));
    }
  }

  /** The held key stays picked past a position that is no shorter and not a full relation of the same length. */
  lemma {:induction false} PickedExtend(anc: map<IndiId, AncEntry>, order: seq<IndiId>, baseAnc: map<IndiId, AncEntry>, n: int, k: int)
    requires Picked(anc, order, baseAnc, n, k)
    requires Cand(anc, order, baseAnc, n) ==> Len(anc, order, k) <= Len(anc, order, n)
    requires Full(anc, order, baseAnc, n) ==> Len(anc, order, n) != Len(anc, order, k)
    ensures Picked(anc, order, baseAnc, n + 1, k)
  {
    forall j | 0 <= j < n + 1 && Cand(anc, order, baseAnc, j)
      ensures Len(anc, order, k) <= Len(anc, order, j)
    {
      if j < n {
        assert 0 <= j < n && Cand(anc, order, baseAnc, j);
      }
    }
    if Full(anc, order, baseAnc, k) {
      forall j | k < j < n + 1 && Full(anc, order, baseAnc, j)
        ensures Len(anc, order, j) != Len(anc, order, k)
      {
        if j < n {
          assert k < j < n && Full(anc, order, baseAnc, j);
        }
      }
    } else {
      forall j | 0 <= j < n + 1 && Full(anc, order, baseAnc, j)
        ensures Len(anc, order, j) != Len(anc, order, k)
      {
        if j < n {
          assert 0 <= j < n && Full(anc, order, baseAnc, j);
        }
      }
    }
  }

  /** r is a shortest non-empty route from p to a. */
  ghost predicate ShortestRoute(store: Store, p: IndiId, r: seq<FamId>, a: IndiId)
  {
    r != [] && IsRoute(store, p, r, a) && forall r' :: IsRoute(store, p, r', a) && r' != [] ==> |r| <= |r'|
  }

  /** Every family a record names, and the ancestor it names, are in the store. */
  ghost predicate RecordInStore(store: Store, c: CommonRecord)
  {
    && c.indi in store.indis && c.fam in store.fams && c.matchFam in store.fams
    && (forall i :: 0 <= i < |c.path| ==> c.path[i] in store.fams)
    && (forall i :: 0 <= i < |c.matchPath| ==> c.matchPath[i] in store.fams)
  }

  /** An entry of an ancestor table holds a shortest route ending in the entry's family. */
  lemma {:induction false} TableEntry(store: Store, p: IndiId, anc: map<IndiId, AncEntry>, a: IndiId)
    requires AncestorTable(store, p, anc) && a in anc
    ensures ShortestRoute(store, p, anc[a].path, a) && anc[a].fam == anc[a].path[|anc[a].path| - 1]
  {
  }

  /** An entry of an ancestor table names an individual and families of the store. */
  lemma {:induction false} TableEntryInStore(store: Store, rank: map<IndiId, nat>, p: IndiId, anc: map<IndiId, AncEntry>, a: IndiId)
    requires WellFormed(store) && Ranked(store, rank) && p in store.indis
    requires AncestorTable(store, p, anc) && a in anc
    ensures a in store.indis && anc[a].fam in store.fams
    ensures forall i :: 0 <= i < |anc[a].path| ==> anc[a].path[i] in store.fams
  {
    RouteInStore(store, p, anc[a].path, a);
  }

  /**
   * find_common_ancestor(indi, base, baseAnc): the match's own table is
   * built first, then the three cases are tried in order: the base person is
   * the match's ancestor, the match is the base person's ancestor, or the
   * collateral search. The match's table and its key order come back as
   * ghost results so the third case can be stated.
   */
  method FindCommonAncestor(store: Store, ghost rank: map<IndiId, nat>, indi: IndiId, base: IndiId,
                            baseAnc: map<IndiId, AncEntry>)
    returns (r: Option<CommonRecord>, ghost anc: map<IndiId, AncEntry>, ghost order: seq<IndiId>)
    requires WellFormed(store) && Ranked(store, rank) && indi in store.indis && base in store.indis
    requires AncestorTable(store, base, baseAnc)
    ensures AncestorTable(store, indi, anc) && KeyOrder(anc, order)
    ensures r.Some? ==> RecordInStore(store, r.value)
    // the base person is a direct ancestor of the match
    ensures base in anc ==> r == Some(CommonRecord(base, anc[base].fam, anc[base].path, anc[base].fam, []))
    // the match is a direct ancestor of the base person
    ensures base !in anc && indi in baseAnc ==>
      r == Some(CommonRecord(indi, baseAnc[indi].fam, [], baseAnc[indi].fam, baseAnc[indi].path))
    // collateral: the closest shared ancestor in the match's key order
    ensures base !in anc && indi !in baseAnc ==> Collateral(anc, order, baseAnc, |order|, r)
  {
    var ancestors, keys := AncestorsOf(store, rank, indi);
    anc, order := ancestors, keys;
    if base in ancestors {
      // the match is a direct descendant
      var fam := ancestors[base].fam;
      r := Some(CommonRecord(base, fam, ancestors[base].path, fam, []));
      TableEntryInStore(store, rank, indi, anc, base);
    } else if indi in baseAnc {
      // the match is a direct ancestor
      var fam := baseAnc[indi].fam;
      r := Some(CommonRecord(indi, fam, [], fam, baseAnc[indi].path));
      TableEntryInStore(store, rank, base, baseAnc, indi);
    } else {
      r := ClosestCommonAncestor(ancestors, keys, baseAnc);
      if r.Some? {
        ghost var k :| Picked(anc, order, baseAnc, |order|, k) && r.value == Joined(anc, baseAnc, order[k]);
        TableEntryInStore(store, rank, indi, anc, order[k]);
        TableEntryInStore(store, rank, base, baseAnc, order[k]);
      }
    }
  }

  /**
   * First case, in terms of routes: when the base person is an ancestor of
   * the match, the record names the base person, its `path` is a shortest
   * route from the match, its `matchPath` is empty and both families agree.
   */
  lemma {:induction false} DescendantCase(store: Store, indi: IndiId, base: IndiId, anc: map<IndiId, AncEntry>, r: Option<CommonRecord>)
    requires AncestorTable(store, indi, anc) && IsAncestor(store, indi, base)
    requires base in anc ==> r == Some(CommonRecord(base, anc[base].fam, anc[base].path, anc[base].fam, []))
    ensures r.Some? && r.value.indi == base && r.value.matchPath == [] && r.value.fam == r.value.matchFam
    ensures ShortestRoute(store, indi, r.value.path, base) && r.value.fam == r.value.path[|r.value.path| - 1]
  {
    AncestorTableKeys(store, indi, anc, base);
    TableEntry(store, indi, anc, base);
  }

  /**
   * Second case, in terms of routes: when the base person is not an
   * ancestor of the match but the match is one of the base person's, the
   * record names the match, its `path` is empty and its `matchPath` is a
   * shortest route from the base person.
   */
  lemma {:induction false} AncestorCase(store: Store, indi: IndiId, base: IndiId, anc: map<IndiId, AncEntry>,
                     baseAnc: map<IndiId, AncEntry>, r: Option<CommonRecord>)
    requires AncestorTable(store, indi, anc) && AncestorTable(store, base, baseAnc)
    requires !IsAncestor(store, indi, base) && IsAncestor(store, base, indi)
    requires base !in anc && indi in baseAnc ==>
      r == Some(CommonRecord(indi, baseAnc[indi].fam, [], baseAnc[indi].fam, baseAnc[indi].path))
    ensures r.Some? && r.value.indi == indi && r.value.path == [] && r.value.fam == r.value.matchFam
    ensures ShortestRoute(store, base, r.value.matchPath, indi)
    ensures r.value.matchFam == r.value.matchPath[|r.value.matchPath| - 1]
  {
    AncestorTableKeys(store, indi, anc, base);
    AncestorTableKeys(store, base, baseAnc, indi);
    TableEntry(store, base, baseAnc, indi);
  }

  /**
   * A collateral record names an ancestor of both, through shortest routes
   * on both sides, and no ancestor of the base person is closer to the match.
   */
  lemma {:induction false} CollateralClosest(store: Store, indi: IndiId, base: IndiId, anc: map<IndiId, AncEntry>, order: seq<IndiId>,
                          baseAnc: map<IndiId, AncEntry>, r: Option<CommonRecord>)
    requires AncestorTable(store, indi, anc) && KeyOrder(anc, order) && AncestorTable(store, base, baseAnc)
    requires Collateral(anc, order, baseAnc, |order|, r) && r.Some?
    ensures IsAncestor(store, indi, r.value.indi) && IsAncestor(store, base, r.value.indi)
    ensures ShortestRoute(store, indi, r.value.path, r.value.indi)
    ensures ShortestRoute(store, base, r.value.matchPath, r.value.indi)
    ensures forall b, rt :: IsAncestor(store, base, b) && IsRoute(store, indi, rt, b) && rt != [] ==> |r.value.path| <= |rt|
  {
    var k :| Picked(anc, order, baseAnc, |order|, k) && r.value == Joined(anc, baseAnc, order[k]);
    var a := order[k];
    AncestorTableKeys(store, indi, anc, a);
    AncestorTableKeys(store, base, baseAnc, a);
    TableEntry(store, indi, anc, a);
    TableEntry(store, base, baseAnc, a);
    forall b, rt | IsAncestor(store, base, b) && IsRoute(store, indi, rt, b) && rt != []
      ensures |r.value.path| <= |rt|
    {
      CollateralNoCloser(store, indi, base, anc, order, baseAnc, k, b, rt);
    }
  }

  lemma {:induction false} CollateralNoCloser(store: Store, indi: IndiId, base: IndiId, anc: map<IndiId, AncEntry>, order: seq<IndiId>,
                           baseAnc: map<IndiId, AncEntry>, k: int, b: IndiId, rt: seq<FamId>)
    requires AncestorTable(store, indi, anc) && KeyOrder(anc, order) && AncestorTable(store, base, baseAnc)
    requires Picked(anc, order, baseAnc, |order|, k)
    requires IsAncestor(store, base, b) && IsRoute(store, indi, rt, b) && rt != []
    ensures |anc[order[k]].path| <= |rt|
  {
    AncestorTableKeys(store, indi, anc, b);
    AncestorTableKeys(store, base, baseAnc, b);
    var j :| 0 <= j < |order| && order[j] == b;
    if Cand(anc, order, baseAnc, j) {
      assert Len(anc, order, k) <= Len(anc, order, j);
    }
  }

  /** A half relation is chosen only when every closest shared ancestor is reached through two different families. */
  lemma {:induction false} CollateralPrefersFull(anc: map<IndiId, AncEntry>, order: seq<IndiId>, baseAnc: map<IndiId, AncEntry>,
                              r: Option<CommonRecord>)
    requires KeyOrder(anc, order) && Collateral(anc, order, baseAnc, |order|, r)
    requires r.Some? && r.value.fam != r.value.matchFam
    ensures forall b :: b in anc && b in baseAnc && |anc[b].path| == |r.value.path| ==> anc[b].fam != baseAnc[b].fam
  {
    var k :| Picked(anc, order, baseAnc, |order|, k) && r.value == Joined(anc, baseAnc, order[k]);
    assert !Full(anc, order, baseAnc, k);
    forall b | b in anc && b in baseAnc && |anc[b].path| == |r.value.path|
      ensures anc[b].fam != baseAnc[b].fam
    {
      var j :| 0 <= j < |order| && order[j] == b;
      assert Len(anc, order, j) == Len(anc, order, k);
      assert Cand(anc, order, baseAnc, j);
      assert !Full(anc, order, baseAnc, j);
    }
  }

  /** Nothing is found only when every ancestor of the base person is at least Sentinel generations above the match. */
  lemma {:induction false} CollateralNone(store: Store, indi: IndiId, base: IndiId, anc: map<IndiId, AncEntry>, order: seq<IndiId>,
                       baseAnc: map<IndiId, AncEntry>, r: Option<CommonRecord>)
    requires AncestorTable(store, indi, anc) && KeyOrder(anc, order) && AncestorTable(store, base, baseAnc)
    requires Collateral(anc, order, baseAnc, |order|, r) && r.None?
    ensures forall b, rt :: IsAncestor(store, base, b) && IsRoute(store, indi, rt, b) && rt != [] ==> |rt| >= Sentinel
  {
    forall b, rt | IsAncestor(store, base, b) && IsRoute(store, indi, rt, b) && rt != []
      ensures |rt| >= Sentinel
    {
      AncestorTableKeys(store, indi, anc, b);
      AncestorTableKeys(store, base, baseAnc, b);
      var j :| 0 <= j < |order| && order[j] == b;
      if Cand(anc, order, baseAnc, j) {
        assert Len(anc, order, j) == Sentinel;
      }
    }
  }

  /**
   * What find_common_ancestor(indi, base, baseAnc) returns, for some table
   * of the match's ancestors and its key order: the three cases of
   * FindCommonAncestor.
   */
  ghost predicate CommonOutcome(store: Store, indi: IndiId, base: IndiId, baseAnc: map<IndiId, AncEntry>,
                                r: Option<CommonRecord>)
  {
    exists anc: map<IndiId, AncEntry>, order: seq<IndiId> ::
      && AncestorTable(store, indi, anc) && KeyOrder(anc, order)
      && (r.Some? ==> RecordInStore(store, r.value))
      && (base in anc ==> r == Some(CommonRecord(base, anc[base].fam, anc[base].path, anc[base].fam, [])))
      && (base !in anc && indi in baseAnc ==>
            r == Some(CommonRecord(indi, baseAnc[indi].fam, [], baseAnc[indi].fam, baseAnc[indi].path)))
      && (base !in anc && indi !in baseAnc ==> Collateral(anc, order, baseAnc, |order|, r))
  }

  /** The tables FindCommonAncestor leaves behind witness its outcome. */
  lemma {:induction false} OutcomeOf(store: Store, indi: IndiId, base: IndiId, baseAnc: map<IndiId, AncEntry>, r: Option<CommonRecord>,
                  anc: map<IndiId, AncEntry>, order: seq<IndiId>)
    requires AncestorTable(store, indi, anc) && KeyOrder(anc, order)
    requires r.Some? ==> RecordInStore(store, r.value)
    requires base in anc ==> r == Some(CommonRecord(base, anc[base].fam, anc[base].path, anc[base].fam, []))
    requires base !in anc && indi in baseAnc ==>
      r == Some(CommonRecord(indi, baseAnc[indi].fam, [], baseAnc[indi].fam, baseAnc[indi].path))
    requires base !in anc && indi !in baseAnc ==> Collateral(anc, order, baseAnc, |order|, r)
    ensures CommonOutcome(store, indi, base, baseAnc, r)
  {
  }
}
