/**
 * The set of edges dot_connect draws: from a partner port of a displayed
 * family, or from a displayed person who is nobody's partner there, up to
 * the displayed birth family. Node names are the ids themselves.
 */
module Routes {
  import opened Store
  import opened Display
  import opened Ancestors

  /** The start of an edge: a partner port of a family box, or a person box. */
  datatype Source = FamPort(fam: FamId, partner: PartnerType) | IndiPort(indi: IndiId)

  /** get_family_of_child: famc[0] if any, as a list of at most one family. */
  function FamilyOfChild(store: Store, p: IndiId): (r: seq<FamId>)
    requires p in store.indis
    ensures |r| <= 1
    ensures r == [] <==> |store.indis[p].famc| == 0
    ensures r != [] ==> r[0] == store.indis[p].famc[0]
  {
    if |store.indis[p].famc| > 0 then [store.indis[p].famc[0]] else []
  }

  /**
   * The family an edge from p goes up to is the one every upward route from
   * p starts with, the family find_ancestors follows; in a well-formed store
   * it is a stored family whose partners are p's parents.
   */
  lemma {:induction false} FamilyOfChildStartsRoutes(store: Store, p: IndiId)
    requires WellFormed(store) && p in store.indis
    ensures forall r, a :: IsRoute(store, p, r, a) && r != [] ==> FamilyOfChild(store, p) == [r[0]]
    ensures forall f :: f in FamilyOfChild(store, p) ==> f in store.fams && Parents(store.fams[f]) == ParentsOf(store, p)
  {
  }

  /** The birth family of p when it is displayed. */
  predicate ShownBirth(store: Store, fams: set<FamId>, p: IndiId)
  {
    p in store.indis && |store.indis[p].famc| > 0 && store.indis[p].famc[0] in fams
  }

  /** The edges from the partner ports of the families `from`, up to the displayed families `fams`. */
  function FamRoutes(store: Store, from: set<FamId>, fams: set<FamId>): set<(Source, FamId)>
  {
    set f, t | f in from && f in store.fams && t in PartnerTypes && Head(store.fams[f], t).Some?
                 && ShownBirth(store, fams, Head(store.fams[f], t).value)
      :: (FamPort(f, t), store.indis[Head(store.fams[f], t).value].famc[0])
  }

  /** The edges from displayed people who are not a partner of a displayed family. */
  function IndiRoutes(store: Store, fams: set<FamId>, people: set<IndiId>): set<(Source, FamId)>
  {
    set p | p in people && p !in PartnersOf(store, fams) && ShownBirth(store, fams, p)
      :: (IndiPort(p), store.indis[p].famc[0])
  }

  /** The partner-port edges of one family. */
  method FamilyRoutes(store: Store, fams: set<FamId>, fam: FamId) returns (routes: set<(Source, FamId)>, partners: set<IndiId>)
    requires WellFormed(store) && fam in store.fams
    ensures partners == Parents(store.fams[fam])
    ensures forall s, t :: (s, t) in routes <==>
      && s.FamPort? && s.fam == fam && s.partner in PartnerTypes && Head(store.fams[fam], s.partner).Some?
      && ShownBirth(store, fams, Head(store.fams[fam], s.partner).value)
      && t == store.indis[Head(store.fams[fam], s.partner).value].famc[0]
  {
    routes, partners := {}, {};
    var f := store.fams[fam];
    for i := 0 to |PartnerTypes|
      invariant partners == HeadsOf(f, PartnerTypes[..i])
      invariant forall s, t :: (s, t) in routes <==>
        && s.FamPort? && s.fam == fam && s.partner in PartnerTypes[..i] && Head(f, s.partner).Some?
        && ShownBirth(store, fams, Head(f, s.partner).value)
        && t == store.indis[Head(f, s.partner).value].famc[0]
    {
      var partner := PartnerTypes[i];
      assert PartnerTypes[..i + 1] == PartnerTypes[..i] + [partner];
      HeadsOfStep(f, PartnerTypes, i);
      if Slot(f, partner).Some? {
        var partnerId := Slot(f, partner).value[0];
        HeadInParents(f, partner);
        // the partners of a displayed family are not shown on their own
        partners := partners + {partnerId};
        var parentFams := FamilyOfChild(store, partnerId);
        for j := 0 to |parentFams|
          invariant forall s, t :: (s, t) in routes <==>
            && s.FamPort? && s.fam == fam && Head(f, s.partner).Some?
            && (s.partner in PartnerTypes[..i] || (s.partner == partner && j > 0))
            && ShownBirth(store, fams, Head(f, s.partner).value)
            && t == store.indis[Head(f, s.partner).value].famc[0]
        {
          if parentFams[j] in fams {
            routes := routes + {(FamPort(fam, partner), parentFams[j])};
          }
        }
      }
    }
    assert PartnerTypes[..|PartnerTypes|] == PartnerTypes;
  }

  lemma {:induction false} FamRoutesAdd(store: Store, done: set<FamId>, fams: set<FamId>, fam: FamId, famRoutes: set<(Source, FamId)>)
    requires fam in store.fams
    requires forall s, t :: (s, t) in famRoutes <==>
      && s.FamPort? && s.fam == fam && s.partner in PartnerTypes && Head(store.fams[fam], s.partner).Some?
      && ShownBirth(store, fams, Head(store.fams[fam], s.partner).value)
      && t == store.indis[Head(store.fams[fam], s.partner).value].famc[0]
    ensures FamRoutes(store, done + {fam}, fams) == FamRoutes(store, done, fams) + famRoutes
  {
    forall e | e in famRoutes
      ensures e in FamRoutes(store, done + {fam}, fams)
    {
      var (s, t) := e;
      assert (s, t) in famRoutes;
    }
  }

  /**
   * dot_connect's routes: first the partner ports of every displayed
   * family, which also marks those partners as drawn inside a family box;
   * then every other displayed person. Each edge goes up to a displayed
   * birth family and is kept once.
   */
  method DotRoutes(store: Store, fams: set<FamId>, people: set<IndiId>) returns (routes: set<(Source, FamId)>)
    requires WellFormed(store) && fams <= store.fams.Keys && people <= store.indis.Keys
    ensures routes == FamRoutes(store, fams, fams) + IndiRoutes(store, fams, people)
  {
    routes := {};
    var alreadyIndi: set<IndiId> := {};
    var rest := fams;
    while rest != {}
      invariant rest <= fams
      invariant alreadyIndi == PartnersOf(store, fams - rest)
      invariant routes == FamRoutes(store, fams - rest, fams)
      decreases rest
    {
      var fam :| fam in rest;
      var famRoutes, partners := FamilyRoutes(store, fams, fam);
      FamRoutesAdd(store, fams - rest, fams, fam, famRoutes);
      routes := routes + famRoutes;
      alreadyIndi := alreadyIndi + partners;
      PartnersOfAdd(store, fams - rest, fam);
      assert fams - (rest - {fam}) == (fams - rest) + {fam};
      rest := rest - {fam};
    }
    assert fams - rest == fams;
    var others := people;
    while others != {}
      invariant others <= people
      invariant routes == FamRoutes(store, fams, fams) + IndiRoutes(store, fams, people - others)
      decreases others
    {
      var indi :| indi in others;
      if indi !in alreadyIndi {
        var parentFams := FamilyOfChild(store, indi);
        for j := 0 to |parentFams|
          invariant routes == FamRoutes(store, fams, fams) + IndiRoutes(store, fams, people - others) +
            (if j > 0 && parentFams[0] in fams then {(IndiPort(indi), parentFams[0])} else {})
        {
          if parentFams[j] in fams {
            routes := routes + {(IndiPort(indi), parentFams[j])};
          }
        }
      }
      IndiRoutesAdd(store, fams, people - others, indi);
      assert people - (others - {indi}) == (people - others) + {indi};
      others := others - {indi};
    }
    assert people - others == people;
  }

  lemma {:induction false} IndiRoutesAdd(store: Store, fams: set<FamId>, done: set<IndiId>, p: IndiId)
    ensures IndiRoutes(store, fams, done + {p}) == IndiRoutes(store, fams, done) +
      (if p !in PartnersOf(store, fams) && ShownBirth(store, fams, p) then {(IndiPort(p), store.indis[p].famc[0])} else {})
  {
  }

  /** Every edge ends at a displayed family, and every source has one edge at most: a box has one birth family. */
  lemma {:induction false} RoutesShape(store: Store, fams: set<FamId>, people: set<IndiId>, routes: set<(Source, FamId)>)
    requires routes == FamRoutes(store, fams, fams) + IndiRoutes(store, fams, people)
    ensures forall s, t :: (s, t) in routes ==> t in fams
    ensures forall s, t, t' :: (s, t) in routes && (s, t') in routes ==> t == t'
    ensures forall s, t :: (s, t) in routes && s.IndiPort? ==> s.indi in people && s.indi !in PartnersOf(store, fams)
  {
  }
}
