/**
 * The main line of draw-dna-matches, from the individuals of the store to
 * the edges of the DOT drawing: every step takes what the steps before it
 * computed, and what each step demands of its inputs is what the earlier
 * steps ensure.
 */
module Engine {
  import opened Store
  import opened Relation
  import opened Ancestors
  import opened Common
  import opened Display
  import opened Routes
  import Matches

  /** Where a run ends: stopped by the match collection, or with the tables the drawing is made of. */
  datatype Run =
    | Stopped(why: Matches.Outcome)
    | Drawn(me: IndiId, matched: seq<IndiId>, myAnc: map<IndiId, AncEntry>,
            common: map<IndiId, Option<CommonRecord>>, relation: map<IndiId, string>,
            ftd: map<FamId, bool>, commonFams: map<FamId, Option<string>>,
            people: set<IndiId>, marriages: map<IndiId, set<FamId>>, routes: set<(Source, FamId)>)

  /** What the records stage ensures: the base person's table, a record per match and a relation per record. */
  ghost predicate RecordsHold(store: Store, me: IndiId, matched: seq<IndiId>, myAnc: map<IndiId, AncEntry>,
                              common: map<IndiId, Option<CommonRecord>>, relation: map<IndiId, string>)
  {
    && AncestorTable(store, me, myAnc)
    && (forall m :: m in common <==> m in matched)
    && me in common && common[me].None?
    && (forall m :: m in common && m != me ==> CommonOutcome(store, m, me, myAnc, common[m]))
    && (forall m :: m in relation <==> m in matched && m in common && common[m].Some?)
    && (forall m :: m in relation ==> relation[m] == ComputeRelation(common[m].value))
  }

  /** What the display stage ensures: the families, labels, people, marriages and edges of the drawing. */
  ghost predicate DisplayHolds(store: Store, me: IndiId, matched: seq<IndiId>, common: map<IndiId, Option<CommonRecord>>,
                               ftd: map<FamId, bool>, commonFams: map<FamId, Option<string>>, people: set<IndiId>,
                               marriages: map<IndiId, set<FamId>>, routes: set<(Source, FamId)>)
  {
    && ftd.Keys == DisplayFams(store, matched, common) && ftd.Keys <= store.fams.Keys
    && (forall f :: f in ftd ==> f in store.fams && (ftd[f] <==> HasMatch(store, (set m | m in matched), f)))
    && (forall f :: f in commonFams <==> exists i :: SetsFam(matched, me, common, i, f))
    && (forall f :: f in commonFams ==> f in ftd && (ftd[f] ==> commonFams[f].None?))
    && (forall f :: f in commonFams && !ftd[f] ==>
          exists i :: LastSetter(matched, me, common, |matched|, f, i) && commonFams[f] == Some(PluralLabel(common[matched[i]].value)))
    && people == DisplayPeople(store, me, matched, common, ftd.Keys)
    && people <= store.indis.Keys
    && (forall p :: p in marriages <==> p in people && |DisplayedFams(store, p, ftd.Keys)| > 1)
    && (forall p :: p in marriages ==> marriages[p] == DisplayedFams(store, p, ftd.Keys))
    && routes == FamRoutes(store, ftd.Keys, ftd.Keys) + IndiRoutes(store, ftd.Keys, people)
  }

  /**
   * The run over a store whose individuals are iterated in indiOrder: match
   * collection, then the records stage and the display stage. It stops
   * exactly when match collection does.
   */
  method DrawMatches(store: Store, ghost rank: map<IndiId, nat>, indiOrder: seq<IndiId>, sel: Matches.Selection)
    returns (run: Run)
    requires WellFormed(store) && Ranked(store, rank)
    requires Distinct(indiOrder) && forall x :: x in indiOrder <==> x in store.indis
    ensures run.Stopped? <==>
      || !Matches.AnyEvent(store, sel, indiOrder)
      || Matches.LastMe(store, sel, indiOrder).None? || Matches.LastMe(store, sel, indiOrder) == Some("")
      || |Matches.Matching(store, sel, indiOrder)| < 2
    ensures run.Stopped? ==> !run.why.Found?
    ensures run.Drawn? ==>
      && Matches.LastMe(store, sel, indiOrder) == Some(run.me)
      && run.matched == Matches.Matching(store, sel, indiOrder)
      && RecordsHold(store, run.me, run.matched, run.myAnc, run.common, run.relation)
      && DisplayHolds(store, run.me, run.matched, run.common, run.ftd, run.commonFams, run.people, run.marriages, run.routes)
  {
    var collected := Matches.CollectMatches(store, indiOrder, sel);
    if !collected.Found? {
      return Stopped(collected);
    }
    var me, matched := collected.me, collected.order;
    MeIsMatched(store, sel, indiOrder, me);
    Matches.MatchingMembers(store, sel, indiOrder);
    var myAnc, common, relation := FindRecords(store, rank, me, matched);
    var ftd, commonFams, people, marriages, routes := ShowRecords(store, me, matched, myAnc, common);
    run := Drawn(me, matched, myAnc, common, relation, ftd, commonFams, people, marriages, routes);
  }

  /** my_ancestors, then matched[indi]['common'] and matched[indi]['relation'] for every match. */
  method FindRecords(store: Store, ghost rank: map<IndiId, nat>, me: IndiId, matched: seq<IndiId>)
    returns (myAnc: map<IndiId, AncEntry>, common: map<IndiId, Option<CommonRecord>>, relation: map<IndiId, string>)
    requires WellFormed(store) && Ranked(store, rank) && me in store.indis && me in matched
    requires forall m :: m in matched ==> m in store.indis
    ensures RecordsHold(store, me, matched, myAnc, common, relation)
  {
    var keys;
    myAnc, keys := AncestorsOf(store, rank, me);
    common := CommonRecords(store, rank, me, matched, myAnc);
    relation := Relations(matched, common);
  }

  /** families_to_display, common_fams, people_to_display, the multiple marriages and the DOT edges. */
  method ShowRecords(store: Store, me: IndiId, matched: seq<IndiId>, myAnc: map<IndiId, AncEntry>,
                     common: map<IndiId, Option<CommonRecord>>)
    returns (ftd: map<FamId, bool>, commonFams: map<FamId, Option<string>>, people: set<IndiId>,
             marriages: map<IndiId, set<FamId>>, routes: set<(Source, FamId)>)
    requires WellFormed(store) && me in store.indis
    requires forall m :: m in matched ==> m in store.indis
    requires forall m :: m in common <==> m in matched
    requires forall m :: m in common && m != me ==> CommonOutcome(store, m, me, myAnc, common[m])
    requires me in common ==> common[me].None?
    ensures DisplayHolds(store, me, matched, common, ftd, commonFams, people, marriages, routes)
  {
    forall m | m in common && common[m].Some?
      ensures RecordInStore(store, common[m].value)
    {
      var anc: map<IndiId, AncEntry>, order: seq<IndiId> :|
        AncestorTable(store, m, anc) && KeyOrder(anc, order) && (common[m].Some? ==> RecordInStore(store, common[m].value));
    }
    ftd := FamiliesToDisplay(store, matched, common);
    forall i | 0 <= i < |matched| && common[matched[i]].Some?
      ensures common[matched[i]].value.matchFam in ftd
    {
      assert common[matched[i]].value.matchFam in RecordFams(store, common[matched[i]].value);
    }
    commonFams := CommonFams(me, matched, common, ftd);
    people := PeopleToDisplay(store, me, matched, common, ftd.Keys);
    DisplayPeopleInStore(store, me, matched, common, ftd.Keys);
    marriages := FindFamiliesOfMultipleMarriages(store, people, ftd.Keys);
    routes := DotRoutes(store, ftd.Keys, people);
  }

  /** The base person is an individual of the store, and a match: the "me" note is a note. */
  lemma {:induction false} MeIsMatched(store: Store, sel: Matches.Selection, indiOrder: seq<IndiId>, me: IndiId)
    requires Matches.LastMe(store, sel, indiOrder) == Some(me)
    ensures me in indiOrder
    ensures me in Matches.Matching(store, sel, indiOrder)
  {
    Matches.LastMeIsLast(store, sel, indiOrder);
    assert Matches.IsMe(store, sel, me);
    assert Matches.NoteFor(store, sel, me) == Some("me");
    Matches.MatchingMembers(store, sel, indiOrder);
  }
}
