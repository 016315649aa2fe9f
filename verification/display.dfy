/**
 * The module-level reduction of draw-dna-matches: common records and
 * relationship names for every match, then the families, the "a partner is
 * a match" flags, the common-family labels, the people and the multiple
 * marriages that the renderers draw.
 */
module Display {
  import opened Store
  import opened Relation
  import opened Ancestors
  import opened Common
  import Matches

  /**
   * The common record of every match (keys `matched`, in dict order): none
   * for the base person, find_common_ancestor for everyone else.
   */
  method CommonRecords(store: Store, ghost rank: map<IndiId, nat>, me: IndiId, matched: seq<IndiId>,
                       myAnc: map<IndiId, AncEntry>)
    returns (common: map<IndiId, Option<CommonRecord>>)
    requires WellFormed(store) && Ranked(store, rank) && me in store.indis
    requires forall i :: 0 <= i < |matched| ==> matched[i] in store.indis
    requires AncestorTable(store, me, myAnc)
    ensures forall m :: m in common <==> m in matched
    ensures me in common ==> common[me].None?
    ensures forall m :: m in common && m != me ==> CommonOutcome(store, m, me, myAnc, common[m])
  {
    common := map[];
    for i := 0 to |matched|
      invariant forall m :: m in common <==> m in matched[..i]
      invariant me in common ==> common[me].None?
      invariant OutcomesOf(store, me, myAnc, common)
    {
      var indi := matched[i];
      if indi == me {
        common := common[indi := None];
      } else {
        var r := CommonRecordOf(store, rank, indi, me, myAnc);
        OutcomeAdd(store, me, myAnc, common, indi, r);
        common := common[indi := r];
      }
      assert matched[..i + 1] == matched[..i] + [indi];
    }
    assert matched[..|matched|] == matched;
  }

  /** The common record of one match, with the tables that witness it left behind. */
  method CommonRecordOf(store: Store, ghost rank: map<IndiId, nat>, indi: IndiId, me: IndiId, myAnc: map<IndiId, AncEntry>)
    returns (r: Option<CommonRecord>)
    requires WellFormed(store) && Ranked(store, rank) && indi in store.indis && me in store.indis
    requires AncestorTable(store, me, myAnc)
    ensures CommonOutcome(store, indi, me, myAnc, r)
  {
    ghost var anc, order;
    r, anc, order := FindCommonAncestor(store, rank, indi, me, myAnc);
    OutcomeOf(store, indi, me, myAnc, r, anc, order);
  }

  /** Every common record of a match other than the base person is the outcome find_common_ancestor gives it. */
  ghost predicate OutcomesOf(store: Store, me: IndiId, myAnc: map<IndiId, AncEntry>, common: map<IndiId, Option<CommonRecord>>)
  {
    forall m :: m in common && m != me ==> CommonOutcome(store, m, me, myAnc, common[m])
  }

  lemma {:induction false} OutcomeAdd(store: Store, me: IndiId, myAnc: map<IndiId, AncEntry>,
                                      common: map<IndiId, Option<CommonRecord>>, indi: IndiId, r: Option<CommonRecord>)
    requires OutcomesOf(store, me, myAnc, common) && CommonOutcome(store, indi, me, myAnc, r)
    ensures OutcomesOf(store, me, myAnc, common[indi := r])
  {
  }

  /** Every entry of the relation table is the relation computed from that match's common record. */
  ghost predicate RelationsOf(relation: map<IndiId, string>, common: map<IndiId, Option<CommonRecord>>)
  {
    forall m :: m in relation ==> m in common && common[m].Some? && relation[m] == ComputeRelation(common[m].value)
  }

  lemma {:induction false} RelationAdd(relation: map<IndiId, string>, common: map<IndiId, Option<CommonRecord>>, m: IndiId)
    requires RelationsOf(relation, common) && m in common && common[m].Some?
    ensures RelationsOf(relation[m := ComputeRelation(common[m].value)], common)
  {
  }

  /** The relationship name of every match that has a common record. */
  method Relations(matched: seq<IndiId>, common: map<IndiId, Option<CommonRecord>>)
    returns (relation: map<IndiId, string>)
    requires forall i :: 0 <= i < |matched| ==> matched[i] in common
    ensures forall m :: m in relation <==> m in matched && m in common && common[m].Some?
    ensures forall m :: m in relation ==> relation[m] == ComputeRelation(common[m].value)
  {
    relation := map[];
    for i := 0 to |matched|
      invariant relation.Keys == set m | m in matched[..i] && m in common && common[m].Some?
      invariant RelationsOf(relation, common)
    {
      var indi := matched[i];
      assert matched[..i + 1] == matched[..i] + [indi];
      if common[indi].Some? {
        RelationAdd(relation, common, indi);
        relation := relation[indi := ComputeRelation(common[indi].value)];
      }
    }
    assert matched[..|matched|] == matched;
  }

  /** For a half relation, the family one generation above the common ancestor, so that both paths connect. */
  function HalfStep(store: Store, c: CommonRecord): (s: set<FamId>)
    ensures |s| <= 1
    ensures s != {} <==> c.fam != c.matchFam && c.indi in store.indis && |store.indis[c.indi].famc| > 0
  {
    if c.fam != c.matchFam && c.indi in store.indis && |store.indis[c.indi].famc| > 0
    then {store.indis[c.indi].famc[0]}
    else {}
  }

  /** The families one common record puts on display. */
  function RecordFams(store: Store, c: CommonRecord): set<FamId>
  {
    {c.fam, c.matchFam} + (set f | f in c.path) + (set f | f in c.matchPath) + HalfStep(store, c)
  }

  /** The keys of families_to_display: the families of every non-empty common record. */
  function DisplayFams(store: Store, matched: seq<IndiId>, common: map<IndiId, Option<CommonRecord>>): set<FamId>
  {
    set m, f | m in matched && m in common && common[m].Some? && f in RecordFams(store, common[m].value) :: f
  }

  /**
   * For a half relation whose common ancestor has a birth family, that
   * family is displayed: it is a stored family, and its partners are the
   * ancestor's parents, the generation above the two half-related lines.
   */
  lemma {:induction false} HalfStepDisplayed(store: Store, matched: seq<IndiId>, common: map<IndiId, Option<CommonRecord>>, m: IndiId)
    requires WellFormed(store)
    requires m in matched && m in common && common[m].Some?
    requires var c := common[m].value;
      c.fam != c.matchFam && c.indi in store.indis && |store.indis[c.indi].famc| > 0
    ensures var a := common[m].value.indi;
      var f := store.indis[a].famc[0];
      && f in DisplayFams(store, matched, common)
      && f in store.fams
      && Parents(store.fams[f]) == ParentsOf(store, a)
  {
    var c := common[m].value;
    var f := store.indis[c.indi].famc[0];
    assert f in HalfStep(store, c);
    assert f in RecordFams(store, c);
  }

  /** families_to_display[f] = False for every family in the given list. */
  method AddFams(ftd: map<FamId, bool>, fams: seq<FamId>) returns (ftd': map<FamId, bool>)
    requires forall f :: f in ftd ==> !ftd[f]
    ensures forall f :: f in ftd' <==> f in ftd || f in fams
    ensures forall f :: f in ftd' ==> !ftd'[f]
  {
    ftd' := ftd;
    for i := 0 to |fams|
      invariant forall f :: f in ftd' <==> f in ftd || f in fams[..i]
      invariant forall f :: f in ftd' ==> !ftd'[f]
    {
      ftd' := ftd'[fams[i] := false];
      assert fams[..i + 1] == fams[..i] + [fams[i]];
    }
    assert fams[..|fams|] == fams;
  }

  /** The families of one common record, added with the flag False. */
  method AddRecord(store: Store, ftd: map<FamId, bool>, c: CommonRecord) returns (ftd': map<FamId, bool>)
    requires forall f :: f in ftd ==> !ftd[f]
    ensures forall f :: f in ftd' <==> f in ftd || f in RecordFams(store, c)
    ensures forall f :: f in ftd' ==> !ftd'[f]
  {
    ftd' := ftd[c.fam := false][c.matchFam := false];
    ftd' := AddFams(ftd', c.path);
    ftd' := AddFams(ftd', c.matchPath);
    // for half relationships, one generation older so that the paths connect
    if c.fam != c.matchFam {
      var ancestor := c.indi;
      if ancestor in store.indis && |store.indis[ancestor].famc| > 0 {
        ftd' := ftd'[store.indis[ancestor].famc[0] := false];
      }
    }
  }

  /**
   * The first pass over the matches: every family on the common record of
   * a match, with the flag False.
   */
  method CollectFamilies(store: Store, matched: seq<IndiId>, common: map<IndiId, Option<CommonRecord>>)
    returns (ftd: map<FamId, bool>)
    requires forall i :: 0 <= i < |matched| ==> matched[i] in common
    ensures ftd.Keys == DisplayFams(store, matched, common)
    ensures forall f :: f in ftd ==> !ftd[f]
  {
    ftd := map[];
    for i := 0 to |matched|
      invariant forall f :: f in ftd <==> f in DisplayFams(store, matched[..i], common)
      invariant forall f :: f in ftd ==> !ftd[f]
    {
      var indi := matched[i];
      if common[indi].Some? {
        ftd := AddRecord(store, ftd, common[indi].value);
      }
      DisplayFamsStep(store, matched, common, i);
    }
    assert matched[..|matched|] == matched;
  }

  lemma {:induction false} DisplayFamsStep(store: Store, matched: seq<IndiId>, common: map<IndiId, Option<CommonRecord>>, i: int)
    requires 0 <= i < |matched| && matched[i] in common
    ensures DisplayFams(store, matched[..i + 1], common) ==
      DisplayFams(store, matched[..i], common) +
      (if common[matched[i]].Some? then RecordFams(store, common[matched[i]].value) else {})
  {
    assert matched[..i + 1] == matched[..i] + [matched[i]];
  }

  /** Some present partner slot of the family starts with a match (the children are not looked at). */
  method DoesFamHaveMatch(matches: set<IndiId>, family: Fam) returns (r: bool)
    requires SlotsNonEmpty(family)
    ensures r <==> exists x :: x in Parents(family) && x in matches
  {
    r := false;
    for i := 0 to |PartnerTypes|
      invariant !r
      invariant forall j :: 0 <= j < i && Head(family, PartnerTypes[j]).Some? ==> Head(family, PartnerTypes[j]).value !in matches
    {
      var parent := PartnerTypes[i];
      if Slot(family, parent).Some? {
        if Slot(family, parent).value[0] in matches {
          r := true;
          HeadInParents(family, parent);
          break;
        }
      }
    }
    if !r {
      forall x | x in Parents(family)
        ensures x !in matches
      {
        var t :| t in PartnerTypes && Head(family, t).Some? && Head(family, t).value == x;
        assert t == PartnerTypes[0] || t == PartnerTypes[1];
      }
    }
  }

  /** The flag of a displayed family: one of its partners is a match. */
  predicate HasMatch(store: Store, matches: set<IndiId>, f: FamId)
    requires f in store.fams
  {
    exists x :: x in Parents(store.fams[f]) && x in matches
  }

  /** The second pass: every displayed family's flag is replaced by does_fam_have_match. */
  method FlagFamilies(store: Store, matches: set<IndiId>, ftd: map<FamId, bool>) returns (flags: map<FamId, bool>)
    requires WellFormed(store) && ftd.Keys <= store.fams.Keys
    ensures flags.Keys == ftd.Keys
    ensures forall f :: f in flags ==> (flags[f] <==> HasMatch(store, matches, f))
  {
    flags := ftd;
    var rest := ftd.Keys;
    while rest != {}
      invariant rest <= ftd.Keys && flags.Keys == ftd.Keys
      invariant forall f :: f in flags && f !in rest ==> (flags[f] <==> HasMatch(store, matches, f))
      decreases rest
    {
      var fam :| fam in rest;
      var has := DoesFamHaveMatch(matches, store.fams[fam]);
      flags := flags[fam := has];
      rest := rest - {fam};
    }
  }

  /** Every family a common record of the store puts on display is a family of the store. */
  lemma {:induction false} DisplayFamsInStore(store: Store, matched: seq<IndiId>, common: map<IndiId, Option<CommonRecord>>)
    requires WellFormed(store)
    requires forall m :: m in common && common[m].Some? ==> RecordInStore(store, common[m].value)
    ensures DisplayFams(store, matched, common) <= store.fams.Keys
  {
  }

  /**
   * families_to_display as the renderers receive it: the families of every
   * non-empty common record (and, for a half relation, the common
   * ancestor's own famc[0]), each flagged when a partner is a match.
   */
  method FamiliesToDisplay(store: Store, matched: seq<IndiId>, common: map<IndiId, Option<CommonRecord>>)
    returns (ftd: map<FamId, bool>)
    requires WellFormed(store)
    requires forall i :: 0 <= i < |matched| ==> matched[i] in common
    requires forall m :: m in common && common[m].Some? ==> RecordInStore(store, common[m].value)
    ensures ftd.Keys == DisplayFams(store, matched, common)
    ensures ftd.Keys <= store.fams.Keys
    ensures forall f :: f in ftd ==> (ftd[f] <==> HasMatch(store, (set m | m in matched), f))
  {
    ftd := CollectFamilies(store, matched, common);
    DisplayFamsInStore(store, matched, common);
    ftd := FlagFamilies(store, (set m | m in matched), ftd);
  }

  /**
   * The plural label a common family gets, from the base person's
   * generation distance to the common ancestor: selfs, parents,
   * grandparents, then one more 'g' per generation.
   */
  function PluralLabel(c: CommonRecord): (r: string)
    ensures |c.matchPath| == 0 ==> r == "selfs"
    ensures |c.matchPath| == 1 ==> r == "parents"
    ensures |c.matchPath| == 2 ==> r == "grandparents"
    ensures |c.matchPath| >= 3 ==> r == Gs(|c.matchPath| - 2) + "-grandparents"
  {
    LabelTable();
    if |c.matchPath| >= 3 then
      GreatLabels(|c.matchPath|);
      FindRelationLabel(|c.matchPath|, 0) + "s"
    else
      FindRelationLabel(|c.matchPath|, 0) + "s"
  }

  /** Position i of the match order writes the common-family entry of family f. */
  predicate SetsFam(matched: seq<IndiId>, me: IndiId, common: map<IndiId, Option<CommonRecord>>, i: int, f: FamId)
  {
    && 0 <= i < |matched| && matched[i] != me && matched[i] in common && common[matched[i]].Some?
    && common[matched[i]].value.matchFam == f
  }

  /** i is the last of the first n positions that writes family f: the write that stays. */
  ghost predicate LastSetter(matched: seq<IndiId>, me: IndiId, common: map<IndiId, Option<CommonRecord>>, n: int,
                             f: FamId, i: int)
  {
    i < n && SetsFam(matched, me, common, i, f) && forall j :: i < j < n ==> !SetsFam(matched, me, common, j, f)
  }

  /** The plural label each position of the match order would write; unused where nothing is written. */
  function Labels(me: IndiId, matched: seq<IndiId>, common: map<IndiId, Option<CommonRecord>>): (labels: seq<string>)
    requires forall i :: 0 <= i < |matched| ==> matched[i] in common
    ensures |labels| == |matched|
    ensures forall i :: 0 <= i < |matched| && matched[i] != me && common[matched[i]].Some? ==>
      labels[i] == PluralLabel(common[matched[i]].value)
  {
    seq(|matched|, i requires 0 <= i < |matched| =>
      if matched[i] != me && common[matched[i]].Some? then PluralLabel(common[matched[i]].value) else "")
  }

  /** The common-family table after the first n positions of the match order: each family the last writer's label. */
  ghost predicate Named(matched: seq<IndiId>, me: IndiId, common: map<IndiId, Option<CommonRecord>>, n: int,
                        cf: map<FamId, Option<string>>, labels: seq<string>)
  {
    && |labels| == |matched|
    && (forall f :: f in cf <==> exists j :: j < n && SetsFam(matched, me, common, j, f))
    && (forall f :: f in cf ==> exists j :: LastSetter(matched, me, common, n, f, j) && cf[f] == Some(labels[j]))
  }

  /** Position i is the base person, or a match without a common record: it writes nothing. */
  lemma {:induction false} NameSkip(matched: seq<IndiId>, me: IndiId, common: map<IndiId, Option<CommonRecord>>, i: nat,
                 cf: map<FamId, Option<string>>, labels: seq<string>)
    requires i < |matched| && matched[i] in common && (matched[i] == me || common[matched[i]].None?)
    requires Named(matched, me, common, i, cf, labels)
    ensures Named(matched, me, common, i + 1, cf, labels)
  {
    forall f | f in cf
      ensures exists j :: LastSetter(matched, me, common, i + 1, f, j) && cf[f] == Some(labels[j])
    {
      var j :| LastSetter(matched, me, common, i, f, j) && cf[f] == Some(labels[j]);
      assert LastSetter(matched, me, common, i + 1, f, j);
    }
  }

  /** Position i writes its label into the family of its record, over any earlier label. */
  lemma {:induction false} NameWrite(matched: seq<IndiId>, me: IndiId, common: map<IndiId, Option<CommonRecord>>, i: nat,
                  cf: map<FamId, Option<string>>, labels: seq<string>, c: CommonRecord)
    requires i < |matched| && matched[i] != me && Named(matched, me, common, i, cf, labels)
    requires matched[i] in common && common[matched[i]] == Some(c)
    ensures Named(matched, me, common, i + 1, cf[c.matchFam := Some(labels[i])], labels)
  {
    var cf' := cf[c.matchFam := Some(labels[i])];
    assert SetsFam(matched, me, common, i, c.matchFam);
    forall f | f in cf'
      ensures exists j :: LastSetter(matched, me, common, i + 1, f, j) && cf'[f] == Some(labels[j])
    {
      if f != c.matchFam {
        var j :| LastSetter(matched, me, common, i, f, j) && cf[f] == Some(labels[j]);
        assert LastSetter(matched, me, common, i + 1, f, j);
      } else {
        assert LastSetter(matched, me, common, i + 1, f, i);
      }
    }
  }

  /** Some match other than the base person has no common record (find_common_ancestor found nobody). */
  predicate MissingRecord(me: IndiId, matched: seq<IndiId>, common: map<IndiId, Option<CommonRecord>>)
  {
    exists i :: 0 <= i < |matched| && matched[i] != me && matched[i] in common && common[matched[i]].None?
  }

  /**
   * The first loop of common_fams as written: it reads the common record of
   * every match other than the base person without checking that there is
   * one, so a match without a common ancestor stops the run (None here).
   * Otherwise each such match gives the family of the common ancestor on
   * the base person's side the plural label of that ancestor, a later match
   * overwriting an earlier one.
   */
  method NameCommonFamsAsWritten(me: IndiId, matched: seq<IndiId>, common: map<IndiId, Option<CommonRecord>>)
    returns (cf: Option<map<FamId, Option<string>>>)
    requires forall i :: 0 <= i < |matched| ==> matched[i] in common
    ensures cf.None? <==> MissingRecord(me, matched, common)
    ensures cf.Some? ==> Named(matched, me, common, |matched|, cf.value, Labels(me, matched, common))
  {
    ghost var labels := Labels(me, matched, common);
    var table := map[];
    for i := 0 to |matched|
      invariant Named(matched, me, common, i, table, labels)
      invariant forall j :: 0 <= j < i && matched[j] != me ==> common[matched[j]].Some?
    {
      var indi := matched[i];
      if indi != me {
        if common[indi].None? {
          // the record is an empty dict and looking up its ancestor fails
          NoneMissing(me, matched, common, i);
          return None;
        }
        var c := common[indi].value;
        NameWrite(matched, me, common, i, table, labels, c);
        table := table[c.matchFam := Some(PluralLabel(c))];
      } else {
        NameSkip(matched, me, common, i, table, labels);
      }
    }
    return Some(table);
  }

  lemma {:induction false} NoneMissing(me: IndiId, matched: seq<IndiId>, common: map<IndiId, Option<CommonRecord>>, i: nat)
    requires i < |matched| && matched[i] != me && matched[i] in common && common[matched[i]].None?
    ensures MissingRecord(me, matched, common)
  {
  }

  /**
   * The first loop of common_fams as intended: like the other loops over
   * the matches, it skips a match without a common record. The families of
   * the others get the plural label of their common ancestor, the last
   * write to a family staying.
   */
  method NameCommonFams(me: IndiId, matched: seq<IndiId>, common: map<IndiId, Option<CommonRecord>>)
    returns (cf: map<FamId, Option<string>>)
    requires forall i :: 0 <= i < |matched| ==> matched[i] in common
    ensures Named(matched, me, common, |matched|, cf, Labels(me, matched, common))
  {
    ghost var labels := Labels(me, matched, common);
    cf := map[];
    for i := 0 to |matched|
      invariant Named(matched, me, common, i, cf, labels)
    {
      var indi := matched[i];
      if indi != me && common[indi].Some? {
        var c := common[indi].value;
        NameWrite(matched, me, common, i, cf, labels, c);
        // plural for both partners of the family
        cf := cf[c.matchFam := Some(PluralLabel(c))];
      } else {
        NameSkip(matched, me, common, i, cf, labels);
      }
    }
  }

  /** Where no record is missing, the code as written and as intended build the same table. */
  lemma {:induction false} NameCommonFamsAgree(me: IndiId, matched: seq<IndiId>, common: map<IndiId, Option<CommonRecord>>,
                            cf: map<FamId, Option<string>>, cf': map<FamId, Option<string>>)
    requires forall i :: 0 <= i < |matched| ==> matched[i] in common
    requires Named(matched, me, common, |matched|, cf, Labels(me, matched, common))
    requires Named(matched, me, common, |matched|, cf', Labels(me, matched, common))
    ensures cf == cf'
  {
    var labels := Labels(me, matched, common);
    forall f | f in cf
      ensures cf[f] == cf'[f]
    {
      var j :| LastSetter(matched, me, common, |matched|, f, j) && cf[f] == Some(labels[j]);
      var j' :| LastSetter(matched, me, common, |matched|, f, j') && cf'[f] == Some(labels[j']);
      assert j == j';
    }
  }

  /**
   * Three individuals and one family, I2's family as child, whose only
   * partner is I3. I1 is marked as the base person and has no family; I2
   * shares 50 cM; I3 has no DNA event. The smallest kind of store where
   * find_common_ancestor finds nobody for a match.
   */
  function UnrelatedStore(): (store: Store)
    ensures WellFormed(store) && "I1" in store.indis && "I2" in store.indis
    ensures |store.fams| > 0
  {
    Store(map["I1" := Indi([], [], [Event("DNA", map["note" := "me"])]),
              "I2" := Indi(["F1"], [], [Event("DNA", map["note" := "50 cM"])]),
              "I3" := Indi([], ["F1"], [])],
          map["F1" := Fam(Some(["I3"]), None)])
  }

  /** Matches are read from the "note" of the "DNA" event, between 7 and 3500 cM. */
  function UnrelatedSelection(): Matches.Selection
  {
    Matches.Selection("DNA", "note", 7, 3500, (x: IndiId, reading: string) => if reading == "50 cM" then Some(50) else None)
  }

  /**
   * A base person I1 and a match I2 who share no ancestor. The two pass the
   * match collection: both match, I1 is the base person, so the run goes on.
   * I1's table is empty and I1 is not among I2's ancestors, so whatever
   * find_common_ancestor may return for I2 is no record, and the first loop
   * of common_fams as written stops the run on it.
   */
  lemma {:induction false} UnrelatedMatchAborts(common: map<IndiId, Option<CommonRecord>>)
    requires forall m :: m in common <==> m in ["I1", "I2"]
    requires CommonOutcome(UnrelatedStore(), "I2", "I1", map[], common["I2"])
    ensures Distinct(["I1", "I2", "I3"]) && forall x :: x in ["I1", "I2", "I3"] <==> x in UnrelatedStore().indis
    ensures Matches.AnyEvent(UnrelatedStore(), UnrelatedSelection(), ["I1", "I2", "I3"])
    ensures Matches.LastMe(UnrelatedStore(), UnrelatedSelection(), ["I1", "I2", "I3"]) == Some("I1")
    ensures Matches.Matching(UnrelatedStore(), UnrelatedSelection(), ["I1", "I2", "I3"]) == ["I1", "I2"]
    ensures AncestorTable(UnrelatedStore(), "I1", map[])
    ensures MissingRecord("I1", ["I1", "I2"], common)
  {
    UnrelatedTableEmpty();
    UnrelatedNoRecord(common["I2"]);
    assert ["I1", "I2"][1] == "I2";
    UnrelatedMatches();
  }

  /** I1 has no family as child, so its ancestor table is empty. */
  lemma {:induction false} UnrelatedTableEmpty()
    ensures AncestorTable(UnrelatedStore(), "I1", map[])
  {
    var store := UnrelatedStore();
    assert Famc0(store, "I1").None?;
    forall a, r | IsRoute(store, "I1", r, a) && r != []
      ensures false
    {
    }
  }

  /** With an empty table for I1, find_common_ancestor returns no record for I2. */
  lemma {:induction false} UnrelatedNoRecord(c: Option<CommonRecord>)
    requires CommonOutcome(UnrelatedStore(), "I2", "I1", map[], c)
    ensures c.None?
  {
    var store := UnrelatedStore();
    var anc: map<IndiId, AncEntry>, order: seq<IndiId> :|
      && AncestorTable(store, "I2", anc) && KeyOrder(anc, order)
      && ("I1" in anc ==> c == Some(CommonRecord("I1", anc["I1"].fam, anc["I1"].path, anc["I1"].fam, [])))
      && ("I1" !in anc ==> Collateral(anc, order, map[], |order|, c));
    assert "I1" !in anc by {
      if "I1" in anc {
        UnrelatedNoRoute(anc["I1"].path);
      }
    }
  }

  /** I1 is not above I2: I2's only parent I3 has no family as child. */
  lemma {:induction false} UnrelatedNoRoute(r: seq<FamId>)
    ensures !IsRoute(UnrelatedStore(), "I2", r, "I1")
  {
    var store := UnrelatedStore();
    assert Parents(store.fams["F1"]) == {"I3"} by {
      assert Head(store.fams["F1"], Wife) == Some("I3");
      assert Head(store.fams["F1"], Husb).None?;
      assert PartnerTypes[0] == Wife && PartnerTypes[1] == Husb;
    }
    assert Famc0(store, "I2") == Some("F1") && Famc0(store, "I3").None?;
    if r != [] {
      forall x | x in Parents(store.fams["F1"])
        ensures !IsRoute(store, x, r[1..], "I1")
      {
        assert x == "I3";
      }
    }
  }

  /** The reading of I1: the note of its DNA event. */
  lemma {:induction false} UnrelatedReadingMe()
    ensures Matches.Reading(UnrelatedStore(), UnrelatedSelection(), "I1") == Some("me")
  {
    Matches.StripKeeps("me");
  }

  /** The reading of I2: the note of its DNA event. */
  lemma {:induction false} UnrelatedReadingCm()
    ensures Matches.Reading(UnrelatedStore(), UnrelatedSelection(), "I2") == Some("50 cM")
  {
    Matches.StripKeeps("50 cM");
  }

  /** I1's reading marks the base person; I2's is 50 cM, within range. */
  lemma {:induction false} UnrelatedNotes()
    ensures Matches.IsMe(UnrelatedStore(), UnrelatedSelection(), "I1")
    ensures !Matches.IsMe(UnrelatedStore(), UnrelatedSelection(), "I2")
    ensures Matches.NoteFor(UnrelatedStore(), UnrelatedSelection(), "I2").Some?
  {
    UnrelatedReadingMe();
    UnrelatedReadingCm();
  }

  /** Over the store's individuals I1, I2, I3: I1 and I2 match, I1 is the base person, and I3, without an event, is skipped. */
  lemma {:induction false} UnrelatedMatches()
    ensures Distinct(["I1", "I2", "I3"]) && forall x :: x in ["I1", "I2", "I3"] <==> x in UnrelatedStore().indis
    ensures Matches.AnyEvent(UnrelatedStore(), UnrelatedSelection(), ["I1", "I2", "I3"])
    ensures Matches.LastMe(UnrelatedStore(), UnrelatedSelection(), ["I1", "I2", "I3"]) == Some("I1")
    ensures Matches.Matching(UnrelatedStore(), UnrelatedSelection(), ["I1", "I2", "I3"]) == ["I1", "I2"]
  {
    UnrelatedNotes();
    UnrelatedOrder();
    Matches.PairThenUnread(UnrelatedStore(), UnrelatedSelection(), "I1", "I2", "I3");
  }

  /** The iteration order I1, I2, I3 lists the store's individuals, each once; I3 has no reading. */
  lemma {:induction false} UnrelatedOrder()
    ensures Distinct(["I1", "I2", "I3"]) && forall x :: x in ["I1", "I2", "I3"] <==> x in UnrelatedStore().indis
    ensures Matches.Reading(UnrelatedStore(), UnrelatedSelection(), "I3").None?
  {
    assert UnrelatedStore().indis.Keys == {"I1", "I2", "I3"};
  }

  /** The second loop leaves each named family's label, or None when the family is flagged. */
  lemma {:induction false} CommonFamsMeaning(me: IndiId, matched: seq<IndiId>, common: map<IndiId, Option<CommonRecord>>,
                          ftd: map<FamId, bool>, named: map<FamId, Option<string>>, cf: map<FamId, Option<string>>)
    requires forall i :: 0 <= i < |matched| ==> matched[i] in common
    requires Named(matched, me, common, |matched|, named, Labels(me, matched, common))
    requires forall f :: f in cf <==> f in named
    requires forall f :: f in cf ==> f in ftd && cf[f] == if ftd[f] then None else named[f]
    ensures forall f :: f in cf <==> exists i :: SetsFam(matched, me, common, i, f)
    ensures forall f :: f in cf && !ftd[f] ==>
      exists i :: LastSetter(matched, me, common, |matched|, f, i) && cf[f] == Some(PluralLabel(common[matched[i]].value))
  {
    forall f | exists i :: SetsFam(matched, me, common, i, f)
      ensures f in cf
    {
      var i :| SetsFam(matched, me, common, i, f);
      assert i < |matched|;
    }
    var labels := Labels(me, matched, common);
    forall f | f in cf && !ftd[f]
      ensures exists i :: LastSetter(matched, me, common, |matched|, f, i) && cf[f] == Some(PluralLabel(common[matched[i]].value))
    {
      var i :| LastSetter(matched, me, common, |matched|, f, i) && named[f] == Some(labels[i]);
      assert labels[i] == PluralLabel(common[matched[i]].value);
    }
  }

  /**
   * common_fams as the renderers receive it: the named families, each set to
   * None when one of its partners is a match, since that partner is
   * labelled already.
   */
  method CommonFams(me: IndiId, matched: seq<IndiId>, common: map<IndiId, Option<CommonRecord>>, ftd: map<FamId, bool>)
    returns (cf: map<FamId, Option<string>>)
    requires forall i :: 0 <= i < |matched| ==> matched[i] in common
    requires forall i :: 0 <= i < |matched| && common[matched[i]].Some? ==> common[matched[i]].value.matchFam in ftd
    ensures forall f :: f in cf <==> exists i :: SetsFam(matched, me, common, i, f)
    ensures forall f :: f in cf ==> f in ftd
    ensures forall f :: f in cf && ftd[f] ==> cf[f].None?
    ensures forall f :: f in cf && !ftd[f] ==>
      exists i :: LastSetter(matched, me, common, |matched|, f, i) && cf[f] == Some(PluralLabel(common[matched[i]].value))
  {
    var named := NameCommonFams(me, matched, common);
    NamedInFtd(me, matched, common, ftd, named);
    cf := ClearPartnered(named, ftd);
    CommonFamsMeaning(me, matched, common, ftd, named, cf);
  }

  /**
   * The second loop of common_fams: a family that has a partner who is a
   * match gets no label.
   */
  method ClearPartnered(named: map<FamId, Option<string>>, ftd: map<FamId, bool>) returns (cf: map<FamId, Option<string>>)
    requires forall f :: f in named ==> f in ftd
    ensures forall f :: f in cf <==> f in named
    ensures forall f :: f in cf ==> cf[f] == if ftd[f] then None else named[f]
  {
    cf := named;
    var rest := cf.Keys;
    while rest != {}
      invariant rest <= named.Keys
      invariant forall f :: f in cf <==> f in named
      invariant forall f :: f in cf ==> cf[f] == if f in rest || !ftd[f] then named[f] else None
      decreases rest
    {
      var fam :| fam in rest;
      // skip a family with a partner who is a match
      if ftd[fam] {
        cf := cf[fam := None];
      }
      rest := rest - {fam};
    }
  }

  lemma {:induction false} NamedInFtd(me: IndiId, matched: seq<IndiId>, common: map<IndiId, Option<CommonRecord>>,
                   ftd: map<FamId, bool>, named: map<FamId, Option<string>>)
    requires forall i :: 0 <= i < |matched| ==> matched[i] in common
    requires forall i :: 0 <= i < |matched| && common[matched[i]].Some? ==> common[matched[i]].value.matchFam in ftd
    requires Named(matched, me, common, |matched|, named, Labels(me, matched, common))
    ensures forall f :: f in named ==> f in ftd
  {
    forall f | f in named
      ensures f in ftd
    {
      var j :| j < |matched| && SetsFam(matched, me, common, j, f);
    }
  }

  /** The first persons of the partner slots of the given families. */
  function PartnersOf(store: Store, fams: set<FamId>): set<IndiId>
  {
    set f, x | f in fams && f in store.fams && x in Parents(store.fams[f]) :: x
  }

  /** people_to_display: the base person, every match with a common record and every partner of a displayed family. */
  function DisplayPeople(store: Store, me: IndiId, matched: seq<IndiId>, common: map<IndiId, Option<CommonRecord>>,
                         fams: set<FamId>): set<IndiId>
  {
    {me} + (set m | m in matched && m in common && common[m].Some?) + PartnersOf(store, fams)
  }

  method PeopleToDisplay(store: Store, me: IndiId, matched: seq<IndiId>, common: map<IndiId, Option<CommonRecord>>,
                         fams: set<FamId>)
    returns (people: set<IndiId>)
    requires WellFormed(store) && fams <= store.fams.Keys
    requires forall i :: 0 <= i < |matched| ==> matched[i] in common
    ensures people == DisplayPeople(store, me, matched, common, fams)
  {
    people := {me};
    for i := 0 to |matched|
      invariant people == {me} + (set m | m in matched[..i] && m in common && common[m].Some?)
    {
      var indi := matched[i];
      if common[indi].Some? {
        people := people + {indi};
      }
      assert matched[..i + 1] == matched[..i] + [indi];
    }
    assert matched[..|matched|] == matched;
    ghost var shown := people;
    var rest := fams;
    while rest != {}
      invariant rest <= fams
      invariant people == shown + PartnersOf(store, fams - rest)
      decreases rest
    {
      var fam :| fam in rest;
      ghost var before := people;
      var f := store.fams[fam];
      for j := 0 to |PartnerTypes|
        invariant people == before + HeadsOf(f, PartnerTypes[..j])
      {
        var partner := PartnerTypes[j];
        assert PartnerTypes[..j + 1] == PartnerTypes[..j] + [partner];
        if Slot(f, partner).Some? {
          people := people + {Slot(f, partner).value[0]};
        }
        HeadsOfStep(f, PartnerTypes, j);
      }
      assert PartnerTypes[..|PartnerTypes|] == PartnerTypes;
      PartnersOfAdd(store, fams - rest, fam);
      assert fams - (rest - {fam}) == (fams - rest) + {fam};
      rest := rest - {fam};
    }
    assert fams - rest == fams;
  }

  lemma {:induction false} HeadsOfStep(f: Fam, ts: seq<PartnerType>, j: int)
    requires 0 <= j < |ts|
    ensures HeadsOf(f, ts[..j + 1]) == HeadsOf(f, ts[..j]) + (if Head(f, ts[j]).Some? then {Head(f, ts[j]).value} else {})
  {
    assert ts[..j + 1] == ts[..j] + [ts[j]];
  }

  lemma {:induction false} PartnersOfAdd(store: Store, done: set<FamId>, fam: FamId)
    requires fam in store.fams
    ensures PartnersOf(store, done + {fam}) == PartnersOf(store, done) + Parents(store.fams[fam])
  {
  }

  /** Everybody on display is an individual of the store. */
  lemma {:induction false} DisplayPeopleInStore(store: Store, me: IndiId, matched: seq<IndiId>, common: map<IndiId, Option<CommonRecord>>,
                             fams: set<FamId>)
    requires WellFormed(store) && me in store.indis && fams <= store.fams.Keys
    requires forall i :: 0 <= i < |matched| ==> matched[i] in store.indis
    ensures DisplayPeople(store, me, matched, common, fams) <= store.indis.Keys
  {
  }

  /**
   * A match is left off the drawing only when it is not the base person,
   * has no common record and is not a partner of a displayed family.
   */
  lemma {:induction false} NotDisplayed(store: Store, me: IndiId, matched: seq<IndiId>, common: map<IndiId, Option<CommonRecord>>,
                     fams: set<FamId>, m: IndiId)
    requires m in matched && m in common
    ensures m !in DisplayPeople(store, me, matched, common, fams) <==>
      m != me && common[m].None? && m !in PartnersOf(store, fams)
  {
  }

  /** The displayed families person p is a partner in. */
  function DisplayedFams(store: Store, p: IndiId, fams: set<FamId>): set<FamId>
    requires p in store.indis
  {
    set f | f in store.indis[p].fams && f in fams
  }

  /**
   * find_families_of_multiple_marriages: every displayed person with more
   * than one displayed family of their own, mapped to those families.
   */
  method FindFamiliesOfMultipleMarriages(store: Store, people: set<IndiId>, fams: set<FamId>)
    returns (results: map<IndiId, set<FamId>>)
    requires people <= store.indis.Keys
    ensures forall p :: p in results <==> p in people && |DisplayedFams(store, p, fams)| > 1
    ensures forall p :: p in results ==> results[p] == DisplayedFams(store, p, fams)
  {
    results := map[];
    var rest := people;
    while rest != {}
      invariant rest <= people
      invariant forall p :: p in results <==> p in people - rest && |DisplayedFams(store, p, fams)| > 1
      invariant forall p :: p in results ==> results[p] == DisplayedFams(store, p, fams)
      decreases rest
    {
      var indi :| indi in rest;
      var own := store.indis[indi].fams;
      var forThisPerson: set<FamId> := {};
      for i := 0 to |own|
        invariant forThisPerson == set f | f in own[..i] && f in fams
      {
        if own[i] in fams {
          forThisPerson := forThisPerson + {own[i]};
        }
        assert own[..i + 1] == own[..i] + [own[i]];
      }
      assert own[..|own|] == own;
      if |forThisPerson| > 1 {
        results := results[indi := forThisPerson];
      }
      rest := rest - {indi};
    }
  }
}
