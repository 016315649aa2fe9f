# draw-dna-matches: the kinship engine, in Dafny

draw-dna-matches reads a GEDCOM family tree in which some people carry a
custom event holding a DNA test result. One of them is marked as the base
person ("me"); every other one with a shared-centimorgan value in range is
a match. The engine walks each person's ancestors through their birth
family (`famc[0]`), finds the closest common ancestor of every match and
the base person, names the relationship ("2C1R", "half-sibling",
"ggg-grandparent", ...), and reduces all of this to the families, people,
family labels, multiple marriages and edges the renderers draw.

This project models that engine over an abstract store: two maps, one from
individual ids to `Indi(famc, fams, events)` and one from family ids to
`Fam(wife, husb)`, each partner slot absent or a list of people. The
modules follow the program's structure:

- `store.dfy` (`Store`): the store, the partner-slot order `wife`, `husb`,
  the "first person of a slot" rule, referential well-formedness, and a
  rank that decreases from child to parent. The rank stands in for the
  acyclicity the program assumes but never checks.
- `relation.dfy` (`Relation`): `find_relation_label` and
  `compute_relation`, the fixed label table, the cousin and "great" rules,
  and a parser that reads a label back, which shows that a label determines
  the relationship.
- `ancestors.dfy` (`Ancestors`): `find_ancestors` as a recursive method
  that threads the accumulator dict and a listing of its keys, in which
  keys already present keep their place. Its result is
  characterised by upward routes: exactly the ancestors are keys, and each
  stored path is a shortest route.
- `common.dfy` (`Common`): `find_common_ancestor`, with its three ordered
  cases and its search loop. The loop keeps the sentinel start value and
  the tie-break on `fam == match-fam`, and walks the keys in the order of
  the listing it is given (see "Left out" on which listing that is).
- `display.dfy` (`Display`): the module-level loops that build the common
  records, the relations, `families_to_display` with its flags,
  `common_fams`, `people_to_display` and the multiple-marriage map.
- `routes.dfy` (`Routes`): the edge set of `dot_connect`.
- `matches.dfy` (`Matches`): `check_for_dna_event`, the "me" marker, the
  `[min, max]` filter and the three early exits.
- `engine.dfy` (`Engine`): the module-level main line, from match
  collection to the DOT edges, with each step fed by the ones before it.

As in the code, a common record's `path` and `fam` are the MATCH's side,
and `matchPath` and `matchFam` are the BASE person's side. The
find_common_ancestor docstring describes it the other way round; the model
follows the code. The relationship label is therefore
`FindRelationLabel(|matchPath|, |path|)`.

## Model

| member | source | states |
|---|---|---|
| Store.HeadInParents | draw-dna-matches.py:870-872 | the person taken from a partner slot (its first entry) is one of the family's parents |
| Relation.FindRelationLabel | draw-dna-matches.py:221-294 | the 'N/A' fallback is never reached for natural distances, and no label begins with 'h', so a "half-" prefix can only come from compute_relation |
| Relation.DecimalRoundTrip | draw-dna-matches.py:272 | the decimal text `str(n)` of a natural number reads back as n |
| Relation.LabelTable | draw-dna-matches.py:232-294 | the fixed labels: self, parent, child, grandparent, sibling, nibling, auncle, 1C, 2C, 1C1R |
| Relation.CousinLabel | draw-dna-matches.py:266-292 | with both distances at least 2: `{me-1}C` when equal, otherwise `{min-1}C{abs(me-them)}R` |
| Relation.CousinLabelSymmetric | draw-dna-matches.py:282-292 | cousin labels do not depend on which side is the older generation |
| Relation.GreatLabels | draw-dna-matches.py:242-280 | -grandparent, -grandchild, -grandnibling and -grandauncle carry me-2, them-2, them-3 and me-3 'g's |
| Relation.LabelRoundTrip | draw-dna-matches.py:221-294 | parsing a label gives back its distance pair; cousins give the pair ordered by side |
| Relation.LabelIdentifiesRelationship | draw-dna-matches.py:221-294 | two distance pairs get the same label iff they name the same relationship |
| Relation.ComputeRelation | draw-dna-matches.py:297-303 | the result has the "half-" prefix iff fam != match-fam; the rest is the label for (len(match-path), len(path)) |
| Ancestors.FindAncestors | draw-dna-matches.py:856-882 | keys already in the accumulator keep their place in the key listing, and each key is listed once; every route from p is recorded no longer than the route; old entries are either kept or overwritten by this walk; an equal-length route overwrites |
| Ancestors.VisitAncestor | draw-dna-matches.py:870-882 | one parent: the entry is written unless a strictly shorter one exists, then the walk recurses into the parent |
| Ancestors.AncestorsOf | draw-dna-matches.py:903 | find_ancestors from an empty dict gives the ancestor table of p with a listing of its keys, each once |
| Ancestors.RouteInStore | draw-dna-matches.py:864-866 | a route leaves a person through that person's famc[0] and only passes through stored families |
| Ancestors.RouteClimbs | draw-dna-matches.py:882 | on ranked (acyclic) data each route strictly climbs the rank, so the unguarded recursion ends |
| Ancestors.AncestorTableFacts | draw-dna-matches.py:856-882 | nobody is their own ancestor; every stored path starts with the subject's famc[0] and names stored families |
| Ancestors.AncestorTableKeys | draw-dna-matches.py:873-880 | a is a key iff a is an ancestor, and its stored path is a shortest route to it |
| Common.ClosestCommonAncestor | draw-dna-matches.py:921-947 | the search keeps the shortest match-side path; on a tie a later full relation replaces the one held; it finds nothing iff every shared ancestor within the sentinel distance sits exactly at it, through two different families |
| Common.FindCommonAncestor | draw-dna-matches.py:885-949 | the three cases in order: the base person is an ancestor of the match; the match is an ancestor of the base person; the collateral search |
| Common.DescendantCase | draw-dna-matches.py:905-911 | the base person is an ancestor of the match: record = base person, a shortest path, empty match-path, fam == match-fam |
| Common.AncestorCase | draw-dna-matches.py:913-919 | the match is an ancestor of the base person: record = the match, empty path, shortest match-path, fam == match-fam |
| Common.CollateralClosest | draw-dna-matches.py:921-947 | a collateral record names a shared ancestor through shortest routes on both sides, and no shared ancestor is closer to the match |
| Common.CollateralPrefersFull | draw-dna-matches.py:928-940 | a half relation is chosen only when every equally close shared ancestor is reached through two different families |
| Common.CollateralNone | draw-dna-matches.py:921-949 | no record means every shared ancestor is at least the sentinel number of generations above the match |
| Display.CommonRecordOf | draw-dna-matches.py:1049 | the record of one match other than the base person is an outcome of find_common_ancestor, witnessed by the match's ancestor table |
| Display.CommonRecords | draw-dna-matches.py:1045-1049 | every match gets a record: none for the base person, the find_common_ancestor outcome for the others |
| Display.Relations | draw-dna-matches.py:1063-1067 | exactly the matches with a record get a relation, computed from that record |
| Display.HalfStepDisplayed | draw-dna-matches.py:1085-1092 | for a half relation whose common ancestor has a birth family, that family is a stored family, it is among the displayed families, and its partners are the common ancestor's parents |
| Display.AddFams | draw-dna-matches.py:1081-1083 | the families of a path are added, all flags False |
| Display.AddRecord | draw-dna-matches.py:1076-1092 | one record adds fam, match-fam, both paths and the half-relation step, all flags False |
| Display.CollectFamilies | draw-dna-matches.py:1072-1092 | the keys are the families of every record that is present |
| Display.DoesFamHaveMatch | draw-dna-matches.py:383-391 | true iff the first person of some present partner slot is a match |
| Display.FlagFamilies | draw-dna-matches.py:1096-1097 | the keys are kept; each flag says whether a partner is a match |
| Display.FamiliesToDisplay | draw-dna-matches.py:1072-1097 | the keys are the union of every record's families; all are stored families; each flag is true iff a partner is a match |
| Display.NameCommonFamsAsWritten | draw-dna-matches.py:1108-1114 | the run stops iff a match other than the base person has no record; otherwise each family gets the label of its last writer |
| Display.UnrelatedMatches | draw-dna-matches.py:1000-1028 | over the witness store's individuals in the order I1, I2, I3 (each once, all of them): an event is found, I1 is the base person, and the matches are I1 and I2; I3, without an event, is skipped |
| Display.UnrelatedMatchAborts | draw-dna-matches.py:1108-1110 | in the witness store, which passes match collection over all its individuals, every find_common_ancestor outcome for the match I2 is empty, so the common_fams loop as written stops |
| Display.NameCommonFams | draw-dna-matches.py:1108-1114 | matches without a record are skipped; each named family holds the plural label of its last writer |
| Display.NameCommonFamsAgree | draw-dna-matches.py:1108-1114 | when no record is missing, the loop as written and as intended give the same table |
| Display.ClearPartnered | draw-dna-matches.py:1116-1120 | the keys are kept; a family with a partner who is a match gets None; every other family keeps its label |
| Display.CommonFams | draw-dna-matches.py:1106-1120 | built on the corrected first loop (see Findings): the named families are the match-fams of the records; a flagged family gets None; any other family keeps its last writer's label |
| Display.PluralLabel | draw-dna-matches.py:1114 | the plural label of a common family is selfs, parents, grandparents or g...-grandparents, by the base person's distance to the common ancestor |
| Display.PeopleToDisplay | draw-dna-matches.py:1129-1137 | {me} + the matches with a record + the first persons of the displayed families' slots |
| Display.DisplayPeopleInStore | draw-dna-matches.py:1129-1137 | everybody displayed is an individual of the store |
| Display.NotDisplayed | draw-dna-matches.py:1172-1176 | a match is not displayed iff it is not me, has no record and is not a partner of a displayed family |
| Display.FindFamiliesOfMultipleMarriages | draw-dna-matches.py:952-970 | keys are the displayed people with more than one displayed own family; values are exactly those families |
| Routes.FamilyOfChildStartsRoutes | draw-dna-matches.py:774-779 | every upward route from a person starts with the family get_family_of_child returns; that family is stored and its partners are the person's parents |
| Routes.FamilyRoutes | draw-dna-matches.py:797-810 | the edges from one family's partner ports to displayed birth families; its partners are the slot heads |
| Routes.DotRoutes | draw-dna-matches.py:786-824 | the edge set is the family-port edges plus the edges of displayed people who are not partners of a displayed family |
| Routes.RoutesShape | draw-dna-matches.py:795-824 | every edge ends at a displayed family, and each source has at most one edge |
| Matches.Strip | draw-dna-matches.py:376 | the result is the slice of the input between leading and trailing whitespace, and begins and ends with a non-space |
| Matches.StripIdempotent | draw-dna-matches.py:376 | stripping twice is stripping once |
| Matches.DnaEventFirst | draw-dna-matches.py:370-380 | the value is the stripped field of the first event whose type matches case-insensitively; nothing if there is no such event or it lacks the field |
| Matches.CheckForDnaEvent | draw-dna-matches.py:370-380 | the loop with break returns the value of the first matching event |
| Matches.MatchingMembers | draw-dna-matches.py:1000-1014 | the matches are exactly the individuals whose reading is the "me" marker or a cM value within [min, max] |
| Matches.MatchingDistinct | draw-dna-matches.py:1000-1014 | the match order lists each match once |
| Matches.IsMeMarker | draw-dna-matches.py:1004-1005 | a reading marks the base person iff it starts with "me" in any case and is either exactly that or continues with a space, '.', ',' or ':' |
| Matches.NoteFor | draw-dna-matches.py:1001-1014 | only an individual with a reading gets a note, and the note is "me" iff the reading is the base-person marker |
| Matches.SkipUnread | draw-dna-matches.py:1001-1003 | an individual without a reading leaves the event flag, the base person and the matches unchanged |
| Matches.PairThenUnread | draw-dna-matches.py:1000-1028 | a marked individual, an in-range cM individual, then one without a reading: an event was found, the first is the base person, and the first two are the matches |
| Matches.PairMatches | draw-dna-matches.py:1000-1028 | a marked individual followed by an in-range cM individual: an event was found, the first is the base person, and both match |
| Matches.LastMeIsLast | draw-dna-matches.py:1005-1008 | the base person is the last me-marked individual; there is none iff nobody is marked |
| Matches.NoteKinds | draw-dna-matches.py:1009-1014 | a note other than "me" is `{v} cM` for the value v extracted from the reading, with min <= v <= max |
| Matches.CollectMatches | draw-dna-matches.py:990-1028 | no event, no base person, fewer than two matches, in this order; otherwise the matches, their order, their notes and the base person |
| Engine.DrawMatches | draw-dna-matches.py:990-1169 | the run stops exactly when match collection exits; otherwise the base person is the last me-marked individual, the matches are in collection order, and the records and every table of the DOT drawing are the ones their steps define |
| Engine.FindRecords | draw-dna-matches.py:1036-1067 | the base person's ancestor table, then a record for every match (none for the base person, a find_common_ancestor outcome for the others), then a relation for exactly the matches with a record |
| Engine.ShowRecords | draw-dna-matches.py:1069-1169 | families_to_display with its keys and flags, common_fams, people_to_display, the multiple marriages and the DOT edges, each as its step defines it; every displayed person is an individual of the store |
| Engine.MeIsMatched | draw-dna-matches.py:1004-1008 | the base person is one of the iterated individuals and one of the matches |

## Findings

| source | as written | input that shows it | evidently intended | confidence | as-written member | corrected member |
|---|---|---|---|---|---|---|
| draw-dna-matches.py:1108-1110 | the common_fams loop reads `matched[indi]['common']['indi']` for every match other than the base person | a match that shares no ancestor with the base person, e.g. the store `UnrelatedStore`: I1 marked "me" with no family, I2 with 50 cM whose family F1 has one partner, I3, who has no event, so over the order I1, I2, I3 the first two pass match collection (`UnrelatedMatches`): find_common_ancestor returns an empty dict for I2, and the lookup raises KeyError | skip such matches, as the loops at :1063-1064, :1074-1075 and :1131-1132 do, and let the report at :1172-1176 list them as not displayed | high (not executed) | Display.NameCommonFamsAsWritten, Display.UnrelatedMatchAborts | Display.NameCommonFams, Display.NameCommonFamsAgree |

## Left out

- The command line, module loading and the GEDCOM reader (`readgedcom.read_file`) are left out: they are configuration and I/O. The store comes in already parsed and referentially consistent (`WellFormed`).
- The iteration order of the individuals dict comes in as a sequence of distinct ids (`indiOrder`).
- extract_dna_cm is not modelled: it parses with `float()`, rounds, and writes diagnostics. It is a parameter of `Selection`, returning the rounded, non-negative value or nothing. `min` and `max` are integers here.
- Lower-casing and whitespace stripping cover ASCII only. Python's `str.lower` and `str.strip` also handle the rest of Unicode.
- The renderers are not modelled: the GEDCOM output, the DOT and HTML labels, the matrix layout and the name escaping. Neither is the debug output or the text of the "not displayed" report. Only who is missing from the drawing is modelled (`NotDisplayed`).
- Edge colouring and `fam_count` in dot_connect are not modelled. The colour cycle depends on set iteration order.
- DOT node ids (`make_fam_dot_id`, `make_indi_dot_id`) are left out. Edges are between raw ids, and a family's port is the partner slot.
- Routes.FamilyOfChild: the model treats a present but empty `famc` list as absent, an assumption on the input. The program would raise IndexError at draw-dna-matches.py:778; find_ancestors guards against the empty list at :865.
- Display.AddRecord: the same assumption; the program would raise IndexError at draw-dna-matches.py:1091.
- Display.HalfStep: the same assumption; the program would raise IndexError at draw-dna-matches.py:1091.
- Display.CommonFams: it is built on the corrected first loop (Display.NameCommonFams, see Findings). Where no match lacks a record, Display.NameCommonFamsAgree makes that loop's table the program's. Where one does, the program stops with KeyError at draw-dna-matches.py:1110 and has no table.
- A present but empty partner slot likewise counts as absent. `WellFormed` excludes it anyway.
- Display.FindFamiliesOfMultipleMarriages: the values are sets. The program turns each set into a list whose order depends on set iteration.
- Ancestors.FindAncestors: when several routes of the same length reach an ancestor, the model does not say which one survives. It only states the rule that decides it: an entry of equal length is overwritten, so the route visited later wins.
- Ancestors.AncestorsOf: the key listing it returns names each key once, but it is not pinned to the program's insertion order. The program inserts new keys depth-first, wife before husband (draw-dna-matches.py:869-881); that order is not stated.
- Ancestors.FindAncestors: it states only that keys already present keep their place in the listing. Where the new keys go is not stated.
- Common.ClosestCommonAncestor: it walks the keys in the order of the listing it is given. Among several full relations at the same distance the later one wins, and Picked states this. Common.CommonOutcome, Display.CommonRecordOf, Display.CommonRecords and Engine.DrawMatches hold for any listing of the match's table. So the choice among equally close shared ancestors, and the half-step family and label that follow from it, is fixed only relative to that unstated order.
- Engine.DrawMatches: only the DOT branch is followed (draw-dna-matches.py:1165-1170). The GEDCOM and matrix outputs are renderers. common_fams is the corrected table (Display.CommonFams), so a match without a record, which stops the program with KeyError at :1110, does not stop this run.
- The not-displayed report prints only the stale loop variable. Its text is output and is not modelled.
