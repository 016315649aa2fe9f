/**
 * The genealogy store the kinship engine reads: individuals and family units,
 * as the GEDCOM reader hands them over, reduced to the links the engine uses.
 */
module Store {

  datatype Option<+T> = None | Some(value: T)

  type IndiId = string
  type FamId = string

  /** A custom event of an individual: its TYPE and its other fields (note, value, ...). */
  datatype Event = Event(kind: string, fields: map<string, string>)

  /** An individual: families as child, families as partner, custom events. An absent key is an empty list. */
  datatype Indi = Indi(famc: seq<FamId>, fams: seq<FamId>, events: seq<Event>)

  /** A family unit: the two partner slots, each absent or a list of individuals. */
  datatype Fam = Fam(wife: Option<seq<IndiId>>, husb: Option<seq<IndiId>>)

  datatype Store = Store(indis: map<IndiId, Indi>, fams: map<FamId, Fam>)

  datatype PartnerType = Wife | Husb

  /** The order in which partner slots are visited everywhere. */
  const PartnerTypes: seq<PartnerType> := [Wife, Husb]

  function Slot(f: Fam, t: PartnerType): Option<seq<IndiId>>
  {
    match t
    case Wife => f.wife
    case Husb => f.husb
  }

  /** The first person of a partner slot: the only one the engine ever looks at. */
  function Head(f: Fam, t: PartnerType): (h: Option<IndiId>)
    ensures h.Some? <==> Slot(f, t).Some? && |Slot(f, t).value| > 0
    ensures h.Some? ==> h.value == Slot(f, t).value[0]
  {
    match Slot(f, t)
    case Some(people) => if |people| > 0 then Some(people[0]) else None
    case None => None
  }

  /** The first persons of the given slots that are present. */
  function HeadsOf(f: Fam, ts: seq<PartnerType>): set<IndiId>
  {
    set t | t in ts && Head(f, t).Some? :: Head(f, t).value
  }

  /** The parents of a family, as the engine sees them. */
  function Parents(f: Fam): set<IndiId>
  {
    HeadsOf(f, PartnerTypes)
  }

  /** Every present partner slot holds at least one person (the engine indexes [0]). */
  predicate SlotsNonEmpty(f: Fam)
  {
    (f.wife.Some? ==> |f.wife.value| > 0) && (f.husb.Some? ==> |f.husb.value| > 0)
  }

  /** The authoritative ("blood") family as child: element [0] of famc, if any. */
  function Famc0(store: Store, p: IndiId): (r: Option<FamId>)
    requires p in store.indis
    ensures r.Some? <==> |store.indis[p].famc| > 0
  {
    if |store.indis[p].famc| > 0 then Some(store.indis[p].famc[0]) else None
  }

  /** The parents of a person through famc[0]. */
  function ParentsOf(store: Store, p: IndiId): set<IndiId>
  {
    if p in store.indis && |store.indis[p].famc| > 0 && store.indis[p].famc[0] in store.fams
    then Parents(store.fams[store.indis[p].famc[0]])
    else {}
  }

  /**
   * Referential consistency, which the GEDCOM reader enforces before the
   * engine runs: famc[0] names a family, every family's present slots are
   * non-empty and name individuals.
   */
  ghost predicate WellFormed(store: Store)
  {
    && (forall p :: p in store.indis && |store.indis[p].famc| > 0 ==> store.indis[p].famc[0] in store.fams)
    && (forall f :: f in store.fams ==> SlotsNonEmpty(store.fams[f]))
    && (forall f :: f in store.fams ==> Parents(store.fams[f]) <= store.indis.Keys)
  }

  /**
   * Acyclic ancestry, witnessed by a rank that strictly decreases from a
   * person to each of their parents. The engine itself has no cycle guard.
   */
  ghost predicate Ranked(store: Store, rank: map<IndiId, nat>)
  {
    forall p :: p in store.indis ==>
      p in rank && forall a :: a in ParentsOf(store, p) ==> a in rank && rank[a] < rank[p]
  }

  /** The keys of a dict, in iteration order, each once. */
  predicate Distinct(s: seq<IndiId>)
  {
    forall i, j :: 0 <= i < j < |s| ==> s[i] != s[j]
  }

  /** The entry find_ancestors records for one ancestor: the family it is reached through and the family path to it. */
  datatype AncEntry = AncEntry(fam: FamId, path: seq<FamId>)

  /**
   * The closest-common-ancestor record. As in the code, `path` is the MATCH's
   * path and `matchPath` the BASE person's path; `fam`/`matchFam` likewise.
   */
  datatype CommonRecord = CommonRecord(indi: IndiId, fam: FamId, path: seq<FamId>, matchFam: FamId, matchPath: seq<FamId>)

  lemma {:induction false} HeadInParents(f: Fam, t: PartnerType)
    requires Head(f, t).Some?
    ensures Head(f, t).value in Parents(f)
  {
    assert t in PartnerTypes by { if t == Wife { assert PartnerTypes[0] == t; } else { assert PartnerTypes[1] == t; } }
  }
}
