/**
 * Finding the DNA matches: the first custom event of the chosen type on
 * each individual, the "me" marker that names the base person, and the
 * inclusive [min, max] filter on the shared centimorgans.
 */
module Matches {
  import opened Store
  import opened Relation

  /** ASCII lower-casing of one character. */
  function LowerChar(c: char): (d: char)
    ensures 'A' <= c <= 'Z' ==> d as int == c as int + 32
    ensures !('A' <= c <= 'Z') ==> d == c
  {
    if 'A' <= c <= 'Z' then (c as int + 32) as char else c
  }

  function Lower(s: string): (t: string)
    ensures |t| == |s| && forall i :: 0 <= i < |s| ==> t[i] == LowerChar(s[i])
  {
    seq(|s|, i requires 0 <= i < |s| => LowerChar(s[i]))
  }

  /** The whitespace str.strip() removes, restricted to ASCII. */
  predicate IsSpace(c: char)
  {
    c == ' ' || c == '\t' || c == '\n' || c == '\r' || c == '\U{B}' || c == '\U{C}' ||
    c == '\U{1C}' || c == '\U{1D}' || c == '\U{1E}' || c == '\U{1F}'
  }

  function StripLeft(s: string): (t: string)
    ensures |t| <= |s| && t == s[|s| - |t|..]
    ensures t != [] ==> !IsSpace(t[0])
    ensures forall i :: 0 <= i < |s| - |t| ==> IsSpace(s[i])
  {
    if s != [] && IsSpace(s[0]) then StripLeft(s[1..]) else s
  }

  function StripRight(s: string): (t: string)
    ensures |t| <= |s| && t == s[..|t|]
    ensures t != [] ==> !IsSpace(t[|t| - 1])
    ensures forall i :: |t| <= i < |s| ==> IsSpace(s[i])
  {
    if s != [] && IsSpace(s[|s| - 1]) then StripRight(s[..|s| - 1]) else s
  }

  /** str.strip(): s without its leading and trailing whitespace. */
  function Strip(s: string): (t: string)
    ensures var k := |s| - |StripLeft(s)|;
      && k + |t| <= |s| && t == s[k..k + |t|]
      && (forall i :: 0 <= i < k ==> IsSpace(s[i]))
      && (forall i :: k + |t| <= i < |s| ==> IsSpace(s[i]))
    ensures t != [] ==> !IsSpace(t[0]) && !IsSpace(t[|t| - 1])
  {
    StripRight(StripLeft(s))
  }

  /** Stripping twice changes nothing more. */
  lemma {:induction false} StripIdempotent(s: string)
    ensures Strip(Strip(s)) == Strip(s)
  {
    var t := Strip(s);
    if t != [] {
      assert StripLeft(t) == t;
      assert StripRight(t) == t;
    }
  }

  /** A string that neither begins nor ends with whitespace is left as it is. */
  lemma {:induction false} StripKeeps(s: string)
    requires s != [] ==> !IsSpace(s[0]) && !IsSpace(s[|s| - 1])
    ensures Strip(s) == s
  {
    assert StripLeft(s) == s;
  }

  /**
   * The value of the first event whose type equals the event name,
   * ignoring case: its field `key`, stripped, or nothing when that event
   * lacks the field. Later events of the same type are never looked at.
   */
  function DnaEvent(events: seq<Event>, name: string, key: string): Option<string>
    decreases |events|
  {
    if events == [] then None
    else if Lower(events[0].kind) == Lower(name) then
      if key in events[0].fields then Some(Strip(events[0].fields[key])) else None
    else DnaEvent(events[1..], name, key)
  }

  /** Event i is the first whose type matches. */
  predicate FirstOfType(events: seq<Event>, name: string, i: int)
  {
    0 <= i < |events| && Lower(events[i].kind) == Lower(name) &&
    forall j :: 0 <= j < i ==> Lower(events[j].kind) != Lower(name)
  }

  /** Past a first event of another type, the first of the type moves one place down. */
  lemma {:induction false} FirstOfTypeTail(events: seq<Event>, name: string, i: int)
    requires events != [] && Lower(events[0].kind) != Lower(name)
    ensures FirstOfType(events, name, i) <==> i > 0 && FirstOfType(events[1..], name, i - 1)
  {
    if i > 0 && FirstOfType(events[1..], name, i - 1) {
      forall j | 0 <= j < i
        ensures Lower(events[j].kind) != Lower(name)
      {
        if j > 0 {
          assert events[j] == events[1..][j - 1];
        }
      }
    }
  }

  /**
   * The value comes from the first event of the type, and only from it:
   * nothing when there is no such event, else its field, stripped, if it
   * has the field.
   */
  lemma {:induction false} DnaEventFirst(events: seq<Event>, name: string, key: string)
    ensures (forall i :: !FirstOfType(events, name, i)) ==> DnaEvent(events, name, key) == None
    ensures forall i :: FirstOfType(events, name, i) ==>
      DnaEvent(events, name, key) == if key in events[i].fields then Some(Strip(events[i].fields[key])) else None
    decreases |events|
  {
    if events != [] && Lower(events[0].kind) != Lower(name) {
      DnaEventFirst(events[1..], name, key);
      forall i
        ensures FirstOfType(events, name, i) <==> i > 0 && FirstOfType(events[1..], name, i - 1)
      {
        FirstOfTypeTail(events, name, i);
      }
      if !forall i :: !FirstOfType(events[1..], name, i) {
        var i :| FirstOfType(events[1..], name, i);
        assert FirstOfType(events, name, i + 1);
      }
    } else if events != [] {
      assert FirstOfType(events, name, 0);
      forall i | FirstOfType(events, name, i)
        ensures i == 0
      {
      }
    }
  }

  /** check_for_dna_event: the loop stops at the first event of the type. */
  method CheckForDnaEvent(dnaEvent: string, valueKey: string, individual: Indi) returns (result: Option<string>)
    ensures result == DnaEvent(individual.events, dnaEvent, valueKey)
  {
    result := None;
    var events := individual.events;
    for i := 0 to |events|
      invariant DnaEvent(events, dnaEvent, valueKey) == DnaEvent(events[i..], dnaEvent, valueKey)
    {
      var event := events[i];
      if Lower(event.kind) == Lower(dnaEvent) {
        if valueKey in event.fields {
          result := Some(Strip(event.fields[valueKey]));
        }
        assert DnaEvent(events[i..], dnaEvent, valueKey) == result;
        return;
      }
      assert events[i..][1..] == events[i + 1..];
    }
  }

  /**
   * A reading that names the base person: "me" in any case, alone or
   * followed by a space, '.', ',' or ':'. So "Me", "ME: tested" and "me."
   * mark the base person, and "men" or "m e" do not.
   */
  function IsMeMarker(reading: string): (b: bool)
    ensures b <==>
      && |reading| >= 2 && reading[0] in "mM" && reading[1] in "eE"
      && (|reading| == 2 || reading[2] in " .,:")
  {
    var t := Lower(reading);
    |t| >= 2 && t[..2] == "me" && (|t| == 2 || t[2] in {' ', '.', ',', ':'})
  }

  /**
   * The command-line choices that select matches: the event type and the
   * field holding its text, the inclusive cM range, and the reading of a
   * cM value out of a note (None when the note holds no usable value).
   */
  datatype Selection = Selection(eventName: string, eventType: string, min: int, max: int,
                                 extractCm: (IndiId, string) -> Option<nat>)

  /** The DNA reading of one individual: the text of its first event of the selected type. */
  function Reading(store: Store, sel: Selection, x: IndiId): Option<string>
  {
    if x in store.indis then DnaEvent(store.indis[x].events, sel.eventName, sel.eventType) else None
  }

  /** The note kept for a match: "me" for the base person, else the cM value when it is in range. */
  function NoteFor(store: Store, sel: Selection, x: IndiId): (n: Option<string>)
    ensures n.Some? ==> Reading(store, sel, x).Some?
    ensures n == Some("me") <==> IsMe(store, sel, x)
  {
    match Reading(store, sel, x)
    case None => None
    case Some(reading) =>
      if IsMeMarker(reading) then Some("me")
      else match sel.extractCm(x, reading)
        case None => None
        case Some(v) =>
          // a cM note is at least four characters long, so it is never "me"
          assert |NatToString(v) + " cM"| >= 4;
          if sel.min <= v <= sel.max then Some(NatToString(v) + " cM") else None
  }

  /** The matches among xs, in the order of xs. */
  function Matching(store: Store, sel: Selection, xs: seq<IndiId>): seq<IndiId>
    decreases |xs|
  {
    if xs == [] then []
    else
      var last := xs[|xs| - 1];
      Matching(store, sel, xs[..|xs| - 1]) + (if NoteFor(store, sel, last).Some? then [last] else [])
  }

  /** x's reading marks x as the base person. */
  predicate IsMe(store: Store, sel: Selection, x: IndiId)
  {
    Reading(store, sel, x).Some? && IsMeMarker(Reading(store, sel, x).value)
  }

  /** The last element of xs that satisfies p. */
  function LastWhere(xs: seq<IndiId>, p: IndiId -> bool): Option<IndiId>
    decreases |xs|
  {
    if xs == [] then None
    else if p(xs[|xs| - 1]) then Some(xs[|xs| - 1])
    else LastWhere(xs[..|xs| - 1], p)
  }

  /** The last individual of xs whose reading is the "me" marker. */
  function LastMe(store: Store, sel: Selection, xs: seq<IndiId>): Option<IndiId>
  {
    LastWhere(xs, x => IsMe(store, sel, x))
  }

  /** Whether anyone in xs has an event of the selected type. */
  predicate AnyEvent(store: Store, sel: Selection, xs: seq<IndiId>)
  {
    exists i :: 0 <= i < |xs| && Reading(store, sel, xs[i]).Some?
  }

  /** The matches, both ways: exactly the members of xs that get a note. */
  lemma {:induction false} MatchingMembers(store: Store, sel: Selection, xs: seq<IndiId>)
    ensures forall x :: x in Matching(store, sel, xs) <==> x in xs && NoteFor(store, sel, x).Some?
    decreases |xs|
  {
    if xs != [] {
      MatchingMembers(store, sel, xs[..|xs| - 1]);
      assert xs == xs[..|xs| - 1] + [xs[|xs| - 1]];
    }
  }

  /** Matching keeps the order of xs: a subsequence of distinct keys is distinct. */
  lemma {:induction false} MatchingDistinct(store: Store, sel: Selection, xs: seq<IndiId>)
    requires Distinct(xs)
    ensures Distinct(Matching(store, sel, xs))
    decreases |xs|
  {
    if xs != [] {
      var init := xs[..|xs| - 1];
      MatchingDistinct(store, sel, init);
      MatchingMembers(store, sel, init);
      assert xs[|xs| - 1] !in init;
    }
  }

  lemma {:induction false} LastWhereIsLast(xs: seq<IndiId>, p: IndiId -> bool)
    ensures LastWhere(xs, p).None? <==> forall i :: 0 <= i < |xs| ==> !p(xs[i])
    ensures LastWhere(xs, p).Some? ==>
      exists i :: 0 <= i < |xs| && xs[i] == LastWhere(xs, p).value && p(xs[i]) && forall j :: i < j < |xs| ==> !p(xs[j])
    decreases |xs|
  {
    if xs != [] {
      var init := xs[..|xs| - 1];
      LastWhereIsLast(init, p);
      if p(xs[|xs| - 1]) {
      } else if LastWhere(init, p).Some? {
        var i :| 0 <= i < |init| && init[i] == LastWhere(init, p).value && p(init[i]) &&
          forall j :: i < j < |init| ==> !p(init[j]);
        assert xs[i] == init[i];
      } else {
        forall i | 0 <= i < |xs|
          ensures !p(xs[i])
        {
          if i < |init| {
            assert xs[i] == init[i];
          }
        }
      }
    }
  }

  /** The base person is the last me-marked individual, and there is none only when nobody is marked. */
  lemma {:induction false} LastMeIsLast(store: Store, sel: Selection, xs: seq<IndiId>)
    ensures LastMe(store, sel, xs).None? <==> forall i :: 0 <= i < |xs| ==> !IsMe(store, sel, xs[i])
    ensures LastMe(store, sel, xs).Some? ==>
      exists i :: 0 <= i < |xs| && xs[i] == LastMe(store, sel, xs).value && IsMe(store, sel, xs[i]) &&
        forall j :: i < j < |xs| ==> !IsMe(store, sel, xs[j])
  {
    LastWhereIsLast(xs, x => IsMe(store, sel, x));
  }

  /** Any note other than "me" is the extracted cM value of the reading, which lies in [min, max]. */
  lemma {:induction false} NoteKinds(store: Store, sel: Selection, x: IndiId)
    requires NoteFor(store, sel, x).Some? && NoteFor(store, sel, x) != Some("me")
    ensures exists v: nat ::
      && sel.extractCm(x, Reading(store, sel, x).value) == Some(v) && sel.min <= v <= sel.max
      && NoteFor(store, sel, x) == Some(NatToString(v) + " cM")
  {
    var v := sel.extractCm(x, Reading(store, sel, x).value).value;
  }

  /** Two individuals, the first marked as the base person and the second a cM match: both match, the first is the base person. */
  lemma {:induction false} PairMatches(store: Store, sel: Selection, a: IndiId, b: IndiId)
    requires IsMe(store, sel, a) && !IsMe(store, sel, b) && NoteFor(store, sel, b).Some?
    ensures AnyEvent(store, sel, [a, b])
    ensures LastMe(store, sel, [a, b]) == Some(a)
    ensures Matching(store, sel, [a, b]) == [a, b]
  {
    var xs := [a, b];
    assert xs[..1] == [a] && [a][..0] == [];
    assert NoteFor(store, sel, a) == Some("me");
    assert Matching(store, sel, [a]) == [a];
    assert Reading(store, sel, xs[0]).Some?;
    LastMeIsLast(store, sel, xs);
    assert IsMe(store, sel, xs[0]) && !IsMe(store, sel, xs[1]);
  }

  /** The loop state after the individuals xs: the matches so far, their order, the base person, whether any event was seen. */
  ghost predicate CollectState(store: Store, sel: Selection, xs: seq<IndiId>, matched: map<IndiId, string>,
                               order: seq<IndiId>, me: Option<IndiId>, foundEvent: bool)
  {
    && order == Matching(store, sel, xs)
    && (forall x :: x in matched <==> x in order)
    && (forall x :: x in order ==> x in xs)
    && |matched| == |order|
    && NotesOf(store, sel, matched)
    && me == LastMe(store, sel, xs)
    && (foundEvent <==> AnyEvent(store, sel, xs))
  }

  /** One more individual x, seen for the first time: its note, if any, is added at the end. */
  lemma {:induction false} CollectStep(store: Store, sel: Selection, xs: seq<IndiId>, x: IndiId, matched: map<IndiId, string>,
                    order: seq<IndiId>, me: Option<IndiId>, foundEvent: bool)
    requires CollectState(store, sel, xs, matched, order, me, foundEvent) && x !in xs
    ensures var note := NoteFor(store, sel, x);
      CollectState(store, sel, xs + [x],
        if note.Some? then matched[x := note.value] else matched,
        if note.Some? then order + [x] else order,
        if IsMe(store, sel, x) then Some(x) else me,
        foundEvent || Reading(store, sel, x).Some?)
  {
    var note := NoteFor(store, sel, x);
    var order' := if note.Some? then order + [x] else order;
    assert order' == Matching(store, sel, xs + [x]) by {
      MatchingSnoc(store, sel, xs, x);
    }
    assert (if IsMe(store, sel, x) then Some(x) else me) == LastMe(store, sel, xs + [x]) by {
      LastMeSnoc(store, sel, xs, x);
    }
    assert foundEvent || Reading(store, sel, x).Some? <==> AnyEvent(store, sel, xs + [x]) by {
      AnyEventSnoc(store, sel, xs, x);
    }
    if note.Some? {
      TableAdd(matched, order, x, note.value, xs);
      NoteAdd(store, sel, matched, x);
    }
  }

  /** Every entry of the match table is the note of that individual. */
  ghost predicate NotesOf(store: Store, sel: Selection, matched: map<IndiId, string>)
  {
    forall x :: x in matched ==> NoteFor(store, sel, x) == Some(matched[x])
  }

  lemma {:induction false} NoteAdd(store: Store, sel: Selection, matched: map<IndiId, string>, x: IndiId)
    requires NotesOf(store, sel, matched) && NoteFor(store, sel, x).Some?
    ensures NotesOf(store, sel, matched[x := NoteFor(store, sel, x).value])
  {
  }

  lemma {:induction false} MatchingSnoc(store: Store, sel: Selection, xs: seq<IndiId>, x: IndiId)
    ensures Matching(store, sel, xs + [x]) == Matching(store, sel, xs) + if NoteFor(store, sel, x).Some? then [x] else []
  {
    var ys := xs + [x];
    assert ys[..|ys| - 1] == xs;
  }

  lemma {:induction false} LastMeSnoc(store: Store, sel: Selection, xs: seq<IndiId>, x: IndiId)
    ensures LastMe(store, sel, xs + [x]) == if IsMe(store, sel, x) then Some(x) else LastMe(store, sel, xs)
  {
    var ys := xs + [x];
    assert ys[..|ys| - 1] == xs;
  }

  /** An individual without a reading changes none of the collection's results. */
  lemma {:induction false} SkipUnread(store: Store, sel: Selection, xs: seq<IndiId>, x: IndiId)
    requires Reading(store, sel, x).None?
    ensures AnyEvent(store, sel, xs + [x]) == AnyEvent(store, sel, xs)
    ensures LastMe(store, sel, xs + [x]) == LastMe(store, sel, xs)
    ensures Matching(store, sel, xs + [x]) == Matching(store, sel, xs)
  {
    AnyEventSnoc(store, sel, xs, x);
    LastMeSnoc(store, sel, xs, x);
    MatchingSnoc(store, sel, xs, x);
  }

  /** A marked individual, then a cM match, then one without a reading: the first two match, the first is the base person. */
  lemma {:induction false} PairThenUnread(store: Store, sel: Selection, a: IndiId, b: IndiId, c: IndiId)
    requires IsMe(store, sel, a) && !IsMe(store, sel, b) && NoteFor(store, sel, b).Some?
    requires Reading(store, sel, c).None?
    ensures AnyEvent(store, sel, [a, b, c])
    ensures LastMe(store, sel, [a, b, c]) == Some(a)
    ensures Matching(store, sel, [a, b, c]) == [a, b]
  {
    PairMatches(store, sel, a, b);
    SkipUnread(store, sel, [a, b], c);
    assert [a, b] + [c] == [a, b, c];
  }

  /** Adding a fresh key at the end keeps the map and its key order in step. */
  lemma {:induction false} TableAdd(m: map<IndiId, string>, order: seq<IndiId>, k: IndiId, v: string, xs: seq<IndiId>)
    requires (forall x :: x in m <==> x in order) && (forall x :: x in order ==> x in xs)
    requires |m| == |order| && k !in xs
    ensures forall x :: x in m[k := v] <==> x in order + [k]
    ensures forall x :: x in order + [k] ==> x in xs + [k]
    ensures |m[k := v]| == |order + [k]|
  {
    assert m[k := v].Keys == m.Keys + {k};
  }

  lemma {:induction false} AnyEventSnoc(store: Store, sel: Selection, xs: seq<IndiId>, x: IndiId)
    ensures AnyEvent(store, sel, xs + [x]) <==> AnyEvent(store, sel, xs) || Reading(store, sel, x).Some?
  {
    var ys := xs + [x];
    if AnyEvent(store, sel, ys) && !AnyEvent(store, sel, xs) {
      var i :| 0 <= i < |ys| && Reading(store, sel, ys[i]).Some?;
      assert i == |xs|;
    }
    if AnyEvent(store, sel, xs) {
      var i :| 0 <= i < |xs| && Reading(store, sel, xs[i]).Some?;
      assert ys[i] == xs[i];
    }
    if Reading(store, sel, x).Some? {
      assert ys[|xs|] == x;
    }
  }

  /** Why the run stops before drawing anything, or the matches it goes on with. */
  datatype Outcome =
    | Found(matched: map<IndiId, string>, order: seq<IndiId>, me: IndiId)
    | NoEvent        // nobody has the selected event
    | NoBase         // nobody is marked as the base person
    | TooFewMatches  // the base person is the only match

  /**
   * The match collection and its three exits, in the order they are
   * checked. indiOrder is the iteration order of the individuals.
   */
  method CollectMatches(store: Store, indiOrder: seq<IndiId>, sel: Selection) returns (r: Outcome)
    requires Distinct(indiOrder)
    ensures r == NoEvent <==> !AnyEvent(store, sel, indiOrder)
    ensures r == NoBase <==>
      && AnyEvent(store, sel, indiOrder)
      && (LastMe(store, sel, indiOrder).None? || LastMe(store, sel, indiOrder) == Some(""))
    ensures r == TooFewMatches <==>
      && AnyEvent(store, sel, indiOrder)
      && LastMe(store, sel, indiOrder).Some? && LastMe(store, sel, indiOrder) != Some("")
      && |Matching(store, sel, indiOrder)| < 2
    ensures r.Found? ==>
      && LastMe(store, sel, indiOrder) == Some(r.me) && r.me != ""
      && r.order == Matching(store, sel, indiOrder) && |r.order| >= 2
      && (forall x :: x in r.matched <==> x in r.order)
      && (forall x :: x in r.matched ==> NoteFor(store, sel, x) == Some(r.matched[x]))
  {
    var matched: map<IndiId, string> := map[];
    var order: seq<IndiId> := [];
    var me: Option<IndiId> := None;
    var foundEvent := false;
    for i := 0 to |indiOrder|
      invariant CollectState(store, sel, indiOrder[..i], matched, order, me, foundEvent)
    {
      var indi := indiOrder[i];
      var result := None;
      if indi in store.indis {
        result := CheckForDnaEvent(sel.eventName, sel.eventType, store.indis[indi]);
      }
      ghost var matched0, order0, me0, found0 := matched, order, me, foundEvent;
      assert result == Reading(store, sel, indi);
      if result.Some? {
        foundEvent := true;
        if IsMeMarker(result.value) {
          assert NoteFor(store, sel, indi) == Some("me");
          matched := matched[indi := "me"];
          order := order + [indi];
          me := Some(indi);
        } else {
          var value := sel.extractCm(indi, result.value);
          assert NoteFor(store, sel, indi) ==
            if value.Some? && sel.min <= value.value <= sel.max then Some(NatToString(value.value) + " cM") else None;
          if value.Some? && sel.min <= value.value <= sel.max {
            matched := matched[indi := NatToString(value.value) + " cM"];
            order := order + [indi];
          }
        }
      }
      assert indiOrder[..i + 1] == indiOrder[..i] + [indi];
      CollectStep(store, sel, indiOrder[..i], indi, matched0, order0, me0, found0);
    }
    assert indiOrder[..|indiOrder|] == indiOrder;
    if !foundEvent {
      return NoEvent;
    }
    if me.None? || me.value == "" {
      return NoBase;
    }
    if |matched| < 2 {
      return TooFewMatches;
    }
    return Found(matched, order, me.value);
  }
}
