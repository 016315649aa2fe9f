/**
 * Kinship labels: find_relation_label and compute_relation.
 *
 * A label names the relationship of "them" to "me" from the two generation
 * distances to the closest common ancestor, with gender-neutral words
 * ("auncle" = aunt or uncle, "nibling" = niece or nephew) and the cousin
 * notation "<degree>C<removal>R".
 */
module Relation {
  import opened Store

  // ---------------------------------------------------------------------
  // Decimal rendering (Python's str() on a non-negative int) and its inverse

  predicate IsDigit(c: char)
  {
    '0' <= c <= '9'
  }

  predicate AllDigits(s: string)
  {
    forall i :: 0 <= i < |s| ==> IsDigit(s[i])
  }

  function DigitChar(d: nat): (c: char)
    requires d < 10
    ensures IsDigit(c) && c as int - '0' as int == d
  {
    ('0' as int + d) as char
  }

  /** str(n) for n >= 0: the shortest decimal numeral of n. */
  function NatToString(n: nat): (s: string)
    ensures |s| > 0 && AllDigits(s)
    decreases n
  {
    if n < 10 then [DigitChar(n)] else NatToString(n / 10) + [DigitChar(n % 10)]
  }

  /** The value of a decimal numeral (meaningful when every character is a digit). */
  function DecimalValue(s: string): int
  {
    if s == [] then 0 else DecimalValue(s[..|s| - 1]) * 10 + (s[|s| - 1] as int - '0' as int)
  }

  lemma {:induction false} DecimalRoundTrip(n: nat)
    ensures DecimalValue(NatToString(n)) == n
    decreases n
  {
    var s := NatToString(n);
    if n >= 10 {
      DecimalRoundTrip(n / 10);
      assert s[..|s| - 1] == NatToString(n / 10);
    }
  }

  /** 'g' * k */
  function Gs(k: nat): (s: string)
    ensures |s| == k && forall i :: 0 <= i < k ==> s[i] == 'g'
  {
    seq(k, _ => 'g')
  }

  // ---------------------------------------------------------------------
  // find_relation_label

  /**
   * The relationship of "them" to "me", given the number of generations from
   * me and from them up to the closest common ancestor. The branches follow
   * the source one for one, including the inner cases that earlier branches
   * already rule out. Its "N/A" fallback is never reached for natural
   * distances, and no label starts with 'h', so a "half-" in front of a
   * label is always added by the caller.
   */
  function FindRelationLabel(me: nat, them: nat): (r: string)
    ensures r != "N/A"
    ensures |r| > 0 && r[0] != 'h'
  {
    if them == 0 then
      // direct line: them is the common ancestor
      if me == 0 then "self"
      else if me == 1 then "parent"
      else if me == 2 then "grandparent"
      else Gs(me - 2) + "-grandparent"
    else if me == 0 then
      // direct line: me is the common ancestor
      if them == 0 then "self"
      else if them == 1 then "child"
      else if them == 2 then "grandchild"
      else Gs(them - 2) + "-grandchild"
    else if me == 1 then
      if them == 1 then "sibling"
      else if them == 2 then "nibling"
      else if them == 3 then "grandnibling"
      else Gs(them - 3) + "-grandnibling"
    else if me == them then
      if me == 0 then "self"
      else if me == 1 then "sibling"
      else
        // a cousin label starts with a digit
        assert (NatToString(me - 1) + "C")[0] == NatToString(me - 1)[0];
        NatToString(me - 1) + "C"
    else if them == 1 then
      if me == 2 then "auncle"
      else if me == 3 then "grandauncle"
      else Gs(me - 3) + "-grandauncle"
    else if me == 2 then
      "1C" + NatToString(them - 2) + "R"
    else if me > 2 then
      var y := if them - me < 0 then me - them else them - me;
      var degree := if them < me then them - 1 else me - 1;
      assert (NatToString(degree) + "C" + NatToString(y) + "R")[0] == NatToString(degree)[0];
      if them < me then NatToString(them - 1) + "C" + NatToString(y) + "R"
      else NatToString(me - 1) + "C" + NatToString(y) + "R"
    else
      "N/A"
  }

  function Min(a: nat, b: nat): nat { if a < b then a else b }

  function Dist(a: nat, b: nat): nat { if a < b then b - a else a - b }

  /** The values the design fixes for small distances. */
  lemma {:induction false} LabelTable()
    ensures FindRelationLabel(0, 0) == "self"
    ensures FindRelationLabel(1, 0) == "parent"
    ensures FindRelationLabel(0, 1) == "child"
    ensures FindRelationLabel(2, 0) == "grandparent"
    ensures FindRelationLabel(1, 1) == "sibling"
    ensures FindRelationLabel(1, 2) == "nibling"
    ensures FindRelationLabel(2, 1) == "auncle"
    ensures FindRelationLabel(2, 2) == "1C"
    ensures FindRelationLabel(3, 3) == "2C"
    ensures FindRelationLabel(3, 2) == "1C1R"
  {
    assert NatToString(1) == "1";
    assert NatToString(2) == "2";
  }

  /**
   * Cousins: with both distances at least 2 the label is the cousin degree
   * min(me, them) - 1, followed by the removal |me - them| when it is not 0.
   */
  lemma {:induction false} CousinLabel(me: nat, them: nat)
    requires me >= 2 && them >= 2
    ensures me == them ==> FindRelationLabel(me, them) == NatToString(me - 1) + "C"
    ensures me != them ==>
      FindRelationLabel(me, them) == NatToString(Min(me, them) - 1) + "C" + NatToString(Dist(me, them)) + "R"
  {
    if me == 2 && them != 2 {
      assert NatToString(1) == "1";
      assert "1C" + NatToString(them - 2) + "R" == NatToString(1) + "C" + NatToString(them - 2) + "R";
    }
  }

  /** The cousin label does not depend on which side is older. */
  lemma {:induction false} CousinLabelSymmetric(me: nat, them: nat)
    requires me >= 2 && them >= 2
    ensures FindRelationLabel(me, them) == FindRelationLabel(them, me)
  {
    CousinLabel(me, them);
    CousinLabel(them, me);
  }

  /**
   * Direct-line and side labels: the number of 'g's in front of
   * "-grandparent", "-grandchild", "-grandnibling" and "-grandauncle" is
   * me - 2, them - 2, them - 3 and me - 3.
   */
  lemma {:induction false} GreatLabels(n: nat)
    requires n >= 3
    ensures FindRelationLabel(n, 0) == Gs(n - 2) + "-grandparent"
    ensures FindRelationLabel(0, n) == Gs(n - 2) + "-grandchild"
    ensures n >= 4 ==> FindRelationLabel(1, n) == Gs(n - 3) + "-grandnibling"
    ensures n >= 4 ==> FindRelationLabel(n, 1) == Gs(n - 3) + "-grandauncle"
  {
  }

  // ---------------------------------------------------------------------
  // Reading a label back: the label determines the relationship

  /** The distance pair a label stands for; cousins are named the same from either side, so their pair is ordered. */
  function Canonical(me: nat, them: nat): (int, int)
  {
    if me >= 2 && them >= 2 && them < me then (them, me) else (me, them)
  }

  predicate EndsWith(s: string, suffix: string)
  {
    |suffix| <= |s| && s[|s| - |suffix|..] == suffix
  }

  /** k when s is k >= 1 'g's followed by suffix. */
  function GreatCount(s: string, suffix: string): Option<int>
  {
    if |s| > |suffix| && EndsWith(s, suffix) && s[..|s| - |suffix|] == Gs(|s| - |suffix|)
    then Some(|s| - |suffix|) else None
  }

  /** The number of decimal digits s starts with. */
  function LeadingDigits(s: string): (n: nat)
    ensures n <= |s|
  {
    if s == [] || !IsDigit(s[0]) then 0 else 1 + LeadingDigits(s[1..])
  }

  /** "<degree>C" or "<degree>C<removal>R". */
  function ParseCousin(s: string): Option<(int, int)>
  {
    var n := LeadingDigits(s);
    if 0 < n < |s| && s[n] == 'C' then ParseRemoval(DecimalValue(s[..n]), s[n + 1..]) else None
  }

  /** What follows "<degree>C": nothing, or "<removal>R". */
  function ParseRemoval(degree: int, rest: string): Option<(int, int)>
  {
    if rest == [] then Some((degree + 1, degree + 1))
    else if |rest| > 1 && rest[|rest| - 1] == 'R' && AllDigits(rest[..|rest| - 1]) then
      Some((degree + 1, degree + 1 + DecimalValue(rest[..|rest| - 1])))
    else None
  }

  /**
   * The inverse of FindRelationLabel: the (me, them) distances a label
   * names. Cousin labels are the ones that start with a digit.
   */
  function ParseLabel(s: string): Option<(int, int)>
  {
    if |s| > 0 && IsDigit(s[0]) then ParseCousin(s) else ParseWord(s)
  }

  /** The labels spelled with words. */
  function ParseWord(s: string): Option<(int, int)>
  {
    if s == "self" then Some((0, 0))
    else if s == "parent" then Some((1, 0))
    else if s == "grandparent" then Some((2, 0))
    else if s == "child" then Some((0, 1))
    else if s == "grandchild" then Some((0, 2))
    else if s == "sibling" then Some((1, 1))
    else if s == "nibling" then Some((1, 2))
    else if s == "grandnibling" then Some((1, 3))
    else if s == "auncle" then Some((2, 1))
    else if s == "grandauncle" then Some((3, 1))
    else if GreatCount(s, "-grandparent").Some? then Some((GreatCount(s, "-grandparent").value + 2, 0))
    else if GreatCount(s, "-grandchild").Some? then Some((0, GreatCount(s, "-grandchild").value + 2))
    else if GreatCount(s, "-grandnibling").Some? then Some((1, GreatCount(s, "-grandnibling").value + 3))
    else if GreatCount(s, "-grandauncle").Some? then Some((GreatCount(s, "-grandauncle").value + 3, 1))
    else None
  }

  lemma {:induction false} LeadingDigitsOf(d: string, t: string)
    requires AllDigits(d)
    requires t == [] || !IsDigit(t[0])
    ensures LeadingDigits(d + t) == |d|
    decreases |d|
  {
    if d != [] {
      assert (d + t)[1..] == d[1..] + t;
      LeadingDigitsOf(d[1..], t);
    }
  }

  lemma {:induction false} GreatCountOf(k: nat, suffix: string)
    requires k >= 1
    ensures GreatCount(Gs(k) + suffix, suffix) == Some(k)
  {
    var s := Gs(k) + suffix;
    assert s[|s| - |suffix|..] == suffix;
    assert s[..|s| - |suffix|] == Gs(k);
  }

  /** A string ending in one suffix has no 'g'-prefix reading with a suffix of a different last letter. */
  lemma {:induction false} GreatCountMismatch(s: string, suffix: string, other: string)
    requires |suffix| > 0 && |other| > 0 && EndsWith(s, suffix)
    requires suffix[|suffix| - 1] != other[|other| - 1]
    ensures GreatCount(s, other).None?
  {
  }

  /** A string starting with a digit has no 'g'-prefix reading. */
  lemma {:induction false} GreatCountOfDigits(s: string, suffix: string)
    requires |s| > 0 && IsDigit(s[0])
    ensures GreatCount(s, suffix).None?
  {
  }

  lemma {:induction false} ParseEqualCousin(d: string)
    requires |d| > 0 && AllDigits(d)
    ensures ParseCousin(d + "C") == Some((DecimalValue(d) + 1, DecimalValue(d) + 1))
  {
    assert d + "C" == d + ("C" + []);
    ParseCousinSplit(d, []);
  }

  lemma {:induction false} ParseRemovalOf(degree: int, r: string)
    requires |r| > 0 && AllDigits(r)
    ensures ParseRemoval(degree, r + "R") == Some((degree + 1, degree + 1 + DecimalValue(r)))
  {
    var rest := r + "R";
    assert rest[..|rest| - 1] == r;
  }

  lemma {:induction false} ParseCousinSplit(d: string, rest: string)
    requires |d| > 0 && AllDigits(d)
    ensures ParseCousin(d + ("C" + rest)) == ParseRemoval(DecimalValue(d), rest)
  {
    var s := d + ("C" + rest);
    LeadingDigitsOf(d, "C" + rest);
    assert s[..|d|] == d;
    assert s[|d|] == 'C' && s[|d| + 1..] == rest;
  }

  /** A 'g'-prefixed word label reads back as its distances: the word labels are tried in order, and only its own suffix fits. */
  lemma {:induction false} ParseGreatParent(k: nat)
    requires k >= 1
    ensures ParseLabel(Gs(k) + "-grandparent") == Some((k + 2, 0))
  {
    GreatCountOf(k, "-grandparent");
  }

  lemma {:induction false} ParseGreatChild(k: nat)
    requires k >= 1
    ensures ParseLabel(Gs(k) + "-grandchild") == Some((0, k + 2))
  {
    var s := Gs(k) + "-grandchild";
    assert EndsWith(s, "-grandchild");
    GreatCountMismatch(s, "-grandchild", "-grandparent");
    GreatCountOf(k, "-grandchild");
  }

  lemma {:induction false} ParseGreatNibling(k: nat)
    requires k >= 1
    ensures ParseLabel(Gs(k) + "-grandnibling") == Some((1, k + 3))
  {
    var s := Gs(k) + "-grandnibling";
    assert EndsWith(s, "-grandnibling");
    assert |s| > 12;
    GreatCountMismatch(s, "-grandnibling", "-grandparent");
    GreatCountMismatch(s, "-grandnibling", "-grandchild");
    GreatCountOf(k, "-grandnibling");
  }

  lemma {:induction false} ParseGreatAuncle(k: nat)
    requires k >= 1
    ensures ParseLabel(Gs(k) + "-grandauncle") == Some((k + 3, 1))
  {
    var s := Gs(k) + "-grandauncle";
    assert EndsWith(s, "-grandauncle");
    assert |s| > 12;
    GreatCountMismatch(s, "-grandauncle", "-grandparent");
    GreatCountMismatch(s, "-grandauncle", "-grandchild");
    GreatCountMismatch(s, "-grandauncle", "-grandnibling");
    GreatCountOf(k, "-grandauncle");
  }

  lemma {:induction false} RoundTripDirect(me: nat, them: nat)
    requires me == 0 || them == 0
    ensures ParseLabel(FindRelationLabel(me, them)) == Some(Canonical(me, them))
  {
    if them == 0 && me >= 3 {
      GreatLabels(me);
      ParseGreatParent(me - 2);
    } else if them >= 3 {
      GreatLabels(them);
      ParseGreatChild(them - 2);
    }
  }

  lemma {:induction false} RoundTripSide(me: nat, them: nat)
    requires me != 0 && them != 0 && (me == 1 || them == 1)
    ensures ParseLabel(FindRelationLabel(me, them)) == Some(Canonical(me, them))
  {
    if me == 1 && them >= 4 {
      GreatLabels(them);
      ParseGreatNibling(them - 3);
    } else if them == 1 && me >= 4 {
      GreatLabels(me);
      ParseGreatAuncle(me - 3);
    }
  }

  /** "<n>C" reads back as cousins n generations below the common ancestor's children, on both sides. */
  lemma {:induction false} ParseCousinEqual(n: nat)
    ensures ParseLabel(NatToString(n) + "C") == Some((n + 1, n + 1))
  {
    var d := NatToString(n);
    assert ParseLabel(d + "C") == Some((DecimalValue(d) + 1, DecimalValue(d) + 1)) by {
      ParseEqualCousin(d);
      assert (d + "C")[0] == d[0];
    }
    DecimalRoundTrip(n);
  }

  /** "<d>C<r>R" for digit strings d and r reads back as the cousins their values name. */
  lemma {:induction false} ParseRemovedText(d: string, r: string)
    requires |d| > 0 && AllDigits(d) && |r| > 0 && AllDigits(r)
    ensures ParseLabel(d + "C" + r + "R") == Some((DecimalValue(d) + 1, DecimalValue(d) + 1 + DecimalValue(r)))
  {
    var s, rest := d + "C" + r + "R", r + "R";
    assert ParseLabel(s) == ParseCousin(s) by {
      assert s[0] == d[0];
    }
    assert ParseCousin(s) == ParseRemoval(DecimalValue(d), rest) by {
      assert s == d + ("C" + rest);
      ParseCousinSplit(d, rest);
    }
    ParseRemovalOf(DecimalValue(d), r);
  }

  /** "<n>C<k>R" reads back as cousins n + 1 and n + 1 + k generations below the common ancestor. */
  lemma {:induction false} ParseCousinRemoved(n: nat, k: nat)
    ensures ParseLabel(NatToString(n) + "C" + NatToString(k) + "R") == Some((n + 1, n + 1 + k))
  {
    ParseRemovedText(NatToString(n), NatToString(k));
    DecimalRoundTrip(n);
    DecimalRoundTrip(k);
  }

  lemma {:induction false} RoundTripCousin(me: nat, them: nat)
    requires me >= 2 && them >= 2
    ensures ParseLabel(FindRelationLabel(me, them)) == Some(Canonical(me, them))
  {
    var name := FindRelationLabel(me, them);
    if me == them {
      assert name == NatToString(me - 1) + "C" by {
        CousinLabel(me, them);
      }
      ParseCousinEqual(me - 1);
    } else {
      var n, k := Min(me, them) - 1, Dist(me, them);
      assert name == NatToString(n) + "C" + NatToString(k) + "R" by {
        CousinLabel(me, them);
      }
      ParseCousinRemoved(n, k);
    }
  }

  /** Reading a label back gives the distances it was made from (cousins up to side). */
  lemma {:induction false} LabelRoundTrip(me: nat, them: nat)
    ensures ParseLabel(FindRelationLabel(me, them)) == Some(Canonical(me, them))
  {
    if me == 0 || them == 0 {
      RoundTripDirect(me, them);
    } else if me == 1 || them == 1 {
      RoundTripSide(me, them);
    } else {
      RoundTripCousin(me, them);
    }
  }

  /** Two distance pairs get the same label exactly when they name the same relationship. */
  lemma {:induction false} LabelIdentifiesRelationship(me: nat, them: nat, me': nat, them': nat)
    ensures FindRelationLabel(me, them) == FindRelationLabel(me', them') <==> Canonical(me, them) == Canonical(me', them')
  {
    LabelRoundTrip(me, them);
    LabelRoundTrip(me', them');
    if Canonical(me, them) == Canonical(me', them') && (me, them) != (me', them') {
      CousinLabelSymmetric(me, them);
    }
  }

  // ---------------------------------------------------------------------
  // compute_relation

  predicate HasHalfPrefix(r: string)
  {
    |r| >= 5 && r[..5] == "half-"
  }

  /**
   * The relation of a match to the base person, from a common-ancestor
   * record: the label for (length of the base person's path, length of the
   * match's path), prefixed with "half-" when the two sides descend from the
   * ancestor through different families.
   */
  function ComputeRelation(c: CommonRecord): (r: string)
    ensures HasHalfPrefix(r) <==> c.fam != c.matchFam
    ensures c.fam != c.matchFam ==> r[5..] == FindRelationLabel(|c.matchPath|, |c.path|)
    ensures c.fam == c.matchFam ==> r == FindRelationLabel(|c.matchPath|, |c.path|)
  {
    var half := if c.fam != c.matchFam then "half-" else "";
    var name := FindRelationLabel(|c.matchPath|, |c.path|);
    assert c.fam != c.matchFam ==> (half + name)[5..] == name;
    half + name
  }
}
