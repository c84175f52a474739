/** The service's read queries as filters over the table in scan order: the
    coordinate filter of `getAllForMap`, `searchProperties`, the suggestion cascade
    of `getPublicSuggestions` and the two phases of `getSimilarProperties`. */
module Queries {
  import opened Wrappers
  import opened Records
  import opened Text
  import Seqs
  import Sorting

  // ---------------------------------------------------------------------------
  // SQL LIKE / ILIKE

  /** PostgreSQL `LIKE`: `%` matches any run of characters, `_` any one character,
      and `\` makes the next character literal. */
  predicate LikeMatch(s: string, pat: string)
    decreases |pat|, |s|
  {
    if |pat| == 0 then |s| == 0
    else if pat[0] == '%' then LikeMatch(s, pat[1..]) || (|s| > 0 && LikeMatch(s[1..], pat))
    else if pat[0] == '_' then |s| > 0 && LikeMatch(s[1..], pat[1..])
    else if pat[0] == '\\' && |pat| > 1 then |s| > 0 && s[0] == pat[1] && LikeMatch(s[1..], pat[2..])
    else |s| > 0 && s[0] == pat[0] && LikeMatch(s[1..], pat[1..])
  }

  /** `col ILIKE pat` on a nullable column (ASCII case folding); NULL never matches. */
  predicate ILike(col: Option<string>, pat: string)
  {
    col.Some? && LikeMatch(LowerStr(col.value), LowerStr(pat))
  }

  /** A pattern without wildcard or escape characters. */
  predicate Plain(q: string)
  {
    forall i | 0 <= i < |q| :: q[i] != '%' && q[i] != '_' && q[i] != '\\'
  }

  /** A plain pattern matches exactly itself. */
  lemma {:induction false} LikePlainIsEquality(s: string, q: string)
    requires Plain(q)
    ensures LikeMatch(s, q) <==> s == q
  {
    if |q| > 0 && |s| > 0 {
      LikePlainIsEquality(s[1..], q[1..]);
      assert s == [s[0]] + s[1..] && q == [q[0]] + q[1..];
    }
  }

  lemma {:induction false} LikeAnything(s: string)
    ensures LikeMatch(s, "%")
  {
    if |s| > 0 {
      LikeAnything(s[1..]);
    }
  }

  /** `q%` matches the strings that start with a plain `q`. */
  lemma {:induction false} LikePrefix(t: string, q: string)
    requires Plain(q)
    ensures LikeMatch(t, q + "%") <==> q <= t
  {
    if |q| == 0 {
      assert q + "%" == "%";
      LikeAnything(t);
    } else {
      assert (q + "%")[1..] == q[1..] + "%";
      if |t| > 0 {
        LikePrefix(t[1..], q[1..]);
        assert q <= t <==> q[0] == t[0] && q[1..] <= t[1..];
      }
    }
  }

  /** `%r` matches when `r` matches some suffix. */
  lemma {:induction false} LikeLeadingPercent(s: string, r: string)
    ensures LikeMatch(s, "%" + r) <==> exists k | 0 <= k <= |s| :: LikeMatch(s[k..], r)
  {
    assert ("%" + r)[1..] == r;
    if |s| > 0 {
      LikeLeadingPercent(s[1..], r);
      forall k | 1 <= k <= |s| ensures s[k..] == s[1..][k - 1..] { }
      assert s[0..] == s;
    } else {
      assert s[0..] == s;
    }
  }

  /** `%q%` with a plain `q` is the substring test. */
  lemma LikeSubstring(s: string, q: string)
    requires Plain(q)
    ensures LikeMatch(s, "%" + q + "%") <==> Contains(s, q)
  {
    assert "%" + q + "%" == "%" + (q + "%");
    LikeLeadingPercent(s, q + "%");
    if LikeMatch(s, "%" + q + "%") {
      var k :| 0 <= k <= |s| && LikeMatch(s[k..], q + "%");
      LikePrefix(s[k..], q);
      assert s[k..k + |q|] == q;
      assert OccursAt(s, q, k);
    }
    if Contains(s, q) {
      var k :| 0 <= k <= |s| - |q| && OccursAt(s, q, k);
      LikePrefix(s[k..], q);
      assert q <= s[k..];
    }
  }

  lemma PlainLower(q: string)
    requires Plain(q)
    ensures Plain(LowerStr(q))
  {
  }

  /** `col ILIKE '%q%'` for a plain `q` is case-insensitive containment. */
  lemma ILikeSubstring(col: Option<string>, q: string)
    requires Plain(q)
    ensures ILike(col, "%" + q + "%") <==> col.Some? && Contains(LowerStr(col.value), LowerStr(q))
  {
    LowerStrConcat("%" + q, "%");
    LowerStrConcat("%", q);
    assert LowerStr("%") == "%";
    assert LowerStr("%" + q + "%") == "%" + LowerStr(q) + "%";
    PlainLower(q);
    if col.Some? {
      LikeSubstring(LowerStr(col.value), LowerStr(q));
    }
  }

  /** `col ILIKE q` for a plain `q` is case-insensitive equality. */
  lemma ILikeEquality(col: Option<string>, q: string)
    requires Plain(q)
    ensures ILike(col, q) <==> col.Some? && LowerStr(col.value) == LowerStr(q)
  {
    PlainLower(q);
    if col.Some? {
      LikePlainIsEquality(LowerStr(col.value), LowerStr(q));
    }
  }

  // ---------------------------------------------------------------------------
  // getAllForMap

  /** The driver returns DECIMAL columns as strings, so `p.latitude && p.longitude`
      keeps every row whose coordinates are not NULL, zero included. */
  function MapRows(rows: seq<Property>): (r: seq<Property>)
    ensures Seqs.IsSubseq(r, rows)
    ensures forall i | 0 <= i < |r| :: r[i].row.latitude != NullNumber && r[i].row.longitude != NullNumber
    ensures forall i | 0 <= i < |rows| ::
      rows[i].row.latitude != NullNumber && rows[i].row.longitude != NullNumber ==> rows[i] in r
  {
    Seqs.FilterIsSubseq(rows, HasCoordinates);
    Seqs.Filter(rows, HasCoordinates)
  }

  predicate HasCoordinates(p: Property)
  {
    p.row.latitude != NullNumber && p.row.longitude != NullNumber
  }

  // ---------------------------------------------------------------------------
  // searchProperties

  datatype SearchFilters = SearchFilters(q: Option<string>, category: Option<string>, propertyType: Option<string>)

  predicate SearchMatch(f: SearchFilters, p: Property)
  {
    && p.row.isPublished
    && (Present(f.q) ==>
          ILike(p.row.locality, "%" + f.q.value + "%")
          || ILike(p.row.neighbourhood, "%" + f.q.value + "%")
          || ILike(p.row.address, "%" + f.q.value + "%"))
    && (Present(f.category) ==> p.row.category == f.category)
    && (Present(f.propertyType) ==> p.row.propertyType == f.propertyType)
  }

  /** `searchProperties`: the published rows that match every given filter, in scan order. */
  function Search(rows: seq<Property>, f: SearchFilters): (r: seq<Property>)
    ensures Seqs.IsSubseq(r, rows)
    ensures forall i | 0 <= i < |r| :: SearchMatch(f, r[i])
    ensures forall i | 0 <= i < |rows| :: SearchMatch(f, rows[i]) ==> rows[i] in r
  {
    Seqs.FilterIsSubseq(rows, p => SearchMatch(f, p));
    Seqs.Filter(rows, p => SearchMatch(f, p))
  }

  /** For a search text without SQL wildcards, a published row is found exactly when
      its locality, neighbourhood or address contains the text, ignoring case, and it
      has the requested category and type. */
  lemma SearchMatchPlainText(f: SearchFilters, p: Property)
    requires Present(f.q) && Plain(f.q.value)
    ensures SearchMatch(f, p) <==>
      && p.row.isPublished
      && (|| (p.row.locality.Some? && Contains(LowerStr(p.row.locality.value), LowerStr(f.q.value)))
          || (p.row.neighbourhood.Some? && Contains(LowerStr(p.row.neighbourhood.value), LowerStr(f.q.value)))
          || (p.row.address.Some? && Contains(LowerStr(p.row.address.value), LowerStr(f.q.value))))
      && (Present(f.category) ==> p.row.category == f.category)
      && (Present(f.propertyType) ==> p.row.propertyType == f.propertyType)
  {
    ILikeSubstring(p.row.locality, f.q.value);
    ILikeSubstring(p.row.neighbourhood, f.q.value);
    ILikeSubstring(p.row.address, f.q.value);
  }
  // ---------------------------------------------------------------------------
  // getPublicSuggestions

  /** The `locality` query parameter: absent, one value, or repeated (an array). */
  datatype LocalityQuery = NoLocality | OneLocality(text: string) | Localities(items: seq<string>)

  datatype SuggestionFilters = SuggestionFilters(category: Option<string>, propertyType: Option<string>, locality: LocalityQuery)

  /** `locality` is truthy; an array always is. */
  predicate LocalityGiven(l: LocalityQuery)
  {
    match l
    case NoLocality => false
    case OneLocality(t) => t != ""
    case Localities(_) => true
  }

  /** `buildLocalityWhere`: no condition when absent, a substring match for one value,
      and a pattern match against any element of an array. */
  predicate LocalityMatch(l: LocalityQuery, col: Option<string>)
  {
    match l
    case NoLocality => true
    case OneLocality(t) => t == "" || ILike(col, "%" + t + "%")
    case Localities(xs) => exists i | 0 <= i < |xs| :: ILike(col, xs[i])
  }

  predicate CategoryMatch(f: SuggestionFilters, p: Property)
  {
    f.category.Some? && ILike(p.row.category, f.category.value)
  }

  predicate TypeMatch(f: SuggestionFilters, p: Property)
  {
    f.propertyType.Some? && ILike(p.row.propertyType, f.propertyType.value)
  }

  /** The attempts are numbered 1 to 5, from the strictest to the fallback. */
  type Tier = k: int | 1 <= k <= 5 witness 5

  /** Whether attempt `k` is made at all (given that the earlier ones found nothing). */
  predicate TierApplies(k: Tier, f: SuggestionFilters)
  {
    match k
    case 1 => Present(f.category) && Present(f.propertyType) && LocalityGiven(f.locality)
    case 2 => Present(f.category) && LocalityGiven(f.locality)
    case 3 => Present(f.category) && Present(f.propertyType)
    case 4 => Present(f.category)
    case 5 => true
  }

  /** The `where` clause of attempt `k`. */
  predicate TierMatch(k: Tier, f: SuggestionFilters, p: Property)
  {
    && p.row.isPublished
    && (k <= 4 ==> CategoryMatch(f, p))
    && (k == 1 || k == 3 ==> TypeMatch(f, p))
    && (k <= 2 ==> LocalityMatch(f.locality, p.row.locality))
  }

  function CreatedAt(p: Property): int { p.createdAt }

  /** `ORDER BY createdAt DESC`: `a` comes first when it is newer. */
  function Newer(a: int, b: int): bool { a > b }

  lemma NewerIsOrder()
    ensures Sorting.StrictTotalOrder(Newer)
  {
  }

  /** `findAll({ where, order: [['createdAt', 'DESC']], limit: 3 })`. */
  function Newest3(rows: seq<Property>, pred: Property -> bool): seq<Property>
  {
    Seqs.Take(Sorting.SortBy(Seqs.Filter(rows, pred), CreatedAt, Newer), 3)
  }

  /** The three newest matching rows: at most three, all matching, newest first; when
      fewer than three come back no other row matches, and a matching row left out is
      no newer than any row returned. */
  lemma Newest3Spec(rows: seq<Property>, pred: Property -> bool)
    ensures var r := Newest3(rows, pred);
      && |r| <= 3
      && (forall x | x in r :: pred(x) && x in rows)
      && (forall i, j | 0 <= i < j < |r| :: r[i].createdAt >= r[j].createdAt)
      && (forall x | x in rows && pred(x) && x !in r :: |r| == 3 && forall y | y in r :: y.createdAt >= x.createdAt)
  {
    Newest3Members(rows, pred);
    Newest3Sorted(rows, pred);
    Newest3LeftOut(rows, pred);
  }

  lemma Newest3Members(rows: seq<Property>, pred: Property -> bool)
    ensures forall x | x in Newest3(rows, pred) :: pred(x) && x in rows
  {
    var m := Seqs.Filter(rows, pred);
    var sorted := Sorting.SortBy(m, CreatedAt, Newer);
    forall x | x in Newest3(rows, pred) ensures pred(x) && x in rows {
      assert x in sorted;
      assert x in multiset(sorted);
      assert x in m;
    }
  }

  lemma Newest3Sorted(rows: seq<Property>, pred: Property -> bool)
    ensures var r := Newest3(rows, pred);
      forall i, j | 0 <= i < j < |r| :: r[i].createdAt >= r[j].createdAt
  {
    var m := Seqs.Filter(rows, pred);
    var sorted := Sorting.SortBy(m, CreatedAt, Newer);
    NewerIsOrder();
    Sorting.SortBySorted(m, CreatedAt, Newer);
    var r := Newest3(rows, pred);
    forall i, j | 0 <= i < j < |r| ensures r[i].createdAt >= r[j].createdAt {
      assert r[i] == sorted[i] && r[j] == sorted[j];
      assert !Newer(CreatedAt(sorted[j]), CreatedAt(sorted[i]));
    }
  }

  lemma Newest3LeftOut(rows: seq<Property>, pred: Property -> bool)
    ensures var r := Newest3(rows, pred);
      forall x | x in rows && pred(x) && x !in r :: |r| == 3 && forall y | y in r :: y.createdAt >= x.createdAt
  {
    var m := Seqs.Filter(rows, pred);
    var sorted := Sorting.SortBy(m, CreatedAt, Newer);
    var r := Seqs.Take(sorted, 3);
    NewerIsOrder();
    Sorting.SortBySorted(m, CreatedAt, Newer);
    forall x | x in rows && pred(x) && x !in r
      ensures |r| == 3 && forall y | y in r :: y.createdAt >= x.createdAt
    {
      assert x in m;
      assert x in multiset(m);
      assert x in multiset(sorted);
      var k :| 0 <= k < |sorted| && sorted[k] == x;
      assert k >= 3;
      forall y | y in r ensures y.createdAt >= x.createdAt {
        var i :| 0 <= i < |r| && r[i] == y;
        assert r[i] == sorted[i];
        assert !Newer(CreatedAt(sorted[k]), CreatedAt(sorted[i]));
      }
    }
  }

  function Attempt(rows: seq<Property>, f: SuggestionFilters, k: Tier): seq<Property>
  {
    Newest3(rows, p => TierMatch(k, f, p))
  }

  function Id(p: Property): nat { p.id }

  /** The attempts of one request, by number. */
  function Attempts(rows: seq<Property>, f: SuggestionFilters): Tier -> seq<Property>
  {
    (k: Tier) => Attempt(rows, f, k)
  }

  /** Which attempts one request makes, by number. */
  function Applies(f: SuggestionFilters): Tier -> bool
  {
    (k: Tier) => TierApplies(k, f)
  }

  /** The chain of attempts: each runs only while the earlier ones returned nothing,
      and the last always runs. */
  function Cascade(att: Tier -> seq<Property>, applies: Tier -> bool): (r: seq<Property>)
    ensures exists k: Tier :: r == att(k)
  {
    var s1 := if applies(1) then att(1) else [];
    var s2 := if |s1| == 0 && applies(2) then att(2) else s1;
    var s3 := if |s2| == 0 && applies(3) then att(3) else s2;
    var s4 := if |s3| == 0 && applies(4) then att(4) else s3;
    if |s4| == 0 then att(5) else s4
  }

  /** `getPublicSuggestions`: the attempt chain over the five `where` clauses, then
      duplicates by id dropped. */
  function Suggestions(rows: seq<Property>, f: SuggestionFilters): (r: seq<Property>)
    ensures |r| <= 3
    ensures forall x | x in r :: x in rows && x.row.isPublished
    ensures Seqs.DistinctKeys(r, Id)
    ensures forall i, j | 0 <= i < j < |r| :: r[i].createdAt >= r[j].createdAt
  {
    var s := Cascade(Attempts(rows, f), Applies(f));
    SuggestionsHelper(rows, f, s);
    Seqs.DedupBy(s, Id)
  }

  lemma SuggestionsHelper(rows: seq<Property>, f: SuggestionFilters, s: seq<Property>)
    requires exists k: Tier :: s == Attempts(rows, f)(k)
    ensures var r := Seqs.DedupBy(s, Id);
      && |r| <= 3
      && (forall x | x in r :: x in rows && x.row.isPublished)
      && (forall i, j | 0 <= i < j < |r| :: r[i].createdAt >= r[j].createdAt)
  {
    var k: Tier :| s == Attempts(rows, f)(k);
    Newest3Spec(rows, p => TierMatch(k, f, p));
    var r := Seqs.DedupBy(s, Id);
    Seqs.SubseqMembers(r, s);
    Sorting.SortedSubseq(r, s, CreatedAt, Newer);
  }

  /** Reference reading of the chain: the first attempt, in order, that is made and
      finds something; the last attempt otherwise. */
  function FirstOf(att: Tier -> seq<Property>, applies: Tier -> bool, k: Tier): seq<Property>
    decreases 5 - k
  {
    if k == 5 then att(5)
    else if applies(k) && |att(k)| > 0 then att(k)
    else FirstOf(att, applies, k + 1)
  }

  lemma CascadeIsFirstOf(att: Tier -> seq<Property>, applies: Tier -> bool)
    ensures Cascade(att, applies) == FirstOf(att, applies, 1)
  {
    assert FirstOf(att, applies, 3) == if applies(3) && |att(3)| > 0 then att(3) else FirstOf(att, applies, 4);
  }

  function FirstAttempt(rows: seq<Property>, f: SuggestionFilters, k: Tier): seq<Property>
  {
    FirstOf(Attempts(rows, f), Applies(f), k)
  }

  /** The cascade returns the first attempt that applies and finds something,
      de-duplicated. */
  lemma SuggestionsIsFirstAttempt(rows: seq<Property>, f: SuggestionFilters)
    ensures Suggestions(rows, f) == Seqs.DedupBy(FirstAttempt(rows, f, 1), Id)
  {
    CascadeIsFirstOf(Attempts(rows, f), Applies(f));
  }

  /** When a category is given and some published row matches it, every suggestion
      matches the category: the cascade never reaches the fallback. */
  lemma SuggestionsKeepCategory(rows: seq<Property>, f: SuggestionFilters, p: Property)
    requires Present(f.category)
    requires p in rows && p.row.isPublished && CategoryMatch(f, p)
    ensures forall x | x in Suggestions(rows, f) :: CategoryMatch(f, x)
  {
    SuggestionsIsFirstAttempt(rows, f);
    var s := FirstAttempt(rows, f, 1);
    assert TierMatch(4, f, p);
    Newest3Spec(rows, q => TierMatch(4, f, q));
    var k := FirstAttemptBelow(rows, f, 1);
    Newest3Spec(rows, q => TierMatch(k, f, q));
    Seqs.SubseqMembers(Seqs.DedupBy(s, Id), s);
  }

  /** Which attempt the cascade settles on, when the category attempt finds something. */
  lemma FirstAttemptBelow(rows: seq<Property>, f: SuggestionFilters, k: Tier) returns (j: Tier)
    requires k <= 4
    requires TierApplies(4, f) && |Attempt(rows, f, 4)| > 0
    ensures k <= j <= 4 && FirstAttempt(rows, f, k) == Attempt(rows, f, j)
  {
    j := FirstOfBelow(Attempts(rows, f), Applies(f), k);
  }

  lemma {:induction false} FirstOfBelow(att: Tier -> seq<Property>, applies: Tier -> bool, k: Tier) returns (j: Tier)
    requires k <= 4
    requires applies(4) && |att(4)| > 0
    ensures k <= j <= 4 && FirstOf(att, applies, k) == att(j)
    decreases 5 - k
  {
    if applies(k) && |att(k)| > 0 {
      j := k;
    } else {
      j := FirstOfBelow(att, applies, k + 1);
    }
  }

  // ---------------------------------------------------------------------------
  // getSimilarProperties

  /** `findByPk`: the row with the given primary key. */
  function FindById(rows: seq<Property>, id: nat): (r: Option<Property>)
    ensures r.Some? ==> r.value in rows && r.value.id == id
    ensures r.None? <==> forall x | x in rows :: x.id != id
  {
    if |rows| == 0 then None
    else if rows[0].id == id then Some(rows[0])
    else
      var r := FindById(rows[1..], id);
      assert forall x | x in rows :: x == rows[0] || x in rows[1..];
      r
  }

  /** First query: same type and same locality, published, not the property itself. */
  predicate SameTypeAndPlace(cur: Property, p: Property)
  {
    && p.row.propertyType == cur.row.propertyType
    && p.row.locality == cur.row.locality
    && p.row.isPublished
    && p.id != cur.id
  }

  /** Second query: same type, published, not the property itself nor a row already found. */
  predicate SameTypeElsewhere(cur: Property, found: set<nat>, p: Property)
  {
    && p.row.propertyType == cur.row.propertyType
    && p.row.isPublished
    && p.id != cur.id
    && p.id !in found
  }

  /** A candidate of either query. */
  predicate Candidate(cur: Property, p: Property)
  {
    p.row.propertyType == cur.row.propertyType && p.row.isPublished && p.id != cur.id
  }

  /** The same-locality phase: at most three rows, in scan order. */
  function SamePlacePhase(rows: seq<Property>, cur: Property): seq<Property>
  {
    Seqs.Take(Seqs.Filter(rows, p => SameTypeAndPlace(cur, p)), 3)
  }

  /** The top-up phase after `a` was found: at most `3 - |a|` further rows. */
  function ElsewherePhase(rows: seq<Property>, cur: Property, a: seq<Property>): seq<Property>
    requires |a| < 3
  {
    Seqs.Take(Seqs.Filter(rows, p => SameTypeElsewhere(cur, Seqs.Keys(a, Id), p)), 3 - |a|)
  }

  /** Both phases for the reference row `cur`. */
  function SimilarTo(rows: seq<Property>, cur: Property): seq<Property>
  {
    var a := SamePlacePhase(rows, cur);
    if |a| < 3 then a + ElsewherePhase(rows, cur, a) else a
  }

  /** `getSimilarProperties`: up to three published rows of the same type (a NULL type
      matches NULL), first from the same locality, then topped up from anywhere. Neither
      query is ordered, so rows come in scan order. */
  function Similar(rows: seq<Property>, id: nat): (r: seq<Property>)
    ensures |r| <= 3
    ensures FindById(rows, id).None? ==> r == []
    ensures forall x | x in r :: x in rows && x.id != id && x.row.isPublished
    ensures FindById(rows, id).Some? ==>
      forall x | x in r :: x.row.propertyType == FindById(rows, id).value.row.propertyType
  {
    match FindById(rows, id)
    case None => []
    case Some(cur) =>
      SimilarToSpec(rows, cur);
      SimilarTo(rows, cur)
  }

  lemma SimilarToSpec(rows: seq<Property>, cur: Property)
    ensures |SimilarTo(rows, cur)| <= 3
    ensures forall x | x in SimilarTo(rows, cur) :: x in rows && Candidate(cur, x)
  {
    var a := SamePlacePhase(rows, cur);
    assert forall x | x in a :: x in rows && Candidate(cur, x);
    if |a| < 3 {
      var b := ElsewherePhase(rows, cur, a);
      assert forall x | x in b :: x in rows && Candidate(cur, x);
      assert forall x | x in a + b :: x in a || x in b;
    }
  }

  /** A same-locality candidate is left out only when three same-locality rows were found. */
  lemma SimilarPrefersSameLocality(rows: seq<Property>, id: nat, c: Property)
    requires FindById(rows, id).Some?
    requires c in rows && SameTypeAndPlace(FindById(rows, id).value, c)
    requires c !in Similar(rows, id)
    ensures |Similar(rows, id)| == 3
    ensures forall x | x in Similar(rows, id) :: SameTypeAndPlace(FindById(rows, id).value, x)
  {
    var cur := FindById(rows, id).value;
    var fa := Seqs.Filter(rows, p => SameTypeAndPlace(cur, p));
    assert c in fa;
  }

  /** Fewer than three results means every candidate was returned (primary keys are
      distinct). */
  lemma SimilarExhaustive(rows: seq<Property>, id: nat, c: Property)
    requires Seqs.DistinctKeys(rows, Id)
    requires FindById(rows, id).Some?
    requires c in rows && Candidate(FindById(rows, id).value, c)
    ensures |Similar(rows, id)| < 3 ==> c in Similar(rows, id)
  {
    var cur := FindById(rows, id).value;
    assert Similar(rows, id) == SimilarTo(rows, cur);
    if |SimilarTo(rows, cur)| < 3 {
      SimilarToExhaustive(rows, cur, c);
    }
  }

  lemma SimilarToExhaustive(rows: seq<Property>, cur: Property, c: Property)
    requires Seqs.DistinctKeys(rows, Id)
    requires c in rows && Candidate(cur, c)
    requires |SimilarTo(rows, cur)| < 3
    ensures c in SimilarTo(rows, cur)
  {
    var a := SamePlacePhase(rows, cur);
    var fa := Seqs.Filter(rows, p => SameTypeAndPlace(cur, p));
    assert |a| < 3 && a == fa;
    if c !in a {
      if c.id in Seqs.Keys(a, Id) {
        var i :| 0 <= i < |a| && a[i].id == c.id;
        SameIdSameRow(rows, a[i], c);
      }
      var fb := Seqs.Filter(rows, p => SameTypeElsewhere(cur, Seqs.Keys(a, Id), p));
      assert c in fb;
      var b := ElsewherePhase(rows, cur, a);
      assert |b| < 3 - |a| && b == fb;
      assert c in a + b;
    }
  }

  /** With distinct primary keys, two rows of the table with the same id are the same row. */
  lemma SameIdSameRow(rows: seq<Property>, x: Property, y: Property)
    requires Seqs.DistinctKeys(rows, Id)
    requires x in rows && y in rows && x.id == y.id
    ensures x == y
  {
    var i :| 0 <= i < |rows| && rows[i] == x;
    var j :| 0 <= j < |rows| && rows[j] == y;
    assert Id(rows[i]) == Id(rows[j]);
  }

  /** With distinct primary keys, the result has no repeated row. */
  lemma SimilarDistinct(rows: seq<Property>, id: nat)
    requires Seqs.DistinctKeys(rows, Id)
    ensures Seqs.DistinctKeys(Similar(rows, id), Id)
  {
    if FindById(rows, id).Some? {
      var cur := FindById(rows, id).value;
      assert Similar(rows, id) == SimilarTo(rows, cur);
      SimilarToDistinct(rows, cur);
    }
  }

  lemma PhaseDistinct(rows: seq<Property>, p: Property -> bool, n: nat)
    requires Seqs.DistinctKeys(rows, Id)
    ensures Seqs.DistinctKeys(Seqs.Take(Seqs.Filter(rows, p), n), Id)
    ensures forall x | x in Seqs.Take(Seqs.Filter(rows, p), n) :: p(x)
  {
    var f := Seqs.Filter(rows, p);
    var t := Seqs.Take(f, n);
    Seqs.FilterIsSubseq(rows, p);
    Seqs.TakeIsSubseq(f, n);
    Seqs.IsSubseqTransitive(t, f, rows);
    SubseqDistinct(t, rows);
  }

  lemma SimilarToDistinct(rows: seq<Property>, cur: Property)
    requires Seqs.DistinctKeys(rows, Id)
    ensures Seqs.DistinctKeys(SimilarTo(rows, cur), Id)
  {
    var a := SamePlacePhase(rows, cur);
    PhaseDistinct(rows, p => SameTypeAndPlace(cur, p), 3);
    if |a| < 3 {
      var q := p => SameTypeElsewhere(cur, Seqs.Keys(a, Id), p);
      var b := ElsewherePhase(rows, cur, a);
      PhaseDistinct(rows, q, 3 - |a|);
      assert forall x | x in b :: x.id !in Seqs.Keys(a, Id);
      var r := a + b;
      forall i, j | 0 <= i < j < |r| ensures r[i].id != r[j].id {
        if i < |a| && j >= |a| {
          assert r[j] == b[j - |a|] && r[j] in b;
          assert r[i] == a[i] && r[i].id in Seqs.Keys(a, Id);
        }
      }
    }
  }

  lemma {:induction false} SubseqDistinct(a: seq<Property>, b: seq<Property>)
    requires Seqs.IsSubseq(a, b) && Seqs.DistinctKeys(b, Id)
    ensures Seqs.DistinctKeys(a, Id)
    decreases |b|
  {
    if |a| > 0 && |b| > 0 {
      assert Seqs.DistinctKeys(b[1..], Id) by {
        forall i, j | 0 <= i < j < |b[1..]| ensures b[1..][i].id != b[1..][j].id {
          assert b[1..][i] == b[i + 1] && b[1..][j] == b[j + 1];
        }
      }
      if a[0] == b[0] {
        SubseqDistinct(a[1..], b[1..]);
        Seqs.SubseqMembers(a[1..], b[1..]);
        forall i, j | 0 <= i < j < |a| ensures a[i].id != a[j].id {
          assert a[j] == a[1..][j - 1];
          assert a[j] in b[1..];
          var m :| 0 <= m < |b[1..]| && b[1..][m] == a[j];
          assert b[m + 1] == a[j];
          if i > 0 {
            assert a[i] == a[1..][i - 1];
          }
        }
      } else {
        SubseqDistinct(a, b[1..]);
      }
    }
  }
}
