/** The public results page's pure logic: `formatText`, the card slug, the query
    string built on submit, the filters read back from it, `removeFilter`, and the
    parameters forwarded to the suggestion endpoint. */
module Results {
  import opened Wrappers
  import opened Records
  import opened Text
  import Seqs
  import Queries

  // ---------------------------------------------------------------------------
  // formatText

  function Unscore(c: char): char { if c == '_' then ' ' else c }

  /** `\b\w`: a word character not preceded by one. */
  predicate WordStart(t: string, i: int)
    requires 0 <= i < |t|
  {
    IsWordChar(t[i]) && (i == 0 || !IsWordChar(t[i - 1]))
  }

  /** `formatText`: falsy gives `""`; otherwise every `_` becomes a space and the first
      character of every word is uppercased. */
  function FormatText(text: Option<string>): (r: string)
    ensures !Present(text) ==> r == ""
    ensures Present(text) ==> |r| == |text.value|
    ensures forall i | 0 <= i < |r| :: r[i] != '_'
    ensures Present(text) ==> forall i | 0 <= i < |r| ::
      && (text.value[i] == '_' ==> r[i] == ' ')
      && (text.value[i] != '_' ==> r[i] == Upper(text.value[i]) || r[i] == text.value[i])
  {
    if !Present(text) then ""
    else
      var t := seq(|text.value|, i requires 0 <= i < |text.value| => Unscore(text.value[i]));
      seq(|t|, i requires 0 <= i < |t| => if WordStart(t, i) then Upper(t[i]) else t[i])
  }

  /** Read against the input: an underscore becomes a space, a word character that
      starts the text or follows an underscore or a non-word character is
      capitalised, and every other character is kept. */
  lemma FormatTextWordStarts(s: string)
    ensures forall i | 0 <= i < |s| ::
              FormatText(Some(s))[i] ==
                (if s[i] == '_' then ' '
                 else if IsWordChar(s[i]) && (i == 0 || s[i - 1] == '_' || !IsWordChar(s[i - 1])) then Upper(s[i])
                 else s[i])
  {
    if s != "" {
      var t := seq(|s|, i requires 0 <= i < |s| => Unscore(s[i]));
      forall i | 0 <= i < |s|
        ensures WordStart(t, i) <==> s[i] != '_' && IsWordChar(s[i]) && (i == 0 || s[i - 1] == '_' || !IsWordChar(s[i - 1]))
      {
      }
    }
  }

  lemma UpperKeepsClass(c: char)
    ensures IsWordChar(Upper(c)) == IsWordChar(c)
    ensures Upper(Upper(c)) == Upper(c)
    ensures Unscore(Upper(c)) == Upper(Unscore(c))
  {
  }

  /** Formatting a formatted text changes nothing. */
  lemma FormatTextIdempotent(s: string)
    ensures FormatText(Some(FormatText(Some(s)))) == FormatText(Some(s))
  {
    var t := seq(|s|, i requires 0 <= i < |s| => Unscore(s[i]));
    var r := FormatText(Some(s));
    var t2 := seq(|r|, i requires 0 <= i < |r| => Unscore(r[i]));
    assert t2 == r;
    forall i | 0 <= i < |r| ensures IsWordChar(r[i]) == IsWordChar(t[i]) {
      UpperKeepsClass(t[i]);
    }
    forall i | 0 <= i < |r| ensures WordStart(r, i) == WordStart(t, i) {
      if i > 0 {
        UpperKeepsClass(t[i - 1]);
      }
    }
    forall i | 0 <= i < |r| ensures FormatText(Some(r))[i] == r[i] {
      UpperKeepsClass(t[i]);
    }
  }

  // ---------------------------------------------------------------------------
  // The card slug

  /** `[a-z0-9\s-]`, the characters the slug keeps before collapsing. */
  predicate SlugSource(c: char) { IsLower(c) || IsDigit(c) || IsSpace(c) || c == '-' }

  predicate SpaceOrHyphen(c: char) { IsSpace(c) || c == '-' }

  predicate IsSlugChar(c: char) { IsLower(c) || IsDigit(c) || c == '-' }

  /** `[a-z0-9-]` only, no `-` at either end, no `--`. */
  predicate IsSlug(s: string)
  {
    && (forall i | 0 <= i < |s| :: IsSlugChar(s[i]))
    && (|s| > 0 ==> s[0] != '-' && s[|s| - 1] != '-')
    && (forall i | 0 <= i < |s| - 1 :: !(s[i] == '-' && s[i + 1] == '-'))
  }

  predicate IsHyphenChar(c: char) { c == '-' }

  /** `.replace(/^-+|-+$/g, '')` */
  function TrimHyphens(s: string): (r: string)
    ensures |r| > 0 ==> r[0] != '-' && r[|r| - 1] != '-'
  {
    var d := DropWhile(s, IsHyphenChar);
    TrimEndSpec(d, '-');
    TrimEnd(d, '-')
  }

  /** The trimmed string is a slice of the input. */
  lemma TrimHyphensSlice(s: string) returns (i: nat, j: nat)
    ensures i <= j <= |s| && TrimHyphens(s) == s[i..j]
  {
    var d := DropWhile(s, IsHyphenChar);
    TrimEndSpec(d, '-');
    var r := TrimEnd(d, '-');
    i, j := |s| - |d|, |s| - |d| + |r|;
    assert r == d[..|r|];
  }

  /** A string with no hyphen at either end is left as it is. */
  lemma TrimHyphensUnbordered(s: string)
    requires |s| > 0 ==> s[0] != '-' && s[|s| - 1] != '-'
    ensures TrimHyphens(s) == s
  {
    assert DropWhile(s, IsHyphenChar) == s;
    TrimEndSpec(s, '-');
  }

  /** Trimming keeps the character class and the absence of `--`. */
  lemma TrimHyphensSlug(s: string)
    requires forall i | 0 <= i < |s| :: IsSlugChar(s[i])
    requires forall i | 0 <= i < |s| - 1 :: !(s[i] == '-' && s[i + 1] == '-')
    ensures IsSlug(TrimHyphens(s))
  {
    var r := TrimHyphens(s);
    var i, j := TrimHyphensSlice(s);
    assert forall k | 0 <= k < |r| :: r[k] == s[i + k];
  }

  function SlugMap(s: string): (r: string)
    ensures |r| == |s|
    ensures forall i | 0 <= i < |s| :: r[i] == if SlugSource(s[i]) then s[i] else ' '
    ensures forall i | 0 <= i < |r| :: SlugSource(r[i])
  {
    seq(|s|, i requires 0 <= i < |s| => if SlugSource(s[i]) then s[i] else ' ')
  }

  /** The characters outside `[a-z0-9\s-]` become spaces, then runs of spaces and
      hyphens become one `-`. */
  function Collapse(lowered: string): (r: string)
    ensures forall i | 0 <= i < |r| :: IsSlugChar(r[i])
    ensures forall i | 0 <= i < |r| - 1 :: !(r[i] == '-' && r[i + 1] == '-')
  {
    var kept := SlugMap(lowered);
    var r := ReplaceRuns(kept, SpaceOrHyphen, '-');
    forall i | 0 <= i < |r| ensures IsSlugChar(r[i]) {
      if r[i] != '-' {
        var j :| 0 <= j < |kept| && kept[j] == r[i];
        assert SlugSource(kept[j]);
      }
    }
    r
  }

  /** The slug of `createPropertyCard`, for a name already free of combining marks:
      lowercase, other characters to spaces, runs of spaces and hyphens to one `-`,
      hyphens at the ends dropped. */
  function Slug(name: string): (r: string)
    ensures IsSlug(r)
  {
    var c := Collapse(LowerStr(name));
    TrimHyphensSlug(c);
    TrimHyphens(c)
  }

  lemma SlugCharsKept(s: string)
    requires IsSlug(s)
    ensures LowerStr(s) == s
    ensures SlugMap(s) == s
    ensures forall i | 0 <= i < |s| :: SpaceOrHyphen(s[i]) <==> s[i] == '-'
  {
  }

  /** A name that already is a slug is its own slug. */
  lemma SlugOfSlug(s: string)
    requires IsSlug(s)
    ensures Slug(s) == s
  {
    SlugCharsKept(s);
    ReplaceRunsSingletons(s, SpaceOrHyphen, '-');
    assert Collapse(LowerStr(s)) == s;
    TrimHyphensUnbordered(s);
  }

  /** Slugging a slug changes nothing. */
  lemma SlugIdempotent(name: string)
    ensures Slug(Slug(name)) == Slug(name)
  {
    SlugOfSlug(Slug(name));
  }

  // ---------------------------------------------------------------------------
  // Query strings

  /** One `key=value` entry of a query string, in order. */
  datatype Param = Param(key: string, value: string)

  type Params = seq<Param>

  /** `params.getAll(key)` */
  function GetAll(ps: Params, key: string): seq<string>
  {
    if |ps| == 0 then [] else ValueIf(ps[0], key) + GetAll(ps[1..], key)
  }

  /** The value of one entry when it has the key. */
  function ValueIf(p: Param, key: string): seq<string>
  {
    if p.key == key then [p.value] else []
  }

  /** `params.get(key)`: the first value, or null. */
  function Get(ps: Params, key: string): (r: Option<string>)
    ensures r.Some? <==> |GetAll(ps, key)| > 0
    ensures r.Some? ==> r.value == GetAll(ps, key)[0]
  {
    if |ps| == 0 then None
    else if ps[0].key == key then Some(ps[0].value)
    else Get(ps[1..], key)
  }

  lemma {:induction false} GetAllConcat(a: Params, b: Params, key: string)
    ensures GetAll(a + b, key) == GetAll(a, key) + GetAll(b, key)
  {
    if |a| == 0 {
      assert a + b == b;
    } else {
      assert (a + b)[1..] == a[1..] + b;
      assert (a + b)[0] == a[0];
      GetAllConcat(a[1..], b, key);
    }
  }

  /** The entries `key=v` for each `v`, in order (`forEach(v => params.append(key, v))`). */
  function Entries(key: string, vs: seq<string>): (r: Params)
    ensures |r| == |vs|
    ensures forall i | 0 <= i < |vs| :: r[i] == Param(key, vs[i])
  {
    seq(|vs|, i requires 0 <= i < |vs| => Param(key, vs[i]))
  }

  lemma {:induction false} GetAllEntries(key: string, vs: seq<string>, k: string)
    ensures GetAll(Entries(key, vs), k) == if k == key then vs else []
  {
    if |vs| > 0 {
      GetAllEntries(key, vs[1..], k);
      assert Entries(key, vs)[1..] == Entries(key, vs[1..]);
    }
  }

  function KeyIsNot(key: string): Param -> bool
  {
    (p: Param) => p.key != key
  }

  /** `params.delete(key)` */
  function Delete(ps: Params, key: string): Params
  {
    Seqs.Filter(ps, KeyIsNot(key))
  }

  lemma {:induction false} GetAllDelete(ps: Params, key: string, k: string)
    ensures GetAll(Delete(ps, key), k) == if k == key then [] else GetAll(ps, k)
  {
    if |ps| > 0 {
      GetAllDelete(ps[1..], key, k);
      var d := Delete(ps, key);
      var d' := Delete(ps[1..], key);
      if ps[0].key != key {
        assert d == [ps[0]] + d';
        assert d[0] == ps[0] && d[1..] == d';
      } else {
        assert d == d';
      }
    }
  }

  function NotValue(v: string): string -> bool
  {
    (x: string) => x != v
  }

  /** `removeFilter`: every entry of the key is deleted and those whose value differs
      from the target are appended again, so they move after the other keys' entries. */
  function RemoveFilter(ps: Params, key: string, value: string): (r: Params)
    ensures GetAll(r, key) == Seqs.Filter(GetAll(ps, key), NotValue(value))
    ensures forall k | k != key :: GetAll(r, k) == GetAll(ps, k)
    ensures forall p | p in r :: !(p.key == key && p.value == value)
  {
    var kept := Seqs.Filter(GetAll(ps, key), NotValue(value));
    var r := Delete(ps, key) + Entries(key, kept);
    GetAllConcat(Delete(ps, key), Entries(key, kept), key);
    GetAllDelete(ps, key, key);
    GetAllEntries(key, kept, key);
    forall k | k != key ensures GetAll(r, k) == GetAll(ps, k) {
      GetAllConcat(Delete(ps, key), Entries(key, kept), k);
      GetAllDelete(ps, key, k);
      GetAllEntries(key, kept, k);
    }
    forall p | p in r ensures !(p.key == key && p.value == value) {
      if p in Delete(ps, key) {
        assert KeyIsNot(key)(p);
      } else {
        var i :| 0 <= i < |Entries(key, kept)| && Entries(key, kept)[i] == p;
        assert p.value == kept[i];
        assert NotValue(value)(kept[i]);
      }
    }
    r
  }

  /** The entries of other keys are untouched, in their order. */
  lemma RemoveFilterKeepsOthers(ps: Params, key: string, value: string)
    ensures Delete(RemoveFilter(ps, key, value), key) == Delete(ps, key)
  {
    var kept := Seqs.Filter(GetAll(ps, key), NotValue(value));
    Seqs.FilterConcat(Delete(ps, key), Entries(key, kept), KeyIsNot(key));
    Seqs.FilterFilter(ps, KeyIsNot(key), KeyIsNot(key));
    assert Seqs.Filter(Entries(key, kept), KeyIsNot(key)) == [] by {
      NoneKept(Entries(key, kept), key);
    }
  }

  lemma {:induction false} NoneKept(ps: Params, key: string)
    requires forall i | 0 <= i < |ps| :: ps[i].key == key
    ensures Seqs.Filter(ps, KeyIsNot(key)) == []
  {
    if |ps| > 0 {
      NoneKept(ps[1..], key);
    }
  }

  // ---------------------------------------------------------------------------
  // Submitting the filter form and reading it back

  /** The form fields `FormData.get` returns (null for a missing field) and the checked
      localities in document order. */
  datatype SearchForm = SearchForm(
    category: Option<string>,
    propertyType: Option<string>,
    subtype: Option<string>,
    minPrice: Option<string>,
    maxPrice: Option<string>,
    sortOrder: Option<string>,
    currency: Option<string>,
    localities: seq<string>)

  /** `if (v) params.append(key, v)` */
  function AppendIf(ps: Params, key: string, v: Option<string>): Params
  {
    if Present(v) then ps + [Param(key, v.value)] else ps
  }

  const SingleKeys: seq<string> := ["category", "type", "subtype", "minPrice", "maxPrice", "sortOrder", "filterCurrency"]

  lemma SingleKeysDistinct()
    ensures Seqs.Distinct(SingleKeys)
    ensures "locality" !in SingleKeys
  {
  }

  function FormField(f: SearchForm, key: string): Option<string>
  {
    if key == "category" then f.category
    else if key == "type" then f.propertyType
    else if key == "subtype" then f.subtype
    else if key == "minPrice" then f.minPrice
    else if key == "maxPrice" then f.maxPrice
    else if key == "sortOrder" then f.sortOrder
    else if key == "filterCurrency" then f.currency
    else None
  }

  /** `if (v) params.append(key, v)` for each key in turn, the value read by `field`. */
  function AppendFields(keys: seq<string>, field: string -> Option<string>): Params
  {
    if |keys| == 0 then []
    else
      var n := |keys| - 1;
      AppendIf(AppendFields(keys[..n], field), keys[n], field(keys[n]))
  }

  /** Appending distinct keys: each key's values are its field when truthy, and
      nothing else appears. */
  lemma {:induction false} AppendFieldsGetAll(keys: seq<string>, field: string -> Option<string>, k: string)
    requires Seqs.Distinct(keys)
    ensures GetAll(AppendFields(keys, field), k) == if k in keys && Present(field(k)) then [field(k).value] else []
  {
    if |keys| > 0 {
      var n := |keys| - 1;
      var init := keys[..n];
      assert Seqs.Distinct(init) by {
        forall i, j | 0 <= i < j < |init| ensures init[i] != init[j] {
          assert init[i] == keys[i] && init[j] == keys[j];
        }
      }
      AppendFieldsGetAll(init, field, k);
      GetAllAppendIf(AppendFields(init, field), keys[n], field(keys[n]), k);
      assert keys == init + [keys[n]];
      if k == keys[n] {
        assert k !in init by {
          forall i | 0 <= i < |init| ensures init[i] != k {
            assert init[i] == keys[i];
          }
        }
      }
    }
  }

  function FormFields(f: SearchForm): string -> Option<string>
  {
    k => FormField(f, k)
  }

  /** The submit handler's query string: the single-valued fields in order, then one
      `locality` entry per checked box. */
  function Submit(f: SearchForm): Params
  {
    AppendFields(SingleKeys, FormFields(f)) + Entries("locality", f.localities)
  }

  lemma GetAllAppendIf(ps: Params, key: string, v: Option<string>, k: string)
    ensures GetAll(AppendIf(ps, key, v), k) == GetAll(ps, k) + (if k == key && Present(v) then [v.value] else [])
  {
    if Present(v) {
      GetAllConcat(ps, [Param(key, v.value)], k);
      assert [Param(key, v.value)][1..] == [];
    }
  }

  /** Every single-valued field appears once when truthy and not at all otherwise; the
      checked localities appear in order; no other key appears. */
  lemma SubmitSpec(f: SearchForm, k: string)
    ensures k in SingleKeys ==> GetAll(Submit(f), k) == if Present(FormField(f, k)) then [FormField(f, k).value] else []
    ensures k == "locality" ==> GetAll(Submit(f), k) == f.localities
    ensures k !in SingleKeys && k != "locality" ==> GetAll(Submit(f), k) == []
  {
    SingleKeysDistinct();
    AppendFieldsGetAll(SingleKeys, FormFields(f), k);
    assert FormFields(f)(k) == FormField(f, k);
    GetAllConcat(AppendFields(SingleKeys, FormFields(f)), Entries("locality", f.localities), k);
    GetAllEntries("locality", f.localities, k);
  }

  /** `params.get` of a single-valued field after submitting: the field when truthy. */
  lemma SubmitGet(f: SearchForm, k: string)
    requires k in SingleKeys
    ensures Get(Submit(f), k) == if Present(FormField(f, k)) then FormField(f, k) else None
  {
    SubmitSpec(f, k);
  }

  /** What `setFiltersFromURL` puts in the form: each select gets its parameter or
      `""` (the sort order defaults to `newest`; the currency keeps the page default
      when absent), and a locality box is checked iff its value is among the
      `locality` parameters. */
  datatype FilterState = FilterState(
    category: string,
    propertyType: string,
    subtype: string,
    minPrice: string,
    maxPrice: string,
    sortOrder: string,
    currency: string,
    checked: seq<bool>)

  function OrEmpty(v: Option<string>): string
  {
    if Present(v) then v.value else ""
  }

  function SetFiltersFromUrl(ps: Params, boxes: seq<string>, defaultCurrency: string): (r: FilterState)
    ensures |r.checked| == |boxes|
    ensures forall i | 0 <= i < |boxes| :: r.checked[i] <==> boxes[i] in GetAll(ps, "locality")
  {
    FilterState(
      OrEmpty(Get(ps, "category")),
      OrEmpty(Get(ps, "type")),
      OrEmpty(Get(ps, "subtype")),
      OrEmpty(Get(ps, "minPrice")),
      OrEmpty(Get(ps, "maxPrice")),
      if Present(Get(ps, "sortOrder")) then Get(ps, "sortOrder").value else "newest",
      if Present(Get(ps, "filterCurrency")) then Get(ps, "filterCurrency").value else defaultCurrency,
      seq(|boxes|, i requires 0 <= i < |boxes| => boxes[i] in GetAll(ps, "locality")))
  }

  /** Submitting the form and reading the URL back restores every field that was set
      and checks exactly the boxes that were checked. */
  lemma SubmitThenRead(f: SearchForm, boxes: seq<string>, defaultCurrency: string)
    ensures var st := SetFiltersFromUrl(Submit(f), boxes, defaultCurrency);
      && st.category == OrEmpty(f.category)
      && st.propertyType == OrEmpty(f.propertyType)
      && st.subtype == OrEmpty(f.subtype)
      && st.minPrice == OrEmpty(f.minPrice)
      && st.maxPrice == OrEmpty(f.maxPrice)
      && st.sortOrder == (if Present(f.sortOrder) then f.sortOrder.value else "newest")
      && st.currency == (if Present(f.currency) then f.currency.value else defaultCurrency)
      && forall i | 0 <= i < |boxes| :: st.checked[i] <==> boxes[i] in f.localities
  {
    var st := SetFiltersFromUrl(Submit(f), boxes, defaultCurrency);
    assert st.category == OrEmpty(f.category) by { SubmitGet(f, "category"); }
    assert st.propertyType == OrEmpty(f.propertyType) by { SubmitGet(f, "type"); }
    assert st.subtype == OrEmpty(f.subtype) by { SubmitGet(f, "subtype"); }
    assert st.minPrice == OrEmpty(f.minPrice) by { SubmitGet(f, "minPrice"); }
    assert st.maxPrice == OrEmpty(f.maxPrice) by { SubmitGet(f, "maxPrice"); }
    assert st.sortOrder == (if Present(f.sortOrder) then f.sortOrder.value else "newest") by {
      SubmitGet(f, "sortOrder");
    }
    assert st.currency == (if Present(f.currency) then f.currency.value else defaultCurrency) by {
      SubmitGet(f, "filterCurrency");
    }
    SubmitSpec(f, "locality");
  }

  /** Removing a locality tag unchecks that box and leaves the other boxes alone. */
  lemma RemoveLocalityUnchecks(ps: Params, v: string, boxes: seq<string>, defaultCurrency: string)
    ensures var before := SetFiltersFromUrl(ps, boxes, defaultCurrency);
      var after := SetFiltersFromUrl(RemoveFilter(ps, "locality", v), boxes, defaultCurrency);
      forall i | 0 <= i < |boxes| :: after.checked[i] == (before.checked[i] && boxes[i] != v)
  {
    var all := GetAll(ps, "locality");
    forall i | 0 <= i < |boxes|
      ensures boxes[i] in Seqs.Filter(all, NotValue(v)) <==> boxes[i] in all && boxes[i] != v
    {
      if boxes[i] in all && boxes[i] != v {
        var j :| 0 <= j < |all| && all[j] == boxes[i];
        assert NotValue(v)(all[j]);
      }
    }
  }

  // ---------------------------------------------------------------------------
  // Suggestions

  /** The suggestion request: the category and type when truthy, then every locality. */
  function SuggestionParams(ps: Params): Params
  {
    AppendFields(["category", "type"], Gets(ps)) + Entries("locality", GetAll(ps, "locality"))
  }

  /** The values the suggestion request carries under one key. */
  lemma SuggestionParamsGetAll(ps: Params, k: string)
    ensures GetAll(SuggestionParams(ps), k)
         == (if (k == "category" || k == "type") && Present(Get(ps, k)) then [Get(ps, k).value] else [])
          + (if k == "locality" then GetAll(ps, "locality") else [])
  {
    var fields := AppendFields(["category", "type"], Gets(ps));
    assert Seqs.Distinct(["category", "type"]);
    AppendFieldsGetAll(["category", "type"], Gets(ps), k);
    GetAllConcat(fields, Entries("locality", GetAll(ps, "locality")), k);
    GetAllEntries("locality", GetAll(ps, "locality"), k);
  }

  /** The suggestion request carries the category and the type only when they are
      truthy, every locality in order, and nothing else. */
  lemma SuggestionParamsSpec(ps: Params)
    ensures GetAll(SuggestionParams(ps), "locality") == GetAll(ps, "locality")
    ensures forall k | k != "category" && k != "type" && k != "locality" :: GetAll(SuggestionParams(ps), k) == []
    ensures Get(SuggestionParams(ps), "category") == if Present(Get(ps, "category")) then Get(ps, "category") else None
    ensures Get(SuggestionParams(ps), "type") == if Present(Get(ps, "type")) then Get(ps, "type") else None
  {
    SuggestionParamsGetAll(ps, "locality");
    SuggestionParamsGetAll(ps, "category");
    SuggestionParamsGetAll(ps, "type");
    forall k | k != "category" && k != "type" && k != "locality"
      ensures GetAll(SuggestionParams(ps), k) == []
    {
      SuggestionParamsGetAll(ps, k);
    }
  }

  function Gets(ps: Params): string -> Option<string>
  {
    k => Get(ps, k)
  }

  /** How the server reads the suggestion request's query: one value as a string,
      a repeated `locality` as an array. */
  function SuggestionFiltersOf(ps: Params): Queries.SuggestionFilters
  {
    var locs := GetAll(ps, "locality");
    Queries.SuggestionFilters(
      Get(ps, "category"),
      Get(ps, "type"),
      if |locs| == 0 then Queries.NoLocality
      else if |locs| == 1 then Queries.OneLocality(locs[0])
      else Queries.Localities(locs))
  }

  /** At most three suggestion cards are rendered, and since the server returns at
      most three, all of them are. */
  function SuggestionCards(suggestions: seq<Property>): (r: seq<Property>)
    ensures |r| == if |suggestions| < 3 then |suggestions| else 3
    ensures r <= suggestions
  {
    Seqs.Take(suggestions, 3)
  }

  lemma AllSuggestionsShown(rows: seq<Property>, ps: Params)
    ensures SuggestionCards(Queries.Suggestions(rows, SuggestionFiltersOf(SuggestionParams(ps))))
         == Queries.Suggestions(rows, SuggestionFiltersOf(SuggestionParams(ps)))
  {
  }
}
