/** The private map's filter panel: the dropdown filter, the marker filter of
    `applyFilters`, and the updaters that disable the currency, type and subtype
    options no property could match (with the " (Sin datos)" label suffix). */
module PrivateMap {
  import opened Wrappers
  import opened Records
  import opened Text
  import Seqs

  /** The suffix an unavailable option's label gets, and the text the guard looks for. */
  const NoData := " (Sin datos)"
  const NoDataTag := "(Sin datos)"

  /** An `<option>` of a select: its value, its label text and whether it is disabled. */
  datatype Choice = Choice(value: string, text: string, disabled: bool)

  /** A `<select>`: its options and its current value. */
  datatype Select = Select(options: seq<Choice>, value: string)

  /** The three dropdowns; `""` is "all". */
  datatype Dropdowns = Dropdowns(category: string, propertyType: string, subtype: string)

  /** `p.category?.toLowerCase() === category`: a missing category never matches. */
  predicate CategoryIs(p: Property, category: string)
  {
    p.row.category.Some? && LowerStr(p.row.category.value) == category
  }

  /** The dropdown test shared by `getDataFilteredByDropdowns`, `applyFilters` and
      `updateCurrencyAvailability`: an empty dropdown matches everything; the category
      is compared lowercased, type and subtype exactly. */
  predicate DropdownMatch(d: Dropdowns, p: Property)
  {
    && (d.category != "" ==> CategoryIs(p, d.category))
    && (d.propertyType != "" ==> p.row.propertyType == Some(d.propertyType))
    && (d.subtype != "" ==> p.row.subtype == Some(d.subtype))
  }

  /** `getDataFilteredByDropdowns` */
  function FilteredByDropdowns(props: seq<Property>, d: Dropdowns): (r: seq<Property>)
    ensures Seqs.IsSubseq(r, props)
    ensures forall p | p in r :: DropdownMatch(d, p)
    ensures forall p | p in props && DropdownMatch(d, p) :: p in r
  {
    Seqs.FilterIsSubseq(props, p => DropdownMatch(d, p));
    Seqs.Filter(props, p => DropdownMatch(d, p))
  }

  /** With every dropdown on "all", nothing is filtered out. */
  lemma EmptyDropdownsKeepAll(props: seq<Property>)
    ensures FilteredByDropdowns(props, Dropdowns("", "", "")) == props
  {
    Seqs.FilterAll(props, p => DropdownMatch(Dropdowns("", "", ""), p));
  }

  // ---------------------------------------------------------------------------
  // applyFilters

  /** A slider range; `high` None is `Infinity`. */
  datatype Range = Range(low: int, high: Option<int>)

  /** `[0, Infinity]`, the range when there is no slider. */
  const Unbounded := Range(0, None)

  predicate InRange(x: int, r: Range)
  {
    r.low <= x && (r.high.None? || x <= r.high.value)
  }

  /** The panel's state as `applyFilters` reads it: the dropdowns, the currency (`""` is
      any) and the two sliders when they exist. */
  datatype MapFilters = MapFilters(dropdowns: Dropdowns, currency: string, priceSlider: Option<Range>, surfaceSlider: Option<Range>)

  /** The marker test: the dropdowns; when a currency is chosen, the same currency and a
      price (`parseFloat(price) || 0`) in the price range; always a surface in the
      surface range. Without a slider the range is `[0, Infinity]`. */
  predicate Passes(f: MapFilters, p: Property)
  {
    && DropdownMatch(f.dropdowns, p)
    && (f.currency != "" ==>
          p.row.currency == Some(f.currency)
          && InRange(NumberOrZero(p.row.price), f.priceSlider.GetOr(Unbounded)))
    && InRange(NumberOrZero(p.row.totalSurface), f.surfaceSlider.GetOr(Unbounded))
  }

  /** `applyFilters`: the properties whose markers are drawn, in input order. */
  function ApplyFilters(props: seq<Property>, f: MapFilters): (r: seq<Property>)
    ensures Seqs.IsSubseq(r, props)
    ensures forall p | p in r :: DropdownMatch(f.dropdowns, p) && (f.currency != "" ==> p.row.currency == Some(f.currency))
    ensures forall p | p in props :: p in r <==> Passes(f, p)
  {
    Seqs.FilterIsSubseq(props, p => Passes(f, p));
    Seqs.Filter(props, p => Passes(f, p))
  }

  /** The markers drawn are the dropdown-filtered data narrowed by currency, price and
      surface: filtering by the dropdowns first changes nothing. */
  lemma ApplyFiltersRefinesDropdowns(props: seq<Property>, f: MapFilters)
    ensures ApplyFilters(props, f) == Seqs.Filter(FilteredByDropdowns(props, f.dropdowns), p => Passes(f, p))
  {
    Seqs.FilterStronger(props, p => DropdownMatch(f.dropdowns, p), p => Passes(f, p));
  }

  /** Without a currency the price plays no part; a price below zero is filtered out as
      soon as a currency is chosen, even with the default range. */
  lemma PriceNeedsCurrency(f: MapFilters, p: Property, price: Numeric)
    ensures f.currency == "" ==> (Passes(f, p) <==> Passes(f, p.(row := p.row.(price := price))))
    ensures f.currency != "" && f.priceSlider.None? && NumberOrZero(p.row.price) < 0 ==> !Passes(f, p)
  {
  }

  // ---------------------------------------------------------------------------
  // Option availability

  /** The guarded marking of `updateCurrencyAvailability`, `updateTypeAvailability` and
      `updateSubtypeAvailability`: an unavailable option is disabled and gets the suffix
      unless its label already shows the tag; an available one is enabled and loses the
      first occurrence of the suffix. */
  function Mark(o: Choice, available: bool): (r: Choice)
    ensures r.value == o.value && r.disabled == !available
  {
    if !available then
      o.(disabled := true, text := if Contains(o.text, NoDataTag) then o.text else o.text + NoData)
    else
      o.(disabled := false, text := ReplaceFirst(o.text, NoData, ""))
  }

  /** Applies `Mark` to every option but the `""` one. */
  function MarkAll(opts: seq<Choice>, available: string -> bool): (r: seq<Choice>)
    ensures |r| == |opts|
    ensures forall i | 0 <= i < |opts| :: r[i].value == opts[i].value
    ensures forall i | 0 <= i < |opts| && opts[i].value == "" :: r[i] == opts[i]
    ensures forall i | 0 <= i < |opts| && opts[i].value != "" :: r[i] == Mark(opts[i], available(opts[i].value))
  {
    seq(|opts|, i requires 0 <= i < |opts| => if opts[i].value == "" then opts[i] else Mark(opts[i], available(opts[i].value)))
  }

  /** The option the select's value designates (`querySelector('option[value=...]')`). */
  function Selected(opts: seq<Choice>, value: string): (r: Option<Choice>)
    ensures r.Some? ==> r.value in opts && r.value.value == value
    ensures r.None? ==> forall o | o in opts :: o.value != value
  {
    if |opts| == 0 then None
    else if opts[0].value == value then Some(opts[0])
    else
      var r := Selected(opts[1..], value);
      assert forall o | o in opts :: o == opts[0] || o in opts[1..];
      r
  }

  /** The option the value designates exists and is disabled. */
  predicate DisabledIn(opts: seq<Choice>, value: string)
  {
    Selected(opts, value).Some? && Selected(opts, value).value.disabled
  }

  /** The auto-correction: a non-empty selection whose option got disabled goes back
      to `""`; any other selection survives. */
  function Recheck(opts: seq<Choice>, value: string): (v: string)
    ensures v == value || v == ""
    ensures value != "" && DisabledIn(opts, value) ==> v == ""
    ensures value == "" || !DisabledIn(opts, value) ==> v == value
    ensures v != "" ==> !DisabledIn(opts, v)
  {
    if value != "" && DisabledIn(opts, value) then "" else value
  }

  /** When every option of value `v` ends up with the same disabled flag, the option
      `v` designates is found in the same place and carries that flag. */
  lemma {:induction false} SelectedMarked(opts: seq<Choice>, m: seq<Choice>, v: string, dis: bool)
    requires |m| == |opts|
    requires forall i | 0 <= i < |opts| :: m[i].value == opts[i].value
    requires forall i | 0 <= i < |opts| && opts[i].value == v :: m[i].disabled == dis
    ensures Selected(m, v).Some? <==> Selected(opts, v).Some?
    ensures Selected(m, v).Some? ==> Selected(m, v).value.disabled == dis
  {
    if |opts| > 0 && opts[0].value != v {
      SelectedMarked(opts[1..], m[1..], v, dis);
    }
  }

  /** Some property in `ms` has this currency. */
  predicate HasCurrency(ms: seq<Property>, c: string)
  {
    exists p | p in ms :: p.row.currency == Some(c)
  }

  /** Only the `USD` and `ARS` options are ever disabled, each when no matching
      property uses it. */
  predicate CurrencyAvailable(ms: seq<Property>, v: string)
  {
    !((v == "USD" && !HasCurrency(ms, "USD")) || (v == "ARS" && !HasCurrency(ms, "ARS")))
  }

  /** `updateCurrencyAvailability` on the currency select. */
  function UpdateCurrencyAvailability(props: seq<Property>, d: Dropdowns, currency: Select): (r: Select)
    ensures |r.options| == |currency.options|
    ensures forall i | 0 <= i < |r.options| && currency.options[i].value == "" :: r.options[i] == currency.options[i]
    ensures forall i | 0 <= i < |r.options| && currency.options[i].value in {"USD", "ARS"} ::
      r.options[i].disabled <==> !exists p | p in props :: DropdownMatch(d, p) && p.row.currency == Some(currency.options[i].value)
    ensures forall i | 0 <= i < |r.options| && currency.options[i].value !in {"", "USD", "ARS"} :: !r.options[i].disabled
    ensures forall i | 0 <= i < |r.options| :: r.options[i].value == currency.options[i].value
    ensures r.value == currency.value || r.value == ""
    ensures r.value == currency.value <==> currency.value == "" || !DisabledIn(r.options, currency.value)
  {
    var ms := FilteredByDropdowns(props, d);
    var opts := MarkAll(currency.options, v => CurrencyAvailable(ms, v));
    Select(opts, Recheck(opts, currency.value))
  }

  /** The properties the type options are checked against: all of them when no
      category is chosen, else those of the category. */
  function InCategory(props: seq<Property>, category: string): seq<Property>
  {
    if category == "" then props else Seqs.Filter(props, p => CategoryIs(p, category))
  }

  /** `updateTypeAvailability` on the type select. */
  function UpdateTypeAvailability(props: seq<Property>, category: string, types: Select): (r: Select)
    ensures |r.options| == |types.options|
    ensures forall i | 0 <= i < |r.options| && types.options[i].value == "" :: r.options[i] == types.options[i]
    ensures forall i | 0 <= i < |r.options| && types.options[i].value != "" ::
      r.options[i].disabled <==>
        !exists p | p in props :: (category == "" || CategoryIs(p, category)) && p.row.propertyType == Some(types.options[i].value)
    ensures forall i | 0 <= i < |r.options| :: r.options[i].value == types.options[i].value
    ensures r.value == types.value || r.value == ""
    ensures r.value == types.value <==> types.value == "" || !DisabledIn(r.options, types.value)
  {
    var ms := InCategory(props, category);
    var opts := MarkAll(types.options, v => exists p | p in ms :: p.row.propertyType == Some(v));
    Select(opts, Recheck(opts, types.value))
  }

  /** `updateSubtypeAvailability` on the subtype select: nothing happens while no type
      is chosen. */
  function UpdateSubtypeAvailability(props: seq<Property>, category: string, propertyType: string, subtypes: Select): (r: Select)
    ensures propertyType == "" ==> r == subtypes
    ensures |r.options| == |subtypes.options|
    ensures forall i | 0 <= i < |r.options| && subtypes.options[i].value == "" :: r.options[i] == subtypes.options[i]
    ensures propertyType != "" ==> forall i | 0 <= i < |r.options| && subtypes.options[i].value != "" ::
      r.options[i].disabled <==>
        !exists p | p in props ::
          && p.row.propertyType == Some(propertyType)
          && (category == "" || CategoryIs(p, category))
          && p.row.subtype == Some(subtypes.options[i].value)
    ensures forall i | 0 <= i < |r.options| :: r.options[i].value == subtypes.options[i].value
    ensures r.value == subtypes.value || r.value == ""
    ensures propertyType != "" ==> (r.value == subtypes.value <==> subtypes.value == "" || !DisabledIn(r.options, subtypes.value))
  {
    if propertyType == "" then subtypes
    else
      var ms := Seqs.Filter(props, (p: Property) => p.row.propertyType == Some(propertyType) && (category == "" || CategoryIs(p, category)));
      var opts := MarkAll(subtypes.options, v => exists p | p in ms :: p.row.subtype == Some(v));
      Select(opts, Recheck(opts, subtypes.value))
  }

  /** The chosen currency stays selected iff it is "all", has no option, is neither
      USD nor ARS, or some dropdown-matching property uses it. */
  lemma CurrencySelectionSurvives(props: seq<Property>, d: Dropdowns, currency: Select)
    ensures var v := currency.value;
      UpdateCurrencyAvailability(props, d, currency).value == v <==>
        || v == "" || Selected(currency.options, v).None? || v !in {"USD", "ARS"}
        || exists p | p in props :: DropdownMatch(d, p) && p.row.currency == Some(v)
  {
    var r := UpdateCurrencyAvailability(props, d, currency);
    var v := currency.value;
    if v != "" {
      var dis := v in {"USD", "ARS"} && !exists p | p in props :: DropdownMatch(d, p) && p.row.currency == Some(v);
      SelectedMarked(currency.options, r.options, v, dis);
    }
  }

  /** The chosen type stays selected iff it is "all", has no option, or some property
      of the chosen category (of any, with no category) has that type. */
  lemma TypeSelectionSurvives(props: seq<Property>, category: string, types: Select)
    ensures var v := types.value;
      UpdateTypeAvailability(props, category, types).value == v <==>
        || v == "" || Selected(types.options, v).None?
        || exists p | p in props :: (category == "" || CategoryIs(p, category)) && p.row.propertyType == Some(v)
  {
    var r := UpdateTypeAvailability(props, category, types);
    var v := types.value;
    if v != "" {
      var dis := !exists p | p in props :: (category == "" || CategoryIs(p, category)) && p.row.propertyType == Some(v);
      SelectedMarked(types.options, r.options, v, dis);
    }
  }

  /** With a type chosen, the chosen subtype stays selected iff it is "all", has no
      option, or some property of that type and category has it. */
  lemma SubtypeSelectionSurvives(props: seq<Property>, category: string, propertyType: string, subtypes: Select)
    requires propertyType != ""
    ensures var v := subtypes.value;
      UpdateSubtypeAvailability(props, category, propertyType, subtypes).value == v <==>
        || v == "" || Selected(subtypes.options, v).None?
        || exists p | p in props ::
             && p.row.propertyType == Some(propertyType)
             && (category == "" || CategoryIs(p, category))
             && p.row.subtype == Some(v)
  {
    var r := UpdateSubtypeAvailability(props, category, propertyType, subtypes);
    var v := subtypes.value;
    if v != "" {
      var dis := !exists p | p in props ::
        && p.row.propertyType == Some(propertyType)
        && (category == "" || CategoryIs(p, category))
        && p.row.subtype == Some(v);
      SelectedMarked(subtypes.options, r.options, v, dis);
    }
  }

  // ---------------------------------------------------------------------------
  // Option labels

  /** An option whose label is its base text, with the suffix at most once. */
  predicate Labelled(o: Choice, base: string)
  {
    !Contains(base, NoDataTag) && (o.text == base || o.text == base + NoData)
  }

  lemma NoDataChars()
    ensures NoData == [' ', '(', 'S', 'i', 'n', ' ', 'd', 'a', 't', 'o', 's', ')']
    ensures NoDataTag == NoData[1..]
  {
  }

  /** A text without the tag does not contain the suffix either. */
  lemma NoSuffixWithoutTag(s: string)
    requires !Contains(s, NoDataTag)
    ensures !Contains(s, NoData)
  {
    NoDataChars();
    if Contains(s, NoData) {
      var i :| 0 <= i <= |s| - |NoData| && OccursAt(s, NoData, i);
      assert s[i + 1..i + 1 + |NoDataTag|] == s[i..i + |NoData|][1..];
      assert OccursAt(s, NoDataTag, i + 1);
    }
  }

  lemma TagInSuffixed(base: string)
    ensures Contains(base + NoData, NoDataTag)
  {
    NoDataChars();
    assert (base + NoData)[|base| + 1..|base| + 1 + |NoDataTag|] == NoDataTag;
    assert OccursAt(base + NoData, NoDataTag, |base| + 1);
  }

  /** No proper shift of `pat` agrees with `pat` on their overlap. */
  predicate Unbordered(pat: string)
  {
    forall k | 0 < k < |pat| :: ShiftMismatch(pat, k)
  }

  /** `pat` shifted by `k` disagrees with itself somewhere on the overlap. */
  predicate ShiftMismatch(pat: string, k: int)
    requires 0 < k < |pat|
  {
    exists m | 0 <= m < |pat| - k :: pat[k + m] != pat[m]
  }

  lemma SuffixUnbordered()
    ensures Unbordered(NoData)
  {
    NoDataChars();
    forall k | 0 < k < |NoData| ensures ShiftMismatch(NoData, k) {
      if k == 5 {
        assert NoData[k + 1] != NoData[1];
      } else {
        assert NoData[k + 0] != NoData[0];
      }
    }
  }

  /** An occurrence of an unbordered `pat` in `base + pat` cannot start inside `base`
      and end inside the appended copy. */
  lemma NoStraddle(base: string, pat: string, j: int)
    requires Unbordered(pat)
    requires 0 <= j < |base| < j + |pat|
    ensures !OccursAt(base + pat, pat, j)
  {
    var k := |base| - j;
    assert ShiftMismatch(pat, k);
    var m :| 0 <= m < |pat| - k && pat[k + m] != pat[m];
  }

  /** An occurrence in `base + pat` that ends inside `base` is one in `base`. */
  lemma OccursInBase(base: string, pat: string, j: int)
    requires 0 <= j && j + |pat| <= |base|
    requires OccursAt(base + pat, pat, j)
    ensures OccursAt(base, pat, j)
  {
    assert (base + pat)[j..j + |pat|] == base[j..j + |pat|];
  }

  /** No occurrence of `pat` in `base + pat` starts inside `base`. */
  lemma NoEarlierOccurrence(base: string, pat: string, j: int)
    requires Unbordered(pat) && !Contains(base, pat)
    requires 0 <= j < |base|
    ensures !OccursAt(base + pat, pat, j)
  {
    if j + |pat| <= |base| {
      if OccursAt(base + pat, pat, j) {
        OccursInBase(base, pat, j);
      }
    } else {
      NoStraddle(base, pat, j);
    }
  }

  /** `IndexOf` finds an occurrence no later than any given one. */
  lemma IndexOfAtMost(s: string, pat: string, i: int)
    requires OccursAt(s, pat, i)
    ensures IndexOf(s, pat).Some? && IndexOf(s, pat).value <= i
  {
  }

  /** The first occurrence of an unbordered `pat` in `base + pat`, when `base` does not
      contain it, is the appended one. */
  lemma FirstOccurrenceAppended(base: string, pat: string)
    requires Unbordered(pat) && !Contains(base, pat)
    ensures IndexOf(base + pat, pat) == Some(|base|)
  {
    var s := base + pat;
    AppendedOccurs(base, pat);
    forall j | 0 <= j < |base| ensures !OccursAt(s, pat, j) {
      NoEarlierOccurrence(base, pat, j);
    }
    IndexOfFirst(s, pat, |base|);
  }

  /** `IndexOf` finds an occurrence with none before it. */
  lemma IndexOfFirst(s: string, pat: string, i: int)
    requires OccursAt(s, pat, i)
    requires forall j | 0 <= j < i :: !OccursAt(s, pat, j)
    ensures IndexOf(s, pat) == Some(i)
  {
    IndexOfAtMost(s, pat, i);
  }

  lemma AppendedOccurs(base: string, pat: string)
    ensures OccursAt(base + pat, pat, |base|)
  {
    assert (base + pat)[|base|..|base| + |pat|] == pat;
  }

  /** The guarded marking keeps the suffix at most once: the label is the base text
      when the option is available and the base text plus the suffix when it is not. */
  lemma MarkKeepsLabel(o: Choice, base: string, available: bool)
    requires Labelled(o, base)
    ensures Labelled(Mark(o, available), base)
    ensures Mark(o, available).text == if available then base else base + NoData
  {
    TagInSuffixed(base);
    if available {
      if o.text == base {
        NoSuffixWithoutTag(base);
      } else {
        NoSuffixWithoutTag(base);
        SuffixUnbordered();
        FirstOccurrenceAppended(base, NoData);
        assert (base + NoData)[..|base|] == base;
        assert |base + NoData| == |base| + |NoData|;
        assert (base + NoData)[|base| + |NoData|..] == "";
      }
    }
  }

  /** `updateTypeOptions`, run by the "clear filters" button, as written: it appends
      the suffix to an unavailable type option without checking for one. */
  function UpdateTypeOptionsAsWritten(props: seq<Property>, opts: seq<Choice>): (r: seq<Choice>)
    ensures |r| == |opts|
  {
    seq(|opts|, i requires 0 <= i < |opts| =>
      var o := opts[i];
      if o.value == "" then o
      else if !exists p | p in props :: p.row.propertyType == Some(o.value) then
        o.(disabled := true, text := o.text + NoData)
      else o.(disabled := false, text := ReplaceFirst(o.text, NoData, "")))
  }

  /** Clearing twice while no property has a type leaves that type's label with the
      suffix twice, which no base text with the suffix at most once describes. */
  lemma TypeOptionsSuffixDoubles()
    ensures var o := [Choice("casa", "Casa", false)];
      var twice := UpdateTypeOptionsAsWritten([], UpdateTypeOptionsAsWritten([], o));
      && twice[0].text == "Casa (Sin datos) (Sin datos)"
      && !Labelled(twice[0], "Casa")
  {
    var o := [Choice("casa", "Casa", false)];
    var once := UpdateTypeOptionsAsWritten([], o);
    assert once[0].text == "Casa" + NoData;
    var twice := UpdateTypeOptionsAsWritten([], once);
    assert twice[0].text == "Casa" + NoData + NoData;
  }

  /** `updateTypeOptions` with the guard the other updaters use: every type option is
      disabled iff no property has that type. */
  function UpdateTypeOptions(props: seq<Property>, opts: seq<Choice>): (r: seq<Choice>)
    ensures |r| == |opts|
    ensures forall i | 0 <= i < |opts| && opts[i].value != "" ::
      r[i].disabled <==> !exists p | p in props :: p.row.propertyType == Some(opts[i].value)
  {
    MarkAll(opts, v => exists p | p in props :: p.row.propertyType == Some(v))
  }

  /** However often the corrected updater runs, each label stays its base text with
      the suffix at most once, present exactly when the option is disabled. */
  lemma UpdateTypeOptionsKeepsLabels(props: seq<Property>, opts: seq<Choice>, bases: seq<string>)
    requires |bases| == |opts|
    requires forall i | 0 <= i < |opts| :: Labelled(opts[i], bases[i])
    ensures var r := UpdateTypeOptions(props, opts);
      forall i | 0 <= i < |opts| :: Labelled(r[i], bases[i])
        && (opts[i].value != "" ==> (r[i].text == bases[i] + NoData <==> r[i].disabled))
  {
    var r := UpdateTypeOptions(props, opts);
    forall i | 0 <= i < |opts|
      ensures Labelled(r[i], bases[i]) && (opts[i].value != "" ==> (r[i].text == bases[i] + NoData <==> r[i].disabled))
    {
      if opts[i].value != "" {
        var avail := exists p | p in props :: p.row.propertyType == Some(opts[i].value);
        MarkKeepsLabel(opts[i], bases[i], avail);
        assert |NoData| > 0;
        assert bases[i] != bases[i] + NoData;
      }
    }
  }
}
