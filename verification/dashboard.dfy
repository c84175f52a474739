/** The admin dashboard's list logic (`applySortAndGroup` and the grouping in
    `renderTable`): the portfolio tab, the name search, the column sort and the
    grouping of rows under sorted headers. */
module Dashboard {
  import opened Wrappers
  import opened Records
  import opened Text
  import Seqs
  import Sorting

  const OwnTab := "propia"
  const ColleagueTab := "colega"
  const Ungrouped := "Sin categoría"

  /** The portfolio a row belongs to: its `propertySource`, or `colega` when that is
      empty and a colleague is linked, or `propia` otherwise. */
  function Source(r: Row): string
  {
    if Present(r.propertySource) then r.propertySource.value
    else if NumericTruthy(r.colleagueId) then ColleagueTab
    else OwnTab
  }

  /** A row without a source lands in exactly one of the two tabs, decided by the
      colleague link; a row with a source lands in the tab of that name, so a stored
      value such as `ms_propia` lands in neither. */
  lemma SourceTabs(r: Row)
    ensures !Present(r.propertySource) ==>
      (Source(r) == ColleagueTab <==> NumericTruthy(r.colleagueId))
      && (Source(r) == OwnTab <==> !NumericTruthy(r.colleagueId))
    ensures Present(r.propertySource) ==>
      (Source(r) == OwnTab <==> r.propertySource.value == OwnTab)
      && (Source(r) == ColleagueTab <==> r.propertySource.value == ColleagueTab)
  {
  }

  /** The filter of `applySortAndGroup`: the row is in the current tab and its name
      (empty when missing) contains the search text, both lowercased. */
  predicate Shown(tab: string, search: string, p: Property)
  {
    Source(p.row) == tab && Contains(LowerStr(p.row.name.GetOr("")), LowerStr(search))
  }

  function Visible(rows: seq<Property>, tab: string, search: string): (r: seq<Property>)
    ensures Seqs.IsSubseq(r, rows)
    ensures forall x | x in r :: Shown(tab, search, x)
    ensures forall x | x in rows && Shown(tab, search, x) :: x in r
  {
    Seqs.FilterIsSubseq(rows, p => Shown(tab, search, p));
    Seqs.Filter(rows, p => Shown(tab, search, p))
  }

  /** The search is case-insensitive and an empty search shows the whole tab. */
  lemma ShownIgnoresCase(tab: string, search: string, p: Property)
    ensures Shown(tab, search, p) == Shown(tab, LowerStr(search), p)
    ensures Shown(tab, "", p) <==> Source(p.row) == tab
  {
    LowerStrIdempotent(search);
    ContainsEmpty(LowerStr(p.row.name.GetOr("")));
    assert LowerStr("") == "";
  }

  /** The text columns the dashboard can sort or group by. */
  datatype Column = Name | Address | Locality | Neighbourhood | Currency | PropertyType | Subtype | Category | PropertySource

  function ColumnValue(r: Row, c: Column): Option<string>
  {
    match c
    case Name => r.name
    case Address => r.address
    case Locality => r.locality
    case Neighbourhood => r.neighbourhood
    case Currency => r.currency
    case PropertyType => r.propertyType
    case Subtype => r.subtype
    case Category => r.category
    case PropertySource => r.propertySource
  }

  // ---------------------------------------------------------------------------
  // Sorting

  /** The `sort-by` choice: a column and a direction (`asc`, anything else sorts
      descending). `id` and `createdAt` compare as numbers and time stamps. */
  datatype SortKey = ByPrice | ById | ByCreatedAt | ByText(column: Column)

  datatype SortSpec = SortSpec(key: SortKey, direction: string)

  /** A comparison value: a number, or a lowercased string. */
  datatype SortValue = NumberValue(n: int) | TextValue(s: string)

  /** `valA < valB` on two values of the same kind. */
  predicate ValueLt(a: SortValue, b: SortValue)
  {
    match (a, b)
    case (NumberValue(x), NumberValue(y)) => x < y
    case (TextValue(x), TextValue(y)) => StrLt(x, y)
    case (NumberValue(_), TextValue(_)) => true
    case (TextValue(_), NumberValue(_)) => false
  }

  lemma ValueLtOrder()
    ensures Sorting.StrictTotalOrder(ValueLt)
  {
    forall a: SortValue ensures !ValueLt(a, a) {
      if a.TextValue? { StrLtIrreflexive(a.s); }
    }
    forall a: SortValue, b: SortValue, c: SortValue | ValueLt(a, b) && ValueLt(b, c)
      ensures ValueLt(a, c)
    {
      if a.TextValue? && b.TextValue? && c.TextValue? { StrLtTransitive(a.s, b.s, c.s); }
    }
    forall a: SortValue, b: SortValue | a != b ensures ValueLt(a, b) || ValueLt(b, a) {
      if a.TextValue? && b.TextValue? { StrLtTotal(a.s, b.s); }
    }
  }

  /** The value the comparator compares: `parseFloat(price) || 0` for the price, the
      lowercased text for a text column (a missing one compares as empty). */
  function Value(p: Property, k: SortKey): SortValue
  {
    match k
    case ByPrice => NumberValue(NumberOrZero(p.row.price))
    case ById => NumberValue(p.id)
    case ByCreatedAt => NumberValue(p.createdAt)
    case ByText(c) => TextValue(LowerStr(ColumnValue(p.row, c).GetOr("")))
  }

  /** The comparator of `applySortAndGroup`, on rows it can compare. */
  function Compare(a: Property, b: Property, spec: SortSpec): int
  {
    var va := Value(a, spec.key);
    var vb := Value(b, spec.key);
    var asc := spec.direction == "asc";
    if ValueLt(va, vb) then (if asc then -1 else 1)
    else if ValueLt(vb, va) then (if asc then 1 else -1)
    else 0
  }

  /** A text column where some rows are null and others are not: the comparator calls
      `toLowerCase` on null when a string comes first (a TypeError) and answers 0 the
      other way round, so the outcome depends on which pairs the engine compares. */
  predicate MixedNulls(rows: seq<Property>, c: Column)
  {
    && (exists i | 0 <= i < |rows| :: ColumnValue(rows[i].row, c).None?)
    && (exists i | 0 <= i < |rows| :: ColumnValue(rows[i].row, c).Some?)
  }

  function KeyOf(k: SortKey): Property -> SortValue
  {
    p => Value(p, k)
  }

  function OrderOf(spec: SortSpec): (SortValue, SortValue) -> bool
  {
    if spec.direction == "asc" then ValueLt else Sorting.Reverse(ValueLt)
  }

  /** `propertiesToDisplay.sort(...)`, a stable sort; None stands for the failure on a
      text column with mixed nulls. */
  function SortRows(rows: seq<Property>, spec: SortSpec): (r: Option<seq<Property>>)
    ensures r.None? <==> spec.key.ByText? && MixedNulls(rows, spec.key.column)
    ensures r.Some? ==> multiset(r.value) == multiset(rows)
  {
    if spec.key.ByText? && MixedNulls(rows, spec.key.column) then None
    else Some(Sorting.SortBy(rows, KeyOf(spec.key), OrderOf(spec)))
  }

  /** The sorted rows never have a pair out of order for the comparator. */
  lemma SortRowsFollowsComparator(rows: seq<Property>, spec: SortSpec)
    requires SortRows(rows, spec).Some?
    ensures var r := SortRows(rows, spec).value;
      forall i, j | 0 <= i < j < |r| :: Compare(r[i], r[j], spec) <= 0
  {
    ValueLtOrder();
    Sorting.ReverseIsOrder(ValueLt);
    Sorting.SortBySorted(rows, KeyOf(spec.key), OrderOf(spec));
  }

  /** Rows that compare equal keep their relative order. */
  lemma SortRowsStable(rows: seq<Property>, spec: SortSpec, v: SortValue)
    requires SortRows(rows, spec).Some?
    ensures Sorting.WithKey(SortRows(rows, spec).value, KeyOf(spec.key), v)
         == Sorting.WithKey(rows, KeyOf(spec.key), v)
  {
    ValueLtOrder();
    Sorting.ReverseIsOrder(ValueLt);
    Sorting.SortByStable(rows, KeyOf(spec.key), OrderOf(spec), v);
  }

  // ---------------------------------------------------------------------------
  // Grouping

  /** `prop[groupBy] || 'Sin categoría'` */
  function GroupName(p: Property, c: Column): string
  {
    if Present(ColumnValue(p.row, c)) then ColumnValue(p.row, c).value else Ungrouped
  }

  function Identity(s: string): string { s }

  function Names(rows: seq<Property>, c: Column): (r: seq<string>)
    ensures |r| == |rows|
    ensures forall i | 0 <= i < |rows| :: r[i] == GroupName(rows[i], c)
  {
    seq(|rows|, i requires 0 <= i < |rows| => GroupName(rows[i], c))
  }

  datatype Group = Group(name: string, members: seq<Property>)

  /** The group names in first-appearance order (`Object.keys` of the accumulator),
      then sorted. */
  function GroupNames(rows: seq<Property>, c: Column): seq<string>
  {
    Sorting.SortBy(Seqs.DedupBy(Names(rows, c), Identity), Identity, StrLt)
  }

  /** `grouped[name]`: the rows with that group name, in input order. */
  function Members(rows: seq<Property>, c: Column, name: string): seq<Property>
  {
    Seqs.Filter(rows, p => GroupName(p, c) == name)
  }

  function Groups(rows: seq<Property>, c: Column): seq<Group>
  {
    var names := GroupNames(rows, c);
    seq(|names|, i requires 0 <= i < |names| => Group(names[i], Members(rows, c, names[i])))
  }

  lemma StrLtOrder()
    ensures Sorting.StrictTotalOrder(StrLt)
  {
    forall a: string ensures !StrLt(a, a) { StrLtIrreflexive(a); }
    forall a: string, b: string, c: string | StrLt(a, b) && StrLt(b, c) ensures StrLt(a, c) {
      StrLtTransitive(a, b, c);
    }
    forall a: string, b: string | a != b ensures StrLt(a, b) || StrLt(b, a) { StrLtTotal(a, b); }
  }

  /** The group names are strictly increasing. */
  lemma GroupNamesSorted(rows: seq<Property>, c: Column)
    ensures var ns := GroupNames(rows, c);
      forall i, j | 0 <= i < j < |ns| :: StrLt(ns[i], ns[j])
  {
    var ns := GroupNames(rows, c);
    GroupNamesNondecreasing(rows, c);
    GroupNamesUnique(rows, c);
    forall i, j | 0 <= i < j < |ns| ensures StrLt(ns[i], ns[j]) {
      assert !StrLt(ns[j], ns[i]);
      StrLtTotal(ns[i], ns[j]);
    }
  }

  lemma GroupNamesNondecreasing(rows: seq<Property>, c: Column)
    ensures Sorting.SortedBy(GroupNames(rows, c), Identity, StrLt)
  {
    StrLtOrder();
    Sorting.SortBySorted(Seqs.DedupBy(Names(rows, c), Identity), Identity, StrLt);
  }

  lemma GroupNamesUnique(rows: seq<Property>, c: Column)
    ensures Seqs.Distinct(GroupNames(rows, c))
  {
    var d := Seqs.DedupBy(Names(rows, c), Identity);
    assert Seqs.Distinct(d) by {
      assert Seqs.DistinctKeys(d, Identity);
    }
    Seqs.DistinctPermutation(GroupNames(rows, c), d);
  }

  /** Two different positions hold different group names. */
  lemma GroupNamesDistinct(rows: seq<Property>, c: Column, i: int, j: int)
    requires 0 <= i < |GroupNames(rows, c)| && 0 <= j < |GroupNames(rows, c)|
    requires GroupNames(rows, c)[i] == GroupNames(rows, c)[j]
    ensures i == j
  {
    var ns := GroupNames(rows, c);
    GroupNamesSorted(rows, c);
    if i < j {
      assert StrLt(ns[i], ns[j]);
      StrLtIrreflexive(ns[i]);
    } else if j < i {
      assert StrLt(ns[j], ns[i]);
      StrLtIrreflexive(ns[j]);
    }
  }

  /** The group names are exactly the names of the rows. */
  lemma GroupNamesAre(rows: seq<Property>, c: Column)
    ensures forall n :: n in GroupNames(rows, c) <==> n in Names(rows, c)
  {
    var names := Names(rows, c);
    var d := Seqs.DedupBy(names, Identity);
    var ns := GroupNames(rows, c);
    assert multiset(ns) == multiset(d);
    forall n ensures n in ns <==> n in d {
      assert n in ns <==> n in multiset(ns);
    }
    forall n ensures n in d <==> n in names {
      assert n in d <==> n in Seqs.Keys(d, Identity);
      assert n in names <==> n in Seqs.Keys(names, Identity);
    }
  }

  lemma GroupAt(rows: seq<Property>, c: Column, i: int)
    requires 0 <= i < |GroupNames(rows, c)|
    ensures |Groups(rows, c)| == |GroupNames(rows, c)|
    ensures Groups(rows, c)[i] == Group(GroupNames(rows, c)[i], Members(rows, c, GroupNames(rows, c)[i]))
  {
  }

  /** A group holds exactly the rows named after it, in input order, and is not empty. */
  lemma GroupMembers(rows: seq<Property>, c: Column, i: int)
    requires 0 <= i < |Groups(rows, c)|
    ensures var g := Groups(rows, c)[i];
      && |g.members| > 0
      && Seqs.IsSubseq(g.members, rows)
      && forall p | p in g.members :: GroupName(p, c) == g.name
  {
    var ns := GroupNames(rows, c);
    GroupAt(rows, c, i);
    var n := ns[i];
    GroupNamesAre(rows, c);
    assert n in Names(rows, c);
    var k :| 0 <= k < |rows| && Names(rows, c)[k] == n;
    MemberOfGroup(rows, c, n, k);
    Seqs.FilterIsSubseq(rows, p => GroupName(p, c) == n);
  }

  /** A row belongs to the members of its own name, and every member carries the name. */
  lemma MemberOfGroup(rows: seq<Property>, c: Column, n: string, k: int)
    requires 0 <= k < |rows| && GroupName(rows[k], c) == n
    ensures rows[k] in Members(rows, c, n)
    ensures forall p | p in Members(rows, c, n) :: GroupName(p, c) == n
  {
  }

  /** Every row is in exactly one group, the one named after its column value; the
      groups come in strictly increasing name order; none is empty; within a group
      rows keep their input order. */
  lemma GroupsPartition(rows: seq<Property>, c: Column)
    ensures var g := Groups(rows, c);
      && (forall i, j | 0 <= i < j < |g| :: StrLt(g[i].name, g[j].name))
      && (forall i | 0 <= i < |g| :: |g[i].members| > 0 && Seqs.IsSubseq(g[i].members, rows))
      && (forall p | p in rows :: exists i | 0 <= i < |g| :: p in g[i].members && g[i].name == GroupName(p, c))
      && (forall p, i, j | 0 <= i < |g| && 0 <= j < |g| && p in g[i].members && p in g[j].members :: i == j)
  {
    GroupsSorted(rows, c);
    GroupsNonEmpty(rows, c);
    forall p | p in rows
      ensures exists i | 0 <= i < |Groups(rows, c)| :: p in Groups(rows, c)[i].members && Groups(rows, c)[i].name == GroupName(p, c)
    {
      RowHasGroup(rows, c, p);
    }
    GroupsDisjoint(rows, c);
  }

  lemma GroupsSorted(rows: seq<Property>, c: Column)
    ensures var g := Groups(rows, c);
      forall i, j | 0 <= i < j < |g| :: StrLt(g[i].name, g[j].name)
  {
    var g := Groups(rows, c);
    var ns := GroupNames(rows, c);
    forall i | 0 <= i < |g| ensures g[i].name == ns[i] {
      GroupAt(rows, c, i);
    }
    GroupNamesSorted(rows, c);
  }

  lemma GroupsNonEmpty(rows: seq<Property>, c: Column)
    ensures var g := Groups(rows, c);
      forall i | 0 <= i < |g| :: |g[i].members| > 0 && Seqs.IsSubseq(g[i].members, rows)
  {
    var g := Groups(rows, c);
    forall i | 0 <= i < |g| ensures |g[i].members| > 0 && Seqs.IsSubseq(g[i].members, rows) {
      GroupMembers(rows, c, i);
    }
  }

  lemma GroupsDisjoint(rows: seq<Property>, c: Column)
    ensures var g := Groups(rows, c);
      forall p, i, j | 0 <= i < |g| && 0 <= j < |g| && p in g[i].members && p in g[j].members :: i == j
  {
    var g := Groups(rows, c);
    forall p, i, j | 0 <= i < |g| && 0 <= j < |g| && p in g[i].members && p in g[j].members
      ensures i == j
    {
      GroupMembers(rows, c, i);
      GroupMembers(rows, c, j);
      GroupAt(rows, c, i);
      GroupAt(rows, c, j);
      GroupNamesDistinct(rows, c, i, j);
    }
  }

  /** Each row lies in the group named after its column value. */
  lemma RowHasGroup(rows: seq<Property>, c: Column, p: Property)
    requires p in rows
    ensures exists i | 0 <= i < |Groups(rows, c)| :: p in Groups(rows, c)[i].members && Groups(rows, c)[i].name == GroupName(p, c)
  {
    var k :| 0 <= k < |rows| && rows[k] == p;
    var n := GroupName(p, c);
    assert Names(rows, c)[k] == n;
    GroupNamesAre(rows, c);
    var ns := GroupNames(rows, c);
    assert n in Names(rows, c);
    assert n in ns;
    var i :| 0 <= i < |ns| && ns[i] == n;
    GroupAt(rows, c, i);
    MemberOfGroup(rows, c, n, k);
  }

  // ---------------------------------------------------------------------------
  // Rendering

  /** What the table shows: the "no properties" placeholder, the rows, or the rows
      under group headers. */
  datatype Table = Placeholder | Flat(rows: seq<Property>) | Grouped(groups: seq<Group>)

  /** `renderTable`; `groupBy` is None for the `none` choice. */
  function Render(rows: seq<Property>, groupBy: Option<Column>): (t: Table)
    ensures t.Placeholder? <==> |rows| == 0
    ensures t.Flat? ==> t.rows == rows
    ensures t.Grouped? ==> groupBy.Some? && t.groups == Groups(rows, groupBy.value)
  {
    if |rows| == 0 then Placeholder
    else match groupBy
      case None => Flat(rows)
      case Some(c) => Grouped(Groups(rows, c))
  }

  /** `applySortAndGroup`: filter, sort, render. None stands for the comparator's
      TypeError. */
  function ApplySortAndGroup(all: seq<Property>, tab: string, search: string, spec: SortSpec, groupBy: Option<Column>): (t: Option<Table>)
    ensures t.Some? ==> (t.value.Placeholder? <==> forall x | x in all :: !Shown(tab, search, x))
  {
    var shown := Visible(all, tab, search);
    match SortRows(shown, spec)
    case None => None
    case Some(sorted) =>
      assert |shown| > 0 ==> shown[0] in multiset(sorted);
      Some(Render(sorted, groupBy))
  }
}
