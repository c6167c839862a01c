/**
 * The state behind every listing page: the filter inputs, the sort column
 * and direction, and the page size, from which the query string of the
 * listing request is built. Sorting a column cycles it through ascending,
 * descending and unsorted.
 *
 * Navigation is modelled by recording the query each immediate search
 * sends; the debounced search started by watching the filters is not.
 */
module DataTable {
  import opened Wrappers
  import opened Text

  datatype Direction = Asc | Desc

  function DirectionText(d: Direction): string {
    match d
    case Asc => "asc"
    case Desc => "desc"
  }

  /** The sort state: a column (possibly none) and a direction (possibly none). */
  datatype Sort = Sort(column: Option<string>, direction: Option<Direction>)

  /** `sort.column && sort.direction`: both set, and the column not empty. */
  predicate SortActive(s: Sort) {
    s.column.Some? && s.column.value != "" && s.direction.Some?
  }

  /**
   * `toggleSort`: a new column starts ascending; the current column goes
   * from ascending to descending and from descending to unsorted; with no
   * direction it stays as it is.
   */
  function Toggled(s: Sort, column: string): (r: Sort)
    ensures s.column != Some(column) ==> r == Sort(Some(column), Some(Asc))
    ensures s.column == Some(column) && s.direction == Some(Asc) ==> r == Sort(Some(column), Some(Desc))
    ensures s.column == Some(column) && s.direction == Some(Desc) ==> r == Sort(None, None)
    ensures s.column == Some(column) && s.direction.None? ==> r == s
  {
    if s.column == Some(column) then
      if s.direction == Some(Asc) then s.(direction := Some(Desc))
      else if s.direction == Some(Desc) then Sort(None, None)
      else s
    else Sort(Some(column), Some(Asc))
  }

  /** Three toggles of a column that is not sorted bring it back to unsorted, through ascending and descending. */
  lemma ToggleCycle(s: Sort, column: string)
    requires s.column != Some(column)
    ensures var once := Toggled(s, column);
            var twice := Toggled(once, column);
            once.direction == Some(Asc) && twice.direction == Some(Desc)
            && Toggled(twice, column) == Sort(None, None)
  {
  }

  /** `getSortDirection`. */
  function SortDirection(s: Sort, column: string): (d: Option<Direction>)
    ensures s.column != Some(column) ==> d.None?
    ensures s.column == Some(column) ==> d == s.direction
  {
    if s.column == Some(column) then s.direction else None
  }

  /** `isSorted`. */
  predicate IsSorted(s: Sort, column: string) {
    s.column == Some(column) && s.direction.Some?
  }

  /** A column is sorted exactly when it reports a direction. */
  lemma IsSortedIffDirection(s: Sort, column: string)
    ensures IsSorted(s, column) <==> SortDirection(s, column).Some?
  {
  }

  /** After toggling, the toggled column is the only one that can be sorted. */
  lemma ToggleSortsOnlyThatColumn(s: Sort, column: string, other: string)
    requires other != column
    ensures !IsSorted(Toggled(s, column), other)
  {
  }

  /** The filter inputs; a key may be set to `undefined`. */
  type Filters = map<string, Option<string>>

  /** A filter takes part in the query when it is neither undefined nor empty. */
  predicate Active(value: Option<string>) {
    value.Some? && value.value != ""
  }

  /** `hasActiveFilters`. */
  predicate HasActiveFilters(filters: Filters) {
    exists k :: k in filters && Active(filters[k])
  }

  /**
   * `queryParams`: the active filters, then `sort` and `direction` when
   * both are set, then `per_page` when it is not zero. Later keys overwrite
   * earlier ones.
   */
  function QueryParams(filters: Filters, s: Sort, perPage: int): (params: map<string, string>)
    ensures forall k :: k in filters && Active(filters[k]) && k !in {"sort", "direction", "per_page"}
                        ==> k in params && params[k] == filters[k].value
    ensures forall k :: k in params && k !in {"sort", "direction", "per_page"}
                        ==> k in filters && Active(filters[k]) && params[k] == filters[k].value
    ensures SortActive(s) ==> "sort" in params && params["sort"] == s.column.value
                              && "direction" in params && params["direction"] == DirectionText(s.direction.value)
    ensures !SortActive(s) ==> forall k :: k in {"sort", "direction"} ==>
                                 (k in params <==> k in filters && Active(filters[k]))
    ensures perPage != 0 ==> "per_page" in params && params["per_page"] == IntToString(perPage)
    ensures perPage == 0 ==> ("per_page" in params <==> "per_page" in filters && Active(filters["per_page"]))
  {
    var fromFilters := map k | k in filters && Active(filters[k]) :: filters[k].value;
    var sorted := if SortActive(s) then fromFilters["sort" := s.column.value]["direction" := DirectionText(s.direction.value)]
                  else fromFilters;
    if perPage != 0 then sorted["per_page" := IntToString(perPage)] else sorted
  }

  /** With no active filter and no sort, the query carries the page size only. */
  lemma OnlyPageSize(filters: Filters, s: Sort, perPage: int)
    requires !HasActiveFilters(filters) && !SortActive(s) && perPage != 0
    ensures QueryParams(filters, s, perPage) == map["per_page" := IntToString(perPage)]
  {
    var params := QueryParams(filters, s, perPage);
    forall k | k in params ensures k == "per_page" {
    }
  }

  /** The state of one listing page, with the queries its immediate searches have sent. */
  class Table {
    var filters: Filters
    var sort: Sort
    var perPage: int
    var sent: seq<map<string, string>>

    /** The query the page would send now. */
    function Params(): map<string, string>
      reads this
    {
      QueryParams(filters, sort, perPage)
    }

    /** The initial state; the page size defaults to 15. */
    constructor(filters: Filters, column: Option<string>, direction: Option<Direction>, perPage: Option<int>)
      ensures this.filters == filters && sort == Sort(column, direction)
      ensures this.perPage == perPage.GetOr(15) && sent == []
    {
      this.filters := filters;
      sort := Sort(column, direction);
      this.perPage := perPage.GetOr(15);
      sent := [];
    }

    /** `setFilter`. */
    method SetFilter(key: string, value: Option<string>)
      modifies this
      ensures filters == old(filters)[key := value]
      ensures sort == old(sort) && perPage == old(perPage) && sent == old(sent)
    {
      filters := filters[key := value];
    }

    /** `clearFilters`: every filter key becomes undefined, then the listing is fetched at once. */
    method ClearFilters()
      modifies this
      ensures filters.Keys == old(filters).Keys && forall k :: k in filters ==> filters[k].None?
      ensures !HasActiveFilters(filters)
      ensures sort == old(sort) && perPage == old(perPage)
      ensures sent == old(sent) + [QueryParams(filters, sort, perPage)]
    {
      filters := map k | k in filters :: None;
      sent := sent + [Params()];
    }

    /** `toggleSort`: cycles the column's sort, then fetches the listing at once. */
    method ToggleSort(column: string)
      modifies this
      ensures sort == Toggled(old(sort), column)
      ensures filters == old(filters) && perPage == old(perPage)
      ensures sent == old(sent) + [QueryParams(filters, sort, perPage)]
    {
      if sort.column == Some(column) {
        if sort.direction == Some(Asc) {
          sort := sort.(direction := Some(Desc));
        } else if sort.direction == Some(Desc) {
          sort := Sort(None, None);
        }
      } else {
        sort := Sort(Some(column), Some(Asc));
      }
      sent := sent + [Params()];
    }
  }

  /** After clearing, the query carries no filter: only the sort and the page size can remain. */
  lemma ClearedQuery(filters: Filters, s: Sort, perPage: int)
    requires forall k :: k in filters ==> filters[k].None?
    ensures forall k :: k in QueryParams(filters, s, perPage) ==> k in {"sort", "direction", "per_page"}
  {
  }
}
