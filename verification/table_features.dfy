/**
 * The listing helpers every admin index page uses: a text search over
 * some columns, named filters, a sort whitelisted by column and
 * direction, a bounded page size, and the echo of the table parameters
 * back to the page.
 *
 * A query is modelled as the list of conditions it has been given and the
 * list of orderings; `Holds` says which records a condition keeps.
 */
module TableFeatures {
  import opened Wrappers
  import opened Text
  import Collections

  /** The request's input: a key is absent or carries a string. */
  type Request = map<string, string>

  function Input(request: Request, key: string): Option<string> {
    if key in request then Some(request[key]) else None
  }

  /** `$request->filled($key)`. */
  predicate FilledKey(request: Request, key: string) {
    Filled(Input(request, key))
  }

  /** A column value: text, a boolean, or null. */
  datatype Cell = Text(s: string) | Flag(b: bool) | Null

  type Columns = map<string, Cell>

  function CellOf(columns: Columns, column: string): Cell {
    if column in columns then columns[column] else Null
  }

  /** A record with, for each relation, the records it is related to. */
  datatype Record = Record(columns: Columns, related: map<string, seq<Columns>>)

  function Related(rec: Record, relation: string): seq<Columns> {
    if relation in rec.related then rec.related[relation] else []
  }

  /**
   * A comparison with an explicit operator. Only `=` is interpreted here;
   * any other SQL operator is the parameter `compare`.
   */
  datatype Sql = Sql(compare: (string, Cell, string) -> bool)

  predicate OpHolds(sql: Sql, op: string, cell: Cell, value: string) {
    if op == "=" then cell == Text(value) else sql.compare(op, cell, value)
  }

  /** `LIKE '%term%'` on a column, read as substring containment. */
  predicate LikeContains(cell: Cell, term: string) {
    cell.Text? && Contains(cell.s, term)
  }

  // ---------------------------------------------------------------------
  // Column names with a relation
  // ---------------------------------------------------------------------

  /** `explode('.', $s, 2)` on a string holding a dot: the parts before and after the first dot. */
  function SplitAtFirstDot(s: string): (r: (string, string))
    requires '.' in s
    ensures s == r.0 + "." + r.1
    ensures '.' !in r.0
    decreases |s|
  {
    if s[0] == '.' then ([], s[1..])
    else
      assert '.' in s[1..] by {
        var i :| 0 <= i < |s| && s[i] == '.';
        assert s[1..][i - 1] == '.';
      }
      var p := SplitAtFirstDot(s[1..]);
      ([s[0]] + p.0, p.1)
  }

  /** A search column matches: a plain column contains the term, `rel.col` has a related record whose column does. */
  predicate ColumnMatches(rec: Record, column: string, term: string) {
    if '.' in column then
      var parts := SplitAtFirstDot(column);
      exists k :: 0 <= k < |Related(rec, parts.0)| && LikeContains(CellOf(Related(rec, parts.0)[k], parts.1), term)
    else LikeContains(CellOf(rec.columns, column), term)
  }

  // ---------------------------------------------------------------------
  // Queries
  // ---------------------------------------------------------------------

  /** One `where` of a query. */
  datatype Cond =
    | Search(term: string, columns: seq<string>)
    | Equals(column: string, cell: Cell)
    | Compare(column: string, op: string, value: string)
    | RelatedCompare(relation: string, column: string, op: string, value: string)
    | Custom(filter: string, value: string)

  /** A query: its conditions (all must hold) and its orderings. */
  datatype Query = Query(conds: seq<Cond>, orders: seq<(string, string)>)

  /**
   * Whether a record passes one condition. A custom filter callback is
   * the parameter `custom`.
   */
  predicate Holds(sql: Sql, custom: (string, string, Record) -> bool, c: Cond, rec: Record) {
    match c
    case Search(term, columns) => exists i :: 0 <= i < |columns| && ColumnMatches(rec, columns[i], term)
    case Equals(column, cell) => CellOf(rec.columns, column) == cell
    case Compare(column, op, value) => OpHolds(sql, op, CellOf(rec.columns, column), value)
    case RelatedCompare(relation, column, op, value) =>
      exists k :: 0 <= k < |Related(rec, relation)| && OpHolds(sql, op, CellOf(Related(rec, relation)[k], column), value)
    case Custom(filter, value) => custom(filter, value, rec)
  }

  predicate AllHold(sql: Sql, custom: (string, string, Record) -> bool, conds: seq<Cond>, rec: Record) {
    forall i :: 0 <= i < |conds| ==> Holds(sql, custom, conds[i], rec)
  }

  lemma AllHoldAppend(sql: Sql, custom: (string, string, Record) -> bool, a: seq<Cond>, b: seq<Cond>, rec: Record)
    ensures AllHold(sql, custom, a + b, rec) <==> AllHold(sql, custom, a, rec) && AllHold(sql, custom, b, rec)
  {
    if AllHold(sql, custom, a, rec) && AllHold(sql, custom, b, rec) {
      forall i | 0 <= i < |a + b| ensures Holds(sql, custom, (a + b)[i], rec) {
        if i >= |a| {
          assert (a + b)[i] == b[i - |a|];
        }
      }
    }
    if AllHold(sql, custom, a + b, rec) {
      forall i | 0 <= i < |b| ensures Holds(sql, custom, b[i], rec) {
        assert (a + b)[|a| + i] == b[i];
      }
      forall i | 0 <= i < |a| ensures Holds(sql, custom, a[i], rec) {
        assert (a + b)[i] == a[i];
      }
    }
  }

  // ---------------------------------------------------------------------
  // Search
  // ---------------------------------------------------------------------

  /**
   * `applySearch`: nothing when the search is not filled or there are no
   * columns; otherwise one grouped condition, true when some column
   * contains the search term.
   */
  function ApplySearch(q: Query, request: Request, columns: seq<string>): (r: Query)
    ensures !FilledKey(request, "search") || columns == [] ==> r == q
    ensures FilledKey(request, "search") && columns != [] ==>
              r == q.(conds := q.conds + [Search(request["search"], columns)])
  {
    if !FilledKey(request, "search") || columns == [] then q
    else q.(conds := q.conds + [Search(request["search"], columns)])
  }

  /** A record passes the search condition exactly when some column contains the term. */
  lemma SearchMeaning(sql: Sql, custom: (string, string, Record) -> bool, q: Query, request: Request, columns: seq<string>, rec: Record)
    requires FilledKey(request, "search") && columns != []
    ensures AllHold(sql, custom, ApplySearch(q, request, columns).conds, rec)
        <==> AllHold(sql, custom, q.conds, rec)
             && exists i :: 0 <= i < |columns| && ColumnMatches(rec, columns[i], request["search"])
  {
    AllHoldAppend(sql, custom, q.conds, [Search(request["search"], columns)], rec);
    var one := [Search(request["search"], columns)];
    assert AllHold(sql, custom, one, rec) <==> Holds(sql, custom, one[0], rec);
  }

  /** On a plain column the search is substring containment. */
  lemma PlainColumnSearch(rec: Record, column: string, term: string)
    requires '.' !in column
    ensures ColumnMatches(rec, column, term) <==> CellOf(rec.columns, column).Text? && Contains(CellOf(rec.columns, column).s, term)
  {
  }

  // ---------------------------------------------------------------------
  // Filters
  // ---------------------------------------------------------------------

  /**
   * A filter definition: a plain column name, an array definition
   * (column, operator, boolean-true value, relation; each optional), or a
   * custom callback.
   */
  datatype FilterConfig =
    | ColumnName(column: string)
    | Definition(target: Option<string>, operator: Option<string>, booleanTrue: Option<string>, relation: Option<string>)
    | Callback

  /**
   * The condition a filled filter adds for the request value `value`. A
   * plain string is read as a column to compare for equality, as the
   * definitions document it; `FilterCondsAsWritten` shows where the code
   * reads some strings differently.
   */
  function FilterCond(name: string, config: FilterConfig, value: string): (c: Cond)
    ensures config.ColumnName? ==> c == Equals(config.column, Text(value))
    ensures config.Definition? && config.booleanTrue.Some? ==>
              c == Equals(config.target.GetOr(name), Flag(value == config.booleanTrue.value))
    ensures config.Callback? ==> c == Custom(name, value)
  {
    match config
    case ColumnName(column) => Equals(column, Text(value))
    case Definition(target, operator, booleanTrue, relation) =>
      var col := target.GetOr(name);
      var op := operator.GetOr("=");
      if booleanTrue.Some? then Equals(col, Flag(value == booleanTrue.value))
      else if relation.Some? then RelatedCompare(relation.value, col, op, value)
      else Compare(col, op, value)
    case Callback => Custom(name, value)
  }

  /** The conditions the filters add: one per filled filter, in definition order. */
  function FilterConds(request: Request, filters: seq<(string, FilterConfig)>): (r: seq<Cond>)
    ensures |r| <= |filters|
    decreases |filters|
  {
    if filters == [] then []
    else
      var (name, config) := filters[0];
      (if FilledKey(request, name) then [FilterCond(name, config, request[name])] else [])
        + FilterConds(request, filters[1..])
  }

  /** `applyFilters`: walks the definitions and adds a condition for each filled one. */
  method ApplyFilters(q: Query, request: Request, filters: seq<(string, FilterConfig)>) returns (r: Query)
    ensures r == q.(conds := q.conds + FilterConds(request, filters))
  {
    r := q;
    var i := 0;
    while i < |filters|
      invariant 0 <= i <= |filters|
      invariant r.orders == q.orders
      invariant r.conds + FilterConds(request, filters[i..]) == q.conds + FilterConds(request, filters)
    {
      var (name, config) := filters[i];
      assert filters[i..][1..] == filters[i + 1..];
      if FilledKey(request, name) {
        r := r.(conds := r.conds + [FilterCond(name, config, request[name])]);
      }
      i := i + 1;
    }
    assert filters[|filters|..] == [];
  }

  /** A filter lets a record through: it is not filled, or its condition holds. */
  predicate FilterPasses(sql: Sql, custom: (string, string, Record) -> bool, request: Request,
                         filter: (string, FilterConfig), rec: Record) {
    FilledKey(request, filter.0) ==> Holds(sql, custom, FilterCond(filter.0, filter.1, request[filter.0]), rec)
  }

  /**
   * A record passes the filters exactly when it passes the condition of
   * every filled filter; unfilled filters do not constrain it.
   */
  lemma {:induction false} FiltersMeaning(sql: Sql, custom: (string, string, Record) -> bool, request: Request,
                                          filters: seq<(string, FilterConfig)>, rec: Record)
    ensures AllHold(sql, custom, FilterConds(request, filters), rec)
        <==> forall i :: 0 <= i < |filters| ==> FilterPasses(sql, custom, request, filters[i], rec)
    decreases |filters|
  {
    if filters != [] {
      var (name, config) := filters[0];
      var head := if FilledKey(request, name) then [FilterCond(name, config, request[name])] else [];
      var tail := filters[1..];
      assert FilterConds(request, filters) == head + FilterConds(request, tail);
      FiltersMeaning(sql, custom, request, tail, rec);
      AllHoldAppend(sql, custom, head, FilterConds(request, tail), rec);
      if FilledKey(request, name) {
        assert AllHold(sql, custom, head, rec) <==> Holds(sql, custom, head[0], rec);
      }
      assert AllHold(sql, custom, head, rec) <==> FilterPasses(sql, custom, request, filters[0], rec);
      if forall i :: 0 <= i < |filters| ==> FilterPasses(sql, custom, request, filters[i], rec) {
        forall j | 0 <= j < |tail| ensures FilterPasses(sql, custom, request, tail[j], rec) {
          assert tail[j] == filters[j + 1];
        }
      }
      if AllHold(sql, custom, FilterConds(request, filters), rec) {
        forall i | 0 <= i < |filters| ensures FilterPasses(sql, custom, request, filters[i], rec) {
          if i > 0 {
            assert filters[i] == tail[i - 1];
          }
        }
      }
    }
  }

  /** No filled filter, no condition. */
  lemma {:induction false} UnfilledFiltersAddNothing(request: Request, filters: seq<(string, FilterConfig)>)
    requires forall i :: 0 <= i < |filters| ==> !FilledKey(request, filters[i].0)
    ensures FilterConds(request, filters) == []
    decreases |filters|
  {
    if filters != [] {
      UnfilledFiltersAddNothing(request, filters[1..]);
    }
  }

  /**
   * A boolean filter keeps the records whose flag is true exactly when the
   * request value is the configured true value; any other value selects
   * the false ones.
   */
  lemma BooleanFilter(sql: Sql, custom: (string, string, Record) -> bool, name: string, column: string,
                      trueValue: string, value: string, rec: Record)
    ensures var c := FilterCond(name, Definition(Some(column), None, Some(trueValue), None), value);
            Holds(sql, custom, c, rec) <==> CellOf(rec.columns, column) == Flag(value == trueValue)
  {
  }

  /**
   * A plain string definition that `is_callable` accepts: it names a
   * global function. `functions` is the set of global function names;
   * Laravel's helpers include `event`, `now` and `report`.
   */
  predicate NamesFunction(config: FilterConfig, functions: set<string>) {
    config.ColumnName? && config.column in functions
  }

  /**
   * The conditions `applyFilters` adds as written. It asks `is_callable`
   * before anything else, so a string definition that names a global
   * function is called with the query and the value instead of being
   * compared. The global helpers ignore the query they are handed
   * (`event` dispatches it as an event), so such a filter adds nothing.
   */
  function FilterCondsAsWritten(request: Request, filters: seq<(string, FilterConfig)>, functions: set<string>): (r: seq<Cond>)
    ensures |r| <= |filters|
    decreases |filters|
  {
    if filters == [] then []
    else
      var (name, config) := filters[0];
      (if FilledKey(request, name) && !NamesFunction(config, functions) then [FilterCond(name, config, request[name])] else [])
        + FilterCondsAsWritten(request, filters[1..], functions)
  }

  /**
   * As written, the filters behave like the definitions with every string
   * that names a global function left out; with no such string they
   * behave as documented.
   */
  lemma {:induction false} AsWrittenSkipsFunctionNames(request: Request, filters: seq<(string, FilterConfig)>, functions: set<string>)
    ensures FilterCondsAsWritten(request, filters, functions)
         == FilterConds(request, Collections.Filter(filters, (f: (string, FilterConfig)) => !NamesFunction(f.1, functions)))
    ensures (forall i :: 0 <= i < |filters| ==> !NamesFunction(filters[i].1, functions)) ==>
              FilterCondsAsWritten(request, filters, functions) == FilterConds(request, filters)
    decreases |filters|
  {
    var keep := (f: (string, FilterConfig)) => !NamesFunction(f.1, functions);
    if filters != [] {
      AsWrittenSkipsFunctionNames(request, filters[1..], functions);
      var kept := Collections.Filter(filters, keep);
      if keep(filters[0]) {
        assert kept == [filters[0]] + Collections.Filter(filters[1..], keep);
        assert kept[0] == filters[0] && kept[1..] == Collections.Filter(filters[1..], keep);
      } else {
        assert kept == Collections.Filter(filters[1..], keep);
      }
      if forall i :: 0 <= i < |filters| ==> !NamesFunction(filters[i].1, functions) {
        assert forall i :: 0 <= i < |filters[1..]| ==> !NamesFunction(filters[1..][i].1, functions) by {
          forall i | 0 <= i < |filters[1..]| ensures !NamesFunction(filters[1..][i].1, functions) {
            assert filters[1..][i] == filters[i + 1];
          }
        }
      }
    }
  }

  /**
   * The activity-log index defines `'event' => 'event'`. A request with
   * `event=created` is meant to keep the `created` entries, but `event`
   * names Laravel's global helper, so as written the filter adds nothing
   * and every entry is listed.
   */
  lemma EventFilterIgnored(functions: set<string>)
    requires "event" in functions
    ensures var filters := [("log_name", ColumnName("log_name")), ("event", ColumnName("event")), ("causer_id", ColumnName("causer_id"))];
            var request := map["event" := "created"];
            && FilterCondsAsWritten(request, filters, functions) == []
            && FilterConds(request, filters) == [Equals("event", Text("created"))]
  {
    var filters := [("log_name", ColumnName("log_name")), ("event", ColumnName("event")), ("causer_id", ColumnName("causer_id"))];
    var request := map["event" := "created"];
    assert !IsPhpSpace("created"[0]);
    assert FilledKey(request, "event");
    assert !FilledKey(request, "log_name") && !FilledKey(request, "causer_id");
    assert filters[1..][1..] == [filters[2]];
  }

  // ---------------------------------------------------------------------
  // Sorting and paging
  // ---------------------------------------------------------------------

  /**
   * `applySorting`: the requested column when it is allowed, else the
   * default column; the requested direction when it is `asc` or `desc`,
   * else the default direction.
   */
  function SortChoice(request: Request, allowed: seq<string>, defaultColumn: string, defaultDirection: string): (r: (string, string))
    ensures "sort" in request && request["sort"] in allowed ==> r.0 == request["sort"]
    ensures !("sort" in request && request["sort"] in allowed) ==> r.0 == defaultColumn
    ensures "direction" in request && request["direction"] in ["asc", "desc"] ==> r.1 == request["direction"]
    ensures !("direction" in request && request["direction"] in ["asc", "desc"]) ==> r.1 == defaultDirection
  {
    var column := Input(request, "sort").GetOr(defaultColumn);
    var direction := Input(request, "direction").GetOr(defaultDirection);
    var column' := if column !in allowed then defaultColumn else column;
    var direction' := if direction !in ["asc", "desc"] then defaultDirection else direction;
    (column', direction')
  }

  /** The chosen column is allowed whenever the default is, and the direction is valid whenever the default is. */
  lemma SortIsSanitised(request: Request, allowed: seq<string>, defaultColumn: string, defaultDirection: string)
    requires defaultColumn in allowed && defaultDirection in ["asc", "desc"]
    ensures SortChoice(request, allowed, defaultColumn, defaultDirection).0 in allowed
    ensures SortChoice(request, allowed, defaultColumn, defaultDirection).1 in ["asc", "desc"]
  {
  }

  function ApplySorting(q: Query, request: Request, allowed: seq<string>, defaultColumn: string, defaultDirection: string): (r: Query)
    ensures r.conds == q.conds
    ensures r.orders == q.orders + [SortChoice(request, allowed, defaultColumn, defaultDirection)]
  {
    q.(orders := q.orders + [SortChoice(request, allowed, defaultColumn, defaultDirection)])
  }

  predicate IsNumericSpace(c: char) {
    c == ' ' || c == '\t' || c == '\n' || c == '\r' || c == '\U{B}' || c == '\U{C}'
  }

  function SkipSpaces(s: string): (r: string)
    ensures |r| <= |s|
    decreases |s|
  {
    if s != [] && IsNumericSpace(s[0]) then SkipSpaces(s[1..]) else s
  }

  /** The longest prefix of decimal digits. */
  function LeadingDigits(s: string): (r: string)
    ensures forall i :: 0 <= i < |r| ==> IsDigit(r[i])
    ensures |r| <= |s|
    decreases |s|
  {
    if s != [] && IsDigit(s[0]) then [s[0]] + LeadingDigits(s[1..]) else []
  }

  /**
   * PHP's `(int)` cast of a decimal string: leading white space, an
   * optional sign and the digits that follow; no digits give 0. A
   * non-digit ends the number here; PHP also reads an exponent
   * (`"1e2"` casts to 100), which this function does not.
   */
  function PhpIntval(s: string): int {
    var t := SkipSpaces(s);
    if t != [] && t[0] == '-' then -(DigitsValue(LeadingDigits(t[1..])) as int)
    else if t != [] && t[0] == '+' then DigitsValue(LeadingDigits(t[1..]))
    else DigitsValue(LeadingDigits(t))
  }

  lemma {:induction false} LeadingDigitsOfDigits(s: string)
    requires forall i :: 0 <= i < |s| ==> IsDigit(s[i])
    ensures LeadingDigits(s) == s
    decreases |s|
  {
    if s != [] {
      LeadingDigitsOfDigits(s[1..]);
    }
  }

  /** The cast reads back the decimal text of a number. */
  lemma PhpIntvalOfNumber(n: nat)
    ensures PhpIntval(NatToString(n)) == n
  {
    var t := NatToString(n);
    assert !IsNumericSpace(t[0]) && t[0] != '-' && t[0] != '+' by {
      assert IsDigit(t[0]);
    }
    LeadingDigitsOfDigits(t);
    NatToStringValue(n);
  }

  /**
   * `getPerPage`: the requested page size (cast to an integer) when it lies
   * in 1..100, otherwise the default.
   */
  function GetPerPage(request: Request, default: int): (n: int)
    ensures var asked := if "per_page" in request then PhpIntval(request["per_page"]) else default;
            (1 <= asked <= 100 ==> n == asked) && (!(1 <= asked <= 100) ==> n == default)
  {
    var perPage := if "per_page" in request then PhpIntval(request["per_page"]) else default;
    if perPage < 1 || perPage > 100 then default else perPage
  }

  /** With a default in range, the page size is always in range. */
  lemma PerPageInRange(request: Request, default: int)
    requires 1 <= default <= 100
    ensures 1 <= GetPerPage(request, default) <= 100
  {
  }

  /** A page size of 1..100 written in decimal is honoured. */
  lemma PerPageHonoured(request: Request, n: nat, default: int)
    requires 1 <= n <= 100 && "per_page" in request && request["per_page"] == NatToString(n)
    ensures GetPerPage(request, default) == n
  {
    PhpIntvalOfNumber(n);
  }

  /** `getTableFilters`: the request restricted to the table keys and the named filters. */
  function TableFilters(request: Request, filterNames: seq<string>): (r: Request)
    ensures forall k :: k in r <==> k in request && (k in ["search", "sort", "direction", "per_page"] || k in filterNames)
    ensures forall k :: k in r ==> r[k] == request[k]
  {
    map k | k in request && (k in ["search", "sort", "direction", "per_page"] || k in filterNames) :: request[k]
  }

  // ---------------------------------------------------------------------
  // applyTableQuery
  // ---------------------------------------------------------------------

  /** The configuration array: each stage runs only when its key is set. */
  datatype TableConfig = TableConfig(
    searchColumns: Option<seq<string>>,
    filters: Option<seq<(string, FilterConfig)>>,
    sortColumns: Option<seq<string>>,
    defaultSort: Option<string>,
    defaultDirection: Option<string>)

  /**
   * `applyTableQuery`: search, then filters, then sorting, each when
   * configured. The filters are the documented ones (`FilterConds`); for
   * a string definition that names a global function, such as the
   * activity log's `'event' => 'event'`, the code as written adds nothing
   * instead (`FilterCondsAsWritten`).
   */
  function ApplyTableQuery(q: Query, request: Request, config: TableConfig): (r: Query)
  {
    var searched := if config.searchColumns.Some? then ApplySearch(q, request, config.searchColumns.value) else q;
    var filtered := if config.filters.Some? then searched.(conds := searched.conds + FilterConds(request, config.filters.value)) else searched;
    if config.sortColumns.Some? then
      ApplySorting(filtered, request, config.sortColumns.value,
                   config.defaultSort.GetOr("created_at"), config.defaultDirection.GetOr("desc"))
    else filtered
  }

  /** With no stage configured the query is unchanged. */
  lemma NoStagesNoChange(q: Query, request: Request, defaultSort: Option<string>, defaultDirection: Option<string>)
    ensures ApplyTableQuery(q, request, TableConfig(None, None, None, defaultSort, defaultDirection)) == q
  {
  }

  /**
   * With sorting configured but no default given and no sort requested,
   * the query ends ordered by `created_at desc`.
   */
  lemma DefaultOrder(q: Query, request: Request, config: TableConfig)
    requires config.sortColumns.Some? && config.defaultSort.None? && config.defaultDirection.None?
    requires "sort" !in request && "direction" !in request
    ensures var r := ApplyTableQuery(q, request, config);
            |r.orders| == |q.orders| + 1 && r.orders[|q.orders|] == ("created_at", "desc")
  {
  }

  /**
   * The stages add only conditions and at most one ordering: a record the
   * final query keeps passes every condition the original query had.
   */
  lemma StagesOnlyNarrow(sql: Sql, custom: (string, string, Record) -> bool, q: Query, request: Request, config: TableConfig, rec: Record)
    requires AllHold(sql, custom, ApplyTableQuery(q, request, config).conds, rec)
    ensures AllHold(sql, custom, q.conds, rec)
  {
    var searched := if config.searchColumns.Some? then ApplySearch(q, request, config.searchColumns.value) else q;
    var extra := if config.searchColumns.Some? && FilledKey(request, "search") && config.searchColumns.value != []
                 then [Search(request["search"], config.searchColumns.value)] else [];
    assert searched.conds == q.conds + extra;
    var more := if config.filters.Some? then FilterConds(request, config.filters.value) else [];
    assert ApplyTableQuery(q, request, config).conds == (q.conds + extra) + more;
    AllHoldAppend(sql, custom, q.conds + extra, more, rec);
    AllHoldAppend(sql, custom, q.conds, extra, rec);
  }
}
