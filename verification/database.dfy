/**
  The search filter of the record store (`search_in_db`): a sparse,
  ordered map of search criteria becomes a list of SQL conditions and a
  parallel list of bound parameters, over a fixed criterion-to-column table.
  Queries are modelled as data; their evaluation by the server is not.
 */
module Database {
  import opened Wrappers
  import opened Text
  import opened Python

  /** The people table the query reads. */
  const PeopleTable := "dbo.Tu_Tabla_Principal"

  /** The field the rows are ordered by (ascending). */
  const OrderByField := "NombreCompleto"

  /** `valid_columns`: recognised criterion name to the column it filters. */
  const ValidColumns: map<string, string> := map[
    "nombres" := "ColumnaNombreCompleto", "apellidos" := "ColumnaNombreCompleto",
    "dui" := "ColumnaDUI", "telefono" := "ColumnaTelefono", "correo" := "ColumnaCorreo",
    "direccion" := "ColumnaDireccion", "placa" := "ColumnaPlacaVehiculo",
    "nombre_empresa" := "ColumnaNombreEmpresa", "calle" := "ColumnaCalle",
    "ciudad" := "ColumnaCiudad", "sexo" := "ColumnaSexo",
    "edad" := "ColumnaFechaNacimiento"
  ]

  /** The search criteria, in the caller's (dict insertion) order. */
  type Criteria = seq<(string, Value)>

  /** One SQL condition; each has exactly one `%s` placeholder. */
  datatype Condition =
    | AgeEquals(column: string)    // DATEDIFF(year, column, GETDATE()) = %s
    | SexEquals(column: string)    // column = %s
    | LowerLike(column: string)    // LOWER(column) LIKE %s

  /** A bound parameter. */
  datatype Param = IntParam(n: int) | StrParam(s: string)

  /** The two lists `search_in_db` builds. */
  datatype Filter = Filter(conditions: seq<Condition>, params: seq<Param>)

  /** A query ready to execute: the conditions ANDed in order, their parameters, the fixed ordering. */
  datatype Query = Query(table: string, conditions: seq<Condition>, params: seq<Param>, orderBy: string)

  /**
    Where the age condition is appended relative to `int(value)`: the code
    appends first (so a failed parse leaves a condition without a parameter);
    the documented intent is to parse first and drop the criterion.
   */
  datatype AgeHandling = AppendThenParse | ParseThenAppend

  /** Errors the store raises; a placeholder/parameter count mismatch is one of them. */
  datatype StoreError = PlaceholderMismatch | ServerError(detail: string)

  /** The store, abstracted: executes a query and returns rows or raises. */
  type Store = Query -> Result<seq<Row>, StoreError>

  function ConditionFor(key: string): Condition
    requires key in ValidColumns
  {
    var column := ValidColumns[key];
    if key == "edad" then AgeEquals(column)
    else if key == "sexo" then SexEquals(column)
    else LowerLike(column)
  }

  /** The SQL text of a condition: it mentions the column and a placeholder, never a value. */
  function ConditionText(c: Condition): string {
    match c
    case AgeEquals(column) => "DATEDIFF(year, " + column + ", GETDATE()) = %s"
    case SexEquals(column) => column + " = %s"
    case LowerLike(column) => "LOWER(" + column + ") LIKE %s"
  }

  /** The WHERE clause: condition texts joined by ` AND `. */
  function WhereText(cs: seq<Condition>): string {
    if |cs| == 0 then ""
    else if |cs| == 1 then ConditionText(cs[0])
    else ConditionText(cs[0]) + " AND " + WhereText(cs[1..])
  }

  /** A criterion the loop looks at: a recognised key with a truthy value. */
  predicate Accepted(key: string, value: Value) {
    key in ValidColumns && Truthy(value)
  }

  /** An accepted age whose value `int()` rejects. */
  predicate BadAge(key: string, value: Value) {
    Accepted(key, value) && key == "edad" && ToInt(value).None?
  }

  /** A criterion that, read as intended, yields one condition and one parameter. */
  predicate Usable(key: string, value: Value) {
    Accepted(key, value) && !BadAge(key, value)
  }

  /** The parameter a usable criterion binds. */
  function ParamFor(key: string, value: Value): Param
    requires Usable(key, value)
  {
    if key == "edad" then IntParam(ToInt(value).value)
    else if key == "sexo" then StrParam(Upper(ToStr(value)))
    else StrParam("%" + Lower(ToStr(value)) + "%")
  }

  /** One iteration of the loop over the criteria. */
  function EntryFilter(key: string, value: Value, h: AgeHandling): Filter {
    if !Accepted(key, value) then Filter([], [])
    else if BadAge(key, value) then
      if h == AppendThenParse then Filter([ConditionFor(key)], []) else Filter([], [])
    else Filter([ConditionFor(key)], [ParamFor(key, value)])
  }

  /** The number of accepted age criteria `int()` rejects. */
  function BadAges(kw: Criteria): nat {
    if |kw| == 0 then 0
    else (if BadAge(kw[0].0, kw[0].1) then 1 else 0) + BadAges(kw[1..])
  }

  /** The loop over the criteria: each criterion's contribution, concatenated in input order. */
  function Collect(kw: Criteria, entry: (string, Value) -> Filter): Filter {
    if |kw| == 0 then Filter([], [])
    else
      var e := entry(kw[0].0, kw[0].1);
      var rest := Collect(kw[1..], entry);
      Filter(e.conditions + rest.conditions, e.params + rest.params)
  }

  /** The loop body for a given placement of the age parse. */
  function EntryOf(h: AgeHandling): (string, Value) -> Filter {
    (key: string, value: Value) => EntryFilter(key, value, h)
  }

  /** `search_in_db`'s loop, with the age parse placed as `h` says. */
  function BuildWith(kw: Criteria, h: AgeHandling): Filter {
    Collect(kw, EntryOf(h))
  }

  /** Each unparseable age appended first leaves one placeholder without a parameter; otherwise they pair up. */
  lemma {:induction false} PlaceholderCount(kw: Criteria, h: AgeHandling)
    ensures |BuildWith(kw, h).conditions| == |BuildWith(kw, h).params| + (if h == AppendThenParse then BadAges(kw) else 0)
  {
    if |kw| > 0 {
      PlaceholderCount(kw[1..], h);
    }
  }

  /** The keys of the accepted criteria, in order. */
  function AcceptedKeys(kw: Criteria): seq<string> {
    if |kw| == 0 then []
    else (if Accepted(kw[0].0, kw[0].1) then [kw[0].0] else []) + AcceptedKeys(kw[1..])
  }

  /** The usable criteria, in order. */
  function UsableEntries(kw: Criteria): Criteria {
    if |kw| == 0 then []
    else (if Usable(kw[0].0, kw[0].1) then [kw[0]] else []) + UsableEntries(kw[1..])
  }

  /** The conditions a sequence of recognised keys yields (unrecognised keys yield none). */
  function ConditionsOf(keys: seq<string>): seq<Condition> {
    if |keys| == 0 then []
    else (if keys[0] in ValidColumns then [ConditionFor(keys[0])] else []) + ConditionsOf(keys[1..])
  }

  /** Each condition is paired with a parameter of the kind its placeholder expects. */
  predicate Aligned(f: Filter) {
    && |f.conditions| == |f.params|
    && forall i :: 0 <= i < |f.conditions| ==> (f.conditions[i].AgeEquals? <==> f.params[i].IntParam?)
  }

  /** The contributions of two runs of criteria concatenate, whatever the loop body. */
  lemma {:induction false} CollectAppend(a: Criteria, b: Criteria, entry: (string, Value) -> Filter)
    ensures Collect(a + b, entry) == Filter(Collect(a, entry).conditions + Collect(b, entry).conditions,
                                            Collect(a, entry).params + Collect(b, entry).params)
  {
    if |a| > 0 {
      assert (a + b)[0] == a[0] && (a + b)[1..] == a[1..] + b;
      CollectAppend(a[1..], b, entry);
    } else {
      assert a + b == b;
    }
  }

  /** A criterion contributing nothing can be dropped from anywhere in the input. */
  lemma CollectSkips(a: Criteria, key: string, value: Value, b: Criteria, entry: (string, Value) -> Filter)
    requires entry(key, value) == Filter([], [])
    ensures Collect(a + [(key, value)] + b, entry) == Collect(a + b, entry)
  {
    CollectAppend(a + [(key, value)], b, entry);
    CollectAppend(a, [(key, value)], entry);
    CollectAppend(a, b, entry);
    assert Collect([(key, value)], entry) == Filter([], []) by {
      assert [(key, value)][1..] == [];
    }
  }

  /**
    `search_in_db` as written: an accepted age whose value does not parse
    still contributes its condition, so conditions outnumber parameters by
    exactly the number of such ages. The conditions are those of the
    accepted keys, in input order, whatever the values are.
   */
  function BuildFilterAsWritten(kw: Criteria): (f: Filter)
    ensures f.conditions == ConditionsOf(AcceptedKeys(kw))
    ensures |f.conditions| == |AcceptedKeys(kw)|
    ensures |f.conditions| == |f.params| + BadAges(kw)
    ensures f.params == BuildFilter(kw).params
  {
    AsWrittenConditions(kw);
    PlaceholderCount(kw, AppendThenParse);
    ParamsAgree(kw);
    BuildWith(kw, AppendThenParse)
  }

  /** Where the age is parsed changes only the conditions: the parameters are the same. */
  lemma {:induction false} ParamsAgree(kw: Criteria)
    ensures BuildWith(kw, AppendThenParse).params == BuildWith(kw, ParseThenAppend).params
  {
    if |kw| > 0 {
      ParamsAgree(kw[1..]);
    }
  }

  lemma {:induction false} AsWrittenConditions(kw: Criteria)
    ensures BuildWith(kw, AppendThenParse).conditions == ConditionsOf(AcceptedKeys(kw))
    ensures |ConditionsOf(AcceptedKeys(kw))| == |AcceptedKeys(kw)|
  {
    if |kw| > 0 {
      AsWrittenConditions(kw[1..]);
      var head := if Accepted(kw[0].0, kw[0].1) then [kw[0].0] else [];
      assert AcceptedKeys(kw) == head + AcceptedKeys(kw[1..]);
      ConditionsOfAppend(head, AcceptedKeys(kw[1..]));
    }
  }

  lemma {:induction false} ConditionsOfAppend(a: seq<string>, b: seq<string>)
    ensures ConditionsOf(a + b) == ConditionsOf(a) + ConditionsOf(b)
  {
    if |a| > 0 {
      assert (a + b)[1..] == a[1..] + b;
      ConditionsOfAppend(a[1..], b);
    } else {
      assert a + b == b;
    }
  }

  /**
    The intended filter: exactly one condition and one parameter per usable
    criterion, in input order, the parameter being the one its key prescribes
    (the integer age, the upper-cased sex, the lower-cased `%`-wrapped pattern).
   */
  function BuildFilter(kw: Criteria): (f: Filter)
    ensures |f.conditions| == |f.params| == |UsableEntries(kw)|
    ensures forall i :: 0 <= i < |UsableEntries(kw)| ==>
      var (key, value) := UsableEntries(kw)[i];
      && Usable(key, value)
      && f.conditions[i] == ConditionFor(key)
      && f.params[i] == ParamFor(key, value)
    ensures Aligned(f)
  {
    IntendedFilterSpec(kw);
    BuildWith(kw, ParseThenAppend)
  }

  lemma {:induction false} IntendedFilterSpec(kw: Criteria)
    ensures var f := BuildWith(kw, ParseThenAppend);
      && |f.conditions| == |f.params| == |UsableEntries(kw)|
      && forall i :: 0 <= i < |UsableEntries(kw)| ==>
        var (key, value) := UsableEntries(kw)[i];
        && Usable(key, value)
        && f.conditions[i] == ConditionFor(key)
        && f.params[i] == ParamFor(key, value)
  {
    if |kw| > 0 {
      IntendedFilterSpec(kw[1..]);
    }
  }

  /** The query for a filter: its conditions ANDed, its parameters bound, ordered by name. */
  function QueryOf(f: Filter): Query {
    Query(PeopleTable, f.conditions, f.params, OrderByField)
  }

  /**
    `search_in_db` as written, with the store abstracted: no condition means
    no query and no rows; a condition list longer than the parameter list
    makes the statement fail; otherwise the store runs the query.
   */
  function SearchAsWritten(kw: Criteria, store: Store): (r: Result<seq<Row>, StoreError>)
    ensures AcceptedKeys(kw) == [] ==> r == Success([])
    ensures AcceptedKeys(kw) != [] && BadAges(kw) > 0 ==> r == Failure(PlaceholderMismatch)
    ensures BadAges(kw) == 0 ==> r == Search(kw, store)
  {
    var f := BuildFilterAsWritten(kw);
    AsWrittenAgreesWithoutBadAges(kw);
    if |f.conditions| == 0 then Success([])
    else if |f.conditions| != |f.params| then Failure(PlaceholderMismatch)
    else store(QueryOf(f))
  }

  /**
    The search as intended: no usable criterion means no query is issued
    and the result is empty; otherwise exactly one query runs, and its text
    never carries a user value.
   */
  function Search(kw: Criteria, store: Store): (r: Result<seq<Row>, StoreError>)
    ensures UsableEntries(kw) == [] ==> r == Success([])
    ensures UsableEntries(kw) != [] ==> r == store(QueryOf(BuildFilter(kw)))
  {
    var f := BuildFilter(kw);
    if |f.conditions| == 0 then Success([]) else store(QueryOf(f))
  }

  /** With every age parseable the code and the intent build the same filter. */
  lemma {:induction false} AsWrittenAgreesWithoutBadAges(kw: Criteria)
    ensures BadAges(kw) == 0 ==> BuildWith(kw, AppendThenParse) == BuildWith(kw, ParseThenAppend)
    ensures BadAges(kw) == 0 ==> (AcceptedKeys(kw) == [] <==> UsableEntries(kw) == [])
  {
    if |kw| > 0 {
      AsWrittenAgreesWithoutBadAges(kw[1..]);
    }
  }

  /** Unrecognised keys and falsy values contribute no condition and no parameter. */
  lemma IgnoredCriterion(a: Criteria, key: string, value: Value, b: Criteria, h: AgeHandling)
    requires !Accepted(key, value)
    ensures BuildWith(a + [(key, value)] + b, h) == BuildWith(a + b, h)
  {
    CollectSkips(a, key, value, b, EntryOf(h));
  }

  /** The search with the age parsed as `h` says: the code as written, or as intended. */
  function SearchBy(kw: Criteria, h: AgeHandling, store: Store): Result<seq<Row>, StoreError> {
    if h == AppendThenParse then SearchAsWritten(kw, store) else Search(kw, store)
  }

  /** Either way, a criterion the loop skips changes neither the query nor the result. */
  lemma SearchByIgnoresCriterion(a: Criteria, key: string, value: Value, b: Criteria, h: AgeHandling, store: Store)
    requires !Accepted(key, value)
    ensures SearchBy(a + [(key, value)] + b, h, store) == SearchBy(a + b, h, store)
  {
    IgnoredCriterion(a, key, value, b, h);
  }

  /** Adding a criterion the loop skips changes neither the query nor the result. */
  lemma SearchIgnoresCriterion(a: Criteria, key: string, value: Value, b: Criteria, store: Store)
    requires !Accepted(key, value)
    ensures Search(a + [(key, value)] + b, store) == Search(a + b, store)
  {
    IgnoredCriterion(a, key, value, b, ParseThenAppend);
  }

  /** The query text depends only on which recognised keys carried a truthy value. */
  lemma WhereTextDependsOnlyOnKeys(kw1: Criteria, kw2: Criteria)
    requires AcceptedKeys(kw1) == AcceptedKeys(kw2)
    ensures WhereText(BuildFilterAsWritten(kw1).conditions) == WhereText(BuildFilterAsWritten(kw2).conditions)
  {
  }

  /** `nombres` and `apellidos` filter the same column in the same way. */
  lemma NamesShareColumn(value: Value)
    ensures BuildFilter([("nombres", value)]) == BuildFilter([("apellidos", value)])
  {
    assert [("nombres", value)][1..] == [];
    assert [("apellidos", value)][1..] == [];
  }

  /**
    The defect: a non-numeric age is not ignored. Its condition is appended
    before `int()` fails, so the placeholders outnumber the parameters and
    the whole search fails, where the intended filter simply drops it.
   */
  lemma NonNumericAgeBreaksSearch(store: Store)
    ensures var kw := [("edad", Str("abc")), ("nombres", Str("ana"))];
      && BuildFilterAsWritten(kw) == Filter([AgeEquals("ColumnaFechaNacimiento"), LowerLike("ColumnaNombreCompleto")], [StrParam("%ana%")])
      && SearchAsWritten(kw, store) == Failure(PlaceholderMismatch)
      && BuildFilter(kw) == Filter([LowerLike("ColumnaNombreCompleto")], [StrParam("%ana%")])
      && Search(kw, store) == store(Query(PeopleTable, [LowerLike("ColumnaNombreCompleto")], [StrParam("%ana%")], OrderByField))
  {
    var kw := [("edad", Str("abc")), ("nombres", Str("ana"))];
    var age, name := AgeEquals("ColumnaFechaNacimiento"), LowerLike("ColumnaNombreCompleto");
    BadAgeEntry();
    NameEntry(AppendThenParse);
    NameEntry(ParseThenAppend);
    CollectPair("edad", Str("abc"), "nombres", Str("ana"), EntryOf(AppendThenParse));
    CollectPair("edad", Str("abc"), "nombres", Str("ana"), EntryOf(ParseThenAppend));
    assert BuildWith(kw, AppendThenParse) == Filter([age, name], [StrParam("%ana%")]);
    assert BuildWith(kw, ParseThenAppend) == Filter([name], [StrParam("%ana%")]);
  }

  /** What the non-numeric age contributes under either placement of the parse. */
  lemma BadAgeEntry()
    ensures EntryFilter("edad", Str("abc"), AppendThenParse) == Filter([AgeEquals("ColumnaFechaNacimiento")], [])
    ensures EntryFilter("edad", Str("abc"), ParseThenAppend) == Filter([], [])
  {
    assert ParseInt("abc") == None by {
      StripKeepsTrimmed("abc");
    }
    assert BadAge("edad", Str("abc"));
  }

  /** What the name criterion contributes: a case-insensitive substring pattern. */
  lemma NameEntry(h: AgeHandling)
    ensures EntryFilter("nombres", Str("ana"), h) == Filter([LowerLike("ColumnaNombreCompleto")], [StrParam("%ana%")])
  {
    assert Lower("ana") == "ana";
    assert "%" + "ana" + "%" == "%ana%";
    assert Usable("nombres", Str("ana"));
    assert ConditionFor("nombres") == LowerLike("ColumnaNombreCompleto");
  }

  /** The loop over two criteria. */
  lemma CollectPair(k1: string, v1: Value, k2: string, v2: Value, entry: (string, Value) -> Filter)
    ensures Collect([(k1, v1), (k2, v2)], entry) ==
      Filter(entry(k1, v1).conditions + entry(k2, v2).conditions, entry(k1, v1).params + entry(k2, v2).params)
  {
    var kw := [(k1, v1), (k2, v2)];
    assert kw[1..] == [(k2, v2)];
    assert kw[1..][1..] == [];
    var e2 := entry(k2, v2);
    assert Collect([(k2, v2)], entry) == Filter(e2.conditions + [], e2.params + []);
    assert e2.conditions + [] == e2.conditions && e2.params + [] == e2.params;
  }

  /** As intended, the non-numeric age is dropped: the search is the one for the name alone. */
  lemma NonNumericAgeDropped(store: Store)
    ensures Search([("edad", Str("abc")), ("nombres", Str("ana"))], store) == Search([("nombres", Str("ana"))], store)
  {
    BadAgeEntry();
    NameEntry(ParseThenAppend);
    var nameFilter := Filter([LowerLike("ColumnaNombreCompleto")], [StrParam("%ana%")]);
    CollectPair("edad", Str("abc"), "nombres", Str("ana"), EntryOf(ParseThenAppend));
    assert BuildFilter([("edad", Str("abc")), ("nombres", Str("ana"))]) == nameFilter;
    assert [("nombres", Str("ana"))][1..] == [];
    assert BuildFilter([("nombres", Str("ana"))]) == Filter(nameFilter.conditions + [], nameFilter.params + []);
    assert BuildFilter([("nombres", Str("ana"))]) == nameFilter;
  }

}
