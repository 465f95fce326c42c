/**
 * The Flask backend (backend.py): `/unique_values` checks the requested
 * column against a five-entry allow-list and picks its table, and `/search`
 * builds a conjunctive query over a full join of `trial` and `antibodies`
 * from five stripped request parameters. Query execution is a parameter.
 */
module FlaskBackend {
  import opened Wrappers
  import opened Text

  /** The request arguments (`request.args`), name to text. */
  type Args = map<string, string>

  // ---------------------------------------------------------------- /unique_values

  const AllowedColumns: seq<string> := [
    "disease_indication_category",
    "trial_datapoint_idc_identifier_row_identifier",
    "immunogenicity_testing",
    "antibody",
    "target"
  ]

  /** `"antibodies" if column in ["antibody", "target"] else "trial"`. */
  function TableFor(column: string): string {
    if column in ["antibody", "target"] then "antibodies" else "trial"
  }

  function DistinctQuery(column: string, table: string): string {
    "SELECT DISTINCT " + column + " FROM " + table + " WHERE " + column + " IS NOT NULL"
  }

  datatype UniqueReply = InvalidColumn(error: string) | Values(values: seq<string>)

  datatype UniqueOutcome = UniqueOutcome(reply: UniqueReply, queries: seq<string>)

  /** The handler; `run(sql)` is the first column of each row the query returns. */
  function UniqueValues(run: string -> seq<string>, column: Option<string>): (o: UniqueOutcome)
    ensures o.reply.InvalidColumn? <==> o.queries == []
    ensures |o.queries| <= 1
    ensures o.reply.Values? ==> o.reply.values == run(o.queries[0])
  {
    if column.None? || column.value !in AllowedColumns then
      UniqueOutcome(InvalidColumn("Invalid column name"), [])
    else
      var sql := DistinctQuery(column.value, TableFor(column.value));
      UniqueOutcome(Values(run(sql)), [sql])
  }

  /**
   * A column outside the allow-list, or none at all, is rejected with status
   * 400 before any query; an allowed column sends exactly one query, on the
   * column's table, whose rows are returned as they come.
   */
  lemma UniqueValuesSpec(run: string -> seq<string>, column: Option<string>)
    ensures var o := UniqueValues(run, column);
      (o.reply.InvalidColumn? <==> column.None? || column.value !in AllowedColumns) &&
      (o.reply.InvalidColumn? ==> o.queries == []) &&
      (o.reply.Values? ==>
        o.queries == [DistinctQuery(column.value, TableFor(column.value))] && o.reply.values == run(o.queries[0]))
  {
  }

  /** `antibody` and `target` are read from `antibodies`, the three other allowed columns from `trial`. */
  lemma AllowedColumnTables()
    ensures TableFor(AllowedColumns[0]) == "trial"
    ensures TableFor(AllowedColumns[1]) == "trial"
    ensures TableFor(AllowedColumns[2]) == "trial"
    ensures TableFor(AllowedColumns[3]) == "antibodies"
    ensures TableFor(AllowedColumns[4]) == "antibodies"
  {
  }

  // ---------------------------------------------------------------- /search

  /** The text of the query before any filter (the Python triple-quoted string, lines joined by `\n`). */
  const BaseQuery: string :=
    "\n        SELECT * \n        FROM trial t\n        FULL JOIN antibodies a\n        ON t.therapeutic_assessed_for_ada_inn_name = a.antibody\n        WHERE TRUE\n    "

  /** A request parameter and the column it filters, qualified by its table's alias in the join. */
  datatype SearchField = SearchField(param: string, column: string)

  const Disease := SearchField("disease_indication_category", "t.disease_indication_category")
  const TrialId := SearchField("trial_datapoint_idc_identifier_row_identifier", "t.trial_datapoint_idc_identifier_row_identifier")
  const Immunogenicity := SearchField("immunogenicity_testing", "t.immunogenicity_testing")
  const Antibody := SearchField("antibody", "a.antibody")
  const Target := SearchField("target", "a.target")

  /** `request.args.get(name, '').strip()`. */
  function Param(args: Args, name: string): string {
    Trim(if name in args then args[name] else "")
  }

  /** The condition a non-empty parameter appends. */
  function FilterFor(f: SearchField, v: string): string {
    " AND " + f.column + " ILIKE '%" + v + "%'"
  }

  /** What one field contributes: its condition when its stripped parameter is non-empty, else nothing. */
  function Filter(args: Args, f: SearchField): string {
    var v := Param(args, f.param);
    if v != "" then FilterFor(f, v) else ""
  }

  /** The query `search` sends: the base query, then the five fields' conditions in a fixed order. */
  function SearchQuery(args: Args): (q: string)
    ensures |BaseQuery| <= |q| && q[..|BaseQuery|] == BaseQuery
  {
    BaseQuery + Filter(args, Disease) + Filter(args, TrialId) + Filter(args, Immunogenicity)
      + Filter(args, Antibody) + Filter(args, Target)
  }

  /** The `search` handler's query construction: the base query, then one `if` per parameter. */
  method Search(args: Args) returns (query: string)
    ensures query == SearchQuery(args)
  {
    var diseaseIndicationCategory := Param(args, "disease_indication_category");
    var trialDatapointIdcIdentifierRowIdentifier := Param(args, "trial_datapoint_idc_identifier_row_identifier");
    var immunogenicityTesting := Param(args, "immunogenicity_testing");
    var antibody := Param(args, "antibody");
    var target := Param(args, "target");

    query := BaseQuery;
    if diseaseIndicationCategory != "" {
      query := query + FilterFor(Disease, diseaseIndicationCategory);
    }
    NothingAppended(BaseQuery, Filter(args, Disease));
    assert query == BaseQuery + Filter(args, Disease);
    ghost var before := query;
    if trialDatapointIdcIdentifierRowIdentifier != "" {
      query := query + FilterFor(TrialId, trialDatapointIdcIdentifierRowIdentifier);
    }
    NothingAppended(before, Filter(args, TrialId));
    assert query == before + Filter(args, TrialId);
    before := query;
    if immunogenicityTesting != "" {
      query := query + FilterFor(Immunogenicity, immunogenicityTesting);
    }
    NothingAppended(before, Filter(args, Immunogenicity));
    assert query == before + Filter(args, Immunogenicity);
    before := query;
    if antibody != "" {
      query := query + FilterFor(Antibody, antibody);
    }
    NothingAppended(before, Filter(args, Antibody));
    assert query == before + Filter(args, Antibody);
    before := query;
    if target != "" {
      query := query + FilterFor(Target, target);
    }
    NothingAppended(before, Filter(args, Target));
  }

  /** Appending an empty condition leaves the query as it was. */
  lemma NothingAppended(query: string, filter: string)
    ensures filter == "" ==> query + filter == query
  {
  }

  /** A field adds nothing exactly when its parameter is absent or whitespace; otherwise its condition. */
  lemma FilterSpec(args: Args, f: SearchField)
    ensures Filter(args, f) == "" <==> IsBlank(if f.param in args then args[f.param] else "")
    ensures Filter(args, f) != "" ==>
      var v := Param(args, f.param);
      Filter(args, f) == " AND " + f.column + " ILIKE '%" + v + "%'" && v != "" && Trim(v) == v
  {
    var raw := if f.param in args then args[f.param] else "";
    BlankIffTrimEmpty(raw);
    TrimIdempotent(raw);
    if Param(args, f.param) != "" {
      assert |FilterFor(f, Param(args, f.param))| > 0;
    }
  }

  /** The parameter is absent, or present but whitespace only. */
  predicate BlankParam(args: Args, name: string) {
    IsBlank(if name in args then args[name] else "")
  }

  /**
   * The query is the bare `WHERE TRUE` query, unfiltered, exactly when every
   * one of the five parameters is absent or whitespace.
   */
  lemma UnfilteredIff(args: Args)
    ensures SearchQuery(args) == BaseQuery <==>
      BlankParam(args, Disease.param) && BlankParam(args, TrialId.param) && BlankParam(args, Immunogenicity.param) &&
      BlankParam(args, Antibody.param) && BlankParam(args, Target.param)
  {
    var f1, f2, f3 := Filter(args, Disease), Filter(args, TrialId), Filter(args, Immunogenicity);
    var f4, f5 := Filter(args, Antibody), Filter(args, Target);
    FilterSpec(args, Disease);
    FilterSpec(args, TrialId);
    FilterSpec(args, Immunogenicity);
    FilterSpec(args, Antibody);
    FilterSpec(args, Target);
    assert |SearchQuery(args)| == |BaseQuery| + |f1| + |f2| + |f3| + |f4| + |f5|;
    if f1 == "" && f2 == "" && f3 == "" && f4 == "" && f5 == "" {
      NothingAppended(BaseQuery, f1);
      NothingAppended(BaseQuery, f2);
      NothingAppended(BaseQuery, f3);
      NothingAppended(BaseQuery, f4);
      NothingAppended(BaseQuery, f5);
    }
  }

  /** Stripping the arguments first changes nothing: the handler already strips them. */
  lemma StrippingIsIdempotent(args: Args)
    ensures SearchQuery(map k | k in args :: Trim(args[k])) == SearchQuery(args)
  {
    var stripped := map k | k in args :: Trim(args[k]);
    forall name ensures Param(stripped, name) == Param(args, name) {
      if name in args {
        TrimIdempotent(args[name]);
      }
    }
    assert Filter(stripped, Disease) == Filter(args, Disease);
    assert Filter(stripped, TrialId) == Filter(args, TrialId);
    assert Filter(stripped, Immunogenicity) == Filter(args, Immunogenicity);
    assert Filter(stripped, Antibody) == Filter(args, Antibody);
    assert Filter(stripped, Target) == Filter(args, Target);
  }

  /** A whitespace-only parameter adds no condition: the query is the same as without it. */
  lemma BlankParamIgnored(args: Args, name: string, s: string)
    requires IsBlank(s)
    ensures SearchQuery(args[name := s]) == SearchQuery(args - {name})
  {
    BlankIffTrimEmpty(s);
    var a1, a2 := args[name := s], args - {name};
    assert Filter(a1, Disease) == Filter(a2, Disease);
    assert Filter(a1, TrialId) == Filter(a2, TrialId);
    assert Filter(a1, Immunogenicity) == Filter(a2, Immunogenicity);
    assert Filter(a1, Antibody) == Filter(a2, Antibody);
    assert Filter(a1, Target) == Filter(a2, Target);
  }

  /** Only the five parameters are read: any other argument leaves the query unchanged. */
  lemma OtherArgsIgnored(args: Args, name: string, s: string)
    requires name != Disease.param && name != TrialId.param && name != Immunogenicity.param
    requires name != Antibody.param && name != Target.param
    ensures SearchQuery(args[name := s]) == SearchQuery(args)
  {
    var a1 := args[name := s];
    assert Filter(a1, Disease) == Filter(args, Disease);
    assert Filter(a1, TrialId) == Filter(args, TrialId);
    assert Filter(a1, Immunogenicity) == Filter(args, Immunogenicity);
    assert Filter(a1, Antibody) == Filter(args, Antibody);
    assert Filter(a1, Target) == Filter(args, Target);
  }
}
