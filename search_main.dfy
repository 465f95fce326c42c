/**
 * The `/search-main` handler of the Express backend (backend/routes.js):
 * it runs the filtered query on table `main`, short-circuits on zero rows,
 * extracts the product ids, package codes and normalised proprietary names of
 * the rows, and fans out to four lookups. The database is a parameter: each
 * lookup is a function from its query argument to the rows returned. Every
 * outcome records the queries sent, in order.
 */
module SearchMain {
  import opened Wrappers
  import opened Text
  import opened Filters
  import opened WhereClause

  /** A result row of any table, column name to text. */
  type Row = map<string, string>

  /** A row of table `main`: the three columns the handler reads, and the rest of the row. */
  datatype MainRow = MainRow(productid: string, ndcpackagecode: string, proprietaryname: Option<string>, rest: Row)

  /** The answers the database gives to each query the handler can send. */
  datatype Database = Database(
    main: string -> seq<MainRow>,
    products: seq<string> -> seq<Row>,
    packages: seq<string> -> seq<Row>,
    therapeutics: seq<string> -> seq<Row>,
    trials: seq<string> -> seq<Row>)

  /** A query sent to the database, with its bound parameter. */
  datatype Query =
    | MainQuery(sql: string)
    | ProductQuery(productIds: seq<string>)
    | PackageQuery(ndcPackageCodes: seq<string>)
    | TherapeuticQuery(names: seq<string>)
    | TrialQuery(patterns: seq<string>)

  /** The JSON body sent back. */
  datatype Reply =
    | Composite(mainResults: seq<MainRow>, productResults: seq<Row>, packageResults: seq<Row>,
                therapeuticResults: seq<Row>, immunogenicityResults: seq<Row>)
    | TherapeuticOnly(therapeuticResults: seq<Row>)
    | ServerError(error: string)

  datatype Outcome = Outcome(reply: Reply, queries: seq<Query>)

  /** `'SELECT * FROM main'`, followed by a space and the WHERE clause when there is one. */
  function MainQueryText(where: string): string {
    if where == "" then "SELECT * FROM main" else "SELECT * FROM main " + where
  }

  /** `mainResults.map(row => row.productid)`: one id per row, in row order, duplicates kept. */
  function ProductIds(rows: seq<MainRow>): (ids: seq<string>)
    ensures |ids| == |rows|
    ensures forall i :: 0 <= i < |rows| ==> ids[i] == rows[i].productid
  {
    seq(|rows|, i requires 0 <= i < |rows| => rows[i].productid)
  }

  /** `mainResults.map(row => row.ndcpackagecode)`: one code per row, in row order, duplicates kept. */
  function PackageCodes(rows: seq<MainRow>): (codes: seq<string>)
    ensures |codes| == |rows|
    ensures forall i :: 0 <= i < |rows| ==> codes[i] == rows[i].ndcpackagecode
  {
    seq(|rows|, i requires 0 <= i < |rows| => rows[i].ndcpackagecode)
  }

  /** `name ? name.trim().toLowerCase() : null`: a missing or empty name gives nothing. */
  function NormalizeName(name: Option<string>): Option<string> {
    match name
    case None => None
    case Some(s) => if s == "" then None else Some(ToLower(Trim(s)))
  }

  /** The normalised names of the rows, nulls removed, duplicates kept. */
  function NameList(rows: seq<MainRow>): seq<string> {
    if |rows| == 0 then []
    else
      NameList(rows[..|rows| - 1]) +
        match NormalizeName(rows[|rows| - 1].proprietaryname)
        case None => []
        case Some(n) => [n]
  }

  /** `proprietaryNames`: the normalised names, de-duplicated at their first occurrence. */
  function ProprietaryNames(rows: seq<MainRow>): seq<string> {
    Dedup(NameList(rows))
  }

  /** `proprietaryNames.map(name => `%${name}%`)`: the trial lookup patterns. */
  function TrialPatterns(names: seq<string>): (patterns: seq<string>)
    ensures |patterns| == |names|
    ensures forall i :: 0 <= i < |names| ==> patterns[i] == "%" + names[i] + "%"
  {
    seq(|names|, i requires 0 <= i < |names| => "%" + names[i] + "%")
  }

  /** The handler, from the request body to the reply and the queries it sends. */
  function SearchMain(db: Database, filters: FilterObject, fieldsOrder: Option<seq<string>>): (o: Outcome)
    ensures o.reply.ServerError? <==> WhereSpec(filters, fieldsOrder).Err?
    ensures o.reply.ServerError? ==> o.queries == []
    ensures !o.reply.ServerError? ==> (|o.queries| == 1 || |o.queries| == 5) && o.queries[0].MainQuery?
    ensures |o.queries| == 5 <==> o.reply.Composite? && |o.reply.mainResults| > 0
  {
    match WhereSpec(filters, fieldsOrder)
    case Err(_) => Outcome(ServerError("Error searching main table"), [])
    case Ok(where) =>
      var sql := MainQueryText(where);
      var rows := db.main(sql);
      if |rows| == 0 then
        Outcome(Composite([], [], [], [], []), [MainQuery(sql)])
      else
        var ids, codes, names := ProductIds(rows), PackageCodes(rows), ProprietaryNames(rows);
        if |names| == 0 then
          Outcome(TherapeuticOnly([]), [MainQuery(sql)])
        else
          var patterns := TrialPatterns(names);
          Outcome(
            Composite(rows, db.products(ids), db.packages(codes), db.therapeutics(names), db.trials(patterns)),
            [MainQuery(sql), ProductQuery(ids), PackageQuery(codes), TherapeuticQuery(names), TrialQuery(patterns)])
  }

  // ---------------------------------------------------------------- short-circuits

  /** A filter object the builder cannot read gives a server error before any query. */
  lemma BuildErrorSendsNothing(db: Database, filters: FilterObject, fieldsOrder: Option<seq<string>>)
    requires WhereSpec(filters, fieldsOrder).Err?
    ensures SearchMain(db, filters, fieldsOrder) == Outcome(ServerError("Error searching main table"), [])
  {
  }

  /** The main query is `SELECT * FROM main` followed by the built WHERE clause, if any. */
  lemma MainQueryFirst(db: Database, filters: FilterObject, fieldsOrder: Option<seq<string>>)
    requires WhereSpec(filters, fieldsOrder).Ok?
    ensures var o := SearchMain(db, filters, fieldsOrder);
      var w := WhereSpec(filters, fieldsOrder).value;
      |o.queries| >= 1 &&
      o.queries[0] == MainQuery(if w == "" then "SELECT * FROM main" else "SELECT * FROM main " + w)
  {
  }

  /** Zero main rows: all five arrays are empty and no other query is sent. */
  lemma ZeroRowsShortCircuit(db: Database, filters: FilterObject, fieldsOrder: Option<seq<string>>)
    requires WhereSpec(filters, fieldsOrder).Ok?
    requires db.main(MainQueryText(WhereSpec(filters, fieldsOrder).value)) == []
    ensures var o := SearchMain(db, filters, fieldsOrder);
      o.reply == Composite([], [], [], [], []) && |o.queries| == 1
  {
  }

  /** Rows whose names are all missing or empty: only an empty therapeutic array, and no lookup is sent. */
  lemma NoNamesShortCircuit(db: Database, filters: FilterObject, fieldsOrder: Option<seq<string>>)
    requires WhereSpec(filters, fieldsOrder).Ok?
    requires var rows := db.main(MainQueryText(WhereSpec(filters, fieldsOrder).value));
      |rows| > 0 && forall i :: 0 <= i < |rows| ==> NormalizeName(rows[i].proprietaryname).None?
    ensures var o := SearchMain(db, filters, fieldsOrder);
      o.reply == TherapeuticOnly([]) && |o.queries| == 1
  {
    NoNamesListed(db.main(MainQueryText(WhereSpec(filters, fieldsOrder).value)));
  }

  /** Rows with no usable name contribute no name. */
  lemma {:induction false} NoNamesListed(rows: seq<MainRow>)
    requires forall i :: 0 <= i < |rows| ==> NormalizeName(rows[i].proprietaryname).None?
    ensures NameList(rows) == []
  {
    if |rows| > 0 {
      var p := rows[..|rows| - 1];
      assert forall i :: 0 <= i < |p| ==> p[i] == rows[i];
      NoNamesListed(p);
    }
  }

  /**
   * With rows and at least one name, the four lookups are sent in order with
   * exactly the extracted keys, and the reply carries the rows and their answers.
   */
  lemma FanOut(db: Database, filters: FilterObject, fieldsOrder: Option<seq<string>>)
    requires WhereSpec(filters, fieldsOrder).Ok?
    requires var rows := db.main(MainQueryText(WhereSpec(filters, fieldsOrder).value));
      |rows| > 0 && exists i :: 0 <= i < |rows| && NormalizeName(rows[i].proprietaryname).Some?
    ensures var sql := MainQueryText(WhereSpec(filters, fieldsOrder).value);
      var rows := db.main(sql);
      var names := ProprietaryNames(rows);
      var o := SearchMain(db, filters, fieldsOrder);
      o.queries == [MainQuery(sql), ProductQuery(ProductIds(rows)), PackageQuery(PackageCodes(rows)),
                    TherapeuticQuery(names), TrialQuery(TrialPatterns(names))] &&
      o.reply == Composite(rows, db.products(ProductIds(rows)), db.packages(PackageCodes(rows)),
                           db.therapeutics(names), db.trials(TrialPatterns(names)))
  {
    var rows := db.main(MainQueryText(WhereSpec(filters, fieldsOrder).value));
    var i :| 0 <= i < |rows| && NormalizeName(rows[i].proprietaryname).Some?;
    NameListMembers(rows);
    DedupMembers(NameList(rows));
    assert NormalizeName(rows[i].proprietaryname).value in ProprietaryNames(rows);
  }

  // ---------------------------------------------------------------- the name set

  /** A name is listed exactly when some row has a non-empty name normalising to it. */
  lemma {:induction false} NameListMembers(rows: seq<MainRow>)
    ensures forall x :: x in NameList(rows) <==>
      exists i :: 0 <= i < |rows| && NormalizeName(rows[i].proprietaryname) == Some(x)
  {
    if |rows| > 0 {
      var p := rows[..|rows| - 1];
      NameListMembers(p);
      assert forall i :: 0 <= i < |p| ==> p[i] == rows[i];
    }
  }

  /**
   * The proprietary names are distinct; each comes from a row whose name is
   * present and non-empty, trimmed then lower-cased; every such row's name is
   * among them; and they keep the order of their first occurrence.
   */
  lemma ProprietaryNamesSpec(rows: seq<MainRow>)
    ensures var names := ProprietaryNames(rows);
      NoDups(names) &&
      (forall x :: x in names ==> x in NameList(rows)) &&
      (forall x :: x in names <==>
        exists i :: 0 <= i < |rows| && rows[i].proprietaryname.Some? && rows[i].proprietaryname.value != "" &&
          x == ToLower(Trim(rows[i].proprietaryname.value))) &&
      (forall i, j :: 0 <= i < j < |names| ==> FirstIndex(NameList(rows), names[i]) < FirstIndex(NameList(rows), names[j]))
  {
    NameListMembers(rows);
    DedupMembers(NameList(rows));
    DedupOrder(NameList(rows));
  }

  /** Lower-casing leaves whitespace where it is. */
  lemma LowerKeepsSpace(s: string)
    ensures forall i :: 0 <= i < |s| ==> (IsSpace(ToLower(s)[i]) <==> IsSpace(s[i]))
  {
  }

  /** Every proprietary name is already trimmed and lower-cased. */
  lemma ProprietaryNamesNormal(rows: seq<MainRow>, x: string)
    requires x in ProprietaryNames(rows)
    ensures Trim(x) == x && ToLower(x) == x
  {
    ProprietaryNamesSpec(rows);
    var i :| 0 <= i < |rows| && rows[i].proprietaryname.Some? && rows[i].proprietaryname.value != "" &&
      x == ToLower(Trim(rows[i].proprietaryname.value));
    var t := Trim(rows[i].proprietaryname.value);
    TrimSpec(rows[i].proprietaryname.value);
    LowerKeepsSpace(t);
    if x != [] {
      assert !IsSpace(x[0]) && !IsSpace(x[|x| - 1]);
    }
    assert TrimStart(x) == x;
    assert TrimEnd(x) == x;
  }

  /**
   * A non-empty name made of whitespace only is truthy, so it is kept: it
   * normalises to the empty name, whose trial pattern is `%%`.
   */
  lemma BlankNameKept(rows: seq<MainRow>, i: nat)
    requires i < |rows|
    requires rows[i].proprietaryname.Some? && rows[i].proprietaryname.value != ""
    requires IsBlank(rows[i].proprietaryname.value)
    ensures "" in ProprietaryNames(rows)
    ensures "%%" in TrialPatterns(ProprietaryNames(rows))
  {
    TrimSpec(rows[i].proprietaryname.value);
    NameListMembers(rows);
    DedupMembers(NameList(rows));
    var names := ProprietaryNames(rows);
    var k :| 0 <= k < |names| && names[k] == "";
    assert TrialPatterns(names)[k] == "%%";
  }
}
