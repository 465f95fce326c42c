/**
 * The `/get-details` handler of the Express backend (backend/routes.js): it
 * requires at least one of `productid` and `ndcpackagecode`, and answers with
 * an object whose keys are set one after another, each to the first row of
 * its lookup or to `{}`. The lookups are parameters.
 */
module Details {
  import opened Wrappers
  import Suggestions

  /** A result row, column name to text; `{}` is the empty map. */
  type Row = map<string, string>

  /** The query-string parameters `productid` and `ndcpackagecode`. */
  datatype Request = Request(productid: Option<string>, ndcpackagecode: Option<string>)

  /** The four lookups the handler can send, each from its bound parameter to the rows returned. */
  datatype Database = Database(
    productById: string -> seq<Row>,
    therapeuticByProduct: string -> seq<Row>,
    trialsByProduct: string -> seq<Row>,
    packageByCode: string -> seq<Row>)

  datatype Query =
    | ProductQuery(productid: string)
    | TherapeuticQuery(productid: string)
    | TrialQuery(productid: string)
    | PackageQuery(ndcpackagecode: string)

  /** One key of the response object and its value, in the order the keys were set. */
  datatype Entry = Entry(key: string, row: Row)

  datatype Reply = BadRequest(error: string) | Record(entries: seq<Entry>)

  datatype Outcome = Outcome(reply: Reply, queries: seq<Query>)

  /** `rows.length > 0 ? rows[0] : {}`. */
  function FirstOrEmpty(rows: seq<Row>): Row {
    if |rows| > 0 then rows[0] else map[]
  }

  /** The keys of a response, in order. */
  function Keys(entries: seq<Entry>): (keys: seq<string>)
    ensures |keys| == |entries|
    ensures forall i :: 0 <= i < |entries| ==> keys[i] == entries[i].key
  {
    seq(|entries|, i requires 0 <= i < |entries| => entries[i].key)
  }

  /** The value of a key in a response, if the key was set. */
  function Lookup(entries: seq<Entry>, key: string): Option<Row> {
    if |entries| == 0 then None
    else if entries[0].key == key then Some(entries[0].row)
    else Lookup(entries[1..], key)
  }

  /** The handler. */
  function GetDetails(db: Database, req: Request): (o: Outcome)
    ensures o.reply.BadRequest? <==> !Suggestions.Truthy(req.productid) && !Suggestions.Truthy(req.ndcpackagecode)
    ensures o.reply.Record? ==>
      |o.reply.entries| == |o.queries| ==
        (if Suggestions.Truthy(req.productid) then 3 else 0) + (if Suggestions.Truthy(req.ndcpackagecode) then 1 else 0)
  {
    var byProduct := Suggestions.Truthy(req.productid);
    var byPackage := Suggestions.Truthy(req.ndcpackagecode);
    if !byProduct && !byPackage then
      Outcome(BadRequest("Missing productid or ndcpackagecode"), [])
    else
      var productPart :=
        if byProduct then
          var id := req.productid.value;
          Outcome(Record([Entry("product", FirstOrEmpty(db.productById(id))),
                          Entry("therapeutic", FirstOrEmpty(db.therapeuticByProduct(id))),
                          Entry("immunogenicity", FirstOrEmpty(db.trialsByProduct(id)))]),
                  [ProductQuery(id), TherapeuticQuery(id), TrialQuery(id)])
        else Outcome(Record([]), []);
      var packagePart :=
        if byPackage then
          var code := req.ndcpackagecode.value;
          Outcome(Record([Entry("package", FirstOrEmpty(db.packageByCode(code)))]), [PackageQuery(code)])
        else Outcome(Record([]), []);
      Outcome(Record(productPart.reply.entries + packagePart.reply.entries), productPart.queries + packagePart.queries)
  }

  /** Neither identifier (absent or empty): status 400 and no query. */
  lemma NeitherIdRejected(db: Database, req: Request)
    requires !Suggestions.Truthy(req.productid) && !Suggestions.Truthy(req.ndcpackagecode)
    ensures GetDetails(db, req) == Outcome(BadRequest("Missing productid or ndcpackagecode"), [])
  {
  }

  /**
   * With an identifier, the response has exactly the keys `product`,
   * `therapeutic` and `immunogenicity` when `productid` is given, followed by
   * `package` when `ndcpackagecode` is given, and no others.
   */
  lemma ResponseKeys(db: Database, req: Request)
    requires Suggestions.Truthy(req.productid) || Suggestions.Truthy(req.ndcpackagecode)
    ensures GetDetails(db, req).reply.Record?
    ensures Keys(GetDetails(db, req).reply.entries) ==
      (if Suggestions.Truthy(req.productid) then ["product", "therapeutic", "immunogenicity"] else []) +
      (if Suggestions.Truthy(req.ndcpackagecode) then ["package"] else [])
  {
  }

  /**
   * Each key that is set holds the first row of its own lookup, or `{}` when
   * that lookup found nothing; a key whose identifier is missing is not set.
   */
  lemma ResponseValues(db: Database, req: Request)
    requires Suggestions.Truthy(req.productid) || Suggestions.Truthy(req.ndcpackagecode)
    ensures var e := GetDetails(db, req).reply.entries;
      (Suggestions.Truthy(req.productid) ==>
        Lookup(e, "product") == Some(FirstOrEmpty(db.productById(req.productid.value))) &&
        Lookup(e, "therapeutic") == Some(FirstOrEmpty(db.therapeuticByProduct(req.productid.value))) &&
        Lookup(e, "immunogenicity") == Some(FirstOrEmpty(db.trialsByProduct(req.productid.value)))) &&
      (!Suggestions.Truthy(req.productid) ==>
        Lookup(e, "product") == None && Lookup(e, "therapeutic") == None && Lookup(e, "immunogenicity") == None) &&
      (Suggestions.Truthy(req.ndcpackagecode) ==>
        Lookup(e, "package") == Some(FirstOrEmpty(db.packageByCode(req.ndcpackagecode.value)))) &&
      (!Suggestions.Truthy(req.ndcpackagecode) ==> Lookup(e, "package") == None)
  {
    var e := GetDetails(db, req).reply.entries;
    var p := if Suggestions.Truthy(req.productid) then
      [Entry("product", FirstOrEmpty(db.productById(req.productid.value))),
       Entry("therapeutic", FirstOrEmpty(db.therapeuticByProduct(req.productid.value))),
       Entry("immunogenicity", FirstOrEmpty(db.trialsByProduct(req.productid.value)))]
      else [];
    var q := if Suggestions.Truthy(req.ndcpackagecode) then
      [Entry("package", FirstOrEmpty(db.packageByCode(req.ndcpackagecode.value)))] else [];
    assert e == p + q;
    LookupIndex(p, "product", 0);
    LookupIndex(p, "therapeutic", 1);
    LookupIndex(p, "immunogenicity", 2);
    LookupIndex(p, "package", 3);
    LookupIndex(q, "package", 0);
    LookupAppend(p, q, "package");
    LookupAppend(p, q, "product");
    LookupAppend(p, q, "therapeutic");
    LookupAppend(p, q, "immunogenicity");
  }

  /** Looking a key up finds its first entry, or nothing when no entry has that key. */
  lemma {:induction false} LookupIndex(a: seq<Entry>, key: string, i: nat)
    requires forall j :: 0 <= j < i && j < |a| ==> a[j].key != key
    ensures i < |a| && a[i].key == key ==> Lookup(a, key) == Some(a[i].row)
    ensures i >= |a| ==> Lookup(a, key) == None
  {
    if |a| > 0 && i > 0 {
      LookupIndex(a[1..], key, i - 1);
    }
  }

  /** A key set in the first part is looked up there; otherwise in the second. */
  lemma {:induction false} LookupAppend(a: seq<Entry>, b: seq<Entry>, key: string)
    ensures Lookup(a + b, key) == if Lookup(a, key).Some? then Lookup(a, key) else Lookup(b, key)
  {
    if |a| == 0 {
      assert a + b == b;
    } else {
      assert (a + b)[0] == a[0];
      assert (a + b)[1..] == a[1..] + b;
      LookupAppend(a[1..], b, key);
    }
  }

  /** The first row of a lookup, or `{}` when it found nothing. */
  lemma FirstOrEmptySpec(rows: seq<Row>)
    ensures rows == [] ==> FirstOrEmpty(rows) == map[]
    ensures rows != [] ==> FirstOrEmpty(rows) == rows[0]
  {
  }

  /** One query per key that is set, each with its own identifier, in the order the keys are set. */
  lemma QueriesFollowKeys(db: Database, req: Request)
    requires Suggestions.Truthy(req.productid) || Suggestions.Truthy(req.ndcpackagecode)
    ensures var o := GetDetails(db, req);
      |o.queries| == |o.reply.entries| &&
      o.queries ==
        (if Suggestions.Truthy(req.productid)
         then [ProductQuery(req.productid.value), TherapeuticQuery(req.productid.value), TrialQuery(req.productid.value)]
         else []) +
        (if Suggestions.Truthy(req.ndcpackagecode) then [PackageQuery(req.ndcpackagecode.value)] else [])
  {
  }
}
