/**
 * The `/suggestions` handler of the Express backend (backend/routes.js): it
 * validates the `field` parameter, builds the suggestion query with an
 * optional prefix filter bound to `$1`, and returns the distinct non-empty
 * values of that column of table `main`, shortest first, then by value, at
 * most 50 of them. What PostgreSQL computes is stated here as a specification
 * over the column's stored values, given as a parameter.
 */
module Suggestions {
  import opened Wrappers
  import opened Text

  /** `LIMIT 50`. */
  const Limit: nat := 50

  /** The query-string parameters `field` and `query`, absent or text. */
  datatype Request = Request(field: Option<string>, query: Option<string>)

  /** A query sent to the database with its parameter array. */
  datatype SqlCall = SqlCall(sql: string, params: seq<string>)

  datatype Reply = BadRequest(error: string) | Values(values: seq<string>)

  datatype Outcome = Outcome(reply: Reply, calls: seq<SqlCall>)

  /** JavaScript truthiness of an optional string: present and non-empty. */
  predicate Truthy(s: Option<string>) {
    s.Some? && s.value != ""
  }

  /** The SQL text, with `field` interpolated raw and the prefix filter present when `filtered`. */
  function SuggestionSql(field: string, filtered: bool): string {
    "\n      SELECT suggestion FROM (\n        SELECT DISTINCT " + field + " AS suggestion\n        FROM main\n        WHERE "
    + field + " IS NOT NULL AND " + field + " <> ''\n        "
    + (if filtered then "AND " + field + " ILIKE $1" else "")
    + "\n      ) sub\n      ORDER BY LENGTH(suggestion), suggestion ASC\n      LIMIT 50\n    "
  }

  /** The parameter array: `[query + '%']` for a truthy query, otherwise empty. */
  function Params(query: Option<string>): (p: seq<string>)
    ensures Truthy(query) ==> p == [query.value + "%"]
    ensures !Truthy(query) ==> p == []
  {
    if Truthy(query) then [query.value + "%"] else []
  }

  // ---------------------------------------------------------------- ordering

  /** Code-point lexicographic order: a proper prefix comes first. */
  predicate LexLess(a: string, b: string) {
    if |a| == 0 || |b| == 0 then |a| == 0 && |b| > 0
    else a[0] < b[0] || (a[0] == b[0] && LexLess(a[1..], b[1..]))
  }

  /** `ORDER BY LENGTH(suggestion), suggestion ASC`. */
  predicate Before(a: string, b: string) {
    |a| < |b| || (|a| == |b| && LexLess(a, b))
  }

  lemma {:induction false} LexIrreflexive(a: string)
    ensures !LexLess(a, a)
  {
    if |a| > 0 {
      LexIrreflexive(a[1..]);
    }
  }

  lemma {:induction false} LexTransitive(a: string, b: string, c: string)
    requires LexLess(a, b) && LexLess(b, c)
    ensures LexLess(a, c)
  {
    if |a| > 0 && |b| > 0 && |c| > 0 && a[0] == b[0] == c[0] {
      LexTransitive(a[1..], b[1..], c[1..]);
    }
  }

  lemma {:induction false} LexTotal(a: string, b: string)
    requires a != b
    ensures LexLess(a, b) || LexLess(b, a)
  {
    if |a| > 0 && |b| > 0 && a[0] == b[0] {
      assert a == [a[0]] + a[1..] && b == [b[0]] + b[1..];
      LexTotal(a[1..], b[1..]);
    }
  }

  lemma BeforeTransitive(a: string, b: string, c: string)
    requires Before(a, b) && Before(b, c)
    ensures Before(a, c)
  {
    if |a| == |b| == |c| {
      LexTransitive(a, b, c);
    }
  }

  lemma BeforeTotal(a: string, b: string)
    requires a != b
    ensures Before(a, b) || Before(b, a)
  {
    LexTotal(a, b);
  }

  /** The ranking is a strict total order on strings. */
  lemma BeforeOrder()
    ensures forall a :: !Before(a, a)
    ensures forall a, b, c :: Before(a, b) && Before(b, c) ==> Before(a, c)
    ensures forall a, b :: a != b ==> Before(a, b) || Before(b, a)
  {
    forall a ensures !Before(a, a) {
      LexIrreflexive(a);
    }
    forall a, b, c | Before(a, b) && Before(b, c) ensures Before(a, c) {
      BeforeTransitive(a, b, c);
    }
    forall a, b | a != b ensures Before(a, b) || Before(b, a) {
      BeforeTotal(a, b);
    }
  }

  /** Strictly increasing in the ranking, hence also duplicate-free. */
  predicate Sorted(s: seq<string>) {
    forall i, j :: 0 <= i < j < |s| ==> Before(s[i], s[j])
  }

  function Insert(x: string, s: seq<string>): seq<string> {
    if |s| == 0 then [x]
    else if Before(x, s[0]) then [x] + s
    else [s[0]] + Insert(x, s[1..])
  }

  function Sort(s: seq<string>): seq<string> {
    if |s| == 0 then [] else Insert(s[|s| - 1], Sort(s[..|s| - 1]))
  }

  lemma SortedCons(h: string, t: seq<string>)
    requires Sorted(t)
    requires forall y :: y in t ==> Before(h, y)
    ensures Sorted([h] + t)
  {
    var s := [h] + t;
    forall i, j | 0 <= i < j < |s| ensures Before(s[i], s[j]) {
      if i == 0 {
        assert s[j] == t[j - 1];
      } else {
        assert s[i] == t[i - 1] && s[j] == t[j - 1];
      }
    }
  }

  /** Inserting a new string into a sorted list keeps it sorted and adds exactly that string. */
  lemma {:induction false} InsertSpec(x: string, s: seq<string>)
    requires Sorted(s) && x !in s
    ensures Sorted(Insert(x, s))
    ensures multiset(Insert(x, s)) == multiset(s) + multiset{x}
  {
    if |s| == 0 {
    } else if Before(x, s[0]) {
      forall y | y in s ensures Before(x, y) {
        var j :| 0 <= j < |s| && s[j] == y;
        if j > 0 {
          BeforeTransitive(x, s[0], s[j]);
        }
      }
      SortedCons(x, s);
    } else {
      BeforeTotal(x, s[0]);
      var t := s[1..];
      assert s == [s[0]] + t;
      assert Sorted(t) by {
        forall i, j | 0 <= i < j < |t| ensures Before(t[i], t[j]) {
          assert t[i] == s[i + 1] && t[j] == s[j + 1];
        }
      }
      InsertSpec(x, t);
      var u := Insert(x, t);
      forall y | y in u ensures Before(s[0], y) {
        assert y in multiset(u);
        if y != x {
          assert y in t;
          var j :| 0 <= j < |t| && t[j] == y;
          assert s[j + 1] == y;
        }
      }
      SortedCons(s[0], u);
    }
  }

  /** Sorting a duplicate-free list gives a sorted permutation of it. */
  lemma {:induction false} SortSpec(s: seq<string>)
    requires NoDups(s)
    ensures Sorted(Sort(s))
    ensures multiset(Sort(s)) == multiset(s)
  {
    if |s| > 0 {
      var p, x := s[..|s| - 1], s[|s| - 1];
      assert s == p + [x];
      assert NoDups(p) by {
        forall i, j | 0 <= i < j < |p| ensures p[i] != p[j] {
          assert p[i] == s[i] && p[j] == s[j];
        }
      }
      SortSpec(p);
      assert x !in p;
      assert x !in multiset(Sort(p));
      InsertSpec(x, Sort(p));
    }
  }

  // ---------------------------------------------------------------- the result

  /** `field ILIKE 'prefix%'` read literally: the value starts with the prefix, ignoring ASCII case. */
  predicate StartsWithIgnoringCase(v: string, prefix: string) {
    |prefix| <= |v| && ToLower(v[..|prefix|]) == ToLower(prefix)
  }

  /** `IS NOT NULL AND <> ''`, and the prefix filter when there is one. */
  predicate Eligible(v: string, prefix: Option<string>) {
    v != "" && (prefix.None? || StartsWithIgnoringCase(v, prefix.value))
  }

  /** The eligible stored values, in storage order, duplicates kept. */
  function EligibleValues(stored: seq<Option<string>>, prefix: Option<string>): seq<string> {
    if |stored| == 0 then []
    else
      EligibleValues(stored[..|stored| - 1], prefix) +
        match stored[|stored| - 1]
        case Some(v) => if Eligible(v, prefix) then [v] else []
        case None => []
  }

  /** `SELECT DISTINCT`: the eligible values, each once. */
  function Candidates(stored: seq<Option<string>>, prefix: Option<string>): seq<string> {
    Dedup(EligibleValues(stored, prefix))
  }

  /** The first `Limit` candidates in ranking order. */
  function TopSuggestions(stored: seq<Option<string>>, prefix: Option<string>): seq<string> {
    var sorted := Sort(Candidates(stored, prefix));
    if |sorted| <= Limit then sorted else sorted[..Limit]
  }

  lemma {:induction false} EligibleValuesMembers(stored: seq<Option<string>>, prefix: Option<string>)
    ensures forall v :: v in EligibleValues(stored, prefix) <==>
      (Some(v) in stored && Eligible(v, prefix))
  {
    if |stored| > 0 {
      var p := stored[..|stored| - 1];
      EligibleValuesMembers(p, prefix);
      assert stored == p + [stored[|stored| - 1]];
    }
  }

  /** A value is a candidate exactly when it is stored and eligible. */
  lemma CandidatesMembers(stored: seq<Option<string>>, prefix: Option<string>)
    ensures NoDups(Candidates(stored, prefix))
    ensures forall v :: v in Candidates(stored, prefix) <==> (Some(v) in stored && Eligible(v, prefix))
  {
    EligibleValuesMembers(stored, prefix);
    DedupMembers(EligibleValues(stored, prefix));
  }

  /**
   * The suggestions are at most 50 distinct stored, eligible values in strictly
   * increasing (length, value) order; and every eligible stored value left out
   * ranks after all of them, which can only happen when the limit is reached.
   */
  lemma TopSuggestionsSpec(stored: seq<Option<string>>, prefix: Option<string>)
    ensures var r := TopSuggestions(stored, prefix);
      |r| <= Limit && Sorted(r) && NoDups(r) &&
      (forall v :: v in r ==> Some(v) in stored && Eligible(v, prefix)) &&
      (forall v :: Some(v) in stored && Eligible(v, prefix) && v !in r ==>
        |r| == Limit && forall w :: w in r ==> Before(w, v))
  {
    var c := Candidates(stored, prefix);
    CandidatesMembers(stored, prefix);
    SortSpec(c);
    BeforeOrder();
    var s := Sort(c);
    var r := TopSuggestions(stored, prefix);
    assert r == s[..|r|];
    forall v | v in r ensures Some(v) in stored && Eligible(v, prefix) {
      assert v in multiset(s);
    }
    forall v | Some(v) in stored && Eligible(v, prefix) && v !in r
      ensures |r| == Limit && forall w :: w in r ==> Before(w, v)
    {
      assert v in multiset(s);
      var j :| 0 <= j < |s| && s[j] == v;
      assert j >= |r|;
      forall w | w in r ensures Before(w, v) {
        var i :| 0 <= i < |r| && r[i] == w;
        assert s[i] == w;
      }
    }
  }

  /** Values differing only in case are both kept: `DISTINCT` compares exactly. */
  lemma CaseVariantsBothKept()
    ensures var r := TopSuggestions([Some("Abc"), Some("abc"), None, Some("")], Some("a"));
      "Abc" in r && "abc" in r && |r| == 2
  {
    CaseVariantsCandidates();
    CaseVariantsRanked();
  }

  lemma CaseVariantsCandidates()
    ensures Candidates([Some("Abc"), Some("abc"), None, Some("")], Some("a")) == ["Abc", "abc"]
  {
    CaseVariantsEligible();
    assert Dedup(["Abc"]) == ["Abc"];
    assert ["Abc", "abc"][..1] == ["Abc"];
  }

  lemma CaseVariantsRanked()
    ensures Sort(["Abc", "abc"]) == ["Abc", "abc"]
  {
    assert Before("Abc", "abc");
    assert ["Abc", "abc"][..1] == ["Abc"];
    assert Sort(["Abc"]) == ["Abc"];
  }

  lemma CaseVariantsEligible()
    ensures EligibleValues([Some("Abc"), Some("abc"), None, Some("")], Some("a")) == ["Abc", "abc"]
  {
    var stored := [Some("Abc"), Some("abc"), None, Some("")];
    var prefix := Some("a");
    assert "Abc"[..1] == "A" && ToLower("A") == "a" == ToLower("a");
    assert Eligible("Abc", prefix) && Eligible("abc", prefix);
    assert stored[..3][..2][..1][..0] == [];
    assert EligibleValues(stored[..3][..2][..1], prefix) == ["Abc"];
    assert EligibleValues(stored[..3][..2], prefix) == ["Abc", "abc"];
    assert EligibleValues(stored[..3], prefix) == ["Abc", "abc"];
  }

  // ---------------------------------------------------------------- the handler

  /** The handler: `column(f)` is what table `main` stores in column `f`, row by row. */
  function HandleSuggestions(column: string -> seq<Option<string>>, req: Request): (o: Outcome)
    ensures o.reply.BadRequest? <==> !Truthy(req.field)
    ensures |o.calls| == if o.reply.BadRequest? then 0 else 1
    ensures o.reply.Values? ==>
      |o.reply.values| <= Limit && NoDups(o.reply.values) &&
      forall v :: v in o.reply.values ==> Some(v) in column(req.field.value) && v != ""
  {
    if !Truthy(req.field) then
      Outcome(BadRequest("No field provided for suggestions"), [])
    else
      var f := req.field.value;
      var prefix := if Truthy(req.query) then Some(req.query.value) else None;
      TopSuggestionsSpec(column(f), prefix);
      Outcome(Values(TopSuggestions(column(f), prefix)), [SqlCall(SuggestionSql(f, Truthy(req.query)), Params(req.query))])
  }

  /** A missing or empty `field` is rejected with status 400 before any query. */
  lemma MissingFieldRejected(column: string -> seq<Option<string>>, req: Request)
    requires !Truthy(req.field)
    ensures HandleSuggestions(column, req).reply.BadRequest?
    ensures HandleSuggestions(column, req).calls == []
  {
  }

  /**
   * With a field, exactly one query is sent; it binds `[query + '%']` when the
   * query is non-empty and nothing otherwise, and the reply is the top
   * suggestions for that column, filtered by the query as a prefix only when
   * it is non-empty.
   */
  lemma FieldAccepted(column: string -> seq<Option<string>>, req: Request)
    requires Truthy(req.field)
    ensures var o := HandleSuggestions(column, req);
      |o.calls| == 1 &&
      (Truthy(req.query) ==> o.calls[0].params == [req.query.value + "%"] &&
                             o.reply == Values(TopSuggestions(column(req.field.value), Some(req.query.value)))) &&
      (!Truthy(req.query) ==> o.calls[0].params == [] &&
                              o.reply == Values(TopSuggestions(column(req.field.value), None)))
  {
  }
}
