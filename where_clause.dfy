/**
 * `buildWhereClause` of the Express backend (backend/routes.js): turns the
 * client's filters and field order into the text of a SQL WHERE clause.
 * Each field with a non-blank value contributes `field ILIKE '%value%'`;
 * clauses are joined with the operator of the later clause; the first
 * emitted clause's operator is dropped; nothing is parenthesised.
 */
module WhereClause {
  import opened Wrappers
  import opened Text
  import opened Filters

  /** An entry of the `conditions` array: `{ clause, operator }`. */
  datatype Condition = Condition(clause: string, operator: string)

  /**
   * Reading `filters[field]` for a key absent from the object and from
   * `Object.prototype` throws in JavaScript (destructuring `undefined`).
   */
  datatype BuildError = UndefinedFilter

  /** The clause emitted for one field: the value is inserted as given, untrimmed and unescaped. */
  function Ilike(field: string, value: string): string {
    field + " ILIKE '%" + value + "%'"
  }

  /** The field order used: the client's array when one is sent, else `Object.keys(filters)`. */
  function Order(filters: FilterObject, fieldsOrder: Option<seq<string>>): seq<string> {
    match fieldsOrder
    case Some(order) => order
    case None => Keys(filters)
  }

  /** Every field of the order has an entry in `filters`. */
  predicate AllPresent(filters: FilterObject, order: seq<string>) {
    forall i :: 0 <= i < |order| ==> order[i] in filters.entries
  }

  /** What one field contributes to `conditions`: nothing when its value is blank. */
  function ConditionOf(field: string, f: Filter): seq<Condition> {
    if IsBlank(f.value) then [] else [Condition(Ilike(field, f.value), f.operator)]
  }

  /** The `conditions` array built by the first loop over the order. */
  function Conditions(filters: FilterObject, order: seq<string>): seq<Condition>
    requires AllPresent(filters, order)
  {
    if |order| == 0 then []
    else
      var field := order[|order| - 1];
      Conditions(filters, order[..|order| - 1]) + ConditionOf(field, Get(filters, field).value)
  }

  /** The second loop: the first clause alone, then `" " + operator + " " + clause` for each later one. */
  function JoinConditions(conds: seq<Condition>): string
    requires |conds| > 0
  {
    if |conds| == 1 then conds[0].clause
    else
      var last := conds[|conds| - 1];
      JoinConditions(conds[..|conds| - 1]) + " " + last.operator + " " + last.clause
  }

  /** The returned text: empty when there is no condition, else `"WHERE "` and the joined conditions. */
  function WhereText(conds: seq<Condition>): string {
    if |conds| == 0 then "" else "WHERE " + JoinConditions(conds)
  }

  /** What `buildWhereClause(filters, fieldsOrder)` returns or throws. */
  function WhereSpec(filters: FilterObject, fieldsOrder: Option<seq<string>>): (r: Result<string, BuildError>)
    ensures r.Err? <==> exists i :: 0 <= i < |Order(filters, fieldsOrder)| && Order(filters, fieldsOrder)[i] !in filters.entries
    ensures r.Ok? && r.value != "" ==> |r.value| >= 6 && r.value[..6] == "WHERE "
  {
    var order := Order(filters, fieldsOrder);
    if AllPresent(filters, order) then Ok(WhereText(Conditions(filters, order))) else Err(UndefinedFilter)
  }

  /** `buildWhereClause`, with its two loops. */
  method BuildWhereClause(filters: FilterObject, fieldsOrder: Option<seq<string>>)
    returns (r: Result<string, BuildError>)
    ensures r == WhereSpec(filters, fieldsOrder)
  {
    var order := if fieldsOrder.Some? then fieldsOrder.value else Keys(filters);
    var conditions: seq<Condition> := [];
    var i := 0;
    while i < |order|
      invariant 0 <= i <= |order|
      invariant AllPresent(filters, order[..i])
      invariant conditions == Conditions(filters, order[..i])
    {
      var field := order[i];
      var entry := Get(filters, field);
      if entry.None? {
        assert !AllPresent(filters, order);
        return Err(UndefinedFilter);
      }
      var f := entry.value;
      ConditionsStep(filters, order, i);
      if !IsBlank(f.value) {
        conditions := conditions + [Condition(Ilike(field, f.value), f.operator)];
      }
      i := i + 1;
    }
    assert order[..i] == order;
    assert WhereSpec(filters, fieldsOrder) == Ok(WhereText(conditions));
    if |conditions| == 0 {
      return Ok("");
    }
    var whereClause := JoinClauses(conditions);
    return Ok("WHERE " + whereClause);
  }

  /** The second loop of `buildWhereClause`: the first clause, then each later one after its own operator. */
  method JoinClauses(conditions: seq<Condition>) returns (whereClause: string)
    requires |conditions| > 0
    ensures whereClause == JoinConditions(conditions)
  {
    whereClause := conditions[0].clause;
    var k := 1;
    JoinFirst(conditions);
    while k < |conditions|
      invariant 1 <= k <= |conditions|
      invariant whereClause == JoinConditions(conditions[..k])
    {
      JoinStep(conditions, k);
      whereClause := whereClause + " " + conditions[k].operator + " " + conditions[k].clause;
      k := k + 1;
    }
    assert conditions[..k] == conditions;
  }

  lemma ConditionsStep(filters: FilterObject, order: seq<string>, i: nat)
    requires i < |order|
    requires AllPresent(filters, order[..i]) && order[i] in filters.entries
    ensures AllPresent(filters, order[..i + 1])
    ensures var f := Get(filters, order[i]).value;
      Conditions(filters, order[..i + 1]) ==
        if IsBlank(f.value) then Conditions(filters, order[..i])
        else Conditions(filters, order[..i]) + [Condition(Ilike(order[i], f.value), f.operator)]
  {
    assert order[..i + 1][..i] == order[..i];
    var f := Get(filters, order[i]).value;
    if IsBlank(f.value) {
      assert Conditions(filters, order[..i]) + [] == Conditions(filters, order[..i]);
    }
  }

  lemma JoinFirst(conds: seq<Condition>)
    requires |conds| > 0
    ensures JoinConditions(conds[..1]) == conds[0].clause
  {
    assert |conds[..1]| == 1;
  }

  lemma JoinStep(conds: seq<Condition>, k: nat)
    requires 1 <= k < |conds|
    ensures JoinConditions(conds[..k + 1]) ==
      JoinConditions(conds[..k]) + " " + conds[k].operator + " " + conds[k].clause
  {
    assert conds[..k + 1][..k] == conds[..k];
  }

  // ---------------------------------------------------------------- the emitted conditions

  /** The conditions of a concatenated order are those of its parts, in that order. */
  lemma {:induction false} ConditionsAppend(filters: FilterObject, a: seq<string>, b: seq<string>)
    requires AllPresent(filters, a + b)
    ensures AllPresent(filters, a) && AllPresent(filters, b)
    ensures Conditions(filters, a + b) == Conditions(filters, a) + Conditions(filters, b)
    decreases |b|
  {
    assert forall i :: 0 <= i < |a| ==> a[i] == (a + b)[i];
    assert forall i :: 0 <= i < |b| ==> b[i] == (a + b)[|a| + i];
    if |b| == 0 {
      assert a + b == a;
    } else {
      var b' := b[..|b| - 1];
      assert (a + b)[..|a + b| - 1] == a + b';
      ConditionsAppend(filters, a, b');
    }
  }

  /**
   * A condition is emitted exactly for each field of the order whose value is
   * not blank, carrying that field's untrimmed value and its own operator.
   */
  lemma {:induction false} ConditionsMembers(filters: FilterObject, order: seq<string>, c: Condition)
    requires AllPresent(filters, order)
    ensures c in Conditions(filters, order) <==>
      exists i :: 0 <= i < |order| && !IsBlank(Get(filters, order[i]).value.value) &&
        c == Condition(Ilike(order[i], Get(filters, order[i]).value.value), Get(filters, order[i]).value.operator)
  {
    if |order| > 0 {
      var p := order[..|order| - 1];
      ConditionsMembers(filters, p, c);
      assert forall i :: 0 <= i < |p| ==> p[i] == order[i];
    }
  }

  /** The number of conditions is the number of non-blank fields of the order. */
  lemma {:induction false} ConditionsEmptyIff(filters: FilterObject, order: seq<string>)
    requires AllPresent(filters, order)
    ensures Conditions(filters, order) == [] <==>
      forall i :: 0 <= i < |order| ==> IsBlank(Get(filters, order[i]).value.value)
  {
    if |order| > 0 {
      var p := order[..|order| - 1];
      var last := order[|order| - 1];
      ConditionsEmptyIff(filters, p);
      var tail := ConditionOf(last, Get(filters, last).value);
      assert Conditions(filters, order) == Conditions(filters, p) + tail;
      assert tail == [] <==> IsBlank(Get(filters, last).value.value);
      assert forall i :: 0 <= i < |p| ==> p[i] == order[i];
    }
  }

  /**
   * The first emitted condition belongs to the first field of the order with a
   * non-blank value, not necessarily to the first field of the order.
   */
  lemma FirstCondition(filters: FilterObject, order: seq<string>, j: nat)
    requires AllPresent(filters, order)
    requires j < |order|
    requires forall i :: 0 <= i < j ==> IsBlank(Get(filters, order[i]).value.value)
    requires !IsBlank(Get(filters, order[j]).value.value)
    ensures var f := Get(filters, order[j]).value;
      |Conditions(filters, order)| > 0 &&
      Conditions(filters, order)[0] == Condition(Ilike(order[j], f.value), f.operator)
  {
    assert order == order[..j] + ([order[j]] + order[j + 1..]);
    ConditionsAppend(filters, order[..j], [order[j]] + order[j + 1..]);
    ConditionsAppend(filters, [order[j]], order[j + 1..]);
    assert forall i :: 0 <= i < j ==> order[..j][i] == order[i];
    ConditionsEmptyIff(filters, order[..j]);
    assert [order[j]][..0] == [];
  }

  // ---------------------------------------------------------------- the emitted tokens

  /**
   * The word sequence of the joined conditions: clauses at even positions in
   * condition order, and before the k-th clause (k >= 1) that clause's own
   * operator. The first condition's operator is not among them.
   */
  function Tokens(conds: seq<Condition>): (ts: seq<string>)
    requires |conds| > 0
    ensures |ts| == 2 * |conds| - 1
    ensures forall k :: 0 <= k < |conds| ==> ts[2 * k] == conds[k].clause
    ensures forall k :: 1 <= k < |conds| ==> ts[2 * k - 1] == conds[k].operator
  {
    var n := |conds|;
    if n == 1 then [conds[0].clause]
    else
      var p := conds[..n - 1];
      var t := Tokens(p) + [conds[n - 1].operator, conds[n - 1].clause];
      assert forall k :: 0 <= k < n - 1 ==> p[k] == conds[k];
      t
  }

  /** Words separated by single spaces. */
  function Unwords(ts: seq<string>): string
    requires |ts| > 0
  {
    if |ts| == 1 then ts[0] else Unwords(ts[..|ts| - 1]) + " " + ts[|ts| - 1]
  }

  /** The joined conditions are exactly their tokens separated by single spaces. */
  lemma {:induction false} JoinedIsTokens(conds: seq<Condition>)
    requires |conds| > 0
    ensures JoinConditions(conds) == Unwords(Tokens(conds))
  {
    var n := |conds|;
    if n > 1 {
      var p := conds[..n - 1];
      JoinedIsTokens(p);
      var tp := Tokens(p);
      var t := Tokens(conds);
      assert t == tp + [conds[n - 1].operator, conds[n - 1].clause];
      assert t[..|t| - 1] == tp + [conds[n - 1].operator];
      assert (tp + [conds[n - 1].operator])[..|tp|] == tp;
    }
  }

  /** Whatever operator the first condition carries, the joined text is the same. */
  lemma {:induction false} FirstOperatorIgnored(conds: seq<Condition>, op: string)
    requires |conds| > 0
    ensures JoinConditions(conds) == JoinConditions([Condition(conds[0].clause, op)] + conds[1..])
  {
    var n := |conds|;
    var conds' := [Condition(conds[0].clause, op)] + conds[1..];
    if n > 1 {
      FirstOperatorIgnored(conds[..n - 1], op);
      assert conds'[..n - 1] == [Condition(conds[0].clause, op)] + conds[..n - 1][1..];
    }
  }

  // ---------------------------------------------------------------- the whole builder

  /** The builder returns the empty string exactly when no field of the order has a non-blank value. */
  lemma WhereEmptyIff(filters: FilterObject, fieldsOrder: Option<seq<string>>)
    requires AllPresent(filters, Order(filters, fieldsOrder))
    ensures var order := Order(filters, fieldsOrder);
      WhereSpec(filters, fieldsOrder) == Ok("") <==>
        forall i :: 0 <= i < |order| ==> IsBlank(Get(filters, order[i]).value.value)
  {
    var order := Order(filters, fieldsOrder);
    ConditionsEmptyIff(filters, order);
    var conds := Conditions(filters, order);
    if conds != [] {
      assert WhereText(conds)[..6] == "WHERE ";
    }
  }

  /** The builder fails exactly when some field of the order has no entry in `filters`. */
  lemma WhereFailsIff(filters: FilterObject, fieldsOrder: Option<seq<string>>)
    ensures WhereSpec(filters, fieldsOrder).Err? <==>
      exists i :: 0 <= i < |Order(filters, fieldsOrder)| && Get(filters, Order(filters, fieldsOrder)[i]).None?
  {
  }

  /** An empty order array is truthy in JavaScript, so it is used and nothing is filtered. */
  lemma EmptyOrderArray(filters: FilterObject)
    ensures WhereSpec(filters, Some([])) == Ok("")
  {
  }

  /** Without an order array the clauses follow `Object.keys(filters)`. */
  lemma DefaultOrderIsKeys(filters: FilterObject)
    requires WellFormed(filters)
    ensures WhereSpec(filters, None) == Ok(WhereText(Conditions(filters, Keys(filters))))
  {
  }

  /** Conditions of an order that avoids `k` do not depend on `k`'s entry. */
  lemma {:induction false} ConditionsIgnoreOther(filters: FilterObject, order: seq<string>, k: string, f: Filter)
    requires WellFormed(filters)
    requires AllPresent(filters, order)
    requires k !in order
    ensures AllPresent(Put(filters, k, f), order)
    ensures Conditions(Put(filters, k, f), order) == Conditions(filters, order)
  {
    if |order| > 0 {
      ConditionsIgnoreOther(filters, order[..|order| - 1], k, f);
    }
  }

  lemma SingleCondition(filters: FilterObject, k: string)
    requires k in filters.entries
    ensures AllPresent(filters, [k])
    ensures Conditions(filters, [k]) == ConditionOf(k, Get(filters, k).value)
  {
    assert [k][..0] == [];
  }

  /**
   * Changing the operator of the first field that has a value (listed once in
   * the order) never changes the WHERE clause: its operator is dropped.
   */
  lemma FirstFieldOperatorIgnored(filters: FilterObject, order: seq<string>, j: nat, op: string)
    requires WellFormed(filters)
    requires AllPresent(filters, order)
    requires j < |order|
    requires forall i :: 0 <= i < j ==> IsBlank(Get(filters, order[i]).value.value)
    requires !IsBlank(Get(filters, order[j]).value.value)
    requires order[j] !in order[j + 1..]
    ensures var k := order[j];
      WhereSpec(Put(filters, k, Filter(Get(filters, k).value.value, op)), Some(order)) == WhereSpec(filters, Some(order))
  {
    var k := order[j];
    var f := Get(filters, k).value;
    var filters' := Put(filters, k, Filter(f.value, op));
    assert AllPresent(filters', order);
    var pre, post := order[..j], order[j + 1..];
    assert order == pre + ([k] + post);
    ConditionsAppend(filters, pre, [k] + post);
    ConditionsAppend(filters, [k], post);
    ConditionsAppend(filters', pre, [k] + post);
    ConditionsAppend(filters', [k], post);
    SingleCondition(filters, k);
    SingleCondition(filters', k);
    assert forall i :: 0 <= i < |pre| ==> pre[i] == order[i] && pre[i] != k;
    ConditionsEmptyIff(filters, pre);
    ConditionsEmptyIff(filters', pre);
    ConditionsIgnoreOther(filters, post, k, Filter(f.value, op));
    var rest := Conditions(filters, post);
    var c := Condition(Ilike(k, f.value), f.operator);
    assert Conditions(filters, order) == [c] + rest;
    assert Conditions(filters', order) == [Condition(c.clause, op)] + rest;
    FirstOperatorIgnored([c] + rest, op);
    assert ([c] + rest)[1..] == rest;
  }

  // ---------------------------------------------------------------- no parentheses

  predicate ParenFree(s: string) {
    '(' !in s && ')' !in s
  }

  lemma {:induction false} JoinParenFree(conds: seq<Condition>)
    requires |conds| > 0
    requires forall k :: 0 <= k < |conds| ==> ParenFree(conds[k].clause) && ParenFree(conds[k].operator)
    ensures ParenFree(JoinConditions(conds))
  {
    if |conds| > 1 {
      JoinParenFree(conds[..|conds| - 1]);
    }
  }

  /**
   * The builder adds no parentheses: when no field name, value or operator it
   * reads contains one, neither does its output (so SQL precedence, AND before
   * OR, decides how the clauses group).
   */
  lemma WhereAddsNoParens(filters: FilterObject, order: seq<string>)
    requires AllPresent(filters, order)
    requires forall i :: 0 <= i < |order| ==>
      ParenFree(order[i]) && ParenFree(Get(filters, order[i]).value.value) && ParenFree(Get(filters, order[i]).value.operator)
    ensures WhereSpec(filters, Some(order)).Ok? && ParenFree(WhereSpec(filters, Some(order)).value)
  {
    var conds := Conditions(filters, order);
    forall k | 0 <= k < |conds| ensures ParenFree(conds[k].clause) && ParenFree(conds[k].operator) {
      ConditionsMembers(filters, order, conds[k]);
    }
    if |conds| > 0 {
      JoinParenFree(conds);
    }
  }
}
