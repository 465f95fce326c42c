/**
 * The `HomePage` component (frontend/src/pages/HomePage.js): five filters
 * that start empty with operator AND, a field order that starts as the five
 * keys and changes only by moving one field up or down, five suggestion
 * lists, and the search request built from them.
 */
module HomePageState {
  import opened Wrappers
  import opened Text
  import opened Filters
  import opened FormState
  import WhereClause

  /** The initial `filters` object: the five keys in order, each `{ value: '', operator: 'AND' }`. */
  function InitialFilters(): (f: FilterObject)
    ensures WellFormed(f) && Keys(f) == FieldKeys
    ensures forall k :: k in FieldKeys ==> Get(f, k) == Some(Filter("", "AND"))
  {
    FilterObject(FieldKeys, map k | k in FieldKeys :: Filter("", "AND"))
  }

  predicate IsOperator(op: string) {
    op == "AND" || op == "OR"
  }

  /** What `handleSearch` posts to `/search-main`. */
  datatype SearchRequest = SearchRequest(filters: FilterObject, fieldsOrder: seq<string>)

  class HomePage {
    var filters: FilterObject
    var fieldsOrder: seq<string>
    var suggestions: map<string, seq<string>>
    /** The keys of `filters`, fixed at construction to the five search fields. */
    ghost const fieldKeys: seq<string>

    /**
     * The filters keep their keys and key order, every operator is AND or OR,
     * the field order is a permutation of the keys, and there is a suggestion
     * list per field.
     */
    ghost predicate Valid()
      reads this
    {
      WellFormed(filters) && Keys(filters) == fieldKeys && NoDups(fieldKeys) &&
      (forall k :: k in filters.entries ==> IsOperator(filters.entries[k].operator)) &&
      multiset(fieldsOrder) == multiset(fieldKeys) &&
      (forall i :: 0 <= i < |fieldsOrder| ==> fieldsOrder[i] in filters.entries) &&
      (forall k :: k in suggestions <==> k in fieldKeys)
    }

    constructor()
      ensures Valid() && fieldKeys == FieldKeys
      ensures filters == InitialFilters() && fieldsOrder == FieldKeys && suggestions == InitialSuggestions()
    {
      filters := InitialFilters();
      fieldsOrder := FieldKeys;
      suggestions := InitialSuggestions();
      fieldKeys := FieldKeys;
    }

    /** `moveFieldUp`: nothing at the top row, otherwise swaps the field with the one above. */
    method MoveFieldUp(index: nat)
      requires Valid() && index < |fieldsOrder|
      modifies this
      ensures Valid()
      ensures index == 0 ==> fieldsOrder == old(fieldsOrder)
      ensures index > 0 ==> fieldsOrder == Swap(old(fieldsOrder), index - 1, index)
      ensures filters == old(filters) && suggestions == old(suggestions)
    {
      if index == 0 {
        return;
      }
      fieldsOrder := SwappedCopy(fieldsOrder, index - 1, index);
    }

    /** `moveFieldDown`: nothing at the bottom row, otherwise swaps the field with the one below. */
    method MoveFieldDown(index: nat)
      requires Valid() && index < |fieldsOrder|
      modifies this
      ensures Valid()
      ensures index == |old(fieldsOrder)| - 1 ==> fieldsOrder == old(fieldsOrder)
      ensures index < |old(fieldsOrder)| - 1 ==> fieldsOrder == Swap(old(fieldsOrder), index + 1, index)
      ensures filters == old(filters) && suggestions == old(suggestions)
    {
      if index == |fieldsOrder| - 1 {
        return;
      }
      fieldsOrder := SwappedCopy(fieldsOrder, index + 1, index);
    }

    method HandleValueChange(field: string, value: Option<string>)
      requires Valid() && field in filters.entries
      modifies this
      ensures Valid()
      ensures filters == SetValue(old(filters), field, value)
      ensures fieldsOrder == old(fieldsOrder) && suggestions == old(suggestions)
    {
      filters := SetValue(filters, field, value);
    }

    /** Called only by the AND and OR buttons, so the operator is one of the two. */
    method HandleOperatorChange(field: string, operator: string)
      requires Valid() && field in filters.entries && IsOperator(operator)
      modifies this
      ensures Valid()
      ensures filters == SetOperator(old(filters), field, operator)
      ensures fieldsOrder == old(fieldsOrder) && suggestions == old(suggestions)
    {
      filters := SetOperator(filters, field, operator);
    }

    /**
     * A click on the AND or OR button of the row at `index`; the buttons are
     * rendered only for rows after the first, so the first field's operator
     * never changes.
     */
    method ClickOperator(index: nat, operator: string)
      requires Valid() && 0 < index < |fieldsOrder| && IsOperator(operator)
      modifies this
      ensures Valid()
      ensures filters == SetOperator(old(filters), old(fieldsOrder)[index], operator)
      ensures Get(filters, fieldsOrder[0]) == Get(old(filters), fieldsOrder[0])
      ensures fieldsOrder == old(fieldsOrder) && suggestions == old(suggestions)
    {
      ValidOrderHasFilters();
      assert fieldsOrder[index] in fieldsOrder;
      HandleOperatorChange(fieldsOrder[index], operator);
      assert fieldsOrder[0] != fieldsOrder[index] by {
        OrderDistinct();
      }
    }

    /** Returns the URL requested, if any. */
    method FetchSuggestions(field: string, query: string, result: FetchResult) returns (request: Option<string>)
      requires Valid() && field in fieldKeys
      modifies this
      ensures Valid()
      ensures (suggestions, request) == FormState.FetchSuggestions(old(suggestions), field, query, result)
      ensures filters == old(filters) && fieldsOrder == old(fieldsOrder)
    {
      if query == "" {
        suggestions := suggestions[field := []];
        return None;
      }
      request := Some(SuggestionUrl(field, query));
      match result {
        case RequestFailed =>
        case Response(data) =>
          suggestions := suggestions[field := if data.Some? then data.value else []];
      }
    }

    /** A field's `onInputChange`: store the input, then fetch only for two characters or more. */
    method HandleInputChange(field: string, newInputValue: string, result: FetchResult) returns (request: Option<string>)
      requires Valid() && field in fieldKeys
      modifies this
      ensures Valid()
      ensures filters == SetValue(old(filters), field, Some(newInputValue))
      ensures (suggestions, request) == InputSuggestions(old(suggestions), field, newInputValue, result)
      ensures fieldsOrder == old(fieldsOrder)
    {
      HandleValueChange(field, Some(newInputValue));
      if |newInputValue| > 1 {
        request := FetchSuggestions(field, newInputValue, result);
      } else {
        suggestions := suggestions[field := []];
        request := None;
      }
    }

    /**
     * The body `handleSearch` posts: the current filters and order, for which
     * the backend's WHERE-clause builder always succeeds and writes only AND
     * and OR between clauses.
     */
    method HandleSearch() returns (body: SearchRequest)
      requires Valid()
      ensures body == SearchRequest(filters, fieldsOrder)
      ensures WhereClause.WhereSpec(body.filters, Some(body.fieldsOrder)).Ok?
      ensures var conds := WhereClause.Conditions(body.filters, body.fieldsOrder);
        forall k :: 1 <= k < |conds| ==> IsOperator(WhereClause.Tokens(conds)[2 * k - 1])
    {
      ValidOrderHasFilters();
      OperatorsOfConditions(filters, fieldsOrder);
      body := SearchRequest(filters, fieldsOrder);
    }

    /** In a valid state every field of the order has a filter. */
    lemma ValidOrderHasFilters()
      requires Valid()
      ensures WhereClause.AllPresent(filters, fieldsOrder)
      ensures forall k :: k in fieldsOrder ==> k in fieldKeys
    {
      forall i | 0 <= i < |fieldsOrder| ensures fieldsOrder[i] in filters.entries {
        assert fieldsOrder[i] in multiset(fieldKeys);
      }
      forall k | k in fieldsOrder ensures k in fieldKeys {
        assert k in multiset(fieldsOrder);
      }
    }

    /** In a valid state no field appears twice in the order. */
    lemma OrderDistinct()
      requires Valid()
      ensures NoDups(fieldsOrder)
    {
      PermutationOfDistinct(fieldsOrder, fieldKeys);
    }

    /** Every condition built from a valid state carries AND or OR. */
    static lemma OperatorsOfConditions(filters: FilterObject, order: seq<string>)
      requires WellFormed(filters) && WhereClause.AllPresent(filters, order)
      requires forall k :: k in filters.entries ==> IsOperator(filters.entries[k].operator)
      ensures var conds := WhereClause.Conditions(filters, order);
        forall k :: 1 <= k < |conds| ==> IsOperator(WhereClause.Tokens(conds)[2 * k - 1])
    {
      var conds := WhereClause.Conditions(filters, order);
      forall k | 1 <= k < |conds| ensures IsOperator(WhereClause.Tokens(conds)[2 * k - 1]) {
        WhereClause.ConditionsMembers(filters, order, conds[k]);
        assert conds[k] in conds;
      }
    }
  }

  /** A sequence with the same elements, as often, as a duplicate-free one is duplicate-free. */
  lemma PermutationOfDistinct(s: seq<string>, t: seq<string>)
    requires multiset(s) == multiset(t) && NoDups(t)
    ensures NoDups(s)
  {
    forall i, j | 0 <= i < j < |s| ensures s[i] != s[j] {
      if s[i] == s[j] {
        assert s == s[..i] + [s[i]] + s[i + 1..j] + [s[j]] + s[j + 1..];
        assert multiset(s)[s[i]] >= 2;
        DistinctCountsOne(t, s[i]);
      }
    }
  }

  lemma {:induction false} DistinctCountsOne(t: seq<string>, x: string)
    requires NoDups(t)
    ensures multiset(t)[x] <= 1
  {
    if |t| > 0 {
      var p := t[..|t| - 1];
      assert t == p + [t[|t| - 1]];
      assert NoDups(p) by {
        forall i, j | 0 <= i < j < |p| ensures p[i] != p[j] {
          assert p[i] == t[i] && p[j] == t[j];
        }
      }
      DistinctCountsOne(p, x);
      if t[|t| - 1] == x {
        assert x !in p;
      }
    }
  }

  /** The initial filters and order send no condition: the WHERE clause is empty. */
  lemma InitialWhereIsEmpty()
    ensures WhereClause.WhereSpec(InitialFilters(), Some(FieldKeys)) == Ok("")
  {
    var f := InitialFilters();
    assert WhereClause.AllPresent(f, FieldKeys);
    WhereClause.WhereEmptyIff(f, Some(FieldKeys));
  }
}
