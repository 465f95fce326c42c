/**
 * The `SearchForm` component (frontend/src/components/SearchForm.js): the
 * filters, the field order and the per-field suggestion lists it keeps in
 * state, and the handlers that update them. A suggestion request's answer is
 * a parameter of the handler that sends it.
 */
module SearchFormState {
  import opened Wrappers
  import opened Filters
  import opened FormState
  import WhereClause

  /** What `onSearch` receives. */
  datatype Submission = Submission(filters: FilterObject, fieldsOrder: seq<string>)

  class SearchForm {
    var filters: FilterObject
    var fieldsOrder: seq<string>
    var suggestions: map<string, seq<string>>

    /** Every rendered field has a filter (rendering reads `filters[fieldKey].value`). */
    ghost predicate Valid()
      reads this
    {
      WellFormed(filters) && forall i :: 0 <= i < |fieldsOrder| ==> fieldsOrder[i] in filters.entries
    }

    /**
     * The state once the mount effect has run: the given filters, and the
     * given order when it is non-empty, else the filters' own key order.
     */
    constructor(initialFilters: FilterObject, initialOrder: seq<string>)
      requires WellFormed(initialFilters)
      requires forall i :: 0 <= i < |initialOrder| ==> initialOrder[i] in initialFilters.entries
      ensures Valid()
      ensures filters == initialFilters
      ensures fieldsOrder == if |initialOrder| > 0 then initialOrder else Keys(initialFilters)
      ensures suggestions == InitialSuggestions()
    {
      filters := initialFilters;
      fieldsOrder := if |initialOrder| > 0 then initialOrder else Keys(initialFilters);
      suggestions := InitialSuggestions();
    }

    /**
     * Swaps the field at `index` with its upper neighbour for `'up'` and with
     * its lower neighbour otherwise. The buttons offer `'up'` only below the
     * first row and `'down'` only above the last, so both slots exist.
     */
    method HandleReorder(index: nat, direction: string)
      requires Valid()
      requires direction == "up" ==> 0 < index < |fieldsOrder|
      requires direction != "up" ==> index + 1 < |fieldsOrder|
      modifies this
      ensures Valid()
      ensures fieldsOrder == Swap(old(fieldsOrder), index, if direction == "up" then index - 1 else index + 1)
      ensures multiset(fieldsOrder) == multiset(old(fieldsOrder))
      ensures filters == old(filters) && suggestions == old(suggestions)
    {
      var swapIndex := if direction == "up" then index - 1 else index + 1;
      fieldsOrder := SwappedCopy(fieldsOrder, index, swapIndex);
    }

    method HandleValueChange(field: string, value: Option<string>)
      requires Valid() && field in filters.entries
      modifies this
      ensures Valid()
      ensures filters == SetValue(old(filters), field, value)
      ensures fieldsOrder == old(fieldsOrder) && suggestions == old(suggestions)
    {
      filters := SetValue(filters, field, value);
    }

    method HandleOperatorChange(field: string, operator: string)
      requires Valid() && field in filters.entries
      modifies this
      ensures Valid()
      ensures filters == SetOperator(old(filters), field, operator)
      ensures fieldsOrder == old(fieldsOrder) && suggestions == old(suggestions)
    {
      filters := SetOperator(filters, field, operator);
    }

    /** Returns the URL requested, if any. */
    method FetchSuggestions(field: string, query: string, result: FetchResult) returns (request: Option<string>)
      requires Valid()
      modifies this
      ensures Valid()
      ensures (suggestions, request) == FormState.FetchSuggestions(old(suggestions), field, query, result)
      ensures filters == old(filters) && fieldsOrder == old(fieldsOrder)
    {
      if query == "" {
        suggestions := suggestions[field := []];
        return None;
      }
      request := Some(SuggestionUrl(field, query));
      match result {
        case RequestFailed =>
        case Response(data) =>
          suggestions := suggestions[field := if data.Some? then data.value else []];
      }
    }

    /** The input is stored as the field's value; suggestions are fetched only for two characters or more. */
    method HandleInputChange(field: string, newInputValue: string, result: FetchResult) returns (request: Option<string>)
      requires Valid() && field in filters.entries
      modifies this
      ensures Valid()
      ensures filters == SetValue(old(filters), field, Some(newInputValue))
      ensures (suggestions, request) == InputSuggestions(old(suggestions), field, newInputValue, result)
      ensures fieldsOrder == old(fieldsOrder)
    {
      HandleValueChange(field, Some(newInputValue));
      if |newInputValue| > 1 {
        request := FetchSuggestions(field, newInputValue, result);
      } else {
        suggestions := suggestions[field := []];
        request := None;
      }
    }

    /** `onSearch(filters, fieldsOrder)`, when a callback is given. */
    method HandleSubmit(hasOnSearch: bool) returns (submitted: Option<Submission>)
      requires Valid()
      ensures submitted.Some? <==> hasOnSearch
      ensures submitted.Some? ==> submitted.value == Submission(filters, fieldsOrder)
      ensures submitted.Some? ==> WhereClause.WhereSpec(submitted.value.filters, Some(submitted.value.fieldsOrder)).Ok?
    {
      WhereClause.WhereFailsIff(filters, Some(fieldsOrder));
      submitted := if hasOnSearch then Some(Submission(filters, fieldsOrder)) else None;
    }
  }
}
