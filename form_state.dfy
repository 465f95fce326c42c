/**
 * The state updates shared by the two filter forms of the frontend
 * (frontend/src/components/SearchForm.js and frontend/src/pages/HomePage.js):
 * swapping two slots of the field order, replacing one attribute of one
 * field's filter with an object spread, and the suggestion request a field's
 * input triggers.
 */
module FormState {
  import opened Wrappers
  import opened Filters

  /** The five search fields, in their initial order. */
  const FieldKeys: seq<string> := ["productid", "ndcpackagecode", "unii", "proprietaryname", "nonproprietaryname"]

  /** Five empty suggestion lists, one per search field. */
  function InitialSuggestions(): (m: map<string, seq<string>>)
    ensures forall k :: k in m <==> k in FieldKeys
    ensures forall k :: k in m ==> m[k] == []
  {
    map k | k in FieldKeys :: []
  }

  /** `[a[i], a[j]] = [a[j], a[i]]` on a copy of the order. */
  function Swap(s: seq<string>, i: nat, j: nat): (r: seq<string>)
    requires i < |s| && j < |s|
    ensures |r| == |s|
    ensures r[i] == s[j] && r[j] == s[i]
    ensures forall k :: 0 <= k < |s| && k != i && k != j ==> r[k] == s[k]
  {
    s[i := s[j]][j := s[i]]
  }

  /** Swapping keeps the same field names, each as often as before. */
  lemma SwapPermutes(s: seq<string>, i: nat, j: nat)
    requires i < |s| && j < |s|
    ensures multiset(Swap(s, i, j)) == multiset(s)
  {
    var t := s[i := s[j]];
    assert multiset(t) == multiset(s) - multiset{s[i]} + multiset{s[j]};
    assert multiset(t[j := s[i]]) == multiset(t) - multiset{t[j]} + multiset{s[i]};
  }

  /** `const newOrder = [...order]` followed by the destructuring swap of slots `i` and `j`. */
  method SwappedCopy(order: seq<string>, i: nat, j: nat) returns (newOrder: seq<string>)
    requires i < |order| && j < |order|
    ensures newOrder == Swap(order, i, j)
    ensures multiset(newOrder) == multiset(order)
  {
    var a := new string[|order|](k requires 0 <= k < |order| => order[k]);
    assert a[..] == order;
    a[i], a[j] := a[j], a[i];
    assert a[..] == Swap(order, i, j);
    newOrder := a[..];
    SwapPermutes(order, i, j);
  }

  /** Swapping the same two slots again restores the order. */
  lemma SwapInvolution(s: seq<string>, i: nat, j: nat)
    requires i < |s| && j < |s|
    ensures Swap(Swap(s, i, j), i, j) == s
  {
  }

  /**
   * `{ ...prev, [field]: { ...prev[field], value: value || '' } }` for a field
   * already present: the field gets the new value, or `''` for a null or empty
   * one, and keeps its operator; the other fields and the key order stay.
   */
  function SetValue(filters: FilterObject, field: string, value: Option<string>): (r: FilterObject)
    requires WellFormed(filters) && field in filters.entries
    ensures WellFormed(r) && Keys(r) == Keys(filters)
    ensures Get(r, field) == Some(Filter(if value.None? then "" else value.value, filters.entries[field].operator))
    ensures forall k :: k != field ==> Get(r, k) == Get(filters, k)
  {
    Put(filters, field, filters.entries[field].(value := if value.Some? then value.value else ""))
  }

  /**
   * `{ ...prev, [field]: { ...prev[field], operator } }` for a field already
   * present: the field gets the operator and keeps its value; nothing else changes.
   */
  function SetOperator(filters: FilterObject, field: string, operator: string): (r: FilterObject)
    requires WellFormed(filters) && field in filters.entries
    ensures WellFormed(r) && Keys(r) == Keys(filters)
    ensures Get(r, field) == Some(Filter(filters.entries[field].value, operator))
    ensures forall k :: k != field ==> Get(r, k) == Get(filters, k)
  {
    Put(filters, field, filters.entries[field].(operator := operator))
  }

  /** Setting a value twice keeps only the second; setting it back restores the filters. */
  lemma SetValueOverwrites(filters: FilterObject, field: string, v1: Option<string>, v2: Option<string>)
    requires WellFormed(filters) && field in filters.entries
    ensures SetValue(SetValue(filters, field, v1), field, v2) == SetValue(filters, field, v2)
    ensures SetValue(filters, field, Some(filters.entries[field].value)) == filters
  {
    assert filters.entries[field := filters.entries[field]] == filters.entries;
  }

  /** The answer to a suggestion request: the request failed, or the response body (`null` allowed). */
  datatype FetchResult = RequestFailed | Response(data: Option<seq<string>>)

  /** The URL of a suggestion request, with the field and the query interpolated unencoded. */
  function SuggestionUrl(field: string, query: string): string {
    "http://localhost:5000/api/suggestions?field=" + field + "&query=" + query
  }

  /**
   * `fetchSuggestions` on a suggestion map: an empty query clears the field's
   * list without a request; otherwise the request is sent and the field's list
   * becomes the response body, or `[]` for a null body, or stays as it was
   * when the request fails.
   */
  function FetchSuggestions(suggestions: map<string, seq<string>>, field: string, query: string, result: FetchResult)
    : (r: (map<string, seq<string>>, Option<string>))
    ensures query == "" ==> r.1 == None && r.0 == suggestions[field := []]
    ensures query != "" ==> r.1 == Some(SuggestionUrl(field, query))
    ensures query != "" && result.Response? ==> r.0 == suggestions[field := if result.data.Some? then result.data.value else []]
    ensures query != "" && result.RequestFailed? ==> r.0 == suggestions
  {
    if query == "" then (suggestions[field := []], None)
    else
      var url := SuggestionUrl(field, query);
      match result
      case RequestFailed => (suggestions, Some(url))
      case Response(data) => (suggestions[field := if data.Some? then data.value else []], Some(url))
  }

  /**
   * The input handler's guard: an input of two or more characters fetches
   * suggestions for it; a shorter one clears the field's list without a request.
   */
  function InputSuggestions(suggestions: map<string, seq<string>>, field: string, input: string, result: FetchResult)
    : (r: (map<string, seq<string>>, Option<string>))
    ensures r.1.Some? <==> |input| > 1
    ensures |input| <= 1 ==> r.0 == suggestions[field := []]
    ensures forall k :: k in suggestions && k != field ==> k in r.0 && r.0[k] == suggestions[k]
  {
    if |input| > 1 then FetchSuggestions(suggestions, field, input, result)
    else (suggestions[field := []], None)
  }
}
