/**
 * The client's `filters` object: a JavaScript object from field name to
 * `{ value, operator }`. Its keys are kept in insertion order beside the
 * entries, because `Object.keys(filters)` order decides the clause order when
 * the server is given no field order. Keys that look like array indices,
 * which JavaScript lists first, are not modelled.
 */
module Filters {
  import opened Wrappers
  import Text

  /** One field's entry: the text typed by the user and the AND/OR chosen for it. */
  datatype Filter = Filter(value: string, operator: string)

  /** A JavaScript object: its keys in insertion order and its entries. */
  datatype FilterObject = FilterObject(keys: seq<string>, entries: map<string, Filter>)

  /** A real JavaScript object lists each of its keys exactly once. */
  ghost predicate WellFormed(o: FilterObject) {
    Text.NoDups(o.keys) && (forall k :: k in o.keys ==> k in o.entries) && (forall k :: k in o.entries ==> k in o.keys)
  }

  /** `Object.keys(filters)`. */
  function Keys(o: FilterObject): seq<string> {
    o.keys
  }

  /** `filters[field]`, `None` standing for `undefined`. */
  function Get(o: FilterObject, k: string): Option<Filter> {
    if k in o.entries then Some(o.entries[k]) else None
  }

  /** `{ ...o, [k]: f }`: an existing key keeps its position, a new key is appended. */
  function Put(o: FilterObject, k: string, f: Filter): (r: FilterObject)
    requires WellFormed(o)
    ensures WellFormed(r)
    ensures Get(r, k) == Some(f)
    ensures forall k' :: k' != k ==> Get(r, k') == Get(o, k')
    ensures k in o.entries ==> Keys(r) == Keys(o)
    ensures k !in o.entries ==> Keys(r) == Keys(o) + [k]
  {
    FilterObject(if k in o.entries then o.keys else o.keys + [k], o.entries[k := f])
  }
}
