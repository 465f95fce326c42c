# Immunogenicity search portal: a verified model of its core

The portal lets a user search a clinical database of therapeutic products,
packages, therapeutics and immunogenicity trials. This project models in
Dafny the logic that decides what is asked of the database and how answers
and form state are shaped:

- **Express backend** (`backend/routes.js`):
  - `buildWhereClause`: filters plus field order give the text of a SQL WHERE clause.
  - `/search-main`: the main query, the two short-circuits, key extraction and the four follow-up lookups.
  - `/suggestions`: field validation, the query and its bound prefix, and the ranked, limited, distinct result.
  - `/get-details`: which keys the response object gets and from which lookup.
- **Flask backend** (`backend.py`):
  - `unique_values`: the column allow-list and the table choice.
  - `search`: the query string built from five stripped parameters.
- **Search forms** (`SearchForm.js`, `HomePage.js`): classes holding the filters, the field order and the suggestion lists. Handlers reorder fields, update one filter attribute, fetch suggestions and submit.
- **Detail pages**:
  - `processData` (`TherapeuticDetailsPage.js`) buckets a therapeutic record and BLA records into three sections of duplicate-free value lists.
  - `parsePharmClasses` (`ProductDetailsPage.js`) splits a class list into EPC, CS and MoA columns.

Modules, one per component, plus shared helpers:

| file | module | models |
|---|---|---|
| `wrappers.dfy` | `Wrappers` | `Option`, `Result` |
| `text.dfy` | `Text` | ASCII trim, lower-case, `includes`/`indexOf`/`replace`/`split`/`join`, and `[...new Set(xs)]` |
| `filters.dfy` | `Filters` | the client's `filters` object: keys in insertion order beside the entries |
| `where_clause.dfy` | `WhereClause` | `buildWhereClause` |
| `search_main.dfy` | `SearchMain` | `/search-main` |
| `suggestions.dfy` | `Suggestions` | `/suggestions` |
| `details.dfy` | `Details` | `/get-details` |
| `flask_backend.dfy` | `FlaskBackend` | `unique_values` and `search` |
| `form_state.dfy` | `FormState` | updates shared by both forms |
| `search_form.dfy` | `SearchFormState` | the `SearchForm` component |
| `home_page.dfy` | `HomePageState` | the `HomePage` component |
| `therapeutic_details.dfy` | `TherapeuticDetails` | `SECTIONS` and `processData` |
| `product_details.dfy` | `PharmClasses` | the parsing half of `parsePharmClasses` |

How things are modelled:

- The database is a parameter: each lookup is a function from its bound argument to the rows it returns.
- Each handler returns its reply together with the sequence of queries it sent, so "no query is sent" and "these queries, in this order" can be stated.
- Loops in the source are methods with loop invariants, proved equal to fold-style specification functions. The properties are lemmas about those functions.
- Where the WHERE clause is concerned, the model follows the code rather than the design description. The code emits the clauses unparenthesised, joined by each later clause's own operator, so SQL precedence (AND before OR) decides grouping. The first emitted clause's operator is dropped, and that clause belongs to the first field with a value, which need not be the first field of the order.

## Model

| member | source | states |
|---|---|---|
| `WhereClause.WhereSpec` | backend/routes.js:44-65 | It throws iff some field of the order has no entry in `filters`; a non-empty result starts with `"WHERE "`. Clause content in `ConditionsMembers`, `WhereEmptyIff`, `JoinedIsTokens`. |
| `WhereClause.BuildWhereClause` | backend/routes.js:44-65 | The two loops return exactly `WhereSpec`: an error when a field of the order has no filter, `""` when no condition was collected, else `"WHERE "` and the joined conditions. |
| `WhereClause.JoinClauses` | backend/routes.js:60-63 | The joining loop yields the first clause, then `" " + operator + " " + clause` for each later condition, in order. |
| `WhereClause.ConditionsAppend` | backend/routes.js:49-54 | The conditions of a concatenated order are those of its parts, concatenated: clauses follow the order. |
| `WhereClause.ConditionsMembers` | backend/routes.js:49-54 | A condition is emitted iff some field of the order has a non-blank value; it is then `field ILIKE '%value%'` with the untrimmed value and that field's own operator. |
| `WhereClause.ConditionsEmptyIff` | backend/routes.js:51-58 | No condition is collected iff every field of the order has a blank value. |
| `WhereClause.FirstCondition` | backend/routes.js:49-60 | The first condition belongs to the first field of the order with a non-blank value. |
| `WhereClause.Tokens` | backend/routes.js:60-63 | The words of the joined text: clause k at position 2k, clause k's own operator at 2k-1 for k ≥ 1, and the first operator nowhere. |
| `WhereClause.JoinedIsTokens` | backend/routes.js:60-64 | The joined conditions are exactly those words separated by single spaces. |
| `WhereClause.FirstOperatorIgnored` | backend/routes.js:60-63 | Replacing the first condition's operator does not change the joined text. |
| `WhereClause.WhereEmptyIff` | backend/routes.js:51-58 | With every field present, the builder returns `""` iff every field of the order is blank. |
| `WhereClause.WhereFailsIff` | backend/routes.js:47-50 | The builder fails iff some field of the order has no entry in `filters`. |
| `WhereClause.EmptyOrderArray` | backend/routes.js:47 | An empty order array is used as given, so the clause is `""`. |
| `WhereClause.DefaultOrderIsKeys` | backend/routes.js:47 | Without an order array, the clauses follow `Object.keys(filters)`. |
| `WhereClause.ConditionsIgnoreOther` | backend/routes.js:49-54 | Changing the filter of a key not in the order changes no condition. |
| `WhereClause.SingleCondition` | backend/routes.js:50-53 | A one-field order yields that field's condition, or none if its value is blank. |
| `WhereClause.FirstFieldOperatorIgnored` | backend/routes.js:49-64 | Changing the operator of the first field with a value (listed once) leaves the WHERE clause unchanged. |
| `WhereClause.JoinParenFree` | backend/routes.js:60-63 | Joining adds no parentheses. |
| `WhereClause.WhereAddsNoParens` | backend/routes.js:52-64 | If no field name, value or operator read contains a parenthesis, the output contains none, so nothing is grouped. |
| `Suggestions.HandleSuggestions` | backend/routes.js:8-41 | 400 with no query iff `field` is missing or empty. Otherwise one query, and at most 50 distinct, non-empty values stored in that column. Ranking in `TopSuggestionsSpec`. |
| `Suggestions.Params` | backend/routes.js:28-31 | The parameter array is `[query + "%"]` for a non-empty query, else empty. |
| `Suggestions.LexTotal` | backend/routes.js:25 | Distinct strings are ordered one way or the other by code-point order. |
| `Suggestions.BeforeOrder` | backend/routes.js:25 | `ORDER BY LENGTH(suggestion), suggestion` is a strict total order: irreflexive, transitive, total. |
| `Suggestions.InsertSpec` | backend/routes.js:25 | Inserting a new value into a sorted list keeps it sorted and adds exactly that value. |
| `Suggestions.SortSpec` | backend/routes.js:25 | Sorting distinct values gives a sorted permutation of them. |
| `Suggestions.EligibleValuesMembers` | backend/routes.js:20-23 | A value passes the WHERE clause iff it is stored, non-null, non-empty and starts with the prefix ignoring ASCII case. |
| `Suggestions.CandidatesMembers` | backend/routes.js:19-24 | `SELECT DISTINCT` gives each eligible stored value exactly once. |
| `Suggestions.TopSuggestionsSpec` | backend/routes.js:18-27 | At most 50 values, distinct, stored and eligible, in strictly increasing (length, value) order. An eligible value left out ranks after all of them, which needs all 50 places taken. |
| `Suggestions.CaseVariantsBothKept` | backend/routes.js:20-23 | `Abc` and `abc` both match prefix `a` and both are kept, since `DISTINCT` compares exactly. |
| `Suggestions.MissingFieldRejected` | backend/routes.js:12-14 | A missing or empty `field` gives status 400 and sends no query. |
| `Suggestions.FieldAccepted` | backend/routes.js:18-36 | With a field, exactly one query is sent. It binds `[query + "%"]` only for a non-empty query, and the reply is the top suggestions, prefix-filtered only then. |
| `SearchMain.SearchMain` | backend/routes.js:67-121 | A 500 with no query iff the WHERE builder throws. Otherwise the main query goes first and is alone, or is followed by the four lookups exactly when the reply carries main rows and the other four results. Details in `FanOut` and the short-circuit lemmas. |
| `SearchMain.ProductIds` | backend/routes.js:87 | One product id per main row, in row order, duplicates kept. |
| `SearchMain.PackageCodes` | backend/routes.js:88 | One package code per main row, in row order, duplicates kept. |
| `SearchMain.TrialPatterns` | backend/routes.js:109 | Each name is wrapped as `%name%`, one pattern per name, in order. |
| `SearchMain.BuildErrorSendsNothing` | backend/routes.js:74-120 | If the WHERE builder throws, the reply is the 500 error and no query is sent. |
| `SearchMain.MainQueryFirst` | backend/routes.js:73-79 | The first query is `SELECT * FROM main` followed by a space and the clause when the clause is non-empty. |
| `SearchMain.ZeroRowsShortCircuit` | backend/routes.js:82-84 | Zero main rows: all five arrays are empty and only the main query was sent. |
| `SearchMain.NoNamesShortCircuit` | backend/routes.js:89-96 | Rows that all lack a usable name give only an empty therapeutic array, and no lookup is sent. |
| `SearchMain.NoNamesListed` | backend/routes.js:90-92 | Rows without a usable name contribute no name. |
| `SearchMain.FanOut` | backend/routes.js:99-115 | Otherwise the product, package, therapeutic and trial lookups are sent in that order with exactly the extracted keys, and the reply carries each answer. |
| `SearchMain.NameListMembers` | backend/routes.js:89-93 | A name is listed iff some row has a non-empty name normalising to it. |
| `SearchMain.ProprietaryNamesSpec` | backend/routes.js:89-93 | The proprietary names are distinct, are exactly the rows' normalised names, and keep their first-occurrence order. |
| `SearchMain.ProprietaryNamesNormal` | backend/routes.js:91 | Every proprietary name is already trimmed and lower-case. |
| `SearchMain.BlankNameKept` | backend/routes.js:91-109 | A non-empty name of whitespace only is truthy, so it is kept as `""`, and `"%%"` is among the trial patterns sent. |
| `Details.GetDetails` | backend/routes.js:233-276 | 400 iff neither identifier is given. Otherwise one response key per query sent: three for `productid`, one for `ndcpackagecode`. Values in `ResponseValues`. |
| `Details.NeitherIdRejected` | backend/routes.js:237-239 | Neither identifier (absent or empty): status 400 and no query. |
| `Details.ResponseKeys` | backend/routes.js:241-271 | The keys are exactly `product`, `therapeutic`, `immunogenicity` when `productid` is given, then `package` when `ndcpackagecode` is given. |
| `Details.ResponseValues` | backend/routes.js:244-269 | Each key that is set holds the first row of its own lookup, or `{}`; a key whose identifier is missing is absent. |
| `Details.FirstOrEmptySpec` | backend/routes.js:247 | `rows.length > 0 ? rows[0] : {}`: the first row, or the empty object. |
| `Details.QueriesFollowKeys` | backend/routes.js:244-269 | One query per key set, each with its own identifier, in the same order as the keys. |
| `Details.LookupAppend` | backend/routes.js:241-269 | A key set earlier in the response is found there, otherwise in the later part. |
| `FlaskBackend.UniqueValues` | backend.py:17-40 | At most one query. The column is rejected iff no query is sent; otherwise the rows of that query are returned. The allow-list in `UniqueValuesSpec`. |
| `FlaskBackend.UniqueValuesSpec` | backend.py:17-40 | Rejected with 400 and no query iff the column is missing or outside the allow-list; otherwise exactly one `SELECT DISTINCT` on its table, with the rows returned as they come. |
| `FlaskBackend.AllowedColumnTables` | backend.py:21-32 | `antibody` and `target` are read from `antibodies`, the other three allowed columns from `trial`. |
| `FlaskBackend.SearchQuery` | backend.py:55-72 | The query always starts with the base query; filters are only appended. Their content in `FilterSpec` and `UnfilteredIff`. |
| `FlaskBackend.Search` | backend.py:47-72 | The chain of `if`s builds exactly `SearchQuery`: the base query, then each non-empty stripped parameter's condition in fixed order. |
| `FlaskBackend.FilterSpec` | backend.py:47-72 | A field adds nothing iff its parameter is absent or whitespace; otherwise it adds `" AND <alias>.<col> ILIKE '%v%'"` with the stripped value. |
| `FlaskBackend.UnfilteredIff` | backend.py:55-72 | The query is the bare `WHERE TRUE` query iff all five parameters are absent or whitespace. |
| `FlaskBackend.StrippingIsIdempotent` | backend.py:47-51 | Stripping every argument first does not change the query. |
| `FlaskBackend.BlankParamIgnored` | backend.py:47-72 | A whitespace-only parameter gives the same query as leaving it out. |
| `FlaskBackend.OtherArgsIgnored` | backend.py:47-51 | Arguments other than the five parameters do not affect the query. |
| `Filters.Put` | frontend/src/components/SearchForm.js:49-52 | The spread `{ ...o, [k]: f }`: `k` maps to `f` and other keys are unchanged. An existing key keeps its position; a new key is appended. |
| `FormState.InitialSuggestions` | frontend/src/components/SearchForm.js:20-26 | One empty suggestion list per search field, and no other key. |
| `FormState.Swap` | frontend/src/components/SearchForm.js:76 | The two slots exchange values; every other slot is unchanged. |
| `FormState.SwapPermutes` | frontend/src/components/SearchForm.js:74-77 | A swap keeps the same field names, each as often. |
| `FormState.SwappedCopy` | frontend/src/components/SearchForm.js:74-76 | The array copy-and-swap produces `Swap` of the order, a permutation of it. |
| `FormState.SwapInvolution` | frontend/src/pages/HomePage.js:118-130 | Swapping the same two slots twice restores the order. |
| `FormState.SetValue` | frontend/src/components/SearchForm.js:48-53 | Only the field's value changes: a null or empty value becomes `""`. The field keeps its operator; other fields and the key order stay. |
| `FormState.SetOperator` | frontend/src/components/SearchForm.js:66-71 | Only the field's operator changes; its value, other fields and the key order stay. |
| `FormState.SetValueOverwrites` | frontend/src/components/SearchForm.js:48-53 | The second of two value updates wins; writing back the current value changes nothing. |
| `FormState.FetchSuggestions` | frontend/src/components/SearchForm.js:34-46 | An empty query clears the field's list without a request. Otherwise one request is sent; the list becomes the body, or `[]` for a null body, or stays as it was on failure. |
| `FormState.InputSuggestions` | frontend/src/components/SearchForm.js:55-64 | A request is sent iff the input has more than one character; otherwise the field's list is cleared. Other fields' lists are kept. |
| `SearchFormState.SearchForm.constructor` | frontend/src/components/SearchForm.js:15-31 | The mounted state: the given filters, the given order if non-empty else the filters' keys, and empty suggestion lists. |
| `SearchFormState.SearchForm.HandleReorder` | frontend/src/components/SearchForm.js:73-78 | Swaps `index` with `index-1` for `'up'` and `index+1` otherwise. The result is a permutation; filters and suggestions are untouched. |
| `SearchFormState.SearchForm.HandleValueChange` | frontend/src/components/SearchForm.js:48-53 | The filters become `SetValue` of the old ones; the order and suggestions are unchanged. |
| `SearchFormState.SearchForm.HandleOperatorChange` | frontend/src/components/SearchForm.js:66-71 | The filters become `SetOperator` of the old ones; the order and suggestions are unchanged. |
| `SearchFormState.SearchForm.FetchSuggestions` | frontend/src/components/SearchForm.js:34-46 | The suggestions and request are those of `FormState.FetchSuggestions`; filters and order are unchanged. |
| `SearchFormState.SearchForm.HandleInputChange` | frontend/src/components/SearchForm.js:55-64 | Stores the input as the field's value, then applies the two-character guard to the suggestions. |
| `SearchFormState.SearchForm.HandleSubmit` | frontend/src/components/SearchForm.js:80-84 | With a callback, passes the current filters and order unchanged, and the backend's WHERE builder succeeds on them. Without one, nothing is submitted. |
| `HomePageState.InitialFilters` | frontend/src/pages/HomePage.js:30-36 | The five keys in order, each `{ value: '', operator: 'AND' }`. |
| `HomePageState.HomePage.constructor` | frontend/src/pages/HomePage.js:30-61 | The initial filters, the order equal to the five keys, and empty suggestion lists. The class invariant holds. |
| `HomePageState.HomePage.MoveFieldUp` | frontend/src/pages/HomePage.js:118-123 | Index 0 is a no-op. Otherwise swaps `index-1` and `index`. The order stays a permutation of the five keys. |
| `HomePageState.HomePage.MoveFieldDown` | frontend/src/pages/HomePage.js:125-130 | The last index is a no-op. Otherwise swaps `index` and `index+1`. The order stays a permutation of the five keys. |
| `HomePageState.HomePage.HandleValueChange` | frontend/src/pages/HomePage.js:96-104 | The filters become `SetValue` of the old ones; nothing else changes. |
| `HomePageState.HomePage.HandleOperatorChange` | frontend/src/pages/HomePage.js:106-115 | The filters become `SetOperator` of the old ones; operators stay AND or OR. |
| `HomePageState.HomePage.ClickOperator` | frontend/src/pages/HomePage.js:190-221 | The AND/OR buttons exist only for rows after the first, so the first field's filter never changes. |
| `HomePageState.HomePage.FetchSuggestions` | frontend/src/pages/HomePage.js:82-93 | An empty query clears the list without a request. Otherwise the list becomes the body, or `[]` for a null body, or is kept on failure. |
| `HomePageState.HomePage.HandleInputChange` | frontend/src/pages/HomePage.js:155-164 | Stores the input as the value. Fetches only when the input is longer than one character, otherwise clears that field's list. |
| `HomePageState.HomePage.HandleSearch` | frontend/src/pages/HomePage.js:133-141 | Posts the current filters and order. The backend's WHERE builder succeeds on them and writes only AND or OR between clauses. |
| `HomePageState.HomePage.ValidOrderHasFilters` | frontend/src/pages/HomePage.js:151-152 | Every field of the order has a filter, so the lookups made while rendering and building the clause never miss. |
| `HomePageState.HomePage.OrderDistinct` | frontend/src/pages/HomePage.js:118-130 | No field appears twice in the order. |
| `HomePageState.HomePage.OperatorsOfConditions` | frontend/src/pages/HomePage.js:106-115 | Every condition built from the page's filters carries AND or OR. |
| `HomePageState.InitialWhereIsEmpty` | frontend/src/pages/HomePage.js:30-61 | The initial filters and order produce an empty WHERE clause. |
| `TherapeuticDetails.ProcessData` | frontend/src/pages/TherapeuticDetailsPage.js:55-85 | The nested loops return exactly `Process(SECTIONS, therapeutic, bla)`. |
| `TherapeuticDetails.TherapeuticPass` | frontend/src/pages/TherapeuticDetailsPage.js:59-65 | The loop over therapeutic entries computes the therapeutic fold. |
| `TherapeuticDetails.BlaPass` | frontend/src/pages/TherapeuticDetailsPage.js:68-81 | The loop over BLA records computes the BLA fold. |
| `TherapeuticDetails.AddTherapeuticEntry` | frontend/src/pages/TherapeuticDetailsPage.js:60-64 | The loop over sections for one entry computes `TherSections`. |
| `TherapeuticDetails.AddBlaRecord` | frontend/src/pages/TherapeuticDetailsPage.js:69-80 | The loop over sections for one record computes `BlaSections`. |
| `TherapeuticDetails.AddBlaSection` | frontend/src/pages/TherapeuticDetailsPage.js:70-79 | The loop over one section's keys computes `BlaKeys`. |
| `TherapeuticDetails.RecordValueKept` | frontend/src/pages/TherapeuticDetailsPage.js:71-72 | A BLA value is kept iff the record has the key with a non-null, non-empty value; the kept value is that value lower-cased. |
| `TherapeuticDetails.NotAvailableKept` | frontend/src/pages/TherapeuticDetailsPage.js:71-72 | A stored `"N/A"` becomes `"n/a"` and is kept. |
| `TherapeuticDetails.AddValueSpec` | frontend/src/pages/TherapeuticDetailsPage.js:73-78 | A value is listed under its key once, appended at the end. Nothing else changes, and lists stay non-empty and duplicate-free. |
| `TherapeuticDetails.BlaKeysSpec` | frontend/src/pages/TherapeuticDetailsPage.js:70-79 | One record against a section: each listed key with a kept value gains it; nothing is removed or reordered; lists stay non-empty and duplicate-free. |
| `TherapeuticDetails.TherSectionsAt` | frontend/src/pages/TherapeuticDetailsPage.js:60-64 | One therapeutic entry changes each section on its own, and only sections of the table. |
| `TherapeuticDetails.BlaSectionsAt` | frontend/src/pages/TherapeuticDetailsPage.js:69-80 | One BLA record changes each section on its own, and only sections of the table. |
| `TherapeuticDetails.TherFoldAt` | frontend/src/pages/TherapeuticDetailsPage.js:59-65 | The therapeutic pass, section by section. |
| `TherapeuticDetails.BlaFoldAt` | frontend/src/pages/TherapeuticDetailsPage.js:68-81 | The BLA pass, section by section. |
| `TherapeuticDetails.ProcessAt` | frontend/src/pages/TherapeuticDetailsPage.js:55-85 | The result has exactly the table's sections, each built from `{}` by the two passes over that section's keys. |
| `TherapeuticDetails.LastText` | frontend/src/pages/TherapeuticDetailsPage.js:59-64 | The stored text is that of an entry with the key after which no entry has the key: the last one wins. |
| `TherapeuticDetails.LastTextOfDistinct` | frontend/src/pages/TherapeuticDetailsPage.js:59-64 | With distinct keys, a key's text is `value?.toString() \|\| 'N/A'` of its only entry. |
| `TherapeuticDetails.TherEntryFoldSpec` | frontend/src/pages/TherapeuticDetailsPage.js:59-65 | A section gains exactly its listed keys present in the entries, each as a one-element list; other keys are untouched. |
| `TherapeuticDetails.BlaRecordsFoldSpec` | frontend/src/pages/TherapeuticDetailsPage.js:68-81 | A listed key gains every kept value some record supplies, and nothing else. No value is lost or reordered. |
| `TherapeuticDetails.BlaRecordsFoldPrefix` | frontend/src/pages/TherapeuticDetailsPage.js:68-81 | The lists after the first n records are prefixes of the final ones: values follow record order. |
| `TherapeuticDetails.ProcessSectionSpec` | frontend/src/pages/TherapeuticDetailsPage.js:22-85 | A section lists exactly those of its keys present in the therapeutic record or given a kept BLA value. Each list is non-empty and duplicate-free, starts with the therapeutic text, and holds only that text and kept BLA values. |
| `TherapeuticDetails.ProcessSectionOrder` | frontend/src/pages/TherapeuticDetailsPage.js:68-81 | Processing fewer BLA records gives prefix lists of the full result. |
| `TherapeuticDetails.PageNames` | frontend/src/pages/TherapeuticDetailsPage.js:22-42 | The page's sections are Approval, Manufacture and Sequence, in that order. |
| `TherapeuticDetails.PageSections` | frontend/src/pages/TherapeuticDetailsPage.js:22-56 | The section names are distinct, and the result has exactly the three sections whatever the input. |
| `PharmClasses.Parse` | frontend/src/pages/ProductDetailsPage.js:44-55 | Null iff the input is null, empty or `"N/A"` (the early return at line 45). Otherwise each of the three lists has at most one value per entry. Routing in `BucketMembers` and `EntryRouting`. |
| `PharmClasses.ParsePharmClasses` | frontend/src/pages/ProductDetailsPage.js:44-55 | The `forEach` with three `push`es computes exactly `Parse`. |
| `PharmClasses.RowCount` | frontend/src/pages/ProductDetailsPage.js:57 | The row count is the largest of the three list lengths. |
| `PharmClasses.Rows` | frontend/src/pages/ProductDetailsPage.js:70-76 | One row per index below the row count, each cell being `values[index] \|\| "—"`. |
| `PharmClasses.BucketAppend` | frontend/src/pages/ProductDetailsPage.js:51-54 | Bucketing distributes over concatenation, so each list keeps the entries' order. |
| `PharmClasses.BucketSingleton` | frontend/src/pages/ProductDetailsPage.js:52-54 | One entry adds its stripped text to a list iff it contains the tag. |
| `PharmClasses.BucketMembers` | frontend/src/pages/ProductDetailsPage.js:51-54 | Every tagged entry contributes its stripped text; every listed value comes from a tagged entry; at most one value per entry. |
| `PharmClasses.EntryRouting` | frontend/src/pages/ProductDetailsPage.js:51-54 | An entry without any of the three tags is dropped; one with several tags lands in each matching list. |
| `PharmClasses.TagStripped` | frontend/src/pages/ProductDetailsPage.js:52 | `"Name [EPC]"` is listed as `"Name"` when the name has no `[`. |
| `PharmClasses.UnspacedTagKept` | frontend/src/pages/ProductDetailsPage.js:52 | A name followed directly by its tag, as in `"Tumor Necrosis Factor Blocker[EPC]"`, is listed unchanged. This holds when the name has no `[` and does not end in a space; spaces inside the name are allowed. |
| `PharmClasses.RowsShowEveryValue` | frontend/src/pages/ProductDetailsPage.js:57-76 | Every non-empty value is shown at its index in its column; cells past a list's end show `"—"`. |
| `Text.TrimSpec` | backend/routes.js:51 | Trimming removes exactly the leading and trailing whitespace. The result is empty iff the input is all whitespace; otherwise it neither starts nor ends with whitespace. |
| `Text.BlankIffTrimEmpty` | backend/routes.js:51 | `value.trim() !== ''` exactly when the value is not all whitespace. |
| `Text.TrimIdempotent` | backend.py:47-51 | Stripping twice is stripping once. |
| `Text.FindFrom` | frontend/src/pages/ProductDetailsPage.js:52 | `indexOf` finds the least index where the pattern occurs, or reports none. |
| `Text.SplitJoin` | frontend/src/pages/ProductDetailsPage.js:51 | Joining the pieces of `split(", ")` with `", "` gives the input back. |
| `Text.SplitPiecesFree` | frontend/src/pages/ProductDetailsPage.js:51 | No piece of a split contains the separator. |
| `Text.DedupMembers` | backend/routes.js:89-93 | `[...new Set(xs)]` is duplicate-free and has the same members as `xs`. |
| `Text.DedupOrder` | backend/routes.js:89-93 | `[...new Set(xs)]` keeps the order of first occurrences. |

## Left out

- Execution of queries, connections and HTTP plumbing: database calls are function parameters. A database failure (the 500 paths other than the WHERE builder's throw) is not modelled.
- What PostgreSQL computes inside `ILIKE`: `%` and `_` typed by the user act as wildcards there; the model treats a prefix match as a literal, ASCII case-insensitive prefix. Collation is code-point order.
- Unicode: `trim`, `strip` and `toLowerCase` are modelled over ASCII. Python's `strip` also removes `\x1c`-`\x1f` and other Unicode spaces; JavaScript's `trim` removes Unicode spaces too.
- The injection hazard: values and field names are interpolated raw into SQL and URLs, and the model builds the same raw strings without claiming they are safe.
- `/search-main` with a `filters` body that is missing or not an object: the model's filters are always an object.
- `WhereClause.WhereSpec`: every field of the order that `filters` lacks gives `UndefinedFilter`, and so a 500 from `SearchMain.SearchMain`. In JavaScript, a missing field named after an `Object.prototype` member (`toString`, `constructor`, `hasOwnProperty`, `__proto__`) reads the inherited member instead. Its `value` is then undefined, so the field is skipped without a throw. Prototype lookup is not modelled.
- `Filters.Put`: in JavaScript, `Object.keys` and the spread list integer-like keys (`"0"`, `"42"`) first, in ascending numeric order. The model keeps every key in insertion order. So "a new key is appended" here, and `WhereClause.DefaultOrderIsKeys`, hold only for keys that are not array indices.
- `FormState.InputSuggestions`: the source's `newInputValue.length > 1` (SearchForm.js:59, HomePage.js:157) counts UTF-16 code units, while the model counts characters. A single astral character, such as an emoji, fetches suggestions in the source but not in the model. The same holds for `HomePageState.HomePage.HandleInputChange`.
- `SearchFormState.SearchForm.constructor`: the effect at SearchForm.js:28-31 re-syncs filters and order whenever the `initialFilters` or `initialOrder` props change. Only the state after the mount is modelled.
- `WhereClause.BuildWhereClause`: a filter value that is not a string (a number, `null`) is not modelled. Values are strings, and a falsy value behaves as `""`.
- `FormState.SetValue` and `FormState.SetOperator`: they require the field to be present. The forms only ever call them with rendered fields, which have filters; adding a new key via the spread is covered by `Filters.Put`.
- `SearchFormState.SearchForm.HandleReorder`: bounds are a precondition, since the handler has no check of its own and the buttons are shown only for in-range moves.
- JSON serialisation, `json2csv`/`json2xls`, the download routes, the other routes of `routes.js`, React rendering and styling, routing and navigation state, `async` timing and state batching.
- `TherapeuticDetails.ProcessData`: the display order of keys inside a section object is not modelled. The page renders by iterating `SECTIONS`, not the object's keys.
- `PharmClasses.ParsePharmClasses`: the JSX table is modelled only as its row count and cell texts (`Rows`).
- A value's string form (`toString()` of a number or date) is taken as given text.
