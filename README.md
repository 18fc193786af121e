# User management dashboard: a Dafny model of the `App` state controller

The dashboard is a single React component, `App`. It fetches a list of user
records from a REST backend and shows them in a table. A status selector
(all / active / inactive) and a search box narrow the list. The table shows
five rows per page, and Previous/Next buttons move between pages. A modal
form creates or edits a record.

This project models the state logic of that component:

- **Text** (`text.dfy`): ASCII `toLowerCase` and `String.prototype.includes`,
  proved equal to "occurs at some position".
- **Subsequences** (`subsequences.dfy`): `Array.prototype.filter` as a stable
  filter. The filter's result is proved to be the only subsequence of its
  input that keeps every kept value, with its multiplicity, and nothing else.
- **Users** (`users.dfy`): the record, which also serves as the form buffer;
  `handleData`'s field update; and the submit decision (no request, update,
  or create).
- **Filtering** (`filtering.dfy`): `filterUsers`, a status stage then a search
  stage. It is proved equal to a single stable filter by the combined
  criterion.
- **Pagination** (`pagination.dfy`): the `slice` that picks the visible page,
  the row numbers, and `Math.ceil(length / 5)`.
- **Dashboard** (`dashboard.dfy`): the class `App`. Its fields are the
  component's state variables. Its methods are the event handlers, and each
  one states the whole new state. The backend's answers are parameters.

The model follows the code in four places where one might expect something else:

- `getAllUsers` sets `filteredUsers` to the fetched list as it is. It does not
  re-apply the selected status or the search text, so after a reload the
  table shows every record while the selector may still read "active".
- `closeModal` does not clear the form buffer. It only closes the modal and
  reloads the list.
- Neither a search nor a status change resets `currentPage`. A narrower list
  can leave the current page past the last one. The table is then empty,
  which `App.CurrentUsers` states.
- A status change filters with an empty search text. The search box still
  shows its old text.

## Model

| member | source | states |
|---|---|---|
| `Text.ToLower` | src/App.jsx:31 | lower-casing keeps the length of the string |
| `Text.ToLowerAt` | src/App.jsx:56-57 | each character of the result is the ASCII lower case of the input character at the same position |
| `Text.ToLowerHasNoUpper` | src/App.jsx:31 | a lower-cased string contains no letter A-Z |
| `Text.ToLowerIdempotent` | src/App.jsx:31 | lower-casing an already lower-cased text changes nothing |
| `Text.Includes` | src/App.jsx:56-57 | `s.includes(t)`: the empty text is found in every string, and nothing longer than s is found in it; `Text.IncludesIffOccurs` proves it true exactly when t occurs at some position |
| `Text.OccursIncluded` | src/App.jsx:56-57 | an occurrence of t at any position makes `includes` true |
| `Text.IncludedOccurs` | src/App.jsx:56-57 | when `includes` is true, it returns a position where t occurs |
| `Text.IncludesIffOccurs` | src/App.jsx:56-57 | `includes(s, t)` holds exactly when t occurs at some position of s |
| `Text.IncludesToLower` | src/App.jsx:54-58 | if t occurs in s, then lower-case t occurs in lower-case s |
| `Subsequences.Select` | src/App.jsx:48 | `filter` returns no more elements than it was given, and only kept elements of its input |
| `Subsequences.SubsequenceReflexive` | src/App.jsx:18-19 | a list is a subsequence of itself |
| `Subsequences.SubsequenceTransitive` | src/App.jsx:54-58 | a subsequence of a subsequence is a subsequence |
| `Subsequences.SubsequenceMultiset` | src/App.jsx:44-58 | a subsequence holds each value at most as often as the whole |
| `Subsequences.SelectIsSubsequence` | src/App.jsx:48-50 | `filter` keeps the original relative order: its result is a subsequence of its input |
| `Subsequences.SelectCount` | src/App.jsx:48-50 | `filter` keeps every occurrence of a kept value and drops every occurrence of the others |
| `Subsequences.SelectMembers` | src/App.jsx:55-58 | a value is in the result exactly when it is in the input and is kept |
| `Subsequences.SelectAll` | src/App.jsx:44 | a filter that keeps everything returns its input unchanged |
| `Subsequences.SelectExtensional` | src/App.jsx:47-50 | two predicates that always agree give the same filter result |
| `Subsequences.SelectSelect` | src/App.jsx:44-58 | a filter of a filter equals one filter by the conjunction |
| `Subsequences.SelectAppend` | src/App.jsx:48 | filtering distributes over concatenation |
| `Subsequences.SelectUnique` | src/App.jsx:48-58 | any subsequence holding exactly the kept values, each with its full multiplicity, equals the filter result |
| `Users.SetField` | src/App.jsx:91-96 | the buffer after `handleData(name, value)`: the id is never changed, and a name that is no form input changes nothing; `Users.SetFieldReadsBack` and `Users.SetFieldFrame` give the named field's new value and keep every other field |
| `Users.SetFieldReadsBack` | src/App.jsx:91-96 | after `handleData(name, value)`, a text field reads back `value` and `status` becomes `value == "true"`, which the status select then shows as "true" or "false" |
| `Users.SetFieldFrame` | src/App.jsx:93-95 | `handleData` changes no field other than the one named |
| `Users.SetFieldShown` | src/App.jsx:91-96 | re-entering what an input already shows (for status, "true"/"false") leaves the buffer unchanged |
| `Users.SubmitRequest` | src/App.jsx:103-117 | no request exactly when name, email or phone is empty; otherwise an update of the buffer's own id when an id is present and a create when it is absent; the body is always the whole buffer |
| `Users.AddFormCreates` | src/App.jsx:79-80 | filling in the three text fields of the empty template and submitting creates a record with those fields, no id and status true |
| `Filtering.ByStatus` | src/App.jsx:44-51 | the status stage keeps only records of the list whose status matches the selector and is no longer than the list; `Filtering.ByStatusIsSelect` proves it the stable filter by that criterion |
| `Filtering.FilterUsers` | src/App.jsx:43-62 | `filterUsers` yields only records of `users` that pass both stages, and no more records than `users` has; `Filtering.FilterIsOnePass` and `Filtering.FilterExact` prove it the one order-keeping subsequence holding every such record with its multiplicity |
| `Filtering.ByStatusIsSelect` | src/App.jsx:44-51 | the status stage is a stable filter by the selector's criterion; any value other than "active"/"inactive" keeps all |
| `Filtering.FilterIsOnePass` | src/App.jsx:43-61 | status then search equals one stable filter by "status matches and (no search text or name/email match)" |
| `Filtering.FilterExact` | src/App.jsx:43-61 | the result is a subsequence of `users` holding each matching record as often as `users` does and nothing else, and it is the only such subsequence |
| `Filtering.FilterAllNoSearch` | src/App.jsx:44-59 | with status "all" and empty search text, the result is `users` itself |
| `Filtering.FilterByStatus` | src/App.jsx:47-50 | "active" keeps exactly the records with status true, and "inactive" exactly those with status false, in order and with multiplicity |
| `Filtering.SearchNarrows` | src/App.jsx:54-58 | with non-empty search text, the result is a subsequence of the status-filtered list and of `users`; a record is in it exactly when it is in that list and its lower-cased name or email contains the text |
| `Filtering.SearchFindsTypedText` | src/App.jsx:30-32 | text that occurs exactly as typed (upper-case letters included) in the name or email is still found after the search box lower-cases it; matching itself compares the lower-cased text with the lower-cased name and email |
| `Pagination.JsSlice` | src/App.jsx:133 | `slice` with ordered non-negative bounds returns as many elements as the clamped range holds |
| `Pagination.CurrentUsers` | src/App.jsx:131-133 | the page slice holds at most 5 rows, and from page 1 on, row i is the record at position (p-1)*5+i of the list; `Pagination.PageIsContiguous` and `Pagination.PageEmptyIff` give the exact slice and when it is empty |
| `Pagination.TotalPages` | src/App.jsx:136 | `Math.ceil(n / 5)`: the pages hold all n records, the last page is not empty, and there are no pages exactly when there are no records |
| `Pagination.SerialNumber` | src/App.jsx:181 | the S.No of row i (i < 5) of page p tells back p and i, so no two rows share a number; `Pagination.SerialNumberIsPosition` proves it the row's 1-based position in the list |
| `Pagination.PageIsContiguous` | src/App.jsx:131-133 | for page p >= 1, the visible rows are `filteredUsers[(p-1)*5 .. min(p*5, length))`: at most 5 rows, contiguous and in order |
| `Pagination.PageEmptyIff` | src/App.jsx:131-133 | a page is empty exactly when (p-1)*5 >= length, which is when p is past `Math.ceil(length / 5)` |
| `Pagination.SerialNumberIsPosition` | src/App.jsx:181 | the S.No of a row is its 1-based position in the filtered list, and consecutive rows have consecutive numbers |
| `Pagination.RecordOnItsPage` | src/App.jsx:131-136 | record i appears on page i/5+1, which exists, in row i%5, numbered i+1 |
| `Pagination.PagesUpToIsPrefix` | src/App.jsx:131-133 | pages 1..k together are the first min(5k, length) records |
| `Pagination.PagesCoverList` | src/App.jsx:131-136 | all pages together are exactly the filtered list, so paging loses and repeats nothing |
| `Pagination.SevenRecords` | src/App.jsx:131-136 | with 7 records there are 2 pages: page 1 is records 1-5, page 2 is records 6-7, and page 3 is empty |
| `Dashboard.App.constructor` | src/App.jsx:6-12 | initial state: empty lists, modal closed, empty template, page 1, status "all" |
| `Dashboard.App.CurrentUsers` | src/App.jsx:131-133 | at most 5 rows; row i is the record numbered `(currentPage-1)*5+i+1` in `filteredUsers`; empty exactly when the page is past the last one |
| `Dashboard.App.GetAllUsers` | src/App.jsx:15-23 | on success, `users` and `filteredUsers` both become the fetched list; on failure nothing changes; page, status, buffer and modal are kept |
| `Dashboard.App.FilterUsers` | src/App.jsx:43-62 | `filteredUsers` becomes the filter of `users` and stays a subsequence of it; nothing else changes |
| `Dashboard.App.HandleSearchChange` | src/App.jsx:30-33 | filters with the stored status and the lower-cased text; `currentPage` and every other field are kept |
| `Dashboard.App.HandleFilterStatusChange` | src/App.jsx:36-40 | stores the status and filters with empty search text; `currentPage` is kept |
| `Dashboard.App.HandleDelete` | src/App.jsx:65-76 | declined: no request and no change; confirmed: a delete of that id, where a record without an id sends "undefined" as JavaScript prints it; after a successful delete the list is reloaded, otherwise nothing changes |
| `Dashboard.App.HandleAddRecord` | src/App.jsx:79-82 | the buffer becomes the empty template (status true, no id) and the modal opens |
| `Dashboard.App.CloseModal` | src/App.jsx:85-88 | the modal closes and the list is reloaded; the buffer and page are kept |
| `Dashboard.App.HandleData` | src/App.jsx:91-97 | the buffer changes in the named field only, as `SetField` states |
| `Dashboard.App.HandleSubmit` | src/App.jsx:100-122 | issues `SubmitRequest` of the buffer; with an empty required field, or when the request fails, the state is unchanged and the modal stays open; on success the modal closes and both lists become the fetched list |
| `Dashboard.App.HandleUpdateRecord` | src/App.jsx:125-128 | the buffer becomes the record, id included, and the modal opens |
| `Dashboard.App.HandleNextPage` | src/App.jsx:135-139 | increments the page only while it is below `Math.ceil(length / 5)`; never moves onto an empty page; keeps the page in range |
| `Dashboard.App.HandlePreviousPage` | src/App.jsx:141-145 | decrements the page only when it is above 1, so the page stays >= 1; keeps the page in range |
| `Dashboard.SevenRecordsPaging` | src/App.jsx:131-145 | 7 records: page 1 shows records 1-5; Previous on page 1 does nothing; Next shows records 6-7; Next on page 2 does nothing |
| `Dashboard.SubmitWithoutName` | src/App.jsx:103-106 | an Add form with an empty name sends no request, and the modal stays open |
| `Dashboard.EditAndSubmitUnchanged` | src/App.jsx:109-118 | editing a record and submitting it unchanged sends an update of its id with its own fields; on success the modal closes and the reloaded list is shown |
| `Dashboard.DeclineDelete` | src/App.jsx:66-67 | a declined confirmation sends no request and keeps the list |

## Left out

- The HTTP calls (`axios.get`, `post`, `patch`, `delete`) and the backend URL. Each call is replaced by its outcome, which the caller passes in. A mutation either succeeds or fails (`saved`, `deleted`). A list reload is `Fetched(list)` or `FetchFailed`. A mutating handler returns the request it issues as a `Request` value.
- `window.confirm` becomes the boolean parameter `confirmed`. `alert` and `console.log`/`console.error` have no effect on state and are not modelled.
- The JSX rendering, the CSS and React's batching of state updates. The mount-time `useEffect` is also left out: a caller constructs `App` and then calls `GetAllUsers`. `filterUsers` reads `users` from the current state, not from a stale closure.
- Asynchrony. `handleSubmit`, `closeModal` and `handleDelete` do not await the reload they start. The model runs each request to completion in program order, so races between a reload and a later action are not captured.
- Full Unicode `toLowerCase`. Only A-Z are lower-cased.
- The Next button's `disabled` test, which uses `===`. It only affects display; the handler's `<` guard is what changes state.
- Dynamic typing. Names, emails and phones are strings, `status` is a boolean and an id is an optional string. Whether a buffer "has an id" is JavaScript truthiness of a string: present and non-empty. A numeric id 0, a status stored as a string, and other mistyped backend data are not modelled.
- `Users.SetField` / `Dashboard.App.HandleData`: only the four form inputs (src/App.jsx:212-224), named name, email, phone and status, call `handleData`, so only those names are modelled. For any other name, JavaScript would add that key to the buffer and send it in the request body. A key named `id` would also turn a create into an update of that id. The model leaves the buffer unchanged for any other name instead.
- The search box text is not component state (the input is uncontrolled), so it is not a field of `App`.
