# User grid state, modelled in Dafny

This project models the client-side state of the `UserGrid` component of a
user-management dashboard (src/UserGrid.js). The component fetches a list of
users from a REST endpoint. It maps each user into a grid row and keeps two
lists: `rowData`, the authoritative list, and `filteredData`, the rows the
grid shows. Its handlers delete, edit, add and search rows and open and close
the add/edit modal.

The model has five modules:

- `Outcomes` (outcomes.dfy): `Option` and `Outcome`. An `Outcome` is the
  settled promise of one HTTP call: `Succeeded(body)` or `Failed`.
- `Text` (text.dfy): the JavaScript string operations the component uses.
  These are `split(" ")`, `join(" ")`, `includes` and an ASCII
  `toLowerCase`. The lemmas show that joining the split pieces gives the
  string back and that `Contains` is substring containment.
- `Sequences` (sequences.dfy): `Array.prototype.filter` as `Filter`, and
  `IsSubseq`, the order-preserving subsequence relation. The lemmas cover
  filter idempotence and show that filtering keeps a subsequence.
- `Users` (users.dfy): the row types and the pure computations inside the
  handlers. These are the record mapper, the search predicate and filter,
  the delete filter, the edit merge and the `reduce` that allocates the next
  id.
- `Dashboard` (user_grid.dfy): class `UserGrid`. It holds the component's
  five state variables as fields. Each handler is a method, and the HTTP
  outcome is one of its arguments. State changes only in the success branch.
  Every method keeps `Valid()`: the view is an order-preserving subsequence
  of the list, and the stored search term is lower-case. Every method except
  the fetch also keeps ids distinct when they were distinct before.
- `Scenarios` (scenarios.dfy): concrete cases. They cover the mapping of
  "Jane Doe" and "Plato", id 6 after a largest id of 5, and a search for
  "acme". The last one also shows a successful edit that does not re-apply
  the search.

The view is NOT always the search result applied to the list. A successful
edit sets both lists to the whole updated list (src/UserGrid.js:68-69). A
successful add appends the new row to the view whatever the search term is
(src/UserGrid.js:79-80). The fetch on mount shows the whole list even if a
search term was already typed (src/UserGrid.js:34-35). The model follows the
code. `Scenarios.EditIgnoresSearch` shows a case where the view and the search
result differ.

Some behaviours of the code are easy to miss; the model follows them:

- Names are split on the single character `" "`, not on any whitespace. The
  first name falls back to the whole name when the first piece is empty
  (src/UserGrid.js:25-28).
- Edit and add do not recompute the view from the search term
  (src/UserGrid.js:68-69, 79-80).
- The modal closes as soon as validation passes, before the HTTP call
  settles and whatever its outcome (src/UserGrid.js:84). It does not stay
  open on a network failure.
- `search` stores the lower-cased input (src/UserGrid.js:93-94). The search
  box therefore shows the term in lower case.

## Model

| member | source | states |
|---|---|---|
| Text.Split | src/UserGrid.js:25 | `split(" ")` gives at least one piece and no piece holds a space; there is exactly one piece iff the name has no space, and then that piece is the whole name |
| Text.Join | src/UserGrid.js:29 | `join(" ")` of at least one space-free piece splits back into exactly those pieces |
| Text.JoinSplit | src/UserGrid.js:25-29 | joining the pieces of `split` with the same separator gives back the original string |
| Text.SplitHead | src/UserGrid.js:25-29 | when the separator occurs, the string is the first piece, the separator, then the other pieces joined |
| Text.SplitAtFirst | src/UserGrid.js:25 | the first piece runs up to the first separator; the other pieces are those of the rest after it |
| Text.SplitFirstEmpty | src/UserGrid.js:28 | the first piece is empty exactly when the name is empty or starts with a space, which is when `firstName` falls back to the whole name |
| Text.OccursStep | src/UserGrid.js:97-100 | the needle occurs in a field exactly when it is a prefix of the field or occurs in the field's tail |
| Text.Contains | src/UserGrid.js:97-100 | `includes` holds exactly when the needle occurs at some index of the field |
| Text.MissingCharNotContained | src/UserGrid.js:97-100 | a field that lacks one of the needle's characters does not include the needle |
| Text.ContainsEmpty | src/UserGrid.js:97-100 | every field includes the empty needle |
| Text.Lower | src/UserGrid.js:93-100 | `toLowerCase` keeps the length, lower-cases each character, and leaves no upper-case letter |
| Text.LowerOfLower | src/UserGrid.js:93-94 | lower-casing the already lower-cased stored term changes nothing |
| Sequences.Filter | src/UserGrid.js:45-46 | `filter` never grows the list; an element that passes the predicate is kept exactly as many times as it occurs in the input, and an element that fails is dropped entirely |
| Sequences.FilterSubseq | src/UserGrid.js:95-101 | a filter result is an order-preserving subsequence of its input |
| Sequences.FilterKeepsSubseq | src/UserGrid.js:45-46 | the same filter on the view and on the list leaves the view a subsequence of the list |
| Sequences.FilterIdempotent | src/UserGrid.js:95-101 | filtering a filter result again with the same predicate changes nothing |
| Sequences.FilterKeepsAll | src/UserGrid.js:45-46 | a filter that every element passes returns its input unchanged |
| Sequences.SubseqRefl | src/UserGrid.js:34-35 | a list is a subsequence of itself, so setting both lists to the same value keeps the invariant |
| Sequences.SubseqAppend | src/UserGrid.js:79-80 | appending the same row to the view and to the list keeps the view a subsequence |
| Users.MapUser | src/UserGrid.js:24-32 | the mapper copies `id` and `email`; `department` is the company name when present and non-empty, "N/A" otherwise |
| Users.MapUserName | src/UserGrid.js:25-29 | no space: `firstName` is the name and `lastName` is empty; a space with a non-empty first piece: `firstName` has no space and `firstName + " " + lastName` is the name; leading space: `firstName` is the whole name and `lastName` is everything after the first character |
| Users.MapUsers | src/UserGrid.js:24-33 | the fetched list maps element-wise, same length and order |
| Users.Matches | src/UserGrid.js:97-100 | a row matches exactly when the needle occurs in its lower-cased first name, last name, email or department |
| Users.SearchFilter | src/UserGrid.js:95-101 | each matching row appears in the search result as often as in `rowData`; a row that does not match never appears |
| Users.SearchFilterContents | src/UserGrid.js:95-101 | the search result is an order-preserving subsequence of `rowData` holding exactly the rows where some lower-cased field includes the needle, each as often as in `rowData` |
| Users.SearchFilterIdempotent | src/UserGrid.js:95-101 | searching a search result again with the same needle changes nothing |
| Users.SearchEmptyShowsAll | src/UserGrid.js:95-101 | the empty search term shows all of `rowData`, in order |
| Users.WithoutId | src/UserGrid.js:45-46 | each row whose id differs stays as often as it occurred; every row with the deleted id is gone |
| Users.WithoutIdContents | src/UserGrid.js:45-46 | delete keeps, in their relative order and as often as they occur, exactly the rows whose id differs; it is a no-op when the id is absent |
| Users.WithoutIdKeepsSubseq | src/UserGrid.js:45-46 | deleting from both lists keeps the view a subsequence of the list |
| Users.SubseqUniqueIds | src/UserGrid.js:45-46 | a subsequence of a list with distinct ids has distinct ids, so delete keeps ids unique |
| Users.MaxIdFrom | src/UserGrid.js:75 | the `reduce` with `Math.max` gives a value at least the start and every id, and equal to the start or to some id |
| Users.NextId | src/UserGrid.js:75-76 | the new id is at least 1 and greater than every existing id |
| Users.NewUser | src/UserGrid.js:75-76 | the added row's id exceeds every existing id, and its four fields are the submitted form values |
| Users.AppendNewUserUniqueIds | src/UserGrid.js:75-80 | appending the new user keeps ids distinct |
| Users.Merge | src/UserGrid.js:66 | the spread keeps the row's id and takes all four fields from the form |
| Users.ApplyEdit | src/UserGrid.js:65-67 | edit keeps the length, order and every id; a row with another id is unchanged; a row with the edited id takes the four form values |
| Users.ApplyEditUniqueIds | src/UserGrid.js:65-67 | edit keeps ids distinct |
| Users.ValidatedFormFillsRows | src/UserGrid.js:165-189 | once the four `required` rules pass, the added row and every edited row have all four fields non-empty |
| Dashboard.UserGrid.constructor | src/UserGrid.js:11-15 | both lists and the search term start empty; the modal is closed and nothing is being edited |
| Dashboard.UserGrid.FetchUsers | src/UserGrid.js:22-37 | on success both lists become the mapped users, whose ids are distinct iff the fetched ids are; on failure nothing changes |
| Dashboard.UserGrid.HandleDelete | src/UserGrid.js:43-49 | on success every row with the id leaves both lists, others keep their order; on failure nothing changes; the invariant and id uniqueness are kept |
| Dashboard.UserGrid.ShowModal | src/UserGrid.js:51-59 | sets `editingUser` to the given row or none and opens the modal; the lists are unchanged |
| Dashboard.UserGrid.HandleOk | src/UserGrid.js:61-86 | failed validation changes nothing; otherwise the modal closes; on success an edit sets both lists to the edited list, and an add appends a row with the next id to both lists; on failure the lists are unchanged; id uniqueness is kept |
| Dashboard.UserGrid.HandleCancel | src/UserGrid.js:88-90 | closes the modal and keeps `editingUser` and the lists |
| Dashboard.UserGrid.HandleSearch | src/UserGrid.js:92-103 | stores the lower-cased input and sets the view to the search of the whole `rowData`, not of the current view |
| Scenarios.JaneDoeIsMapped | src/UserGrid.js:24-32 | "Jane Doe" of "Acme" maps to Jane / Doe / Acme |
| Scenarios.TwoWordName | src/UserGrid.js:25-29 | a name of two space-free words joined by one space maps to those two words as first and last name |
| Scenarios.PlatoIsMapped | src/UserGrid.js:25-31 | "Plato" without a company maps to Plato / "" / "N/A" |
| Scenarios.AddAfterFive | src/UserGrid.js:75-76 | with largest id 5 the added user gets id 6 |
| Scenarios.SearchAcme | src/UserGrid.js:95-101 | searching "acme" finds exactly the row whose department is "Acme" |
| Scenarios.EditIgnoresSearch | src/UserGrid.js:65-69 | after an edit the view holds a row that the active search excludes |

## Left out

- The HTTP calls and the endpoint (src/UserGrid.js:19, 23, 44, 64, 73). Each settled promise is an `Outcome` argument of its handler. The POST response is taken to echo the submitted form values. Its id is an input that the new row does not use.
- The success notifications (src/UserGrid.js:39-41, 47, 70, 81) are user-interface output with no effect on state.
- The fetch on mount has no failure handling: a rejected fetch leaves the state as it was. The model does the same.
- The grid widget: its columns, sorting, pagination and cell renderers (src/UserGrid.js:105-133, 150-156). The form and modal widgets and all markup (src/UserGrid.js:135-197).
- Form internals. Prefilling the form on edit and resetting it on add (src/UserGrid.js:54-56) are not modelled. The form values that `handleOk` validates are its argument. The four `required` rules are a non-empty check on the four fields. The inline error messages are not modelled.
- Timing and concurrency. Effect timing, stale closures over `rowData` (src/UserGrid.js:65, 75) and responses that arrive out of order are not modelled. Each handler runs atomically, so `HandleOk` closes the modal in the same step as it applies the network outcome.
- `toLowerCase` is modelled for ASCII letters only. Unicode case mapping is not modelled.
- Ids are unbounded integers. JavaScript numbers are doubles, so precision loss above 2^53 and non-numeric ids are not modelled. A fetched user whose `name` is not a string, which would throw, is not modelled.
- Ids are unique only as far as the server's list is: the fetch takes them as given. So id uniqueness is stated as preserved by each handler, not as part of `Valid()`.
- src/App.js is a layout wrapper that mounts the component and is not part of this model.
