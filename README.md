# Book dashboard model

A Dafny model of the book management dashboard, the React component in
`src/components/BookDashboard.jsx`. The component keeps the library's books in
local state. It derives four views from that state on every render:

- the filtered list, from a case-insensitive search over title and author plus
  exact genre and status filters;
- the current page of ten rows;
- the sorted, duplicate-free genre and status dropdown options;
- a window of at most five page-number buttons.

Its handlers load the collection, open and close the add/edit form and the
delete prompt, and submit creates, updates and deletes to the remote store.
After a successful write the handler patches the local copy instead of
fetching the whole collection again.

The model has seven modules:

- `Text`: ASCII lower-casing, `String.prototype.includes`, and the
  character-by-character order that `Array.prototype.sort` uses on strings.
- `ArrayOps`: JavaScript's `filter`, `map` and `slice` (negative indices
  included), de-duplication through a `Set`, and the default `sort`.
- `Catalog`: the book record, the form data, and identifier predicates.
- `Views`: the derived views and the `renderPagination` loop, kept as an
  imperative method.
- `Patches`: the three local patches (update, create, delete).
- `Dashboard`: a class with one field per `useState` hook and one method per
  handler. Each call to the remote store becomes a reply parameter (`Ok` or
  `Failed`).
- `SeedData`: the nineteen books of the seeding script, with one concrete
  filter scenario.

## Model

| member | source | states |
|---|---|---|
| Text.LowerChar | src/components/BookDashboard.jsx:53-54 | `toLowerCase` on one character never yields an upper-case ASCII letter and changes only upper-case ASCII letters, each to the letter 32 code points above |
| Text.Lower | src/components/BookDashboard.jsx:53-54 | `toLowerCase` keeps the length, maps every position through `LowerChar`, and leaves no upper-case letter |
| Text.LowerIdempotent | src/components/BookDashboard.jsx:53-54 | lower-casing twice is lower-casing once |
| Text.Includes | src/components/BookDashboard.jsx:53-54 | defines `includes` as "the term is a prefix of the text or of one of its suffixes"; an included term is never longer than the text, and a prefix is always included |
| Text.IncludesIffOccurs | src/components/BookDashboard.jsx:53-54 | `includes` holds exactly when the term occurs at some index of the text |
| Text.IncludesEmpty | src/components/BookDashboard.jsx:53-54 | every text includes the empty search term, so an empty search box matches every book |
| Text.StrLe | src/components/BookDashboard.jsx:67-68 | defines the order `sort` applies to strings: characters compared from the left, with a prefix first. A prefix precedes any string it starts, a smaller first character decides, and a non-empty string precedes only non-empty strings with a first character at least as large |
| Text.StrLeReflexive | src/components/BookDashboard.jsx:67-68 | the string order of `sort` is reflexive |
| Text.StrLeTotal | src/components/BookDashboard.jsx:67-68 | the string order of `sort` relates any two strings |
| Text.StrLeAntisymmetric | src/components/BookDashboard.jsx:67-68 | two strings that are each at most the other are equal |
| Text.StrLeTransitive | src/components/BookDashboard.jsx:67-68 | the string order of `sort` is transitive |
| ArrayOps.Filter | src/components/BookDashboard.jsx:51 | `Array.prototype.filter` keeps exactly the elements that pass the test and never grows the list |
| ArrayOps.FilterSelects | src/components/BookDashboard.jsx:51 | the filtered list is the subsequence at the passing positions, in their original order, with every passing position present |
| ArrayOps.FilterCounts | src/components/BookDashboard.jsx:51 | a passing element keeps its multiplicity; a failing one has multiplicity 0 |
| ArrayOps.FilterKeepsAll | src/components/BookDashboard.jsx:51 | when every element passes, the list is returned unchanged |
| ArrayOps.FilterKeepsNone | src/components/BookDashboard.jsx:51 | when no element passes, the result is empty |
| ArrayOps.FilterAppend | src/components/BookDashboard.jsx:51 | filtering a concatenation concatenates the filtered parts |
| ArrayOps.FilterCongruent | src/components/BookDashboard.jsx:51 | two tests that agree on every element of the list select the same result |
| ArrayOps.Map | src/components/BookDashboard.jsx:67-68 | `Array.prototype.map` keeps the length and applies the function at every position |
| ArrayOps.MapMembership | src/components/BookDashboard.jsx:67-68 | a value is in the mapped list exactly when some element maps to it |
| ArrayOps.Slice | src/components/BookDashboard.jsx:64 | `slice(start, end)` has at most `end - start` elements; for non-negative bounds it is the sub-range clipped to the list's end, and empty when `start` lies past the end |
| ArrayOps.Distinct | src/components/BookDashboard.jsx:67-68 | spreading a `Set` gives the same members with no duplicates |
| ArrayOps.Insert | src/components/BookDashboard.jsx:67-68 | one insertion step of the sort adds exactly the inserted string |
| ArrayOps.InsertSorted | src/components/BookDashboard.jsx:67-68 | inserting into a sorted list keeps it sorted |
| ArrayOps.InsertNoDuplicates | src/components/BookDashboard.jsx:67-68 | inserting a new string into a duplicate-free list keeps it duplicate-free |
| ArrayOps.Sort | src/components/BookDashboard.jsx:67-68 | `sort` returns a permutation of its input |
| ArrayOps.SortSorted | src/components/BookDashboard.jsx:67-68 | the result of `sort` is in the string order |
| ArrayOps.SortNoDuplicates | src/components/BookDashboard.jsx:67-68 | sorting a duplicate-free list keeps it duplicate-free |
| ArrayOps.SortedDistinctDetermined | src/components/BookDashboard.jsx:67-68 | two sorted, duplicate-free lists with the same members are equal, so an option list depends only on the set of values |
| ArrayOps.OptionList | src/components/BookDashboard.jsx:67-68 | `[...new Set(values)].sort()` is sorted, duplicate-free, and has exactly the members of `values` |
| Catalog.WithId | src/components/BookDashboard.jsx:99 | `{ ...formData, _id: id }` carries every form field under the given identifier |
| Catalog.CountId | src/components/BookDashboard.jsx:119 | the number of entries with an identifier is at most the length, and is 0 exactly when no entry has it |
| Catalog.CountIdUnique | src/components/BookDashboard.jsx:119 | with unique identifiers, an identifier that occurs occurs once |
| Views.Matches | src/components/BookDashboard.jsx:52-57 | the filter callback accepts a book exactly when the lower-cased term occurs somewhere in its lower-cased title or author, the genre filter is empty or equals its genre, and the status filter is empty or equals its status |
| Views.FilteredBooks | src/components/BookDashboard.jsx:50-58 | a book is listed exactly when it is in the collection and passes the filter callback: the lower-cased title or author includes the lower-cased term, the genre filter is empty or equals its genre, and likewise for status |
| Views.FilteredBooksInOrder | src/components/BookDashboard.jsx:50-58 | the filtered list keeps the collection's order and holds every matching position |
| Views.FilteredBooksCounts | src/components/BookDashboard.jsx:50-58 | a matching book is listed as often as it occurs in the collection |
| Views.FilteredBooksAllWhenUnfiltered | src/components/BookDashboard.jsx:50-58 | with no search term and no filter, the whole collection is listed |
| Views.FilteredBooksCaseInsensitive | src/components/BookDashboard.jsx:53-54 | searching for a term and for its lower-cased form lists the same books |
| Views.FilteredBooksAppend | src/components/BookDashboard.jsx:50-58 | appending a book (as a create does) appends it to the filtered list exactly when it matches |
| Views.TotalPages | src/components/BookDashboard.jsx:62 | `Math.ceil(n / 10)` is the least page count whose pages hold all `n` rows, and is 0 exactly when nothing matches |
| Views.StartIndex | src/components/BookDashboard.jsx:63 | for a page number from 1 up, the first row of the page is a non-negative multiple of ten, and page `p` starts after `p - 1` full pages |
| Views.PageRows | src/components/BookDashboard.jsx:63-64 | a page never shows more than ten rows |
| Views.PageRowsWindow | src/components/BookDashboard.jsx:63-64 | page `p` is the block of the filtered list that starts at `(p - 1) * 10`, or empty past the end |
| Views.PageRowsNonEmptyIff | src/components/BookDashboard.jsx:62-64 | a non-negative page shows rows exactly when it lies between 1 and `totalPages` |
| Views.RowOnItsPage | src/components/BookDashboard.jsx:62-64 | every filtered row appears on one of the `totalPages` pages, at offset `i % 10` of page `i / 10 + 1` |
| Views.Body | src/components/BookDashboard.jsx:237-287 | the table shows five placeholder rows while loading and never otherwise. Once loaded, a page inside `[1, totalPages]` shows exactly its rows (one to ten of them), and "No books found" appears exactly when the page lies outside that range |
| Views.Genres | src/components/BookDashboard.jsx:67 | the genre options are sorted, duplicate-free, and exactly the genres of the collection |
| Views.Statuses | src/components/BookDashboard.jsx:68 | the status options are sorted, duplicate-free, and exactly the statuses of the collection |
| Views.GenresDependOnlyOnValues | src/components/BookDashboard.jsx:67 | two collections with the same set of genres give identical genre options |
| Views.PageWindow | src/components/BookDashboard.jsx:133-139 | the window of page buttons for `totalPages >= 1` starts at `max(1, min(currentPage - 2, totalPages - 4))`, lies inside `[1, totalPages]` and spans `min(5, totalPages)` pages. It is centred on the current page (`[p - 2, p + 2]`) when there is room, flush with page 1 for pages up to 3, and flush with the last page from `totalPages - 2` on. A page inside `[1, totalPages]` lies inside the window; with no pages the window is the empty `[1, 0]` |
| Views.RenderPagination | src/components/BookDashboard.jsx:131-155 | one button per page of the window, in consecutive order, with exactly the current page marked active; there are `min(5, totalPages)` buttons, the current page is among them when it is in range, and there are none when `totalPages` is 0 |
| Views.PreviousPage | src/components/BookDashboard.jsx:300 | Previous goes one page back but never below page 1 |
| Views.NextPage | src/components/BookDashboard.jsx:308 | Next goes one page on while the page is before the last; from the last page or beyond it lands on `totalPages`. It never goes past `totalPages`, and stays inside `[1, totalPages]` when it starts there |
| Patches.ReplaceById | src/components/BookDashboard.jsx:99 | the update patch keeps the length, replaces every entry with the edited identifier by the form's fields under that identifier, and leaves every other entry as it was |
| Patches.ReplaceByIdKeepsIds | src/components/BookDashboard.jsx:99 | the update patch changes no identifier at any position |
| Patches.ReplaceByIdIdempotent | src/components/BookDashboard.jsx:99 | applying the same update twice equals applying it once |
| Patches.ReplaceByIdAbsent | src/components/BookDashboard.jsx:99 | an update for an identifier that is not in the collection leaves the collection unchanged |
| Patches.ReplaceByIdUnique | src/components/BookDashboard.jsx:99 | with unique identifiers the update writes exactly the one edited position |
| Patches.ReplaceByIdKeepsUnique | src/components/BookDashboard.jsx:99 | the update patch keeps identifiers unique |
| Patches.RemoveById | src/components/BookDashboard.jsx:119 | after the delete patch no entry has the identifier, every other entry remains, and the length drops by the number of entries that had it |
| Patches.RemoveByIdLength | src/components/BookDashboard.jsx:119 | the delete patch removes exactly the entries with the identifier, so the length drops by their count |
| Patches.RemoveByIdInOrder | src/components/BookDashboard.jsx:119 | the delete patch keeps every other entry, in order and with its multiplicity |
| Patches.RemoveByIdUnique | src/components/BookDashboard.jsx:119 | with unique identifiers, deleting an identifier that is present removes exactly one entry |
| Patches.RemoveByIdKeepsUnique | src/components/BookDashboard.jsx:119 | the delete patch keeps identifiers unique |
| Patches.AppendBook | src/components/BookDashboard.jsx:103 | the create patch keeps every entry in place and puts the stored record last |
| Patches.AppendBookKeepsUnique | src/components/BookDashboard.jsx:103 | a create with a new identifier keeps identifiers unique |
| Patches.RemoveUndoesAppend | src/components/BookDashboard.jsx:103 | deleting a book just created with a new identifier restores the collection |
| Dashboard.BookDashboard.constructor | src/components/BookDashboard.jsx:11-22 | the initial state: no books, loading, empty search and filters, page 1, no form, no prompt, no toast |
| Dashboard.BookDashboard.TableShowsNoBooks | src/components/BookDashboard.jsx:237-287 | once loaded, the table body shows "No books found" exactly when the current page lies past the page count, and the visible page rows otherwise |
| Dashboard.BookDashboard.PaginationShown | src/components/BookDashboard.jsx:293 | the pagination bar is rendered exactly when loading has finished and more than ten books pass the filter |
| Dashboard.BookDashboard.ShowToast | src/components/BookDashboard.jsx:45-47 | the new notification replaces whatever was shown |
| Dashboard.BookDashboard.DismissToast | src/components/BookDashboard.jsx:325 | closing the notification removes it |
| Dashboard.BookDashboard.LoadBooks | src/components/BookDashboard.jsx:32-42 | on success the collection becomes the store's list; on failure it is kept and the "Failed to load books" error is shown; loading is off afterwards either way |
| Dashboard.BookDashboard.SetSearchTerm | src/components/BookDashboard.jsx:71-73 | the term is set, and the page returns to 1 exactly when the term changed |
| Dashboard.BookDashboard.SetGenreFilter | src/components/BookDashboard.jsx:71-73 | the genre filter is set, and the page returns to 1 exactly when it changed |
| Dashboard.BookDashboard.SetStatusFilter | src/components/BookDashboard.jsx:71-73 | the status filter is set, and the page returns to 1 exactly when it changed |
| Dashboard.BookDashboard.Previous | src/components/BookDashboard.jsx:300 | the page moves back one, never below 1, and stays in range when it started in range |
| Dashboard.BookDashboard.Next | src/components/BookDashboard.jsx:293-309 | with the pagination bar shown, the page moves on one, never past the page count, and stays in range when it started in range |
| Dashboard.BookDashboard.GoToPage | src/components/BookDashboard.jsx:145 | a page button sets the page to its number, which lies inside `[1, totalPages]` |
| Dashboard.BookDashboard.OpenAddForm | src/components/BookDashboard.jsx:76-79 | the form opens empty |
| Dashboard.BookDashboard.OpenEditForm | src/components/BookDashboard.jsx:82-85 | the form opens on the chosen book |
| Dashboard.BookDashboard.CloseForm | src/components/BookDashboard.jsx:321 | the form closes |
| Dashboard.BookDashboard.OpenDeletePrompt | src/components/BookDashboard.jsx:88-91 | the delete prompt opens on the chosen book |
| Dashboard.BookDashboard.CancelDelete | src/components/BookDashboard.jsx:322 | the prompt closes and nothing is deleted |
| Dashboard.BookDashboard.SubmitBook | src/components/BookDashboard.jsx:94-112 | a successful update applies the update patch; a successful create appends the stored record; both close the form and show their success message. A failure keeps the collection and the form and shows "Failed to save book". The busy flag is off afterwards |
| Dashboard.BookDashboard.ConfirmDelete | src/components/BookDashboard.jsx:115-128 | a successful delete applies the delete patch, closes the prompt and forgets the book. With the prompt open a book is always recorded, so a successful confirmation from the prompt removes that book. A failure, or no book recorded, keeps everything and shows "Failed to delete book". The busy flag is off afterwards |
| Dashboard.StalePageAfterDelete | src/components/BookDashboard.jsx:115-128 | a delete does not move the page back: with eleven unfiltered books on page 2, deleting the eleventh leaves ten books, but page 2 shows "No books found" and only one page remains, so no pagination bar is shown |
| SeedData.Seed | src/run.js:5-25 | the seeding script's nineteen books |
| SeedData.FantasyTest | src/components/BookDashboard.jsx:50-58 | with only the genre filter "Fantasy" set, a book matches exactly when its genre is "Fantasy" |
| SeedData.FantasyScenario | src/run.js:12-18 | on the seed data, the genre filter "Fantasy" lists The Hobbit, The Lord of the Rings and The Chronicles of Narnia, in that order |

## Left out

- Rendering: the JSX markup, CSS classes, icons and the "Showing X of Y" and "Showing X to Y of Z results" labels are not modelled. Only which rows, options and page buttons appear is modelled.
- The remote store (`src/services/api.js`): each request is a reply parameter of the handler that makes it. Network errors, latency and the store's identifier assignment are not modelled. The seed books carry identifiers "1" to "19" in place of store-assigned ones.
- Asynchrony: each handler runs as one step from invocation to its `finally` block. Interleaved handlers, stale closures over `books`, and React's batching of state updates are not modelled.
- The mount effect that calls `loadBooks` once is not modelled as a separate step; a caller invokes `LoadBooks`.
- The form component's own validation and field state (`src/components/UI/Modal.jsx`) are not part of this model. The form's output is taken as a `Draft`.
- Text.Lower: only ASCII letters are lower-cased. Unicode case mapping is not modelled.
- Text.StrLe: characters are compared as Dafny `char` values. JavaScript compares UTF-16 code units, so the order can differ for characters outside the Basic Multilingual Plane.
- Catalog.Book: `publishedYear` is an integer. The edit form can submit it as a text value, which the model does not distinguish.
- Views.Matches: every book is taken to have a title and author. The source's optional chaining on a missing title or author is not modelled.
- Views.TotalPages: follows the code, which has no minimum of one page, so an empty filtered list has 0 pages.
- The toast's auto-dismiss timer (`src/components/UI/Toast.jsx`) is modelled only as `DismissToast`.
- Dashboard.BookDashboard.Next: requires the pagination bar to be shown, the only state in which its button exists. A disabled button (the last page for Next, page 1 for Previous) would produce the same page anyway.
