# School Finder: the listing page's list bookkeeping and the add-school form, in Dafny

School Finder lets users submit a school (name, address, city, state, contact, email, image)
and browse, search, page through and delete the schools submitted so far. This project models
the two parts of it that hold logic of their own:

- **The listing page's state** (`app/showSchools/page.jsx`). The page keeps a list of
  schools and a search view of it. It also keeps a page counter, an end-of-data flag and two
  loading flags.
  - Each fetched batch is reversed and appended, and the result is deduplicated by `id`.
    The first record with each id wins.
  - The search view holds the records whose `name city address`, joined with single spaces
    and lower-cased, contains the lower-cased search term.
  - Scrolling near the bottom advances the page only when no fetch is in flight and more
    data is expected. A batch shorter than ten records ends the data for good.
  - A delete removes the school from both lists at once. If the server call fails, both lists
    go back to the list the handler saw.
- **The add-school form** (`app/addSchool/page.jsx`). The schema requires name, address,
  city, state and email. The contact must be digits only. The first image file must be at
  most 5 MiB (5242880 bytes). The submit handler posts the six text fields unchanged, plus
  the first file as a data URL.

Files:

- `listing.dfy` (module `Listing`) holds the record, the batch reversal, and the
  deduplication.
  - `KeepFirst` is the `filter`/`findIndex` expression itself.
  - `Dedup` and `Merge` carry its meaning: ids are unique, every id is kept, the first
    occurrence wins, list order is kept, and an existing list stays whole at the front.
  - `Remove` is deletion by id.
- `search.dfy` (module `Search`): lower-casing, `includes`, the search predicate and the
  projection `Project`, with its properties.
- `show_schools.dfy` (module `ShowSchoolsPage`) holds the class `ShowSchools`, with one
  field per `useState` of the component.
  - Each handler's group of state updates is one method.
  - The search effect is the method `ApplySearch`.
  - The page effect (lines 80-82) is the caller invoking `BeginFetch(page)`.
  - A fetch is split into `BeginFetch`, up to the request, and `CompleteFetch`, with the
    response or the failure. This keeps the in-flight gate that the scroll handler reads
    visible between the two steps.
- `add_school.dfy` (module `AddSchool`): the schema as the list of failed tests, and the
  payload.
- `optional.dfy`: the `Option` type used for a failed fetch and an absent file list.

Behaviour of the listing code worth knowing:
- Any batch shorter than ten records ends the data, even when it is not empty.
- The page counter advances on scroll, before the fetch of the new page starts.
- The searchable text joins the three fields with spaces.
- The optimistic delete sets the search view to the whole updated list (line 119). Only the
  search effect, which runs afterwards, filters it again.
- A failed fetch is only logged.

## Model

| member | source | states |
|---|---|---|
| `Listing.Reverse` | app/showSchools/page.jsx:35 | the reversed batch has the batch's length, and position k holds the batch's record at position length-1-k |
| `Listing.ReverseIds` | app/showSchools/page.jsx:35 | reversing a batch keeps its set of ids |
| `Listing.FindIndex` | app/showSchools/page.jsx:42 | `findIndex` by id returns the first position holding the id, or -1 exactly when no position does |
| `Listing.KeepFirstSubseq` | app/showSchools/page.jsx:40-43 | the `filter` keeps an order-preserving subsequence of the list it filters |
| `Listing.KeepFirstIds` | app/showSchools/page.jsx:40-43 | the `filter` keeps every id of the list, and never the same id twice |
| `Listing.KeepFirstWins` | app/showSchools/page.jsx:40-43 | every kept record is the first record of the list with its id |
| `Listing.Dedup` | app/showSchools/page.jsx:38-44 | deduplication gives unique ids, the same set of ids, an order-preserving subsequence in which each record is the first with its id, and leaves a list that already had unique ids unchanged |
| `Listing.KeepFirstOrdered` | app/showSchools/page.jsx:40-43 | the `filter` keeps records in the order of their ids' first positions in the list |
| `Listing.DedupInFirstOrder` | app/showSchools/page.jsx:38-44 | the deduplicated list comes in the order of its ids' first positions in the input: for `[a, b, a]` that admits `[a, b]` and rules out `[b, a]` |
| `Listing.Merge` | app/showSchools/page.jsx:35-44 | after a merge no id occurs twice; the ids are those of the old list plus those of the batch; an old list with unique ids is kept whole, in order, at the front |
| `Listing.MergeOrigin` | app/showSchools/page.jsx:35-44 | the merge is a subsequence of the old list followed by the reversed batch, each record being the first there with its id and the records ordered by those first positions; after an old list with unique ids come exactly the batch's new ids, ordered by their first positions in the reversed batch |
| `Listing.Remove` | app/showSchools/page.jsx:117 | a record is kept exactly when it was in the list and its id differs from the deleted one; the others keep their order |
| `Listing.RemoveCounts` | app/showSchools/page.jsx:117 | deleting keeps every copy of a record with another id and no copy of a record with the deleted id |
| `Listing.RemoveAbsent` | app/showSchools/page.jsx:117 | deleting keeps ids unique, and deleting an id not in the list leaves the list unchanged |
| `Listing.RemoveOne` | app/showSchools/page.jsx:117 | deleting a present id from a list with unique ids removes exactly one record |
| `Search.Lower` | app/showSchools/page.jsx:92-93 | lower-casing keeps the length and folds each character |
| `Search.IncludesSpec` | app/showSchools/page.jsx:93 | `includes` holds exactly when the term occurs at some position of the text |
| `Search.FilterMatching` | app/showSchools/page.jsx:89-94 | the filtered list holds exactly the records of the list whose joined, lower-cased text includes the lower-cased term, in list order |
| `Search.FilterMatchingCounts` | app/showSchools/page.jsx:58-63 | the filter keeps every copy of a matching record, repeats included, and no copy of any other |
| `Search.Project` | app/showSchools/page.jsx:85-97 | with an empty term the view is the list itself; otherwise it holds exactly the matching records; it is always an order-preserving subsequence of the list and keeps ids unique |
| `Search.ProjectCounts` | app/showSchools/page.jsx:89-95 | with a term, the view keeps every copy of a matching record and no copy of any other |
| `Search.EmptyTermKeepsAll` | app/showSchools/page.jsx:86-94 | the empty term matches every record, so the empty-term shortcut shows what the filter would |
| `Search.ProjectIdempotent` | app/showSchools/page.jsx:89-95 | projecting a projected view changes nothing |
| `Search.ProjectConcat` | app/showSchools/page.jsx:89-95 | the view of a concatenation is the concatenation of the views |
| `Search.ProjectAfterMerge` | app/showSchools/page.jsx:38-44 | after a merge the search view re-derived from the merged list starts with the old view, unchanged |
| `Search.ProjectRemove` | app/showSchools/page.jsx:117-119 | the view of the list after a delete is the old view without the deleted id |
| `Search.ProjectCaseInsensitive` | app/showSchools/page.jsx:91-93 | terms that differ only in letter case give the same view |
| `Search.TermSpansFields` | app/showSchools/page.jsx:90-93 | a term is found across the space joining two fields, though no single field contains it |
| `ShowSchoolsPage.PatchMatchesRederivation` | app/showSchools/page.jsx:47-65 | when a batch brings only new ids, the fetch handler's own patch of the view equals the view the search effect re-derives |
| `ShowSchoolsPage.PatchRepeatsRefetchedRecord` | app/showSchools/page.jsx:56-64 | with a term set, a batch repeating a shown record makes the patch show it twice, while the re-derived view shows it once |
| `ShowSchoolsPage.ShowSchools.constructor` | app/showSchools/page.jsx:13-19 | the page starts with empty lists, loading, page 1, more data expected and an empty term |
| `ShowSchoolsPage.ShowSchools.BeginFetch` | app/showSchools/page.jsx:24-31 | a fetch of a page other than 1 does nothing once the data has ended; otherwise page 1 raises `loading` and any other page raises `loadingMore` |
| `ShowSchoolsPage.ShowSchools.CompleteFetch` | app/showSchools/page.jsx:33-76 | a response merges the reversed batch into the list, and a batch shorter than ten ends the data; a failure leaves the list, the view and the end-of-data flag unchanged; both loading flags drop either way; the old list stays as a prefix, and the end of data is never undone |
| `ShowSchoolsPage.ShowSchools.ApplySearch` | app/showSchools/page.jsx:85-97 | the search effect re-derives the view from the whole list and the current term |
| `ShowSchoolsPage.ShowSchools.SetSearchTerm` | app/showSchools/page.jsx:172 | typing replaces the search term |
| `ShowSchoolsPage.ShowSchools.OnScroll` | app/showSchools/page.jsx:101-107 | the page advances by exactly one, and only when near the bottom with no load in flight and more data expected |
| `ShowSchoolsPage.ShowSchools.Delete` | app/showSchools/page.jsx:115-119 | both lists become the old list without the id, and the old list is handed back for the rollback |
| `ShowSchoolsPage.ShowSchools.RevertDelete` | app/showSchools/page.jsx:127-130 | on a failed delete both lists become the list the handler saw before deleting |
| `ShowSchoolsPage.ShowSchools.HandleDelete` | app/showSchools/page.jsx:115-135 | with the search effect run after each change: a confirmed delete drops the id from both lists and moves nothing else; a failed one restores both lists exactly |
| `ShowSchoolsPage.ScrollTwiceWhileFetching` | app/showSchools/page.jsx:99-112 | after a full first page, a scroll signal advances the page and its fetch starts; a second signal before the answer does nothing |
| `ShowSchoolsPage.ShortBatchEndsPaging` | app/showSchools/page.jsx:68-70 | after a short first batch, the next scroll does not advance the page and the next fetch of a later page does not start; that this lasts follows from `CompleteFetch` never turning the end of data back and no other method writing it |
| `AddSchool.Required` | app/addSchool/page.jsx:13-16 | a required text field fails its own test exactly when it is empty |
| `AddSchool.ContactIssues` | app/addSchool/page.jsx:17-20 | the contact fails the digit test unless it is one or more digits, and fails the required test exactly when empty |
| `AddSchool.ImageIssues` | app/addSchool/page.jsx:22-27 | a missing file list fails the required test; a present one fails the size test when it has no first file or that file exceeds 5242880 bytes |
| `AddSchool.Validate` | app/addSchool/page.jsx:12-28 | each test is reported exactly when its field fails it, and the form passes exactly when every field is acceptable |
| `AddSchool.MessagesDistinct` | app/addSchool/page.jsx:13-27 | each test carries its own message |
| `AddSchool.BlankFieldFailsAlone` | app/addSchool/page.jsx:13-21 | blanking one required field of an accepted form fails that field's test alone; a blank contact fails both of its tests |
| `AddSchool.ImageSizeBoundary` | app/addSchool/page.jsx:25-27 | a first file of exactly 5242880 bytes passes and one of 5242881 fails, whatever follows it; an empty file list fails |
| `AddSchool.ContactWithNonDigit` | app/addSchool/page.jsx:17-20 | a contact with any non-digit fails only the digit test |
| `AddSchool.BuildPayload` | app/addSchool/page.jsx:53-64 | the payload carries the six validated text fields unchanged, plus the data URL of a file of the list within the size limit |
| `AddSchool.PayloadUsesFirstFileOnly` | app/addSchool/page.jsx:53-64 | forms that differ only after their first file post the same payload |

## Left out

- Network calls (`axios`), the database and the image host: a fetch is modelled as a batch
  of records or a failure, and a delete as the server's yes or no. The listing endpoint
  ignores `page` and `limit` and returns every row, so any batch is allowed.
- React effect scheduling and batched updates. Each handler's group of updates is one atomic
  method, and the caller decides when the effects run.
  - The search effect is `ApplySearch`.
  - The page effect is a call to `BeginFetch(page)`. The page effect also re-runs when
    `fetchSchools` is re-created, which happens when `hasMore` or `searchTerm` changes.
    Those re-runs are further calls of the same kind.
- Closures that capture state from an earlier render are not modelled. `fetchSchools`
  captures `hasMore` and `searchTerm`, and the scroll listener captures the flags. The
  methods read the current state instead.
- The scroll geometry (line 103) is reduced to the boolean `nearBottom`.
- The `confirm` and `alert` dialogs and `console.error`: only confirmed deletes are modelled.
- Rendering, `components/Navbar.jsx`, `app/page.js` and `hooks/useDarkMode.js`, which hold
  no list or validation logic.
- `Search.Lower`: lower-cases only the ASCII letters. JavaScript's `toLowerCase` also folds
  other Unicode letters.
- `AddSchool.Validate`: accepts any non-empty `email_id`, because the schema library's email
  format test is not modelled.
- `AddSchool.Validate` follows yup 1.x: a value that fails the presence test of `imageFile`
  is not given to the size test. Older yup versions also ran the size test on a missing
  value and reported both messages.
- When the contact is empty both of its tests fail. Which of the two messages the form
  shows is up to the form library and is not modelled.
- `toBase64` and `FileReader` are a function parameter of `AddSchool.BuildPayload`. Their
  read errors, and the submit handler's messages and redirect, are not modelled.
- `ShowSchoolsPage.ShowSchools.HandleDelete`: combines the optimistic step and the server's
  answer into one call. Other transitions can run between the two steps; `Delete` and
  `RevertDelete` model those steps on their own.
