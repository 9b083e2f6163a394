# User Management App: a verified model of its list store, pagination and edit form

This Dafny project models the state logic of a small React user-management
client. The client has three parts:

- **The user-list store** (`src/lib/usersStore.ts`, module `UsersStore`). It
  holds one `users` list and has four actions: `setUsers` replaces the list;
  `addUserAtTop` builds a local record and prepends it; `updateUser` merges a
  field patch into every record with a given id; `deleteUser` filters out every
  record with a given id. The store is the class `UsersStore.Store`, with a
  `users: seq<User>` field and one method per action. Each new list is computed
  by a pure function: prepend, `UpdateAll` (the `map`) or `RemoveId` (the
  `filter`). The methods assign those results.
- **The main page's pagination** (`src/pages/MainPage.tsx`, module
  `Pagination`). It has six records per page and computes the page count
  `Math.ceil(n / 6)`, the `slice` shown for the current page, the page-number
  list and the Previous/Next updates of the current page. The model keeps
  JavaScript's `slice` semantics: a negative index counts from the end, and
  every index is clamped to the list.
- **The card's edit form** (`src/components/pageComponents/CardElement.tsx`,
  module `CardEdit`). `openEdit` resets the two fields to the user's current
  name and email. `saveEdit` trims both fields. It rejects an empty one with
  "Name and email are required". It then rejects an email in which
  `/\S+@\S+\.\S+/` does not occur with "Please enter a valid email". Otherwise
  it issues exactly one `updateUser(user.id, { name, email })` with the trimmed
  values. `Trim` and `\S` use JavaScript's whitespace set: the WhiteSpace and
  LineTerminator code points. The regular expression has a declarative
  definition, `EmailShape`: some substring matches. A decision procedure,
  `HasEmailShape`, is proved equivalent to it.

The clock `Date.now()` is read twice by `addUserAtTop` (`usersStore.ts:32`
and `:38`). The model takes both readings as parameters `idClock` and
`createdClock`.

Facts about the code that the model keeps as they are:

- There is no search filter and no sort. Records show in list order.
- `totalPages` is `ceil(n / 6)`, so an empty list has 0 pages. No minimum of
  one page is applied.
- `addUserAtTop` does not check for id collisions. `AddAtTopMayDuplicateId`
  shows a duplicate id getting in. `AddAtTopKeepsUniqueIds` shows that ids stay
  unique when the new id is fresh.
- The patch type of `updateUser` excludes only `id`. A patch may therefore
  overwrite `createdAt` and `isLocal`. `ApplyPatch` models that.
- The main page paginates its own fetched list (`fetchedUsers`), not the
  store's list. It fetches on every mount, whatever the store holds.
  `Pagination` is therefore generic in the element type.

## Model

| member | source | states |
|---|---|---|
| `UsersStore.LocalUser` | src/lib/usersStore.ts:32-40 | the new record takes the supplied id, or the clock reading when none is supplied; it copies name and email unchanged; its company defaults to the em-dash placeholder; `createdAt` is the second clock reading and `isLocal` is true, whatever the input held |
| `UsersStore.ApplyPatch` | src/lib/usersStore.ts:45 | the spread overwrites exactly the keys present in the patch, keeps every other field, and never changes the id |
| `UsersStore.ApplyPatchIdempotent` | src/lib/usersStore.ts:45 | applying the same patch twice gives the same record as applying it once |
| `UsersStore.ApplyEmptyPatch` | src/lib/usersStore.ts:21 | a patch with no keys leaves the record unchanged |
| `UsersStore.UpdateAll` | src/lib/usersStore.ts:43-46 | same length and order; each record with the id is patched and each other record is unchanged; the list of ids is unchanged; an id not in the list leaves the list unchanged |
| `UsersStore.UpdateAllIdempotent` | src/lib/usersStore.ts:45 | updating twice with the same id and patch equals updating once |
| `UsersStore.UpdateAllKeepsUniqueIds` | src/lib/usersStore.ts:45 | an update keeps ids unique |
| `UsersStore.RemoveId` | src/lib/usersStore.ts:47-48 | the result holds exactly the records of the list whose id differs; no record with the id remains; an unknown id leaves the list unchanged |
| `UsersStore.RemoveIdAppend` | src/lib/usersStore.ts:48 | filtering distributes over concatenation, so kept records stay in their original order |
| `UsersStore.RemoveIdCount` | src/lib/usersStore.ts:48 | the length drops by exactly the number of records with the id |
| `UsersStore.RemoveIdIdempotent` | src/lib/usersStore.ts:48 | deleting twice equals deleting once |
| `UsersStore.UpdateAfterRemoveIsNoOp` | src/lib/usersStore.ts:45-48 | after a delete, an update of the same id changes nothing |
| `UsersStore.RemoveIdKeepsUniqueIds` | src/lib/usersStore.ts:48 | a delete keeps ids unique |
| `UsersStore.AddAtTopKeepsUniqueIds` | src/lib/usersStore.ts:41 | prepending a record whose id is not yet in the list keeps ids unique |
| `UsersStore.AddAtTopMayDuplicateId` | src/lib/usersStore.ts:32 | when a supplied id is already in the list, it is used as is, so the new list has two records with that id |
| `UsersStore.Store.constructor` | src/lib/usersStore.ts:28 | the store starts with an empty list |
| `UsersStore.Store.SetUsers` | src/lib/usersStore.ts:29 | the list becomes exactly the given list |
| `UsersStore.Store.AddUserAtTop` | src/lib/usersStore.ts:30-42 | the list becomes the new local record followed by the old list: one longer, with the old records unchanged and in order |
| `UsersStore.Store.UpdateUser` | src/lib/usersStore.ts:43-46 | the list becomes `UpdateAll` of the old list |
| `UsersStore.Store.DeleteUser` | src/lib/usersStore.ts:47-48 | the list becomes `RemoveId` of the old list |
| `UsersStore.SetThenRead` | src/lib/usersStore.ts:29 | reading the store right after setUsers(list) gives back exactly `list` |
| `UsersStore.DeleteTwice` | src/lib/usersStore.ts:47-48 | a second delete of the same id leaves the list as the first delete did, with no record of that id |
| `Pagination.TotalPages` | src/pages/MainPage.tsx:60 | the least page count whose pages of six hold all n records (`n <= 6r < n + 6`); zero exactly when there are no records |
| `Pagination.StartIndex` | src/pages/MainPage.tsx:61 | for a page from 1 on, the start index is non-negative; PageSlice proves it is the index of the first record shown on that page |
| `Pagination.RelativeIndex` | src/pages/MainPage.tsx:62 | a slice index is read from the end when negative, then clamped into `[0, len]` |
| `Pagination.JsSlice` | src/pages/MainPage.tsx:62 | `slice` is never longer than the list; with indices inside the list it is the plain sub-sequence; with a start inside the list and an end at or after it, it is the sub-sequence from start to the end clamped to the list's length (the last page's case); with non-negative indices its length is the clamped distance between them |
| `Pagination.CurrentUsers` | src/pages/MainPage.tsx:62 | the records on any page number: at most six, all from the list (PageSlice and PagesPartitionList give the exact slice and the partition) |
| `Pagination.PageSlice` | src/pages/MainPage.tsx:61-62 | for 1 <= page <= totalPages, the page is the part of the list from `(page-1)*6` that holds `min(6, n - (page-1)*6)` records, between 1 and 6 of them, and exactly 6 before the last page |
| `Pagination.PageBeyondLast` | src/pages/MainPage.tsx:61-62 | a page past the last one shows no records |
| `Pagination.ConcatPagesFrom` | src/pages/MainPage.tsx:61-62 | the pages from a given page to the last, laid end to end, are the rest of the list from that page's start |
| `Pagination.PagesPartitionList` | src/pages/MainPage.tsx:61-62 | pages 1..totalPages laid end to end give back the whole list in order, with no gap or overlap |
| `Pagination.PageNumbers` | src/pages/MainPage.tsx:64 | the page-number list has totalPages entries, running from 1 to totalPages (PageNumbersExact gives the full list) |
| `Pagination.PageNumbersExact` | src/pages/MainPage.tsx:64 | the page-number list has length totalPages, increases strictly, and holds exactly the numbers 1..totalPages |
| `Pagination.ShowsControls` | src/pages/MainPage.tsx:76 | the controls are rendered only when they hold at least two page links; otherwise there is at most one |
| `Pagination.ControlsShownIff` | src/pages/MainPage.tsx:76 | the pagination controls are shown exactly when there are more than six records |
| `Pagination.PreviousPage` | src/pages/MainPage.tsx:80 | Previous never goes below 1; from page 1 or below it gives 1; otherwise it goes back one page |
| `Pagination.NextPage` | src/pages/MainPage.tsx:93-95 | Next never goes above totalPages; before the last page it goes forward one; on or past the last page it gives exactly totalPages; from a page in range it stays in range |
| `Pagination.Step` | src/pages/MainPage.tsx:80-94 | one click: Previous gives `PreviousPage(page)` (`Math.max(prev - 1, 1)`, never below 1), a page link gives exactly its own number, Next gives `NextPage(page, totalPages)` (`Math.min(prev + 1, totalPages)`, never above totalPages); a click on a rendered control from a page in range stays in range |
| `Pagination.Run` | src/pages/MainPage.tsx:80 | the page after a sequence of clicks; n clicks on Previous from page p land on `max(p - n, 1)` |
| `Pagination.RunStaysInRange` | src/pages/MainPage.tsx:76-95 | while the controls are shown, any sequence of Previous, Next and page-link clicks from a page in range keeps the current page in 1..totalPages |
| `Pagination.ThirteenRecords` | src/pages/MainPage.tsx:60-62 | 13 records give 3 pages and page 3 holds only the 13th record; 0 records give 0 pages and an empty first page |
| `CardEdit.FirstKept` | src/components/pageComponents/CardElement.tsx:35-36 | the kept part of a trimmed string starts at the first non-whitespace character; everything before it is whitespace |
| `CardEdit.EndKept` | src/components/pageComponents/CardElement.tsx:35-36 | the kept part ends just after the last non-whitespace character; everything after it is whitespace |
| `CardEdit.TrimEmptyIff` | src/components/pageComponents/CardElement.tsx:35-37 | the kept part is empty exactly when the whole string is whitespace, which is what `!n` and `!e` test |
| `CardEdit.Trim` | src/components/pageComponents/CardElement.tsx:35-36 | the result is empty exactly when the input is all whitespace; a non-empty result has no whitespace at either end |
| `CardEdit.TrimIsInfix` | src/components/pageComponents/CardElement.tsx:35-36 | trim keeps a contiguous part of the input and removes only whitespace on either side of it |
| `CardEdit.TrimOfTrimmed` | src/components/pageComponents/CardElement.tsx:35-36 | a string with no whitespace at either end is its own trim |
| `CardEdit.TrimIdempotent` | src/components/pageComponents/CardElement.tsx:35-36 | trimming twice equals trimming once |
| `CardEdit.DotAfterSpec` | src/components/pageComponents/CardElement.tsx:38 | the scan for `\S+\.\S` after the `@` succeeds exactly when such a dot exists |
| `CardEdit.AtFromSpec` | src/components/pageComponents/CardElement.tsx:38 | the scan for an `@` preceded by a non-space and followed by the rest of the pattern succeeds exactly when such an `@` exists |
| `CardEdit.EmailShapeIffAtSign` | src/components/pageComponents/CardElement.tsx:38 | a match of `\S+@\S+\.\S+` exists exactly when there is such an `@`: each run can be cut down to one character |
| `CardEdit.HasEmailShape` | src/components/pageComponents/CardElement.tsx:38 | the email test is true exactly when some substring of the email matches `\S+@\S+\.\S+` |
| `CardEdit.EmailShapeUnanchored` | src/components/pageComponents/CardElement.tsx:38 | the test is unanchored: any characters, spaces included, may come before and after a match |
| `CardEdit.NoAtSignNoShape` | src/components/pageComponents/CardElement.tsx:38 | a string without `@` never passes the test |
| `CardEdit.EmailShapeExamples` | src/components/pageComponents/CardElement.tsx:38 | "Shanna@melissa.tv" passes the test and "ada.x.io" fails it |
| `CardEdit.SaveEdit` | src/components/pageComponents/CardElement.tsx:34-42 | rejects with "Name and email are required" exactly when a field is all whitespace; rejects with "Please enter a valid email" exactly when both fields are non-empty and the trimmed email has no match; otherwise issues one update of `user.id` whose patch holds only the trimmed name and email |
| `CardEdit.NameEmailPatch` | src/components/pageComponents/CardElement.tsx:39 | the patch saveEdit sends changes only the name and email of any record it is applied to |
| `CardEdit.EmptyEmailIsNeverInvalid` | src/components/pageComponents/CardElement.tsx:37-38 | the emptiness check comes first, so an empty email never draws the invalid-email message |
| `CardEdit.InitialForm` | src/components/pageComponents/CardElement.tsx:23-26 | a card starts with its dialog closed and its fields holding the user's name and email, so opening it changes only the open flag |
| `CardEdit.OpenEdit` | src/components/pageComponents/CardElement.tsx:28-32 | opening the dialog resets both fields to the user's current name and email, whatever was typed before, and opens it |
| `CardEdit.SaveOfTrimmed` | src/components/pageComponents/CardElement.tsx:35-39 | fields that are already trimmed, non-empty and well-shaped are sent as they are |
| `CardEdit.ReopenAndSaveChangesNothing` | src/components/pageComponents/CardElement.tsx:28-39 | opening the form on a well-formed record and saving it untouched issues an update that leaves the record unchanged |
| `CardEdit.SaveThenUpdate` | src/components/pageComponents/CardElement.tsx:39 | once the store applies a successful save, each record with the card's id has the trimmed name and email and keeps its id, company, createdAt and isLocal; every other record is unchanged |
| `CardEdit.SaveOnStore` | src/components/pageComponents/CardElement.tsx:34-42 | a rejected save leaves the store's list unchanged; an accepted one applies exactly the one update |
| `CardEdit.ConfirmDelete` | src/components/pageComponents/CardElement.tsx:48-52 | confirming the delete removes the card's record and every other record with its id, and keeps all other records |

## Left out

- The zustand `persist` middleware and its `localStorage` JSON storage (`usersStore.ts:50-55`) belong to a foreign library and browser storage. The snapshot holds only `users`, under version 1, so nothing else of the state is persisted.
- The network fetches in `src/pages/MainPage.tsx:33-50` and `src/pages/DetailPage.tsx` are out, with their loading flags and spinners. The fetched list is an input sequence of the pagination functions.
- `src/pages/DetailPage.tsx`, `src/components/ui/dialog.tsx` and `src/main.tsx` are not part of this model. They hold rendering, routing and one network read, and no state logic.
- Toasts, JSX and CSS are out. Only which message a rejected save shows, or which update an accepted save issues, is modelled.
- `isEditOpen` and `isDeleteOpen` closing after a save or delete, and the Cancel buttons, are out. They are dialog visibility only. `OpenEdit` models the opening.
- The `isActive` highlight of the current page link (`MainPage.tsx:85`) is out. It is rendering only.
- JavaScript numbers are modelled as mathematical integers. Fractional, NaN and unsafe-integer ids, clock readings and page numbers are not modelled.
- Strings are modelled as sequences of Unicode code points, not UTF-16 code units. The whitespace set covers the code points `trim` and `\s` use.
- A patch key that is present with the value `undefined` is not modelled for `name`, `email` and `company`. For `createdAt` and `isLocal` it is modelled, as `Present(None)`.
- `user.id ?? Date.now()` and `user.company ?? …` treat `null` and `undefined` alike. Both are the `None` of an `Option`.
- Clicks are modelled only while the paginated list, and so `totalPages`, stays fixed. A current page left out of range by a list that shrank is not modelled; the main page's fetched list is set once.
