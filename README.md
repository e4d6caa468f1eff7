# KTX reservation front end: seat map and booking pages

This project models the client-side logic of three pages of a train-ticket
reservation front end, and proves properties of the model.

- **Seat selection (`Reserve`).**
  - The fetched seats are grouped into rows A–D by the first letter A–D in their label, in either case.
  - Each row is sorted stably by the first number in the label.
  - All four rows share one window of 20 seats per page.
  - When a seat is already selected, the page moves to the page that holds it.
  - "Previous" and "next" clamp to the existing pages.
  - A click selects a single seat; a reserved seat's button is disabled.
  - Submit goes to `/confirm/{trainId}/{seat}`.
- **Confirmation (`Confirm`).**
  - The train is looked up by `Number(trainId)`.
  - The submit sequence runs over `error` and `submitting`. Without a stored user id, the sequence stops before any request.
  - The back button hands the seat back to the seat-selection page as its initial selection.
- **Reservation list (`MyReservations`).**
  - A failed fetch counts as an empty list, or it shows an error.
  - Cancelling deletes the reservation and then fetches the list again.

Module layout:

- `Http` (`http.dfy`): request outcomes and the shared `message || fallback` rule.
- `Text` (`text.dfy`): first match of a character class, digit runs, decimal values and `includes`.
- `Seats` (`seats.dfy`): a seat, and the row letter and sort key read off its label.
- `StableSort` (`stable_sort.dfy`): the stable sort of a row.
  - `SortByKey` is the specification: an insertion sort.
  - `SortRow` sorts an array in place, proved equal to `SortByKey`.
  - V8 implements `Array.prototype.sort` with TimSort. TimSort is stable, and a stable sort by key has only one possible result, so this model computes the same rows.
- `SeatMap` (`seat_map.dfy`): the row grouping (`seatsByRow`), pagination and the restored page.
- `Routes` (`routes.dfy`): the navigations, their URLs, the pathname `navigate` reads off a URL (the part before any '?' or '#'), and the match of the confirm route.
- `Reserve`, `Confirm` and `MyReservations`: one class per page.
  - The class fields are the page's state variables.
  - The methods are the handlers and effects.
  - Each request's outcome is a parameter of the handler that receives it.

The seat grouping loop and the in-place sort are imperative methods (`GroupByRow`, `BuildSeatMap`, `SortRow`). Each is proved equal to a pure specification (`RowOf`, `SeatMapOf`, `SortByKey`). All properties are then proved about those specifications.

## Model

| member | source | states |
|---|---|---|
| Http.MessageOr | src/pages/Confirm.tsx:83 | The server's `message` when the error body is JSON with a non-empty message, otherwise the fallback; never empty when the fallback is not |
| Text.FirstMatch | src/pages/Reserve.tsx:85 | The index of the first character in the class; None exactly when no character is in it; no earlier character is in it |
| Text.LeadingDigits | src/pages/Reserve.tsx:94 | The digit run `\d+` starting at the front: a prefix, all digits, and maximal |
| Text.DecimalRoundTrip | src/pages/Reserve.tsx:94 | `parseInt` of a number's decimal rendering is that number |
| Text.Contains | src/pages/MyReservations.tsx:30 | `includes`: never true for a needle longer than the haystack |
| Text.ContainsIffOccurs | src/pages/MyReservations.tsx:30 | `includes` holds exactly when the needle occurs at some position of the haystack |
| Seats.ToUpper | src/pages/Reserve.tsx:85 | Upper-casing a letter a–d/A–D gives a row letter: an upper-case letter is unchanged, and a lower-case one becomes its upper-case counterpart (a→A … d→D) |
| Seats.RowLetter | src/pages/Reserve.tsx:85-86 | The letter found is always one of the row keys A, B, C, D, so `seatsByRow[letter]` exists |
| Seats.RowLetterIsFirstMatch | src/pages/Reserve.tsx:85 | The row letter is the upper-cased first match of `/[A-D]/i`; there is none exactly when the label has no such character |
| Seats.RowLetterIsFirst | src/pages/Reserve.tsx:85 | The row is the upper-cased first A–D character of the label, whatever precedes it |
| Seats.SortKey | src/pages/Reserve.tsx:94 | The sort key read off a label: 0 for a label without digits (the `'0'` default); what it is otherwise is stated by `SortKeyIsFirstRun` |
| Seats.SortKeyIsFirstRun | src/pages/Reserve.tsx:94 | The sort key is the value of the first maximal run of digits |
| Seats.SortKeyNoDigits | src/pages/Reserve.tsx:94 | A label without digits sorts with key 0 |
| Seats.NumberFirstLabel | src/pages/Reserve.tsx:84-85 | A label "12A" reads back as row A and number 12 |
| Seats.LetterFirstLabel | src/pages/Reserve.tsx:84-85 | A label "A12" reads back as row A and number 12 |
| StableSort.SortByKeyCorrect | src/pages/Reserve.tsx:92-98 | The sorted row is non-decreasing by key, is a permutation of the row, and keeps the input order of equal keys |
| StableSort.SortSortedIsIdentity | src/pages/Reserve.tsx:92-98 | Sorting an already ordered row leaves it unchanged |
| StableSort.SortIsIdempotent | src/pages/Reserve.tsx:92-98 | Sorting twice gives the same row as sorting once |
| StableSort.InsertInPlace | src/pages/Reserve.tsx:93-97 | One insertion pass on the array: the prefix becomes the stable insertion of the next element; the rest is untouched |
| StableSort.SortRow | src/pages/Reserve.tsx:93 | The in-place sort leaves the array equal to the stable sort of its old contents |
| StableSort.SortedCopy | src/pages/Reserve.tsx:92-98 | A copy of the row in an array, sorted in place, is the stable sort of the row |
| SeatMap.RowOf | src/pages/Reserve.tsx:83-88 | The seats of one letter, in snapshot order: never more than the snapshot; `RowOfMembers` states which seats they are |
| SeatMap.SeatMapOf | src/pages/Reserve.tsx:82 | The seat map has exactly the keys A, B, C and D |
| SeatMap.SeatMapAt | src/pages/Reserve.tsx:82-98 | Row l of the seat map is the stably sorted row of the seats with letter l |
| SeatMap.GroupByRow | src/pages/Reserve.tsx:82-89 | The `forEach`/`push` loop gives each row exactly the seats of its letter, in snapshot order |
| SeatMap.BuildSeatMap | src/pages/Reserve.tsx:82-98 | Grouping and then sorting every row in place gives the seat map |
| SeatMap.RowOfMembers | src/pages/Reserve.tsx:86-87 | A seat is grouped into a letter's row exactly when it is in the snapshot and has that letter |
| SeatMap.RowsPartitionRecognised | src/pages/Reserve.tsx:82-89 | The four grouped rows together hold exactly the seats with a row letter, each as often as the snapshot does |
| SeatMap.SeatMapRowMembers | src/pages/Reserve.tsx:82-98 | A seat is in row l of the seat map exactly when it is in the snapshot and its letter is l, so it is in at most one row, and in none without a letter |
| SeatMap.SeatMapPartitions | src/pages/Reserve.tsx:82-98 | The four sorted rows are a permutation of the seats that have a row letter |
| SeatMap.SeatMapRowsOrdered | src/pages/Reserve.tsx:92-98 | Every row is non-decreasing by seat number, and seats with equal numbers keep their snapshot order |
| SeatMap.SeatMapIdempotent | src/pages/Reserve.tsx:43-58 | Regrouping and re-sorting the seat map's own rows gives the same seat map |
| SeatMap.MaxRowLength | src/pages/Reserve.tsx:101 | At least every row's length, and equal to some row's length |
| SeatMap.PageCount | src/pages/Reserve.tsx:102 | `Math.ceil(n / 20)`: enough pages of 20 for n seats, and one page fewer would not be enough |
| SeatMap.TotalPages | src/pages/Reserve.tsx:102 | `totalPages`: every row fits in that many pages of 20, and with one page fewer some row would not |
| SeatMap.PageWindow | src/pages/Reserve.tsx:103-104 | `slice(page*20, page*20+20)`: at most 20 seats, fewer at the row's end, none past it; the k-th is the row's seat page*20+k |
| SeatMap.NoPagesIffEmpty | src/pages/Reserve.tsx:101-102 | There are 0 pages exactly when all four rows are empty |
| SeatMap.PaginationShownIffLongRow | src/pages/Reserve.tsx:327 | The page controls appear exactly when some row holds more than 20 seats |
| SeatMap.SeatOnOnePage | src/pages/Reserve.tsx:157 | Seat i of any row is shown on page i / 20 and on no other page, at position i % 20, and that page exists |
| SeatMap.PagesPrefix | src/pages/Reserve.tsx:103-104 | Pages 0..n-1 shown one after the other are the row's first 20n seats |
| SeatMap.PagesCoverRows | src/pages/Reserve.tsx:103-104 | Paging through all pages shows each row in full, in order, each seat once |
| SeatMap.IndexOfSeat | src/pages/Reserve.tsx:63 | `findIndex` on the label: the first position with that label, or none when no seat in the row has it |
| SeatMap.RestoredPage | src/pages/Reserve.tsx:60-67 | The restoring effect's page: unchanged without a selection, without seats, or when the selection has no row letter; what it is otherwise is stated by `RestoredPageShowsSelection` |
| SeatMap.RestoredPageShowsSelection | src/pages/Reserve.tsx:40-69 | If the selection names a seat of the snapshot with a row letter, the restored page exists and shows a seat with that label; otherwise the page is unchanged |
| Routes.Path | src/pages/Reserve.tsx:76 | The URL of each navigation: an absolute path; a confirm URL starts with `/confirm/` |
| Routes.Pathname | src/pages/Reserve.tsx:76 | The pathname `navigate` matches: the part of the URL before the first '?' or '#', or the whole URL when it has neither |
| Routes.MatchConfirm | src/App.tsx:72 | A match yields two non-empty, slash-free parameters, and the path is exactly the confirm URL built from them |
| Routes.ConfirmRoundTrip | src/pages/Reserve.tsx:76 | When train and seat are non-empty and hold no '/', '?' or '#', the pathname of the submit URL matches the confirm route with the same train and seat |
| Routes.CutInSeatShortensSeat | src/pages/Reserve.tsx:76 | A seat label holding '?' or '#' reaches the confirm page cut short: the route matches with only the part before that character |
| Routes.SlashInSeatBreaksRoute | src/App.tsx:72 | For any train segment, a seat label holding '/' (with no '?' or '#' in train or seat to end the pathname first) gives a pathname that this model's confirm matcher rejects |
| Reserve.InitialSelection | src/pages/Reserve.tsx:18 | The carried seat when it is non-empty, otherwise no selection |
| Reserve.SubmitTarget | src/pages/Reserve.tsx:72-77 | No navigation exactly when nothing is selected; otherwise the confirm page of this train and seat |
| Reserve.PreviousOf | src/pages/Reserve.tsx:339 | `max(0, p - 1)` |
| Reserve.NextOf | src/pages/Reserve.tsx:359 | `min(totalPages - 1, p + 1)`, always an existing page |
| Reserve.PagingStaysInRange | src/pages/Reserve.tsx:337-361 | From an existing page, previous and next both lead to an existing page, one step at most |
| Reserve.ReservePage.constructor | src/pages/Reserve.tsx:17-21 | No seats, loading, no error, page 0, and the carried selection |
| Reserve.ReservePage.LoadSeats | src/pages/Reserve.tsx:24-37 | Without a train id nothing happens and loading stays on. Otherwise loading ends, and the page holds the fetched seats or the server message/fallback |
| Reserve.ReservePage.RestorePage | src/pages/Reserve.tsx:40-69 | The page becomes the restored page of the selection; all else unchanged; the page stays an existing one |
| Reserve.ReservePage.Load | src/pages/Reserve.tsx:24-70 | The loading effect, then the restoring effect when the fetched seats replace the empty list: on success the page shows the selection's restored page among the fetched seats; on failure the page stays 0 with the message or fallback |
| Reserve.ReservePage.PreviousPage | src/pages/Reserve.tsx:339 | The page becomes `max(0, p - 1)`; nothing else changes |
| Reserve.ReservePage.NextPage | src/pages/Reserve.tsx:359 | The page becomes `min(totalPages - 1, p + 1)`; nothing else changes |
| Reserve.ReservePage.ClickSeat | src/pages/Reserve.tsx:161-162 | A reserved seat, or the seat already selected, changes nothing. Any other seat becomes the single selection, and only then is the page restored for it |
| Reserve.FoundOnItsPage | src/pages/Reserve.tsx:63-65 | In a row with distinct labels, the seat at position k of a page is found at its own index, on that page |
| Reserve.ClickKeepsPage | src/pages/Reserve.tsx:40-69 | Selecting a seat shown on the current page does not move the page when labels in a row are distinct |
| Confirm.JsNumber | src/pages/Confirm.tsx:78 | `Number`: "" is 0, a decimal string is its value, and any string with a non-digit is NaN |
| Confirm.JsNumberOfDecimal | src/pages/Confirm.tsx:28 | A train id rendered in decimal reads back as that id |
| Confirm.FindTrain | src/pages/Confirm.tsx:28 | No train exactly when the id is NaN or no train has it. Otherwise the first train with that id |
| Confirm.BackNavigation | src/pages/Confirm.tsx:161 | The seat page of this train, with the URL's seat as router state |
| Confirm.ConfirmPage.View | src/pages/Confirm.tsx:88-89 | Loading while loading. A full-page error, showing the error text, exactly when there is an error and no train. Otherwise the details, with the error inline and the buttons enabled unless submitting |
| Confirm.ConfirmPage.constructor | src/pages/Confirm.tsx:16-21 | No train, loading, no error, not submitting |
| Confirm.ConfirmPage.LoadTrains | src/pages/Confirm.tsx:23-40 | Loading ends. On success: the found train, or the not-found message when none. On failure: no train and the server message or the fallback |
| Confirm.ConfirmPage.BeginSubmit | src/pages/Confirm.tsx:67-80 | The error is cleared. Without a user id: the login message, not submitting, no request. With one: submitting, and the request carries `Number(trainId)` and the URL's seat |
| Confirm.ConfirmPage.FinishSubmit | src/pages/Confirm.tsx:81-85 | On success: navigate to the reservation list. On failure: no navigation, the server message or the fallback, and the buttons enabled again |
| Confirm.SelectionRoundTrip | src/pages/Confirm.tsx:161 | Submit on the seat page, match the confirm route on the pathname, then press back: with train and seat free of '/', '?' and '#', the seat page starts on the same train with the same seat selected |
| Confirm.CutSeatComesBackShort | src/pages/Confirm.tsx:161 | A seat label holding '?' or '#' does not survive the round trip: the back button selects only the part before that character |
| MyReservations.Extract | src/pages/MyReservations.tsx:29 | The extracted value is an object, not a string, exactly for a JSON body without a non-empty message |
| MyReservations.ClassifyAsWritten | src/pages/MyReservations.tsx:29-34 | The handler as written: 404 is an empty list, it throws only when the extracted value is an object, and any error it shows is non-empty; `AsWrittenThrowsIff` states exactly when it throws |
| MyReservations.Classify | src/pages/MyReservations.tsx:29-34 | Never throws. An empty list exactly on 404 or a message containing the no-reservations text. Otherwise the message, or the fallback when it is empty |
| MyReservations.ClassifyAgreesWhereNoThrow | src/pages/MyReservations.tsx:29-34 | Where the handler as written does not throw, the corrected handler gives the same outcome |
| MyReservations.AsWrittenThrowsIff | src/pages/MyReservations.tsx:29-30 | The handler as written throws exactly for a non-404 response whose JSON body has no non-empty message |
| MyReservations.ServerErrorWithoutMessage | src/pages/MyReservations.tsx:29-30 | A 500 with body `{}` throws as written, and shows the fallback as intended |
| MyReservations.NoReservationsMessageIsEmpty | src/pages/MyReservations.tsx:30 | A message containing the no-reservations text counts as an empty list, whatever the status |
| MyReservations.MyReservationsPage.View | src/pages/MyReservations.tsx:54-63 | Loading while loading. Otherwise a full-page error, showing the error text, exactly when there is an error. Otherwise the list when it is non-empty, else the empty state |
| MyReservations.MyReservationsPage.constructor | src/pages/MyReservations.tsx:18-20 | No reservations, loading, no error |
| MyReservations.MyReservationsPage.FetchReservations | src/pages/MyReservations.tsx:22-38 | Without a user id: no request, nothing changes, loading stays on. Otherwise loading ends, and the page holds the data (or [] for null), the empty list, or the classified error. An earlier error is never cleared |
| MyReservations.MyReservationsPage.CancelReservation | src/pages/MyReservations.tsx:44-52 | Declined: no delete, nothing changes. Failed delete: an alert with the server message or the fallback, list unchanged. Successful delete: the list is fetched again, with that fetch's outcome |

## Left out

- Rendering, inline styles, hover effects and price/date formatting (`formatTime`, `formatDate`, `toLocaleString`). These are presentation only, or depend on JS `Date` and locale data.
- HTTP. Each request's outcome is a parameter; the URLs, query strings and axios interceptors are not modelled.
- `localStorage`. The stored user id is an `Option<string>` parameter. The authentication context and the protected route are not part of this model.
- `window.confirm` and `alert`. The user's answer is a parameter; the alert text is returned.
- Effect scheduling. Every effect and handler is a method that runs to completion, so there is no interleaving of requests.
  - The reserve page's restoring effect reruns when the selection or the seats change. `ClickSeat` calls it after it changes the selection. `Load` is `LoadSeats` followed by `RestorePage` when the fetch succeeded; `LoadSeats` alone is only the first half.
  - The confirm submit is split at its one `await` into `BeginSubmit` and `FinishSubmit`.
  - Unmounting after a navigation is not modelled.
- Confirm.JsNumber: only "" and plain decimal strings are numbers. Every other string is NaN, although `Number` also accepts blanks, signs, fractions, exponents and hex.
- Text.DecimalValue: exact, whereas `parseInt` loses precision above 2^53.
- Route parameters are taken as they appear in the URL; percent-encoding and decoding are not modelled. Of the route table only the confirm route is modelled.
- Reserve.ReservePage.LoadSeats: the response data is assumed to be an array of seats. A route without a `trainId` is modelled as the empty id.
- Confirm.ConfirmPage.LoadTrains: the response data is assumed to be an array of trains. Any other body makes `trains.find` throw, and the page shows the fallback message; the model does not cover that case.
- Routes.MatchConfirm: React Router also accepts a trailing '/' and matches the static part case-insensitively. The model matches only the exact form `/confirm/<train>/<seat>`.
- MyReservations.MyReservationsPage.CancelReservation: the contract uses the corrected classification. As written, a successful delete whose refetch gets a non-404 JSON body without a message throws: loading is cleared, the list and error stay as they were, and the cancel-failed alert with the fallback text is shown (see Findings).
- MyReservations.Extract: a JSON `message` field is a string or absent. A non-string `message` value is not modelled.
- MyReservations.MyReservationsPage.FetchReservations: uses the corrected classification. The as-written behaviour is modelled by `ClassifyAsWritten` (see Findings).
- The list page re-fetching when the logged-in user changes: each such effect is one call of `FetchReservations`.

## Findings

| source | as written | input that shows it | evidently intended | confidence | as-written member | corrected member |
|---|---|---|---|---|---|---|
| src/pages/MyReservations.tsx:29-30 | When the error body is an object without a non-empty `message` and the status is not 404, `errorMessage` is that object. `errorMessage.includes` then throws a TypeError inside the `catch`, so no error is set and the page shows the empty reservation list. When this happens in the refetch after a cancel, the cancel-failed alert appears even though the deletion succeeded | a 500 response with body `{}` | treat the object as an empty message, showing '예매내역을 불러오지 못했습니다' | not executed | MyReservations.ClassifyAsWritten, exhibited by MyReservations.ServerErrorWithoutMessage | MyReservations.Classify, with MyReservations.ClassifyAgreesWhereNoThrow |
