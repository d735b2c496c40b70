# Employee directory page: a Dafny model

The page fetches a batch of twelve generated person records, shows one card
per record in a gallery, opens a detail overlay when a card is clicked, lets
the overlay step through the records with Next and Prev (wrapping at both
ends), and hides the cards whose names do not contain a search query.
This project models the logic inside that script, `js/scripts.js`, and proves
what it does:

- `decimal.dfy` (`Decimal`): the decimal text of an integer (`toString`) and
  the reading of a digit string back into its number.
- `birthday.dfy` (`Birthday`): `leadZero` and `dateFormat`, which build the
  `MM/DD/YYYY` birthday line of the overlay. `ParseDate` reads such a line back;
  it is not in the script and serves as the inverse the formatting is proved
  against.
- `cursor.dfy` (`Cursor`): the wrap-around moves of the overlay cursor
  `modalPlace`, bounded by the constant `employeeNum` (12) and not by the length
  of the fetched list, and their cycle and inverse laws.
- `search.dfy` (`Search`): ASCII lower-casing and `includes`.
- `gallery.dfy` (`Gallery`): the records, the cards `displayEmployees` renders
  with their `data-index`, and the visibility rule of a search.
- `page.dfy` (`Page`): the script's module-level state (`employees`, the cards,
  `modalPlace`, the overlay) as a class whose methods are the script's
  `displayEmployees` and its three click listeners.

## Model

| member | source | states |
|---|---|---|
| `Decimal.ToString` | js/scripts.js:90 | the decimal text is non-empty, all digits exactly for non-negative numbers, starts with '-' exactly for negative ones, has no leading zero except for 0, and has one digit below 10 and two from 10 to 99 |
| `Decimal.ToStringRoundTrip` | js/scripts.js:90 | reading the decimal text of any non-negative number gives the number back |
| `Decimal.LeadingZeroValue` | js/scripts.js:91 | a "0" put before a digit string keeps it a digit string and does not change its value |
| `Birthday.LeadZero` | js/scripts.js:89-93 | the result ends with the decimal text of `num`, is that text or that text with one "0" in front, and is longer exactly when the text is shorter than `length` |
| `Birthday.TwoDigits` | js/scripts.js:89-93 | for 0 to 99, `leadZero(n, 2)` is two digits that read back as n; it starts with "0" exactly when n < 10, and then the rest is the decimal text of n |
| `Birthday.LeadZeroPadsOnce` | js/scripts.js:91 | text two or more characters short of `length` gains one character and stays short of `length` |
| `Birthday.LeadZeroShortExample` | js/scripts.js:89-93 | `leadZero(5, 4)` is "05" |
| `Birthday.DateFormat` | js/scripts.js:95-98 | for a month and day from 0 to 99 the text is six characters plus the year's, with '/' at positions 2 and 5 |
| `Birthday.ParseDateFormat` | js/scripts.js:95-98 | reading the formatted date back gives the month, day and year formatted (month and day 0 to 99, year non-negative) |
| `Birthday.DateFormatInjective` | js/scripts.js:95-98 | two such dates that format the same are the same date |
| `Birthday.DateFormatExample` | js/scripts.js:95-98 | month 3, day 7, year 1990 give "03/07/1990" |
| `Birthday.DateFormatTwoDigitExample` | js/scripts.js:95-98 | month 12, day 31, year 2000 give "12/31/2000" |
| `Cursor.NextPlace` | js/scripts.js:153-159 | from a position in 0..11 Next stays in 0..11 and is one step on modulo 12 (11 goes to 0); outside that range it adds one |
| `Cursor.PrevPlace` | js/scripts.js:161-167 | from a position in 0..11 Prev stays in 0..11 and is one step back modulo 12 (0 goes to 11); outside that range it subtracts one |
| `Cursor.PrevUndoesNext` | js/scripts.js:150-167 | Prev after Next restores the cursor exactly when the cursor is not -1 |
| `Cursor.NextUndoesPrev` | js/scripts.js:150-167 | Next after Prev restores the cursor exactly when the cursor is not 12 |
| `Cursor.WalkIsModular` | js/scripts.js:149-170 | from a position in range, any sequence of Next and Prev presses lands at start + #Next - #Prev modulo 12, so the cursor never leaves 0..11 |
| `Cursor.NextTimesIsModular` | js/scripts.js:153-159 | k presses of Next from a position in range add k modulo 12 |
| `Cursor.NextCycle` | js/scripts.js:150-159 | twelve presses of Next bring the cursor back to where it started |
| `Cursor.Trace` | js/scripts.js:149-170 | entry i of the trace is the cursor after the first i presses, so it starts at the start and ends where the presses lead |
| `Cursor.TraceStaysInRange` | js/scripts.js:149-170 | from a position in 0..11, every position visited along any sequence of presses is in 0..11 |
| `Cursor.TraceExample` | js/scripts.js:149-170 | from card 0, Next, Next, Prev visit 0, 1, 2, 1 |
| `Search.LowerChar` | js/scripts.js:179 | 'A' to 'Z' become the letter 32 code points on, 'a' to 'z'; every other character stays; no upper-case letter is left |
| `Search.Lower` | js/scripts.js:179 | lower-casing keeps the length and maps each character on its own by `LowerChar` |
| `Search.Includes` | js/scripts.js:182 | true exactly when the query occurs in the text at some position |
| `Search.LowerIdempotent` | js/scripts.js:179-182 | lower-casing twice is lower-casing once |
| `Gallery.FullName` | js/scripts.js:46 | the card's name text is the first name, one space, the last name |
| `Gallery.CardsFor` | js/scripts.js:36-41 | card i of a batch carries index i and the name of record i, with no display set; one card per record |
| `Gallery.CardsFrom` | js/scripts.js:36-41 | one card per record, in order, the i-th numbered start + i, named after the i-th record, with no display set |
| `Gallery.CardIndices` | js/scripts.js:41 | the list of the cards' `data-index` values, in card order |
| `Gallery.CardIndicesArePositions` | js/scripts.js:35-41 | N records give N cards with indices 0, 1, ..., N - 1 |
| `Gallery.CardNamesItsRecord` | js/scripts.js:41-46 | the card at position i carries index i, and record i has the name the card shows |
| `Gallery.Matches` | js/scripts.js:179-182 | a name matches when its lower-cased text contains the lower-cased query at some position |
| `Gallery.Filtered` | js/scripts.js:181-185 | a search keeps the number of cards |
| `Gallery.FilterKeepsCards` | js/scripts.js:177-185 | after a search each card keeps its index and name, and is "flex" exactly when its lower-cased name contains the lower-cased query, "none" otherwise |
| `Gallery.EmptyQueryShowsAll` | js/scripts.js:179-184 | the empty query shows every card |
| `Gallery.LastSearchWins` | js/scripts.js:181-185 | a search after a search gives what the second search alone gives, so hidden cards can reappear |
| `Gallery.QueryCaseIgnored` | js/scripts.js:179-182 | a query and its lower-cased form match the same names |
| `Gallery.NameCaseIgnored` | js/scripts.js:182 | a name and its lower-cased form match the same queries |
| `Gallery.MatchExample` | js/scripts.js:179-182 | the query "ANN" matches the name "Anna Smith" |
| `Page.Page.constructor` | js/scripts.js:14-15 | before the fetch: no records, no cards, cursor 0, no overlay |
| `Page.Page.DisplayEmployees` | js/scripts.js:34-55 | the batch becomes the records, and the cards for the batch, numbered from 0, are appended after the existing cards; cursor and overlay unchanged |
| `Page.Page.GalleryClick` | js/scripts.js:140-147 | a click on the gallery background changes nothing; a click in a card sets the cursor to its index and opens the overlay on that record, or, when no record has that index (`displayModal` throws), opens nothing |
| `Page.Page.UpdateModal` | js/scripts.js:100-117 | on an open overlay: the overlay shows the record at the cursor; with no record there (the destructuring throws), it keeps what it showed |
| `Page.Page.DocumentClick` | js/scripts.js:149-170 | close removes the overlay and keeps the cursor; Next and Prev move the cursor as `NextPlace` and `PrevPlace` and then update the overlay as `UpdateModal`; other clicks change nothing; an open overlay shows a fetched record, the one at the cursor whenever the cursor is on one |
| `Page.Page.SearchClick` | js/scripts.js:177-186 | the cards become `Filtered(cards, query)`; records, cursor and overlay unchanged |

## Left out

- Fetching (`checkStatus`, `fetchData`, the top-level fetch chain): network
  I/O and promises; its failures are only logged to the console. The model
  starts from the records the fetch delivers, as the argument of
  `DisplayEmployees`.
- The HTML of cards, overlay and search form, and its insertion into and
  removal from the document: markup only. The overlay is reduced to absent or
  showing one record index, a card to its index, name text and display.
- Several overlays on the page at once (a second card click while one is
  open) are not modelled: the overlay is a single present/absent value.
- Parsing the birth date with the host's `Date` (`getMonth`, `getDate`,
  `getFullYear`): it depends on the time zone. `DateFormat` takes month, day and
  year as integers; `Person.dob` keeps the provider's text.
- Walking the document with `closest`, `getAttribute` and `parseInt`: the
  gallery listener is given what the click resolves to (the background or a
  card's index), the document listener which control was hit.
- The exception thrown by `displayModal` and `updateModal` for a cursor
  outside the fetched list (the cursor is bounded by the constant 12, not by
  the list's length) is modelled only by its effect: the overlay is left as it
  was. The error reaching the console is not modelled, and the model makes no
  claim that the cursor stays within the list.
- `Page.Page.DisplayEmployees`: promises the page invariant only when no
  overlay is open; the script calls it once, when the fetch resolves, before
  any card exists to be clicked.
- `Search.Lower`: lower-cases the ASCII letters A-Z only, not the full Unicode
  case mapping of `toLowerCase`.
- `Decimal.ToString`: integers only; non-integral and non-finite numbers
  (`NaN`, exponent notation) are not modelled.
- A click on the close, Next or Prev control while no overlay is open: the
  controls exist only inside the overlay, so `Page.Page.DocumentClick` requires
  an open overlay for those three targets.
