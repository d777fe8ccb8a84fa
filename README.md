# searchCars in Dafny

searchCars is an iOS app that looks up Irish vehicle registrations. It scrapes
the vehicle's title and its `key: value` detail spans from a Motorcheck results
page, caches each lookup in a SQLite table `cars(id, registration, details)`,
and lists, filters, deletes and shares the cached cars. This project models:

- the detail extractor (`parseMotorcheckHTML`);
- the cache-first lookup (`searchCarsByRegistration`);
- the table and its statements (`DBHelper`);
- the `Car` record and its share text;
- the state changes of the two screens: the search screen's completion
  handler, share message and button visibility, and the saved-cars screen's
  filter, refresh and delete.

It then proves what the code promises about each of them.

Modules, one per file:

- `Wrappers`: `Option` and `Result`.
- `Text`: the Foundation string operations the code relies on, as functions:
  - trimming of white space;
  - splitting at a separator and joining;
  - substring containment;
  - ASCII case mapping.
- `CarModel`: the `Car` record and `share()`.
- `DBHelper`: the table. There is a pure `Table` value with one function per
  statement and the schema invariant proved for each. There is also the
  `CarStore` class, whose methods change `rows` and `lastId` in place and are
  proved equal to those functions. `lastId` is the table's AUTOINCREMENT
  counter.
- `CarService`: the extractor and the cache-first lookup.
  - The extractor is a method with the span loop, proved equal to the function
    `Extract`.
  - The lookup is a method over a `CarStore`, proved equal to the function
    `FindOrFetch`. What the network fetch returns is a parameter.
- `CarViews`: the saved-cars screen as a class over its `@State` fields.
- `ContentView`: the search screen as a class, plus its message and
  visibility functions.

The line-break rule of the extractor follows the code.
- A kept detail line gets a trailing line break unless its index is the last
  index among all spans.
- So when the last span is dropped, the last line of the details still ends
  in a line break (`CarService.DetailsAreJoinedLines`,
  `CarService.DroppedLastSpanLeavesBreak`).

## Model

| member | source | states |
|---|---|---|
| CarModel.ShareLength | searchCars/CarModel.swift:15-17 | The share text is 24 characters of labels plus the registration and the details. |
| CarModel.ShareIgnoresId | searchCars/CarModel.swift:10-17 | Two cars with equal registration and details have equal share text, whatever their ids. |
| CarModel.ShareFrame | searchCars/CarModel.swift:16 | The share text begins with "Registration: " + registration + "\nDetails: " and ends with the details. |
| CarModel.ShareRoundTrip | searchCars/CarModel.swift:16 | For a registration without a line break, both the registration and the details can be read back out of the share text. |
| DBHelper.CreateTable | searchCars/DBHelper.swift:35-45 | CREATE TABLE IF NOT EXISTS keeps an existing table as it is and otherwise starts empty with the counter at 0. |
| DBHelper.CreateTableIdempotent | searchCars/DBHelper.swift:35-45 | Running createTable again changes nothing, and a new table meets the schema invariant. |
| DBHelper.Insert | searchCars/DBHelper.swift:47-56 | A new registration appends the row (lastId + 1, registration, details) and advances the counter. A registration already present leaves the table unchanged, because the UNIQUE constraint fails and the error is only printed. |
| DBHelper.Delete | searchCars/DBHelper.swift:85-92 | After a delete, the rows are exactly the old rows whose id differs, and the counter is kept. |
| DBHelper.InsertFresh | searchCars/DBHelper.swift:47-52 | Inserting a new registration adds exactly one row. Its id is above every id assigned before, and the table still meets the invariant. |
| DBHelper.InsertDuplicate | searchCars/DBHelper.swift:47-56 | Inserting an existing registration changes neither the table nor the lookup of that registration. |
| DBHelper.InvariantKept | searchCars/DBHelper.swift:38-39 | Insert and delete keep the schema invariant: ids are unique and ascending in 1..lastId, and registrations are unique. |
| DBHelper.InsertKeepsInvariant | searchCars/DBHelper.swift:38-39 | An insert of a fresh registration keeps the schema invariant. |
| DBHelper.RowsNeverRewritten | searchCars/DBHelper.swift:47-92 | The id counter never decreases. Every row after an insert or delete is either an old row unchanged or a new row with a higher id, so details are never rewritten. |
| DBHelper.DeleteExact | searchCars/DBHelper.swift:85-92 | Deleting an id no row has is a no-op, and no row with the deleted id is listed afterwards. |
| DBHelper.ListingMembers | searchCars/DBHelper.swift:62-66 | The listing holds exactly the rows that match the query. |
| DBHelper.ListingDescending | searchCars/DBHelper.swift:62 | The listing is in strictly descending id order. |
| DBHelper.ListingAll | searchCars/DBHelper.swift:64-66 | With no query or an empty one, the listing is every row, newest first. |
| DBHelper.AllCarsSpec | searchCars/DBHelper.swift:58-83 | getAllCars returns exactly the matching rows, in strictly descending id order. |
| DBHelper.FindAtMostOne | searchCars/DBHelper.swift:94-112 | The exact-match lookup returns at most one row. It is non-empty iff the registration is stored. |
| DBHelper.InsertThenFind | searchCars/DBHelper.swift:94-112 | After inserting a fresh registration, the lookup returns just the new row with its details. |
| DBHelper.CarStore.Open | searchCars/DBHelper.swift:21-33 | Opening the store runs createTable on the file's table, and the store meets the invariant. |
| DBHelper.CarStore.InsertCar | searchCars/DBHelper.swift:47-56 | The store's new state is Insert of its old state, and the invariant is kept. |
| DBHelper.CarStore.GetAllCars | searchCars/DBHelper.swift:58-83 | The loop over rows returns AllCars of the store's state. |
| DBHelper.CarStore.DeleteCar | searchCars/DBHelper.swift:85-92 | The store's new state is Delete of its old state by the car's id, and the invariant is kept. |
| DBHelper.CarStore.SearchCarsByRegistration | searchCars/DBHelper.swift:94-112 | The loop returns the rows whose registration equals the argument, matched with case. |
| Text.TrimShape | searchCars/CarService.swift:90 | Trimming removes a whitespace-only prefix and suffix. What remains neither starts nor ends with whitespace. |
| Text.JoinSplit | searchCars/CarService.swift:92 | Splitting at a separator loses nothing: joining the parts gives the input back. |
| Text.SplitAtOnlySep | searchCars/CarService.swift:92-93 | A text with exactly one separator splits into the parts before and after it. |
| CarService.ParseMotorcheckHTML | searchCars/CarService.swift:74-115 | The extractor with its span loop returns Extract: a parse failure or a failed span selection is an error, a page without a title is returned as decoded, and a titled page is "\n" + title + "\n" + the details. |
| CarService.AppendDetails | searchCars/CarService.swift:89-105 | The loop appends, for each span in order, its formatted line, or nothing when the span is dropped. Each line ends in a break unless it is at the last span index. |
| CarService.KeptIffOneColon | searchCars/CarService.swift:90-95 | A span yields a line iff its text has exactly one colon. The line is then the trimmed key, ": ", and the trimmed value. |
| CarService.NameValueSpan | searchCars/CarService.swift:90-101 | A span "name:value" with a colon-free, already trimmed name and value yields "name: value". |
| CarService.DetailsAreJoinedLines | searchCars/CarService.swift:87-105 | The details are the kept lines joined by line breaks. They get one extra trailing break exactly when some line was kept and the last span was dropped. |
| CarService.DroppedLastSpanLeavesBreak | searchCars/CarService.swift:98-101 | A kept span followed by a dropped one gives a text that ends in the kept line and a line break. |
| CarService.TitledPage | searchCars/CarService.swift:81-107 | A titled page succeeds and starts with "\n" + trimmed title + "\n". It is exactly that when no span is kept. |
| CarService.TitledPageLength | searchCars/CarService.swift:83-107 | A titled page's length is 2 + title length + the lines' lengths + one break per kept line, less one when the last span is kept. |
| CarService.UntitledPage | searchCars/CarService.swift:75-111 | Without a title the decoded text is returned unchanged. Undecodable data gives "". |
| CarService.SearchCarsByRegistration | searchCars/CarService.swift:56-72 | The find-or-fetch over the store: the new state and the result are those of FindOrFetch, and the invariant is kept. |
| CarService.CacheHitSkipsFetch | searchCars/CarService.swift:57-60 | A cached registration completes with "Details found locally" and an unchanged table, whatever the fetch would have returned. |
| CarService.CacheMiss | searchCars/CarService.swift:62-69 | On a miss the fetch result is passed on. A success is cached as the one row of that registration, raw-page fallback included; a failure caches nothing. |
| CarViews.KeepSpec | searchCars/CarViews.swift:110-113 | The filter keeps exactly the cars whose registration or details contain the text, ignoring case. Each matching car is kept as many times as it occurs, the others not at all, as a subsequence in their order. |
| CarViews.FilteredSpec | searchCars/CarViews.swift:104-115 | An empty search keeps every saved car. Otherwise the result is exactly the matching saved cars, each as many times as it is saved, in order. |
| Text.CaseFold | searchCars/CarViews.swift:111-112 | The case fold leaves no capital A-Z, is idempotent, and gives the same text whether or not the input was upper-cased first. |
| Text.IgnoringCaseIgnoresUpper | searchCars/CarViews.swift:111-112 | The case-insensitive containment test gives the same answer for a text and its upper-cased form, on either side. |
| CarViews.FilteredIdempotent | searchCars/CarViews.swift:104-115 | Filtering the filtered list with the same text changes nothing. |
| CarViews.SavedCarsView.FilterCars | searchCars/CarViews.swift:104-115 | filteredCars becomes the filter of savedCars by searchText. |
| CarViews.SavedCarsView.RefreshCars | searchCars/CarViews.swift:86-97 | The search text is cleared, savedCars is every stored car newest first, filteredCars equals it, and the refresh flag is off again. |
| CarViews.SavedCarsView.DeleteCar | searchCars/CarViews.swift:117-121 | The store deletes the car's id, savedCars is reloaded and filtered again, and neither list holds the deleted id. |
| CarViews.SavedCarsView.DeleteCars | searchCars/CarViews.swift:74-79 | A swipe deletes nothing. The selected car becomes the last offset's car, and the alert flag flips once per offset. |
| CarViews.SavedCarsView.RequestDelete | searchCars/CarViews.swift:29-33 | The context menu's Delete selects the car and toggles the alert. |
| CarViews.SavedCarsView.ConfirmDelete | searchCars/CarViews.swift:63-67 | The alert's Delete deletes the selected car and reloads. With nothing selected, nothing changes. |
| ContentView.UnknownRegistration | searchCars/ContentView.swift:119-120 | Details holding "<!DOCTYPE html" show "Unknown registration: " with the current field text, turn on Open Website, and cache nothing. |
| ContentView.ScrapedDetails | searchCars/ContentView.swift:121-124 | Other details are shown as they are and inserted under the registration captured at the start. For a new registration, the lookup then finds them. |
| ContentView.FailedLookup | searchCars/ContentView.swift:126-127 | A failure shows "Error: " and the error's description, and caches nothing. |
| ContentView.RepeatLookupKeepsOldDetails | searchCars/ContentView.swift:111-123 | The screen fetches without checking the cache, so a repeated registration is rejected by UNIQUE: the table and the stored row stay as they were. |
| ContentView.UntitledPageShowsUnknown | searchCars/ContentView.swift:117-120 | A page with no vehicle title that holds the page marker ends as "Unknown registration: " + registration. |
| ContentView.ButtonsAfterLookup | searchCars/ContentView.swift:64-79 | For scraped details, Share shows iff they contain "CC" and Open Website shows iff they contain "Unknown registration:". For an unknown registration, Open Website shows, and Share shows iff the typed registration contains "CC". |
| ContentView.ShareMessageShape | searchCars/ContentView.swift:134-137 | The share message starts "Reg Number:  " (two spaces) and has length 14 + registration + details. It ends with the details. |
| ContentView.ShareMessageRoundTrip | searchCars/ContentView.swift:135-137 | For a registration without a line break, the upper-cased registration and the details can be read back out of the message. |
| ContentView.ContentView.GetCarDetails | searchCars/ContentView.swift:106-111 | Starting a search turns the spinner on and captures the registration the result will be cached under. |
| ContentView.ContentView.LookupCompleted | searchCars/ContentView.swift:112-129 | The completion turns the spinner off, shows ShownDetails of the result, and leaves the store as CachedAfter its old state. |

## Left out

- The HTTP request in `getCarDetails` (searchCars/CarService.swift:16-53) is network I/O. The lookup takes the fetch's outcome as a parameter.
- SwiftSoup's HTML parsing and its CSS selectors are a foreign library. A page reaches the extractor as a `Document`: the optional title text plus the optional list of span texts.
- A span whose `text()` throws is skipped by the code. The model gives it empty text, which has no colon and is dropped the same way.
- CarService.Decode: UTF-8 decoding is not modelled. The data arrives as the decoded text, or `None` for bytes that are not UTF-8.
- Opening the SQLite file and the document directory are I/O. The store is an in-memory table handed to `CarStore.Open`.
- The crash when the connection is nil (the force-unwrapped `result!` and `exactMatchQuery!`) is not modelled. The store is always open.
- `print` and `assertionFailure` on errors are logging only. They are modelled as "no state change".
- DBHelper.MatchesQuery: SQL `LIKE` is modelled as an ASCII case-insensitive substring test. The `%` and `_` wildcards inside the query are taken literally.
- Strings are modelled as sequences of Unicode scalar values. Swift compares and searches `String` by extended grapheme clusters under canonical equivalence; neither is modelled. So a colon followed by a combining mark counts here as a colon, in `FormatDetail` and in every `contains` test.
- Text.ContainsIgnoringCase: ASCII case folding stands in for the locale-aware `localizedCaseInsensitiveContains`.
- Text.Upper: ASCII upper-casing stands in for the locale-aware `uppercased()`.
- ContentView.Describe: a transport error's text is its own description. The parse failure shows its domain string, not the system's full `localizedDescription` wording.
- DBHelper.Insert: ids are unbounded integers. SQLite's 64-bit id limit is not modelled.
- The `DispatchQueue` hops are concurrency plumbing. Each completion and each refresh is one atomic step.
- Layout and UI are not modelled: share sheets, pasteboard writes, the web view, keyboard dismissal in `performSearch`, and the random background image.
- `SearchBar.swift` and `searchCarsApp.swift` are UI only and not part of this model.
