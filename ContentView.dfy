/**
 * The search screen (`ContentView`) without its layout: what a finished lookup
 * shows and caches, the text its Share button sends, and when its two
 * conditional buttons show.
 */
module ContentView {
  import opened Wrappers
  import opened Text
  import opened CarModel
  import opened DBHelper
  import opened CarService

  /** The marker of a raw page: the extractor found no vehicle title. */
  const PageMarker: string := "<!DOCTYPE html"
  const UnknownPrefix: string := "Unknown registration: "
  const ErrorPrefix: string := "Error: "

  /** The text `localizedDescription` gives for an error. */
  function Describe(e: Error): string {
    match e
    case ParseFailure => "Failed to parse Motorcheck response"
    case Transport(description) => description
  }

  /**
   * The text the completion handler puts in `carDetails`; `registration` is
   * the text field's value when the handler runs.
   */
  function ShownDetails(registration: string, result: Result<string, Error>): string {
    match result
    case Success(details) =>
      if Contains(details, PageMarker) then UnknownPrefix + registration else details
    case Failure(e) => ErrorPrefix + Describe(e)
  }

  /** The table after the completion handler: only scraped details are inserted, under `inputreg`. */
  function CachedAfter(t: Table, inputreg: string, result: Result<string, Error>): Table {
    match result
    case Success(details) =>
      if Contains(details, PageMarker) then t else Insert(t, inputreg, details)
    case Failure(_) => t
  }

  /** The Share button is visible when the shown text contains "CC". */
  predicate ShareVisible(carDetails: string) {
    Contains(carDetails, "CC")
  }

  /** The Open Website button is visible when the shown text reports an unknown registration. */
  predicate OpenWebsiteVisible(carDetails: string) {
    Contains(carDetails, "Unknown registration:")
  }

  const ShareLabel: string := "Reg Number: "

  /** `share()`'s message: the label, a space, the upper-cased registration, a line break, the details. */
  function ShareMessage(carRegistration: string, carDetails: string): string {
    ShareLabel + " " + Upper(carRegistration) + "\n" + carDetails
  }

  /** Reads a share message back into (upper-cased registration, details). */
  function ParseShareMessage(message: string): Option<(string, string)> {
    if !StartsWith(message, ShareLabel + " ") then None
    else
      var rest := message[|ShareLabel| + 1..];
      var k := IndexOf(rest, '\n');
      if k < |rest| then Some((rest[..k], rest[k + 1..])) else None
  }

  // ---------------------------------------------------------------------------
  // Properties

  /**
   * A page without details (the raw-page fallback) shows "Unknown registration: "
   * with the field's current text, turns on Open Website, and caches nothing.
   */
  lemma UnknownRegistration(t: Table, registration: string, inputreg: string, details: string)
    requires Contains(details, PageMarker)
    ensures ShownDetails(registration, Success(details)) == UnknownPrefix + registration
    ensures OpenWebsiteVisible(ShownDetails(registration, Success(details)))
    ensures CachedAfter(t, inputreg, Success(details)) == t
  {
    var shown := UnknownPrefix + registration;
    assert StartsWith(UnknownPrefix, "Unknown registration:");
    ContainsInConcat(UnknownPrefix, registration, "Unknown registration:");
  }

  /**
   * Scraped details are shown as they are and cached under the registration
   * captured when the search started; a fresh registration then finds them.
   */
  lemma ScrapedDetails(t: Table, registration: string, inputreg: string, details: string)
    requires TableInvariant(t)
    requires !Contains(details, PageMarker)
    ensures ShownDetails(registration, Success(details)) == details
    ensures CachedAfter(t, inputreg, Success(details)) == Insert(t, inputreg, details)
    ensures !HasRegistration(t, inputreg) ==>
      FindByRegistration(CachedAfter(t, inputreg, Success(details)), inputreg)
        == [Car(t.lastId + 1, inputreg, details)]
  {
    if !HasRegistration(t, inputreg) {
      InsertThenFind(t, inputreg, details);
    }
  }

  /** A failed lookup shows "Error: " and the description, and caches nothing. */
  lemma FailedLookup(t: Table, registration: string, inputreg: string, e: Error)
    ensures ShownDetails(registration, Failure(e)) == ErrorPrefix + Describe(e)
    ensures StartsWith(ShownDetails(registration, Failure(e)), ErrorPrefix)
    ensures CachedAfter(t, inputreg, Failure(e)) == t
  {
  }

  /**
   * This screen fetches without looking in the cache first, so a registration
   * already cached reaches `insertCar`, which UNIQUE rejects: the old details stay.
   */
  lemma RepeatLookupKeepsOldDetails(t: Table, car: Car, registration: string, result: Result<string, Error>)
    requires TableInvariant(t)
    requires car in t.rows
    ensures CachedAfter(t, car.registration, result) == t
    ensures FindByRegistration(CachedAfter(t, car.registration, result), car.registration) == [car]
  {
    InsertDuplicate(t, car, if result.Success? then result.value else "");
    FindAtMostOne(t, car.registration);
    assert car in FindByRegistration(t, car.registration);
  }

  /** A page with no vehicle title that carries the page marker ends as "Unknown registration". */
  lemma UntitledPageShowsUnknown(data: Option<string>, spans: Option<seq<string>>, registration: string)
    requires Contains(Decode(data), PageMarker)
    ensures ShownDetails(registration, Extract(data, Some(Document(None, spans)))) == UnknownPrefix + registration
  {
    UntitledPage(data, spans);
  }

  /**
   * The two conditional buttons after a lookup: scraped details show Share
   * exactly when they contain "CC" and Open Website exactly when they contain
   * "Unknown registration:"; the unknown-registration text always shows Open
   * Website, and Share exactly when the registration typed contains "CC".
   */
  lemma ButtonsAfterLookup(registration: string, details: string)
    ensures !Contains(details, PageMarker) ==>
      && (ShareVisible(ShownDetails(registration, Success(details))) <==> Contains(details, "CC"))
      && (OpenWebsiteVisible(ShownDetails(registration, Success(details))) <==> Contains(details, "Unknown registration:"))
    ensures Contains(details, PageMarker) ==>
      && OpenWebsiteVisible(ShownDetails(registration, Success(details)))
      && (ShareVisible(ShownDetails(registration, Success(details))) <==> Contains(registration, "CC"))
  {
    if Contains(details, PageMarker) {
      UnknownRegistration(EmptyTable, registration, registration, details);
      assert 'C' !in UnknownPrefix;
      ContainsPastPrefix(UnknownPrefix, registration, "CC");
    }
  }

  /** The share message has two spaces after the label and ends with the details. */
  lemma ShareMessageShape(carRegistration: string, carDetails: string)
    ensures var m := ShareMessage(carRegistration, carDetails);
      && StartsWith(m, "Reg Number:  ")
      && |m| == 14 + |carRegistration| + |carDetails|
      && m[|m| - |carDetails|..] == carDetails
  {
  }

  /** With a single-line registration, the upper-cased registration and the details come back out. */
  lemma ShareMessageRoundTrip(carRegistration: string, carDetails: string)
    requires '\n' !in carRegistration
    ensures ParseShareMessage(ShareMessage(carRegistration, carDetails)) == Some((Upper(carRegistration), carDetails))
  {
    var m := ShareMessage(carRegistration, carDetails);
    var reg := Upper(carRegistration);
    UpperKeepsNewlines(carRegistration);
    var n := |ShareLabel| + 1;
    assert m[..n] == ShareLabel + " ";
    var rest := m[n..];
    assert rest == reg + "\n" + carDetails;
    assert rest[..|reg|] == reg;
    assert rest[|reg|] == '\n';
    assert IndexOf(rest, '\n') == |reg|;
    assert rest[|reg| + 1..] == carDetails;
  }

  /** `ContentView`'s state: the store and the `@State` fields the lookup touches. */
  class ContentView {
    const store: CarStore
    var carRegistration: string
    var carDetails: string
    var isLoading: bool

    constructor (store: CarStore)
      ensures this.store == store
      ensures carRegistration == "" && carDetails == "" && !isLoading
    {
      this.store := store;
      carRegistration, carDetails, isLoading := "", "", false;
    }

    /**
     * `getCarDetails`, up to the request: show the spinner and capture the
     * registration the result will be cached under.
     */
    method GetCarDetails() returns (inputreg: string)
      modifies this`isLoading
      ensures isLoading
      ensures inputreg == carRegistration
    {
      isLoading := true;
      inputreg := carRegistration;
    }

    /** The completion handler of `getCarDetails`, run as one step on the main queue. */
    method LookupCompleted(inputreg: string, result: Result<string, Error>)
      requires store.Valid()
      modifies this`isLoading, this`carDetails, store
      ensures store.Valid()
      ensures !isLoading
      ensures carDetails == ShownDetails(carRegistration, result)
      ensures store.State() == CachedAfter(old(store.State()), inputreg, result)
    {
      isLoading := false;
      match result
      case Success(details) =>
        if Contains(details, PageMarker) {
          carDetails := UnknownPrefix + carRegistration;
        } else {
          carDetails := details;
          store.InsertCar(inputreg, details);
        }
      case Failure(error) =>
        carDetails := ErrorPrefix + Describe(error);
    }
  }
}
