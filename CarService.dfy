/**
 * The detail extractor behind `parseMotorcheckHTML` and the cache-first
 * lookup `searchCarsByRegistration`. The HTML library is not modelled: a page
 * reaches the extractor as the text the library selected from it.
 */
module CarService {
  import opened Wrappers
  import opened Text
  import opened CarModel
  import opened DBHelper

  /** The two errors a lookup can end in. */
  datatype Error =
    | ParseFailure                   // "Failed to parse Motorcheck response"
    | Transport(description: string) // the request failed; the system's own description

  /**
   * What the HTML library finds in a parsed page: the text of the first
   * `.vehicle-details .vehicle-title` element (`None` when there is none or its
   * text cannot be read), and the texts of the `.d-flex.flex-wrap span`
   * elements in document order (`None` when that selection throws).
   */
  datatype Document = Document(title: Option<string>, spans: Option<seq<string>>)

  /** `String(data:encoding: .utf8) ?? ""`, with `None` standing for bytes that are not UTF-8. */
  function Decode(data: Option<string>): string {
    data.GetOr("")
  }

  /**
   * One span's contribution before its line break: kept only when the trimmed
   * text contains a colon and splits at colons into exactly two parts; the key
   * and value are trimmed again and joined by ": ".
   */
  function FormatDetail(span: string): Option<string> {
    var text := Trim(span);
    if ':' in text then
      var parts := Split(text, ':');
      if |parts| == 2 then Some(Trim(parts[0]) + ": " + Trim(parts[1])) else None
    else None
  }

  /**
   * The text appended for span `i`: nothing for a dropped span; otherwise its
   * line, followed by a line break unless `i` is the last index among ALL spans.
   */
  function DetailLine(spans: seq<string>, i: nat): string
    requires i < |spans|
  {
    match FormatDetail(spans[i])
    case None => ""
    case Some(line) => if i == |spans| - 1 then line else line + "\n"
  }

  /** The text appended by the first `n` iterations of the span loop. */
  function DetailsUpTo(spans: seq<string>, n: nat): string
    requires n <= |spans|
  {
    if n == 0 then "" else DetailsUpTo(spans, n - 1) + DetailLine(spans, n - 1)
  }

  /**
   * `parseMotorcheckHTML`: `doc` is the library's parse of the decoded text,
   * `None` when parsing throws.
   */
  function Extract(data: Option<string>, doc: Option<Document>): Result<string, Error> {
    match doc
    case None => Failure(ParseFailure)
    case Some(Document(title, spans)) =>
      match title
      case None => Success(Decode(data))
      case Some(t) =>
        match spans
        case None => Failure(ParseFailure)
        case Some(ss) => Success("\n" + Trim(t) + "\n" + DetailsUpTo(ss, |ss|))
  }

  /** The extractor as the source runs it. */
  method ParseMotorcheckHTML(data: Option<string>, doc: Option<Document>) returns (r: Result<string, Error>)
    ensures r == Extract(data, doc)
  {
    var page := Decode(data);
    match doc
    case None =>
      r := Failure(ParseFailure);
    case Some(document) =>
      match document.title
      case None =>
        r := Success(page);
      case Some(title) =>
        match document.spans
        case None =>
          r := Failure(ParseFailure);
        case Some(spans) =>
          var resultText := AppendDetails(Trim(title) + "\n", spans);
          ConcatAssoc("\n", Trim(title), "\n");
          ConcatAssoc("\n", Trim(title) + "\n", DetailsUpTo(spans, |spans|));
          r := Success("\n" + resultText);
  }

  /** The span loop: one pass over the spans, appending each kept line to `resultText`. */
  method AppendDetails(start: string, spans: seq<string>) returns (resultText: string)
    ensures resultText == start + DetailsUpTo(spans, |spans|)
  {
    resultText := start;
    var total := |spans|;
    var index := 0;
    while index < total
      invariant 0 <= index <= total
      invariant resultText == start + DetailsUpTo(spans, index)
    {
      // The trim, colon and split checks on this span's text.
      var detail := FormatDetail(spans[index]);
      var appended := "";
      if detail.Some? {
        var isLastDetail := index == total - 1;
        appended := if isLastDetail then detail.value else detail.value + "\n";
      }
      assert DetailsUpTo(spans, index + 1) == DetailsUpTo(spans, index) + appended;
      ConcatAssoc(start, DetailsUpTo(spans, index), appended);
      resultText := resultText + appended;
      index := index + 1;
    }
  }

  // ---------------------------------------------------------------------------
  // What the extracted text looks like

  /** The formatted lines of the kept spans, in span order. */
  function KeptLines(spans: seq<string>): (lines: seq<string>)
    ensures |lines| <= |spans|
  {
    if spans == [] then []
    else
      var init := KeptLines(spans[..|spans| - 1]);
      match FormatDetail(spans[|spans| - 1])
      case None => init
      case Some(line) => init + [line]
  }

  /** A span is kept exactly when it holds one colon; its line is then `key: value`, both trimmed. */
  lemma KeptIffOneColon(span: string)
    ensures FormatDetail(span).Some? <==> multiset(span)[':'] == 1
    ensures multiset(span)[':'] == 1 ==>
      var text := Trim(span);
      var k := IndexOf(text, ':');
      k < |text| && FormatDetail(span) == Some(Trim(text[..k]) + ": " + Trim(text[k + 1..]))
  {
    var text := Trim(span);
    assert !IsWhitespace(':');
    TrimKeepsCount(span, ':');
    if multiset(span)[':'] == 1 {
      SplitAtOnlySep(text, ':');
    }
  }

  /** Each line's text followed by a line break. */
  function Terminated(lines: seq<string>): string {
    if lines == [] then "" else Terminated(lines[..|lines| - 1]) + lines[|lines| - 1] + "\n"
  }

  lemma {:induction false} TerminatedThenLine(lines: seq<string>, last: string)
    ensures Terminated(lines) + last == Join(lines + [last], '\n')
  {
    if lines != [] {
      var init, final := lines[..|lines| - 1], lines[|lines| - 1];
      TerminatedThenLine(init, final);
      TerminatedThenLineJoin(init, final, last);
      FrontThenLast(lines);
      assert init + [final, last] == lines + [last];
      calc {
        Terminated(lines) + last;
        Terminated(init) + final + "\n" + last;
        Join(init + [final], '\n') + "\n" + last;
      }
    }
  }

  lemma {:induction false} TerminatedThenLineJoin(lines: seq<string>, a: string, b: string)
    ensures Join(lines + [a], '\n') + "\n" + b == Join(lines + [a, b], '\n')
  {
    if lines != [] {
      TerminatedThenLineJoin(lines[1..], a, b);
      assert (lines + [a])[1..] == lines[1..] + [a];
      assert (lines + [a, b])[1..] == lines[1..] + [a, b];
    }
  }

  /** Before the last span, every kept line carries its line break. */
  lemma {:induction false} DetailsBeforeLast(spans: seq<string>, n: nat)
    requires n < |spans|
    ensures DetailsUpTo(spans, n) == Terminated(KeptLines(spans[..n]))
  {
    if n > 0 {
      DetailsBeforeLast(spans, n - 1);
      assert spans[..n][..n - 1] == spans[..n - 1];
    }
  }

  /**
   * The span loop's output: the kept lines joined by line breaks, plus one
   * trailing line break exactly when some span was kept and the LAST span was
   * dropped (the break is decided by a line's index among all spans).
   */
  lemma DetailsAreJoinedLines(spans: seq<string>)
    ensures var lines := KeptLines(spans);
      DetailsUpTo(spans, |spans|) ==
        if lines == [] then ""
        else if FormatDetail(spans[|spans| - 1]).Some? then Join(lines, '\n')
        else Join(lines, '\n') + "\n"
  {
    if spans != [] {
      var n := |spans| - 1;
      DetailsBeforeLast(spans, n);
      var init := KeptLines(spans[..n]);
      assert DetailsUpTo(spans, |spans|) == Terminated(init) + DetailLine(spans, n);
      match FormatDetail(spans[n])
      case None =>
        assert KeptLines(spans) == init;
        if init != [] {
          var front, final := init[..|init| - 1], init[|init| - 1];
          TerminatedThenLine(front, final);
          FrontThenLast(init);
          assert Terminated(init) == Terminated(front) + final + "\n";
        }
      case Some(line) =>
        assert KeptLines(spans) == init + [line];
        TerminatedThenLine(init, line);
    }
  }

  function SumLengths(lines: seq<string>): nat {
    if lines == [] then 0 else SumLengths(lines[..|lines| - 1]) + |lines[|lines| - 1]|
  }

  lemma {:induction false} JoinLength(lines: seq<string>)
    requires lines != []
    ensures |Join(lines, '\n')| == SumLengths(lines) + |lines| - 1
  {
    if |lines| > 1 {
      JoinLength(lines[1..]);
      SumLengthsFront(lines);
    }
  }

  lemma {:induction false} SumLengthsFront(lines: seq<string>)
    requires lines != []
    ensures SumLengths(lines) == |lines[0]| + SumLengths(lines[1..])
  {
    if |lines| > 1 {
      SumLengthsFront(lines[..|lines| - 1]);
      assert lines[..|lines| - 1][1..] == lines[1..][..|lines| - 2];
    }
  }

  /** A page with a title yields a leading break, the trimmed title, a break, then the details. */
  lemma TitledPage(data: Option<string>, title: string, spans: seq<string>)
    ensures var r := Extract(data, Some(Document(Some(title), Some(spans))));
      && r.Success?
      && StartsWith(r.value, "\n" + Trim(title) + "\n")
      && (KeptLines(spans) == [] ==> r.value == "\n" + Trim(title) + "\n")
  {
    DetailsAreJoinedLines(spans);
    var r := Extract(data, Some(Document(Some(title), Some(spans))));
    var head := "\n" + Trim(title) + "\n";
    assert r.value == head + DetailsUpTo(spans, |spans|);
    assert r.value[..|head|] == head;
  }

  /**
   * The length of a titled page's text: two line breaks around the title,
   * the kept lines, and one break after every kept line except one on the
   * last span.
   */
  lemma TitledPageLength(data: Option<string>, title: string, spans: seq<string>)
    ensures var r := Extract(data, Some(Document(Some(title), Some(spans))));
      var lines := KeptLines(spans);
      var breaks := if lines != [] && FormatDetail(spans[|spans| - 1]).Some? then |lines| - 1 else |lines|;
      r.Success? && |r.value| == 2 + |Trim(title)| + SumLengths(lines) + breaks
  {
    DetailsAreJoinedLines(spans);
    var lines := KeptLines(spans);
    if lines != [] {
      JoinLength(lines);
    }
  }

  /**
   * A span "name:value" whose name and value carry no colon and do not start
   * or end with whitespace becomes the line "name: value".
   */
  lemma NameValueSpan(name: string, value: string)
    requires name != [] && !IsWhitespace(name[0]) && !IsWhitespace(name[|name| - 1]) && ':' !in name
    requires value != [] && !IsWhitespace(value[0]) && !IsWhitespace(value[|value| - 1]) && ':' !in value
    ensures FormatDetail(name + ":" + value) == Some(name + ": " + value)
  {
    var span := name + ":" + value;
    assert Trim(span) == span by {
      assert span[0] == name[0] && span[|span| - 1] == value[|value| - 1];
      TrimUnchanged(span);
    }
    assert Trim(name) == name by { TrimUnchanged(name); }
    assert Trim(value) == value by { TrimUnchanged(value); }
    assert multiset(span)[':'] == 1 by {
      assert multiset(span) == multiset(name) + multiset{':'} + multiset(value);
    }
    assert IndexOf(span, ':') == |name| by {
      assert span[..|name|] == name;
      assert span[|name|] == ':';
    }
    assert span[..|name|] == name && span[|name| + 1..] == value;
    KeptIffOneColon(span);
  }

  /**
   * The trailing line break: when the last span is dropped, the kept line
   * before it still ends in "\n" (with spans "Make:Toyota" and "Model Year"
   * the details are "Make: Toyota\n").
   */
  lemma DroppedLastSpanLeavesBreak(data: Option<string>, title: string, kept: string, dropped: string)
    requires FormatDetail(kept).Some? && FormatDetail(dropped).None?
    ensures Extract(data, Some(Document(Some(title), Some([kept, dropped]))))
      == Success("\n" + Trim(title) + "\n" + FormatDetail(kept).value + "\n")
  {
    var spans := [kept, dropped];
    var line := FormatDetail(kept).value;
    assert DetailLine(spans, 0) == line + "\n";
    assert DetailLine(spans, 1) == "";
    assert DetailsUpTo(spans, 1) == "" + (line + "\n");
    assert DetailsUpTo(spans, 2) == DetailsUpTo(spans, 1) + "";
    var head := "\n" + Trim(title) + "\n";
    assert DetailsUpTo(spans, 2) == line + "\n";
    assert Extract(data, Some(Document(Some(title), Some(spans)))) == Success(head + DetailsUpTo(spans, 2));
    ConcatAssoc(head, line, "\n");
  }

  /** Without a title element the page text comes back unchanged; undecodable bytes give "". */
  lemma UntitledPage(data: Option<string>, spans: Option<seq<string>>)
    ensures Extract(data, Some(Document(None, spans))) == Success(Decode(data))
    ensures data.None? ==> Extract(data, Some(Document(None, spans))) == Success("")
  {
  }

  // ---------------------------------------------------------------------------
  // Cache-first lookup

  /** The reply for a registration that is already cached. */
  const FoundLocally: string := "Details found locally"

  /**
   * `searchCarsByRegistration` as a value: the table afterwards and the
   * completion's result, given what the remote fetch would return.
   */
  function FindOrFetch(t: Table, registration: string, fetched: Result<string, Error>): (Table, Result<string, Error>) {
    if FindByRegistration(t, registration) != [] then (t, Success(FoundLocally))
    else
      match fetched
      case Success(details) => (Insert(t, registration, details), Success(details))
      case Failure(e) => (t, Failure(e))
  }

  /** `searchCarsByRegistration` over the store, with the remote fetch's outcome as an input. */
  method SearchCarsByRegistration(store: CarStore, registration: string, fetched: Result<string, Error>)
    returns (r: Result<string, Error>)
    requires store.Valid()
    modifies store
    ensures store.Valid()
    ensures (store.State(), r) == FindOrFetch(old(store.State()), registration, fetched)
  {
    var localCars := store.SearchCarsByRegistration(registration);
    if localCars != [] {
      r := Success(FoundLocally);
    } else {
      match fetched
      case Success(details) =>
        store.InsertCar(registration, details);
        r := Success(details);
      case Failure(error) =>
        r := Failure(error);
    }
  }

  /** A cache hit answers "Details found locally" whatever the fetch would have returned, and changes nothing. */
  lemma CacheHitSkipsFetch(t: Table, registration: string, fetched: Result<string, Error>, other: Result<string, Error>)
    requires HasRegistration(t, registration)
    requires TableInvariant(t)
    ensures FindOrFetch(t, registration, fetched) == (t, Success(FoundLocally))
    ensures FindOrFetch(t, registration, fetched) == FindOrFetch(t, registration, other)
  {
    FindAtMostOne(t, registration);
  }

  /**
   * A miss with a successful fetch caches exactly what it returns, the
   * raw-page fallback included; a failed fetch caches nothing and passes its
   * error on.
   */
  lemma CacheMiss(t: Table, registration: string, fetched: Result<string, Error>)
    requires TableInvariant(t)
    requires !HasRegistration(t, registration)
    ensures var (t', r) := FindOrFetch(t, registration, fetched);
      && r == fetched
      && (fetched.Success? ==> FindByRegistration(t', registration) == [Car(t'.lastId, registration, fetched.value)])
      && (fetched.Failure? ==> t' == t)
  {
    FindAtMostOne(t, registration);
    if fetched.Success? {
      InsertThenFind(t, registration, fetched.value);
    }
  }
}
