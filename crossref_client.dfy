/** CrossRef record normalisation and the paginated fetch loop
    (src/crossref_client.py). The HTTP exchange is replaced by the sequence of
    responses the API gives to the loop's successive requests. */
module Crossref {
  import opened Wrappers
  import opened Strings
  import opened Seqs
  import Summarizer

  /** One academic paper, as the rest of the pipeline sees it. */
  datatype Paper = Paper(
    title: string,
    doi: string,
    url: string,
    abstractText: string,
    publishedDate: string,
    journalName: string,
    authors: seq<string>)

  /** An `author` entry; an absent `given` or `family` reads as "". */
  datatype Author = Author(given: string, family: string)

  /** One decoded work record. A key that is absent reads as the default its
      `.get` gives: "" for strings, [] for lists. `dates` maps each date field
      present in the record to its `date-parts` ([[]] when that key is absent). */
  datatype Item = Item(
    titles: seq<string>,
    doi: string,
    url: string,
    abstractText: string,
    dates: map<string, seq<seq<int>>>,
    containerTitles: seq<string>,
    authors: seq<Author>)

  /** The date fields, in the order they are tried. */
  const DateFields: seq<string> := ["published-print", "published-online", "published"]

  const DoiPrefix: string := "https://doi.org/"

  // ---------------------------------------------------------------------------
  // _parse_item, field by field
  // ---------------------------------------------------------------------------

  /** The first title, or "" when the list is empty. */
  function RawTitle(item: Item): string {
    if item.titles != [] then item.titles[0] else ""
  }

  /** Title cleaning: tags are deleted (replaced by nothing), whitespace runs
      become one space, and the ends are stripped. */
  function CleanTitle(raw: string): string {
    Trim(Summarizer.CollapseSpaces(Summarizer.ReplaceTags(raw, "")))
  }

  function UrlOf(item: Item): string {
    if item.doi != "" then DoiPrefix + item.doi else item.url
  }

  /** The `date-parts` of the first date field present in `dates`, trying
      `fields` in order. */
  function SelectDateParts(dates: map<string, seq<seq<int>>>, fields: seq<string>): Option<seq<seq<int>>> {
    if fields == [] then None
    else if fields[0] in dates then Some(dates[fields[0]])
    else SelectDateParts(dates, fields[1..])
  }

  /** `f"{n:02d}"`: zero-padded to two characters; the sign counts towards the width. */
  function Pad2(n: int): string {
    if 0 <= n < 10 then "0" + IntToString(n) else IntToString(n)
  }

  /** `Y-MM-DD`, `Y-MM` or `Y` from the first three, two or one date parts. */
  function FormatDateParts(parts: seq<int>): string {
    if |parts| >= 3 then IntToString(parts[0]) + "-" + Pad2(parts[1]) + "-" + Pad2(parts[2])
    else if |parts| == 2 then IntToString(parts[0]) + "-" + Pad2(parts[1])
    else if |parts| == 1 then IntToString(parts[0])
    else ""
  }

  function PublishedDate(dateParts: Option<seq<seq<int>>>): string {
    if dateParts.Some? && dateParts.value != [] && dateParts.value[0] != [] then FormatDateParts(dateParts.value[0])
    else ""
  }

  function JournalNameOf(item: Item, fallbackJournal: string): string {
    if item.containerTitles != [] && item.containerTitles[0] != "" then item.containerTitles[0] else fallbackJournal
  }

  /** The display name of one author, or None when it is skipped. */
  function AuthorName(a: Author): Option<string> {
    if a.given != "" && a.family != "" then Some(a.given + " " + a.family)
    else if a.family != "" then Some(a.family)
    else None
  }

  function AuthorNames(authors: seq<Author>): seq<string> {
    if authors == [] then []
    else
      var last := AuthorName(authors[|authors| - 1]);
      AuthorNames(authors[..|authors| - 1]) + (if last.Some? then [last.value] else [])
  }

  /** What `_parse_item` returns for `item`. */
  function ParsedItem(item: Item, fallbackJournal: string): Option<Paper> {
    var raw := RawTitle(item);
    if raw == "" then None
    else Some(Paper(
      CleanTitle(raw),
      item.doi,
      UrlOf(item),
      item.abstractText,
      PublishedDate(SelectDateParts(item.dates, DateFields)),
      JournalNameOf(item, fallbackJournal),
      AuthorNames(item.authors)))
  }

  /** The date loop of `_parse_item`: the parts under the first of `fields`
      the record has, leaving the loop at the first hit. */
  method FindDateParts(dates: map<string, seq<seq<int>>>, fields: seq<string>) returns (dateParts: Option<seq<seq<int>>>)
    ensures dateParts == SelectDateParts(dates, fields)
  {
    dateParts := None;
    var f := 0;
    while f < |fields|
      invariant 0 <= f <= |fields|
      invariant SelectDateParts(dates, fields) == SelectDateParts(dates, fields[f..])
    {
      if fields[f] in dates {
        dateParts := Some(dates[fields[f]]);
        return;
      }
      assert fields[f..][1..] == fields[f + 1..];
      f := f + 1;
    }
  }

  /** The author loop of `_parse_item`: appends each author's display name,
      skipping authors without a family name. */
  method CollectAuthors(authors: seq<Author>) returns (names: seq<string>)
    ensures names == AuthorNames(authors)
  {
    names := [];
    for k := 0 to |authors|
      invariant names == AuthorNames(authors[..k])
    {
      var a := authors[k];
      if a.given != "" && a.family != "" {
        names := names + [a.given + " " + a.family];
      } else if a.family != "" {
        names := names + [a.family];
      }
      assert authors[..k + 1][..k] == authors[..k];
    }
    assert authors[..|authors|] == authors;
  }

  /** `_parse_item`: scans the date fields with an early exit and builds the
      author list by appending. */
  method ParseItem(item: Item, fallbackJournal: string) returns (r: Option<Paper>)
    ensures r == ParsedItem(item, fallbackJournal)
  {
    var title := if item.titles != [] then item.titles[0] else "";
    if title == "" {
      return None;
    }
    title := CleanTitle(title);

    var url := if item.doi != "" then DoiPrefix + item.doi else item.url;

    var publishedDate := "";
    var dateParts := FindDateParts(item.dates, DateFields);
    if dateParts.Some? && dateParts.value != [] && dateParts.value[0] != [] {
      publishedDate := FormatDateParts(dateParts.value[0]);
    }

    var journalName := "";
    if item.containerTitles != [] {
      journalName := item.containerTitles[0];
    }
    if journalName == "" {
      journalName := fallbackJournal;
    }

    var authors := CollectAuthors(item.authors);

    r := Some(Paper(title, item.doi, url, item.abstractText, publishedDate, journalName, authors));
  }

  // ---------------------------------------------------------------------------
  // Properties of a parsed record
  // ---------------------------------------------------------------------------

  /** A record is rejected exactly when its title list is empty or its first
      title is empty; the test comes before cleaning. */
  lemma RejectedIffNoTitle(item: Item, fallbackJournal: string)
    ensures ParsedItem(item, fallbackJournal).None? <==> (item.titles == [] || item.titles[0] == "")
  {
  }

  /** The cleaned title holds no tag, and its whitespace is normalised. */
  lemma CleanTitleIsClean(raw: string)
    ensures Summarizer.TagFree(CleanTitle(raw)) && !Summarizer.ContainsTag(CleanTitle(raw))
    ensures Summarizer.Normalized(CleanTitle(raw))
  {
    var replaced := Summarizer.ReplaceTags(raw, "");
    Summarizer.ReplaceTagsTagFree(raw, "");
    Summarizer.CollapseSpacesTagFree(replaced);
    Summarizer.TrimTagFree(Summarizer.CollapseSpaces(replaced));
    Summarizer.TagFreeHasNoTag(CleanTitle(raw));
    Summarizer.CollapseSpacesCollapses(replaced);
    Summarizer.TrimSpacesCollapsed(Summarizer.CollapseSpaces(replaced));
  }

  /** A title that is one tag and nothing else is not rejected: it yields a
      paper whose title is empty. */
  lemma TagOnlyTitle(item: Item, fallbackJournal: string)
    requires item.titles != [] && Summarizer.IsTag(item.titles[0])
    ensures ParsedItem(item, fallbackJournal).Some?
    ensures ParsedItem(item, fallbackJournal).value.title == ""
  {
    var t := item.titles[0];
    var k := IndexOf(t[1..], '>');
    assert t[1..][|t| - 2] == '>';
    assert forall j :: 0 <= j < |t| - 2 ==> t[1..][j] == t[j + 1];
    assert k == |t| - 2;
    assert Summarizer.TagLength(t) == |t|;
    assert Summarizer.ReplaceTags(t, "") == "" + Summarizer.ReplaceTags(t[|t|..], "");
  }

  /** A title tag is deleted, not replaced by a space: the cleaned title is
      the same as if the tag had never been there, so `CRISPR<sup>2</sup>`
      keeps `CRISPR2` in one word. */
  lemma TitleTagDeleted(x: string, t: string, y: string)
    requires '<' !in x && Summarizer.IsTag(t)
    ensures CleanTitle(x + t + y) == CleanTitle(x + y)
  {
    Summarizer.ReplaceTagsSplit(x, t, y, "");
    Summarizer.ReplaceTagsPlainPrefix(x, y, "");
    assert x + "" + Summarizer.ReplaceTags(y, "") == x + Summarizer.ReplaceTags(y, "");
  }

  /** A clean title wrapped in markup, such as `<i>…</i>`, comes out as the
      title itself. */
  lemma TitleWrapped(open: string, w: string, close: string)
    requires Summarizer.IsTag(open) && Summarizer.IsTag(close)
    requires '<' !in w && Summarizer.Normalized(w)
    ensures CleanTitle(open + w + close) == w
  {
    Summarizer.ReplaceTagsWrapped(open, w, close, "");
    assert "" + w + "" == w;
    Summarizer.CollapseSpacesIdentity(w);
    TrimKeeps(w);
  }

  /** With a DOI the URL is the DOI resolver's, and the DOI can be read back
      from it; without one it is the record's own URL. */
  lemma UrlFromDoi(item: Item)
    ensures item.doi != "" ==> |UrlOf(item)| > |DoiPrefix| && UrlOf(item)[..|DoiPrefix|] == DoiPrefix
                               && UrlOf(item)[|DoiPrefix|..] == item.doi
    ensures item.doi == "" ==> UrlOf(item) == item.url
  {
  }

  /** The first date field present decides the date, even when its date parts
      are empty and a later field has some. */
  lemma FirstPresentDateFieldDecides(dates: map<string, seq<seq<int>>>, i: nat)
    requires i < |DateFields| && DateFields[i] in dates
    requires forall j :: 0 <= j < i ==> DateFields[j] !in dates
    ensures SelectDateParts(dates, DateFields) == Some(dates[DateFields[i]])
    ensures dates[DateFields[i]] == [] || dates[DateFields[i]][0] == [] ==>
              PublishedDate(SelectDateParts(dates, DateFields)) == ""
  {
    var tail1 := DateFields[1..];
    var tail2 := tail1[1..];
    assert tail1 == ["published-online", "published"];
    assert tail2 == ["published"];
    if i == 0 {
      assert SelectDateParts(dates, DateFields) == Some(dates[DateFields[0]]);
    } else if i == 1 {
      assert DateFields[0] !in dates;
      assert SelectDateParts(dates, tail1) == Some(dates[DateFields[1]]);
    } else {
      assert DateFields[0] !in dates && DateFields[1] !in dates;
      assert SelectDateParts(dates, tail2) == Some(dates[DateFields[2]]);
      assert SelectDateParts(dates, tail1) == Some(dates[DateFields[2]]);
    }
  }

  /** No date field at all gives an empty date. */
  lemma NoDateField(dates: map<string, seq<seq<int>>>)
    requires forall f :: f in DateFields ==> f !in dates
    ensures PublishedDate(SelectDateParts(dates, DateFields)) == ""
  {
    var tail1 := DateFields[1..];
    var tail2 := tail1[1..];
    assert tail1 == ["published-online", "published"];
    assert tail2 == ["published"];
    assert DateFields[0] in DateFields && DateFields[1] in DateFields && DateFields[2] in DateFields;
    assert tail2[1..] == [];
    assert SelectDateParts(dates, tail2) == None;
    assert SelectDateParts(dates, tail1) == None;
  }

  /** `int(...)` over `-`-separated pieces. */
  function ParseDateString(s: string): seq<int> {
    var pieces := Split(s, '-');
    seq(|pieces|, i requires 0 <= i < |pieces| => ParseNat(pieces[i]) as int)
  }

  /** `:02d` writes a number below 100 as exactly two digits, with a leading
      zero below 10, and a larger one unpadded; it contains no `-` and reads
      back as its number. */
  lemma Pad2Parses(n: nat)
    ensures n < 100 ==> |Pad2(n)| == 2 && '0' <= Pad2(n)[0] <= '9' && '0' <= Pad2(n)[1] <= '9'
    ensures n < 10 ==> Pad2(n)[0] == '0'
    ensures n >= 10 ==> Pad2(n) == IntToString(n)
    ensures '-' !in Pad2(n)
    ensures ParseNat(Pad2(n)) == n
  {
    if 10 <= n < 100 {
      assert NatToString(n) == NatToString(n / 10) + [DigitChar(n % 10)];
    }
    ParseNatToString(n);
    if n < 10 {
      ParseNatLeadingZero(NatToString(n));
    }
  }

  lemma YearPiece(y: nat)
    ensures '-' !in IntToString(y)
    ensures ParseNat(IntToString(y)) == y
  {
    ParseNatToString(y);
  }

  lemma ParseDateStringOf(pieces: seq<string>)
    requires pieces != [] && forall i :: 0 <= i < |pieces| ==> '-' !in pieces[i]
    ensures ParseDateString(Join(pieces, "-")) == seq(|pieces|, i requires 0 <= i < |pieces| => ParseNat(pieces[i]) as int)
  {
    SplitJoin(pieces, '-');
  }

  lemma RoundTripYear(parts: seq<int>)
    requires |parts| == 1 && parts[0] >= 0
    ensures ParseDateString(FormatDateParts(parts)) == parts
  {
    var y := IntToString(parts[0]);
    YearPiece(parts[0]);
    assert Join([y], "-") == y;
    ParseDateStringOf([y]);
  }

  lemma RoundTripMonth(parts: seq<int>)
    requires |parts| == 2 && parts[0] >= 0 && parts[1] >= 0
    ensures ParseDateString(FormatDateParts(parts)) == parts
  {
    var y := IntToString(parts[0]);
    var m := Pad2(parts[1]);
    YearPiece(parts[0]);
    Pad2Parses(parts[1]);
    assert Join([y, m], "-") == y + "-" + m;
    ParseDateStringOf([y, m]);
  }

  lemma JoinThree(a: string, b: string, c: string, sep: string)
    ensures Join([a, b, c], sep) == a + sep + b + sep + c
  {
    assert [a, b, c][1..] == [b, c];
    assert Join([b, c], sep) == b + sep + c;
  }

  lemma RoundTripDay(parts: seq<int>)
    requires |parts| >= 3 && parts[0] >= 0 && parts[1] >= 0 && parts[2] >= 0
    ensures ParseDateString(FormatDateParts(parts)) == parts[..3]
  {
    var y := IntToString(parts[0]);
    var m := Pad2(parts[1]);
    var d := Pad2(parts[2]);
    var pieces := [y, m, d];
    JoinThree(y, m, d, "-");
    assert '-' !in y && '-' !in m && '-' !in d
           && ParseNat(y) == parts[0] && ParseNat(m) == parts[1] && ParseNat(d) == parts[2] by {
      YearPiece(parts[0]);
      Pad2Parses(parts[1]);
      Pad2Parses(parts[2]);
    }
    ParseDateStringOf(pieces);
    assert seq(|pieces|, i requires 0 <= i < |pieces| => ParseNat(pieces[i]) as int) == parts[..3];
  }

  /** The date is `Y-MM-DD`, `Y-MM` or `Y` with month and day zero-padded:
      splitting it on `-` and reading the numbers gives back the (at most
      three) date parts, for non-negative parts. */
  lemma FormatDateRoundTrip(parts: seq<int>)
    requires |parts| >= 1
    requires forall i :: 0 <= i < |parts| ==> parts[i] >= 0
    ensures var n := if |parts| >= 3 then 3 else |parts|;
            ParseDateString(FormatDateParts(parts)) == parts[..n]
  {
    if |parts| == 1 {
      RoundTripYear(parts);
    } else if |parts| == 2 {
      RoundTripMonth(parts);
    } else {
      RoundTripDay(parts);
    }
  }

  /** The pieces of a formatted date, split on `-`: the year as `str`
      writes it, then the month and the day zero-padded to two digits. */
  lemma DatePieces(parts: seq<int>) returns (pieces: seq<string>)
    requires |parts| >= 1
    requires forall i :: 0 <= i < |parts| ==> parts[i] >= 0
    ensures pieces == Split(FormatDateParts(parts), '-')
    ensures |pieces| == (if |parts| >= 3 then 3 else |parts|)
    ensures pieces[0] == IntToString(parts[0])
    ensures |pieces| >= 2 ==> pieces[1] == Pad2(parts[1]) && (parts[1] < 100 ==> |pieces[1]| == 2)
    ensures |pieces| == 3 ==> pieces[2] == Pad2(parts[2]) && (parts[2] < 100 ==> |pieces[2]| == 2)
  {
    pieces := Split(FormatDateParts(parts), '-');
    if |parts| == 1 {
      YearPieces(parts);
    } else if |parts| == 2 {
      MonthPieces(parts);
      Pad2Parses(parts[1]);
    } else {
      DayPieces(parts);
      Pad2Parses(parts[1]);
      Pad2Parses(parts[2]);
    }
  }

  lemma YearPieces(parts: seq<int>)
    requires |parts| == 1 && parts[0] >= 0
    ensures Split(FormatDateParts(parts), '-') == [IntToString(parts[0])]
  {
    var y := IntToString(parts[0]);
    YearPiece(parts[0]);
    assert Join([y], "-") == y;
    SplitJoin([y], '-');
  }

  lemma MonthPieces(parts: seq<int>)
    requires |parts| == 2 && parts[0] >= 0 && parts[1] >= 0
    ensures Split(FormatDateParts(parts), '-') == [IntToString(parts[0]), Pad2(parts[1])]
  {
    var y, m := IntToString(parts[0]), Pad2(parts[1]);
    YearPiece(parts[0]);
    Pad2Parses(parts[1]);
    assert Join([y, m], "-") == y + "-" + m;
    SplitJoin([y, m], '-');
  }

  lemma DayPieces(parts: seq<int>)
    requires |parts| >= 3 && parts[0] >= 0 && parts[1] >= 0 && parts[2] >= 0
    ensures Split(FormatDateParts(parts), '-') == [IntToString(parts[0]), Pad2(parts[1]), Pad2(parts[2])]
  {
    var y, m, d := IntToString(parts[0]), Pad2(parts[1]), Pad2(parts[2]);
    YearPiece(parts[0]);
    Pad2Parses(parts[1]);
    Pad2Parses(parts[2]);
    JoinThree(y, m, d, "-");
    SplitJoin([y, m, d], '-');
  }

  lemma Year2024()
    ensures IntToString(2024) == "2024"
  {
    assert NatToString(2) == "2";
    assert NatToString(20) == NatToString(2) + "0";
    assert NatToString(202) == NatToString(20) + "2";
    assert NatToString(2024) == NatToString(202) + "4";
  }

  /** The two digits `:02d` writes for a number below 100. */
  lemma Pad2Digits(n: nat)
    requires n < 100
    ensures Pad2(n) == [DigitChar(n / 10), DigitChar(n % 10)]
  {
    if n >= 10 {
      assert NatToString(n) == NatToString(n / 10) + [DigitChar(n % 10)];
    }
  }

  /** 15 March 2024 is written `2024-03-15`. */
  lemma FormatDateExampleDay()
    ensures FormatDateParts([2024, 3, 15]) == "2024-03-15"
  {
    var y, m, d := IntToString(2024), Pad2(3), Pad2(15);
    assert y == "2024" by { Year2024(); }
    assert m == "03" by { Pad2Digits(3); }
    assert d == "15" by { Pad2Digits(15); }
    assert FormatDateParts([2024, 3, 15]) == y + "-" + m + "-" + d;
    DashJoined(y, m, d);
  }

  lemma DashJoined(y: string, m: string, d: string)
    requires y == "2024" && m == "03" && d == "15"
    ensures y + "-" + m + "-" + d == "2024-03-15"
  {
  }

  /** A month without a day is written `2024-11`. */
  lemma FormatDateExampleMonth()
    ensures FormatDateParts([2024, 11]) == "2024-11"
  {
    var y, m := IntToString(2024), Pad2(11);
    assert y == "2024" by { Year2024(); }
    assert m == "11" by { Pad2Digits(11); }
    assert FormatDateParts([2024, 11]) == y + "-" + m;
  }

  /** A year alone is written `2024`. */
  lemma FormatDateExampleYear()
    ensures FormatDateParts([2024]) == "2024"
  {
    Year2024();
  }

  /** The journal is the first container title when that is non-empty, and
      otherwise the caller's name for it. */
  lemma JournalFallback(item: Item, fallbackJournal: string)
    ensures item.containerTitles != [] && item.containerTitles[0] != ""
            ==> JournalNameOf(item, fallbackJournal) == item.containerTitles[0]
    ensures item.containerTitles == [] || item.containerTitles[0] == ""
            ==> JournalNameOf(item, fallbackJournal) == fallbackJournal
    ensures fallbackJournal != "" ==> JournalNameOf(item, fallbackJournal) != ""
  {
  }

  /** Author names follow the input order: the names of a concatenation are the
      concatenation of the names. */
  lemma {:induction false} AuthorNamesAppend(xs: seq<Author>, ys: seq<Author>)
    ensures AuthorNames(xs + ys) == AuthorNames(xs) + AuthorNames(ys)
    decreases |ys|
  {
    if ys != [] {
      var zs := xs + ys;
      assert zs[..|zs| - 1] == xs + ys[..|ys| - 1];
      assert zs[|zs| - 1] == ys[|ys| - 1];
      AuthorNamesAppend(xs, ys[..|ys| - 1]);
    } else {
      assert xs + ys == xs;
    }
  }

  /** One author gives `given family`, or `family` alone, or nothing when the
      family name is empty. */
  lemma AuthorNamesSingle(a: Author)
    ensures a.family == "" ==> AuthorNames([a]) == []
    ensures a.family != "" && a.given != "" ==> AuthorNames([a]) == [a.given + " " + a.family]
    ensures a.family != "" && a.given == "" ==> AuthorNames([a]) == [a.family]
  {
    assert [a][..0] == [];
  }

  /** Every listed name is non-empty, and there is one per author with a family name. */
  lemma {:induction false} AuthorNamesShape(authors: seq<Author>)
    ensures forall n :: n in AuthorNames(authors) ==> n != ""
    ensures |AuthorNames(authors)| <= |authors|
  {
    if authors != [] {
      AuthorNamesShape(authors[..|authors| - 1]);
    }
  }

  // ---------------------------------------------------------------------------
  // fetch_recent_papers: the pagination loop
  // ---------------------------------------------------------------------------

  /** CrossRef's largest page. */
  const MaxRows: int := 100

  /** The answer to one request: an HTTP or network failure, or a page of items
      with its `next-cursor` ("" when absent or null). */
  datatype Response = FetchError | Page(items: seq<Item>, nextCursor: string)

  /** `rows`: `min(max_results, 100)`. */
  function PageSize(maxResults: int): int {
    if maxResults < MaxRows then maxResults else MaxRows
  }

  /** The parsed papers of a page, rejected records left out. */
  function ParsedAll(items: seq<Item>, fallbackJournal: string): seq<Paper> {
    if items == [] then []
    else
      var p := ParsedItem(items[|items| - 1], fallbackJournal);
      ParsedAll(items[..|items| - 1], fallbackJournal) + (if p.Some? then [p.value] else [])
  }

  /** The loop from request `k` on, with `papers` collected so far. It stops
      once `max_results` papers are in hand, on a failure, on an empty page,
      on a page without a next cursor, or on a page shorter than `rows`. A
      request beyond the given responses is a failure. */
  function Collect(responses: seq<Response>, k: nat, papers: seq<Paper>, rows: int, maxResults: int,
                   fallbackJournal: string): seq<Paper>
    decreases |responses| - k
  {
    if |papers| >= maxResults || k >= |responses| then papers
    else match responses[k]
      case FetchError => papers
      case Page(items, next) =>
        if items == [] then papers
        else
          var more := papers + ParsedAll(items, fallbackJournal);
          if next == "" || |items| < rows then more
          else Collect(responses, k + 1, more, rows, maxResults, fallbackJournal)
  }

  /** `papers[:max_results]`, Python slicing. */
  function SliceTo<T>(s: seq<T>, n: int): (r: seq<T>)
    ensures n >= 0 ==> |r| <= n
    ensures IsPrefix(r, s)
  {
    if n >= |s| then s else if n >= 0 then s[..n] else if |s| + n > 0 then s[..|s| + n] else []
  }

  ghost predicate IsPrefix<T>(xs: seq<T>, ys: seq<T>) {
    |xs| <= |ys| && xs == ys[..|xs|]
  }

  /** What `fetch_recent_papers` returns. */
  function Fetched(responses: seq<Response>, fallbackJournal: string, maxResults: int): seq<Paper> {
    SliceTo(Collect(responses, 0, [], PageSize(maxResults), maxResults, fallbackJournal), maxResults)
  }

  /** How many requests the loop sends from request `k` on, with `papers` in
      hand: one per pass while fewer than `max_results` papers are held,
      reading the responses as `Collect` does. */
  function Requests(responses: seq<Response>, k: nat, papers: seq<Paper>, rows: int, maxResults: int,
                    fallbackJournal: string): nat
    decreases |responses| - k
  {
    if |papers| >= maxResults then 0
    else if k >= |responses| then 1
    else match responses[k]
      case FetchError => 1
      case Page(items, next) =>
        if items == [] || next == "" || |items| < rows then 1
        else 1 + Requests(responses, k + 1, papers + ParsedAll(items, fallbackJournal), rows, maxResults,
                          fallbackJournal)
  }

  lemma ParsedAllSnoc(items: seq<Item>, j: nat, fallbackJournal: string)
    requires j < |items|
    ensures var p := ParsedItem(items[j], fallbackJournal);
            ParsedAll(items[..j + 1], fallbackJournal)
            == ParsedAll(items[..j], fallbackJournal) + (if p.Some? then [p.value] else [])
  {
    assert items[..j + 1][..j] == items[..j];
  }

  /** The inner loop of `fetch_recent_papers`: each item of a page parsed in
      turn, the rejected ones skipped. */
  method ParsePage(items: seq<Item>, journalName: string) returns (parsed: seq<Paper>)
    ensures parsed == ParsedAll(items, journalName)
  {
    parsed := [];
    for j := 0 to |items|
      invariant parsed == ParsedAll(items[..j], journalName)
    {
      var paper := ParseItem(items[j], journalName);
      ParsedAllSnoc(items, j, journalName);
      if paper.Some? {
        parsed := parsed + [paper.value];
      }
    }
    assert items[..|items|] == items;
  }

  /** One request of the loop that is answered by a non-empty page. */
  lemma CollectStep(responses: seq<Response>, k: nat, papers: seq<Paper>, rows: int, maxResults: int,
                    fallbackJournal: string)
    requires k < |responses| && |papers| < maxResults
    requires responses[k].Page? && responses[k].items != []
    ensures var more := papers + ParsedAll(responses[k].items, fallbackJournal);
            Collect(responses, k, papers, rows, maxResults, fallbackJournal)
            == if responses[k].nextCursor == "" || |responses[k].items| < rows then more
               else Collect(responses, k + 1, more, rows, maxResults, fallbackJournal)
  {
  }

  /** A request past the responses, a failure, an empty page or enough
      papers already in hand ends the loop with the papers collected so far. */
  lemma CollectStops(responses: seq<Response>, k: nat, papers: seq<Paper>, rows: int, maxResults: int,
                     fallbackJournal: string)
    requires |papers| >= maxResults || k >= |responses| || responses[k].FetchError? || responses[k].items == []
    ensures Collect(responses, k, papers, rows, maxResults, fallbackJournal) == papers
  {
  }

  /** `cursors` are the `k` cursors sent so far: "*" first, then each page's
      next cursor, every one of those pages a full page that let the loop go
      on; `cursor` is the one the next request sends. */
  ghost predicate CursorsFollow(responses: seq<Response>, cursors: seq<string>, k: nat, cursor: string, rows: int) {
    && |cursors| == k <= |responses|
    && (forall i :: 0 <= i < k ==> responses[i].Page? && !EndsLoop(responses[i], rows))
    && (forall i :: 0 <= i < k ==> cursors[i] == if i == 0 then "*" else responses[i - 1].nextCursor)
    && cursor == if k == 0 then "*" else responses[k - 1].nextCursor
  }

  /** After the next request is sent, `cursors` has one more entry, and the
      protocol stated by `FetchRecentPapers` holds. */
  lemma CursorsFollowSent(responses: seq<Response>, cursors: seq<string>, k: nat, cursor: string, rows: int)
    requires CursorsFollow(responses, cursors, k, cursor, rows)
    ensures var sent := cursors + [cursor];
            && sent[0] == "*" && |sent| <= |responses| + 1
            && (forall i :: 0 < i < |sent| ==> responses[i - 1].Page? && sent[i] == responses[i - 1].nextCursor)
            && (forall i :: 0 <= i < |sent| - 1 ==> !EndsLoop(responses[i], rows))
            && (k < |responses| && responses[k].Page? && !EndsLoop(responses[k], rows)
                ==> CursorsFollow(responses, sent, k + 1, responses[k].nextCursor, rows))
  {
    var sent := cursors + [cursor];
    assert forall i :: 0 <= i < k ==> sent[i] == cursors[i];
  }

  /** One pass of the loop body of `fetch_recent_papers`: request `k` is
      answered by `responses[k]` (none left is a failure); the parsed items of
      a page are appended to `papers`, and `stop` says whether the loop breaks. */
  method FetchPage(responses: seq<Response>, k: nat, papers: seq<Paper>, rows: int, maxResults: int,
                   journalName: string)
    returns (more: seq<Paper>, stop: bool)
    requires |papers| < maxResults
    ensures stop ==> Collect(responses, k, papers, rows, maxResults, journalName) == more
    ensures !stop ==> k < |responses| && responses[k].Page?
                      && Collect(responses, k, papers, rows, maxResults, journalName)
                         == Collect(responses, k + 1, more, rows, maxResults, journalName)
    ensures stop ==> Requests(responses, k, papers, rows, maxResults, journalName) == 1
    ensures !stop ==> !EndsLoop(responses[k], rows)
                      && Requests(responses, k, papers, rows, maxResults, journalName)
                         == 1 + Requests(responses, k + 1, more, rows, maxResults, journalName)
  {
    if k >= |responses| || responses[k].FetchError? || responses[k].items == [] {
      CollectStops(responses, k, papers, rows, maxResults, journalName);
      return papers, true;
    }
    var response := responses[k];
    var parsed := ParsePage(response.items, journalName);
    CollectStep(responses, k, papers, rows, maxResults, journalName);
    more := papers + parsed;
    stop := response.nextCursor == "" || |response.items| < rows;
  }

  /** `fetch_recent_papers`, with `responses[k]` the answer to the k-th request.
      `cursors` are the cursors it sends, one per request. */
  method FetchRecentPapers(responses: seq<Response>, journalName: string, maxResults: int)
    returns (papers: seq<Paper>, cursors: seq<string>)
    ensures papers == Fetched(responses, journalName, maxResults)
    ensures maxResults > 0 ==> cursors != [] && cursors[0] == "*"
    ensures |cursors| <= |responses| + 1
    ensures forall i :: 0 < i < |cursors| ==> responses[i - 1].Page? && cursors[i] == responses[i - 1].nextCursor
    ensures |cursors| == Requests(responses, 0, [], PageSize(maxResults), maxResults, journalName)
    ensures maxResults <= 0 ==> cursors == []
    ensures forall i :: 0 <= i < |cursors| - 1 ==> !EndsLoop(responses[i], PageSize(maxResults))
  {
    var rows := if maxResults < MaxRows then maxResults else MaxRows;
    var cursor := "*";
    papers, cursors := [], [];
    var k := 0;
    ghost var collected := Collect(responses, k, papers, rows, maxResults, journalName);
    ghost var requests := Requests(responses, k, papers, rows, maxResults, journalName);
    assert rows == PageSize(maxResults);
    while |papers| < maxResults
      invariant 0 <= k <= |responses|
      invariant collected == Collect(responses, k, papers, rows, maxResults, journalName)
      invariant k == 0 ==> papers == []
      invariant CursorsFollow(responses, cursors, k, cursor, rows)
      invariant requests == |cursors| + Requests(responses, k, papers, rows, maxResults, journalName)
      decreases |responses| - k
    {
      CursorsFollowSent(responses, cursors, k, cursor, rows);
      cursors := cursors + [cursor];
      var stop;
      papers, stop := FetchPage(responses, k, papers, rows, maxResults, journalName);
      if stop {
        assert requests == |cursors|;
        break;
      }
      cursor := responses[k].nextCursor;
      k := k + 1;
    }
    assert collected == papers by {
      if |papers| >= maxResults {
        CollectStops(responses, k, papers, rows, maxResults, journalName);
      }
    }
    papers := SliceTo(papers, maxResults);
  }

  // ---------------------------------------------------------------------------
  // Properties of the fetch
  // ---------------------------------------------------------------------------

  /** Never more than `max_results` papers, and none for a non-positive maximum. */
  lemma FetchedBound(responses: seq<Response>, fallbackJournal: string, maxResults: int)
    ensures maxResults >= 0 ==> |Fetched(responses, fallbackJournal, maxResults)| <= maxResults
    ensures maxResults <= 0 ==> Fetched(responses, fallbackJournal, maxResults) == []
  {
  }

  /** A page that ends the loop (a failure, an empty page, no next cursor, or a
      short page) is the last one consulted. */
  predicate EndsLoop(response: Response, rows: int) {
    response.FetchError? || response.items == [] || response.nextCursor == "" || |response.items| < rows
  }

  lemma {:induction false} CollectIgnoresAfterEnd(pre: seq<Response>, last: Response, post: seq<Response>,
                                                   k: nat, papers: seq<Paper>, rows: int, maxResults: int,
                                                   fallbackJournal: string)
    requires EndsLoop(last, rows) && k <= |pre|
    ensures Collect(pre + [last] + post, k, papers, rows, maxResults, fallbackJournal)
            == Collect(pre + [last], k, papers, rows, maxResults, fallbackJournal)
    decreases |pre| - k
  {
    var a := pre + [last] + post;
    var b := pre + [last];
    assert a[k] == b[k];
    if k < |pre| && |papers| < maxResults && a[k].Page? && a[k].items != [] {
      var more := papers + ParsedAll(a[k].items, fallbackJournal);
      CollectIgnoresAfterEnd(pre, last, post, k + 1, more, rows, maxResults, fallbackJournal);
    }
  }

  /** From request `k` on, at most the requests up to and including the one
      answered by `last` are sent: a response after one that ends the loop is
      never requested. */
  lemma {:induction false} RequestsEndAt(pre: seq<Response>, last: Response, post: seq<Response>,
                                         k: nat, papers: seq<Paper>, rows: int, maxResults: int,
                                         fallbackJournal: string)
    requires EndsLoop(last, rows) && k <= |pre|
    ensures Requests(pre + [last] + post, k, papers, rows, maxResults, fallbackJournal) <= |pre| + 1 - k
    decreases |pre| - k
  {
    var a := pre + [last] + post;
    assert a[k] == if k < |pre| then pre[k] else last;
    if k < |pre| && |papers| < maxResults && a[k].Page? && !EndsLoop(a[k], rows) {
      var more := papers + ParsedAll(a[k].items, fallbackJournal);
      RequestsEndAt(pre, last, post, k + 1, more, rows, maxResults, fallbackJournal);
    }
  }

  /** The fetch sends at most one request per response up to the first one
      that ends it. */
  lemma NeverRequestedAfterEnd(pre: seq<Response>, last: Response, post: seq<Response>,
                               fallbackJournal: string, maxResults: int)
    requires EndsLoop(last, PageSize(maxResults))
    ensures Requests(pre + [last] + post, 0, [], PageSize(maxResults), maxResults, fallbackJournal) <= |pre| + 1
  {
    RequestsEndAt(pre, last, post, 0, [], PageSize(maxResults), maxResults, fallbackJournal);
  }

  /** Responses after the one that ends the loop are never consulted. */
  lemma StopsAtEndingResponse(pre: seq<Response>, last: Response, post: seq<Response>,
                              fallbackJournal: string, maxResults: int)
    requires EndsLoop(last, PageSize(maxResults))
    ensures Fetched(pre + [last] + post, fallbackJournal, maxResults) == Fetched(pre + [last], fallbackJournal, maxResults)
  {
    CollectIgnoresAfterEnd(pre, last, post, 0, [], PageSize(maxResults), maxResults, fallbackJournal);
  }

  lemma {:induction false} CollectKeepsBeforeError(pre: seq<Response>, post: seq<Response>, k: nat,
                                                    papers: seq<Paper>, rows: int, maxResults: int,
                                                    fallbackJournal: string)
    requires k <= |pre|
    ensures Collect(pre + [FetchError] + post, k, papers, rows, maxResults, fallbackJournal)
            == Collect(pre, k, papers, rows, maxResults, fallbackJournal)
    decreases |pre| - k
  {
    var a := pre + [FetchError] + post;
    if k < |pre| {
      assert a[k] == pre[k];
      if |papers| < maxResults && a[k].Page? && a[k].items != [] {
        var more := papers + ParsedAll(a[k].items, fallbackJournal);
        CollectKeepsBeforeError(pre, post, k + 1, more, rows, maxResults, fallbackJournal);
      }
    } else {
      assert a[k] == FetchError;
    }
  }

  /** A failed request ends the fetch for this journal and keeps the papers
      already parsed: the result is what the earlier responses alone give. */
  lemma FetchErrorKeepsEarlierPapers(pre: seq<Response>, post: seq<Response>, fallbackJournal: string, maxResults: int)
    ensures Fetched(pre + [FetchError] + post, fallbackJournal, maxResults) == Fetched(pre, fallbackJournal, maxResults)
  {
    CollectKeepsBeforeError(pre, post, 0, [], PageSize(maxResults), maxResults, fallbackJournal);
  }

  /** Every parsed paper of every page, in order. */
  function AllParsed(responses: seq<Response>, fallbackJournal: string): seq<Paper>
    decreases |responses|
  {
    if responses == [] then []
    else
      var first := if responses[0].Page? then ParsedAll(responses[0].items, fallbackJournal) else [];
      first + AllParsed(responses[1..], fallbackJournal)
  }

  lemma {:induction false} CollectIsPrefix(responses: seq<Response>, k: nat, papers: seq<Paper>, rows: int,
                                            maxResults: int, fallbackJournal: string)
    requires k <= |responses|
    ensures IsPrefix(Collect(responses, k, papers, rows, maxResults, fallbackJournal),
                     papers + AllParsed(responses[k..], fallbackJournal))
    decreases |responses| - k
  {
    var c := Collect(responses, k, papers, rows, maxResults, fallbackJournal);
    var all := papers + AllParsed(responses[k..], fallbackJournal);
    if |papers| >= maxResults || k >= |responses| {
      assert c == papers;
    } else {
      var rest := AllParsed(responses[k + 1..], fallbackJournal);
      assert responses[k..][1..] == responses[k + 1..];
      match responses[k]
      case FetchError =>
        assert c == papers;
      case Page(items, next) =>
        var more := papers + ParsedAll(items, fallbackJournal);
        assert all == more + rest;
        if items == [] || next == "" || |items| < rows {
          assert c == papers || c == more;
        } else {
          CollectIsPrefix(responses, k + 1, more, rows, maxResults, fallbackJournal);
        }
    }
  }

  /** The fetched papers are the first ones of all pages, in page order. */
  lemma FetchedIsPrefixOfAllPages(responses: seq<Response>, fallbackJournal: string, maxResults: int)
    ensures IsPrefix(Fetched(responses, fallbackJournal, maxResults), AllParsed(responses, fallbackJournal))
  {
    var c := Collect(responses, 0, [], PageSize(maxResults), maxResults, fallbackJournal);
    CollectIsPrefix(responses, 0, [], PageSize(maxResults), maxResults, fallbackJournal);
    assert responses[0..] == responses;
    assert [] + AllParsed(responses, fallbackJournal) == AllParsed(responses, fallbackJournal);
  }

  /** Every record with a title is parsed: a page of titled records gives one
      paper per record. */
  lemma {:induction false} ParsedAllTitled(items: seq<Item>, fallbackJournal: string)
    requires forall i :: 0 <= i < |items| ==> RawTitle(items[i]) != ""
    ensures |ParsedAll(items, fallbackJournal)| == |items|
  {
    if items != [] {
      ParsedAllTitled(items[..|items| - 1], fallbackJournal);
    }
  }

  /** After two full pages of 100 under a limit of 250, a third request is
      sent and its parsed papers are appended, cut at the limit. */
  lemma FetchThirdPage(a: seq<Item>, b: seq<Item>, c: seq<Item>, c1: string, c2: string, c3: string,
                       fallbackJournal: string)
    requires |a| == 100 && |b| == 100 && c1 != "" && c2 != ""
    requires |ParsedAll(a, fallbackJournal)| == 100 && |ParsedAll(b, fallbackJournal)| == 100
    ensures Fetched([Page(a, c1), Page(b, c2), Page(c, c3)], fallbackJournal, 250)
            == SliceTo(ParsedAll(a, fallbackJournal) + ParsedAll(b, fallbackJournal)
                       + ParsedAll(c, fallbackJournal), 250)
  {
    var rs := [Page(a, c1), Page(b, c2), Page(c, c3)];
    var pa := ParsedAll(a, fallbackJournal);
    var pb := ParsedAll(b, fallbackJournal);
    var pc := ParsedAll(c, fallbackJournal);
    assert PageSize(250) == 100;
    assert Collect(rs, 0, [], 100, 250, fallbackJournal) == Collect(rs, 1, pa, 100, 250, fallbackJournal) by {
      CollectStep(rs, 0, [], 100, 250, fallbackJournal);
      assert [] + pa == pa;
    }
    assert Collect(rs, 1, pa, 100, 250, fallbackJournal) == Collect(rs, 2, pa + pb, 100, 250, fallbackJournal) by {
      CollectStep(rs, 1, pa, 100, 250, fallbackJournal);
    }
    CollectLastPage(rs, pa + pb, 100, 250, fallbackJournal);
  }

  /** A page as the last response, with room left, contributes all its
      parsed papers and nothing follows it. */
  lemma CollectLastPage(responses: seq<Response>, papers: seq<Paper>, rows: int, maxResults: int,
                        fallbackJournal: string)
    requires responses != [] && responses[|responses| - 1].Page? && |papers| < maxResults
    ensures Collect(responses, |responses| - 1, papers, rows, maxResults, fallbackJournal)
            == papers + ParsedAll(responses[|responses| - 1].items, fallbackJournal)
  {
    var items := responses[|responses| - 1].items;
    if items == [] {
      assert ParsedAll(items, fallbackJournal) == [];
      assert papers + [] == papers;
    }
  }

  lemma FetchTwoFullPages(a: seq<Item>, b: seq<Item>, c1: string, c2: string, c3: string, fallbackJournal: string)
    requires |a| == 100 && |b| == 100 && c1 != "" && c2 != ""
    requires |ParsedAll(a, fallbackJournal)| == 100 && |ParsedAll(b, fallbackJournal)| == 100
    ensures Fetched([Page(a, c1), Page(b, c2), Page([], c3)], fallbackJournal, 250)
            == ParsedAll(a, fallbackJournal) + ParsedAll(b, fallbackJournal)
  {
    var rs := [Page(a, c1), Page(b, c2), Page([], c3)];
    var pa := ParsedAll(a, fallbackJournal);
    var pb := ParsedAll(b, fallbackJournal);
    assert PageSize(250) == 100;
    assert Collect(rs, 0, [], 100, 250, fallbackJournal) == Collect(rs, 1, pa, 100, 250, fallbackJournal) by {
      CollectStep(rs, 0, [], 100, 250, fallbackJournal);
      assert [] + pa == pa;
    }
    assert Collect(rs, 1, pa, 100, 250, fallbackJournal) == Collect(rs, 2, pa + pb, 100, 250, fallbackJournal) by {
      CollectStep(rs, 1, pa, 100, 250, fallbackJournal);
    }
    assert Collect(rs, 2, pa + pb, 100, 250, fallbackJournal) == pa + pb;
  }

  /** Two full pages of 100 titled records and then an empty page, with a
      maximum of 250, give 200 papers: the fetch ends for want of results,
      not at the maximum. */
  lemma TwoFullPagesThenEmpty(a: seq<Item>, b: seq<Item>, c1: string, c2: string, c3: string, fallbackJournal: string)
    requires |a| == 100 && |b| == 100 && c1 != "" && c2 != ""
    requires forall i :: 0 <= i < |a| ==> RawTitle(a[i]) != ""
    requires forall i :: 0 <= i < |b| ==> RawTitle(b[i]) != ""
    ensures |Fetched([Page(a, c1), Page(b, c2), Page([], c3)], fallbackJournal, 250)| == 200
  {
    ParsedAllTitled(a, fallbackJournal);
    ParsedAllTitled(b, fallbackJournal);
    FetchTwoFullPages(a, b, c1, c2, c3, fallbackJournal);
  }
}
