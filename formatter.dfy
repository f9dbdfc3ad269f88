/** Export of the filtered papers (src/formatter.py): the lines of the
    Markdown report and the rows of the CSV file. Writing the file, the clock
    read for the report date and the CSV quoting of the `csv` module are
    outside the model: the date is a parameter and rows are field lists.
    The summariser `extract_summary` is a parameter, `summarize`, of the
    export methods and of the functions that state what they produce; the
    pipeline passes `Summarizer.ExtractSummary`, and the lemmas hold for any
    summariser. */
module Formatter {
  import opened Strings
  import opened Crossref
  import opened Filter
  import Summarizer

  const EmDash: string := "\U{2014}"

  // ---------------------------------------------------------------------------
  // Pipe escaping for Markdown table cells
  // ---------------------------------------------------------------------------

  /** `s.replace("|", "\\|")`. */
  function Escape(s: string): string {
    if s == [] then []
    else (if s[0] == '|' then "\\|" else [s[0]]) + Escape(s[1..])
  }

  /** The inverse reading: `\|` stands for `|`, everything else for itself. */
  function Unescape(s: string): string {
    if s == [] then []
    else if |s| >= 2 && s[0] == '\\' && s[1] == '|' then "|" + Unescape(s[2..])
    else [s[0]] + Unescape(s[1..])
  }

  /** Every `|` is preceded by a backslash: it cannot end a table cell. */
  ghost predicate AllPipesEscaped(s: string) {
    forall i :: 0 <= i < |s| && s[i] == '|' ==> i > 0 && s[i - 1] == '\\'
  }

  lemma {:induction false} EscapeFirst(s: string)
    ensures Escape(s) == [] <==> s == []
    ensures s != [] ==> Escape(s)[0] == (if s[0] == '|' then '\\' else s[0])
  {
  }

  /** Reading an escaped cell back gives the original text. */
  lemma {:induction false} UnescapeEscape(s: string)
    ensures Unescape(Escape(s)) == s
    decreases |s|
  {
    if s != [] {
      var rest := Escape(s[1..]);
      UnescapeEscape(s[1..]);
      EscapeFirst(s[1..]);
      if s[0] == '|' {
        assert Escape(s) == "\\|" + rest;
        assert Escape(s)[2..] == rest;
      } else {
        assert Escape(s) == [s[0]] + rest;
        assert Escape(s)[1..] == rest;
      }
    }
  }

  /** No `|` survives unescaped. */
  lemma {:induction false} EscapeEscapesAll(s: string)
    ensures AllPipesEscaped(Escape(s))
    decreases |s|
  {
    if s != [] {
      var head := if s[0] == '|' then "\\|" else [s[0]];
      var rest := Escape(s[1..]);
      EscapeEscapesAll(s[1..]);
      EscapeFirst(s[1..]);
      var e := head + rest;
      forall i | 0 <= i < |e| && e[i] == '|'
        ensures i > 0 && e[i - 1] == '\\'
      {
        if i >= |head| {
          assert rest[i - |head|] == '|';
          assert i - |head| > 0;
          assert e[i - 1] == rest[i - |head| - 1];
        }
      }
    }
  }

  /** Text without a `|` is left as it is. */
  lemma {:induction false} EscapeNoPipe(s: string)
    requires '|' !in s
    ensures Escape(s) == s
    decreases |s|
  {
    if s != [] {
      assert '|' !in s[1..];
      EscapeNoPipe(s[1..]);
    }
  }

  // ---------------------------------------------------------------------------
  // Markdown export
  // ---------------------------------------------------------------------------

  const ReportTitle: string := "# Journal Club " + EmDash + " Papers of Interest"
  const NoMatchesLine: string := "No papers matched your keywords."
  const TableHeader: string := "| # | Title | Journal | Summary | Keywords | Link |"
  const TableRule: string := "|---|-------|---------|---------|----------|------|"

  function CountLine(today: string, n: nat): string {
    "*Generated on " + today + " " + EmDash + " " + NatToString(n) + " paper(s) found*"
  }

  /** The keywords cell: the matched keywords joined with ", ", or an em dash. */
  function KeywordsCell(matched: seq<string>): string {
    if matched != [] then Join(matched, ", ") else EmDash
  }

  function LinkCell(url: string): string {
    if url != "" then "[Link](" + url + ")" else EmDash
  }

  /** The cells of the `n`-th paper's table row. Title, journal and summary
      are escaped; keywords and link are inserted as they are. */
  function RowCells(n: nat, fp: FilteredPaper, summarize: string -> string): seq<string> {
    var paper := fp.paper;
    [NatToString(n), Escape(paper.title), Escape(paper.journalName), Escape(summarize(paper.abstractText)),
     KeywordsCell(fp.matchedKeywords), LinkCell(paper.url)]
  }

  /** A table row: the cells between `| ` and ` |`, separated by ` | `. */
  function RowText(cells: seq<string>): string {
    "| " + Join(cells, " | ") + " |"
  }

  /** The table row of the `n`-th paper. */
  function Row(n: nat, fp: FilteredPaper, summarize: string -> string): string {
    RowText(RowCells(n, fp, summarize))
  }

  /** The rows, numbered from 1 in list order. */
  function Rows(fps: seq<FilteredPaper>, summarize: string -> string): seq<string> {
    seq(|fps|, i requires 0 <= i < |fps| => Row(i + 1, fps[i], summarize))
  }

  lemma RowsSnoc(fps: seq<FilteredPaper>, i: nat, summarize: string -> string)
    requires i < |fps|
    ensures Rows(fps[..i + 1], summarize) == Rows(fps[..i], summarize) + [Row(i + 1, fps[i], summarize)]
  {
  }

  function HeaderLines(today: string, n: nat): seq<string> {
    [ReportTitle, "", CountLine(today, n), ""]
  }

  /** The lines `export_markdown` joins. */
  function MarkdownLines(fps: seq<FilteredPaper>, today: string, summarize: string -> string): seq<string> {
    HeaderLines(today, |fps|)
    + (if fps == [] then [NoMatchesLine] else [TableHeader, TableRule] + Rows(fps, summarize))
    + [""]
  }

  /** `export_markdown` with the date it reads from the clock as `today` and
      `extract_summary` as `summarize`; returns the text it writes. */
  method ExportMarkdown(fps: seq<FilteredPaper>, today: string, summarize: string -> string) returns (text: string)
    ensures text == Join(MarkdownLines(fps, today, summarize), "\n")
  {
    var lines: seq<string> := [];
    lines := lines + [ReportTitle];
    lines := lines + [""];
    lines := lines + [CountLine(today, |fps|)];
    lines := lines + [""];

    if fps == [] {
      lines := lines + [NoMatchesLine];
    } else {
      lines := lines + [TableHeader];
      lines := lines + [TableRule];
      ghost var top := lines;
      for i := 0 to |fps|
        invariant lines == top + Rows(fps[..i], summarize)
      {
        lines := lines + [Row(i + 1, fps[i], summarize)];
        RowsSnoc(fps, i, summarize);
      }
      assert fps[..|fps|] == fps;
    }
    assert lines + [""] == MarkdownLines(fps, today, summarize);
    lines := lines + [""];
    text := Join(lines, "\n");
  }

  /** An empty list gives the header, the no-matches line and no table. */
  lemma EmptyReport(today: string, summarize: string -> string)
    ensures MarkdownLines([], today, summarize) == HeaderLines(today, 0) + [NoMatchesLine, ""]
    ensures CountLine(today, 0) == "*Generated on " + today + " " + EmDash + " 0 paper(s) found*"
    ensures TableHeader !in MarkdownLines([], today, summarize)
  {
    var lines := MarkdownLines([], today, summarize);
    assert NatToString(0) == "0";
    assert lines == [ReportTitle, "", CountLine(today, 0), "", NoMatchesLine, ""];
    // The lines differ from the table header in their last character.
    assert TableHeader[|TableHeader| - 1] == '|';
    assert ReportTitle[|ReportTitle| - 1] == 't';
    assert CountLine(today, 0)[|CountLine(today, 0)| - 1] == '*';
    assert NoMatchesLine[|NoMatchesLine| - 1] == '.';
  }

  lemma RowEndsWithPipe(n: nat, fp: FilteredPaper, summarize: string -> string)
    ensures Row(n, fp, summarize) != [] && Row(n, fp, summarize)[|Row(n, fp, summarize)| - 1] == '|'
  {
  }

  /** A non-empty list gives the table header and rule, then exactly one row per
      paper, numbered 1..n in list order, then the final empty line. */
  lemma ReportTable(fps: seq<FilteredPaper>, today: string, summarize: string -> string)
    requires fps != []
    ensures var lines := MarkdownLines(fps, today, summarize);
            && |lines| == |fps| + 7
            && lines[4] == TableHeader && lines[5] == TableRule
            && (forall i :: 0 <= i < |fps| ==> lines[6 + i] == Row(i + 1, fps[i], summarize))
            && lines[|lines| - 1] == ""
            && NoMatchesLine !in lines
  {
    var lines := MarkdownLines(fps, today, summarize);
    var head := [ReportTitle, "", CountLine(today, |fps|), "", TableHeader, TableRule];
    var rows := Rows(fps, summarize);
    TableLines(fps, today, summarize);
    TableHeadNotNoMatches(today, |fps|);
    RowsNotNoMatches(fps, summarize);
    assert |lines| == |fps| + 7 && lines[4] == TableHeader && lines[5] == TableRule;
    forall i | 0 <= i < |fps|
      ensures lines[6 + i] == Row(i + 1, fps[i], summarize)
    {
      assert lines[6 + i] == rows[i];
    }
  }

  lemma TableLines(fps: seq<FilteredPaper>, today: string, summarize: string -> string)
    requires fps != []
    ensures MarkdownLines(fps, today, summarize)
            == [ReportTitle, "", CountLine(today, |fps|), "", TableHeader, TableRule] + Rows(fps, summarize) + [""]
  {
  }

  // The lines differ from the no-matches line in their last character.
  lemma TableHeadNotNoMatches(today: string, n: nat)
    ensures NoMatchesLine !in [ReportTitle, "", CountLine(today, n), "", TableHeader, TableRule]
  {
    assert NoMatchesLine[|NoMatchesLine| - 1] == '.';
    assert ReportTitle[|ReportTitle| - 1] == 't';
    assert CountLine(today, n)[|CountLine(today, n)| - 1] == '*';
    assert TableHeader[|TableHeader| - 1] == '|' && TableRule[|TableRule| - 1] == '|';
  }

  lemma RowsNotNoMatches(fps: seq<FilteredPaper>, summarize: string -> string)
    ensures NoMatchesLine !in Rows(fps, summarize)
  {
    var rows := Rows(fps, summarize);
    assert NoMatchesLine[|NoMatchesLine| - 1] == '.';
    forall i | 0 <= i < |rows|
      ensures rows[i] != NoMatchesLine
    {
      RowEndsWithPipe(i + 1, fps[i], summarize);
    }
  }

  /** A row starts with its first cell. */
  lemma RowTextStart(cells: seq<string>)
    requires cells != []
    ensures var r := RowText(cells);
            && |r| >= |cells[0]| + 3
            && r[..2] == "| " && r[2..2 + |cells[0]|] == cells[0] && r[2 + |cells[0]|] == ' '
  {
    var first := cells[0];
    if |cells| == 1 {
      assert RowText(cells) == "| " + first + " |";
    } else {
      var rest := Join(cells[1..], " | ");
      assert RowText(cells) == "| " + first + (" | " + rest + " |");
    }
  }

  /** A row starts with its number, which reads back. */
  lemma RowNumber(n: nat, fp: FilteredPaper, summarize: string -> string)
    ensures var num := NatToString(n);
            var r := Row(n, fp, summarize);
            && r[..2] == "| "
            && |r| > |num| + 2
            && ParseNat(r[2..2 + |num|]) == n
            && r[2 + |num|] == ' '
  {
    RowTextStart(RowCells(n, fp, summarize));
    ParseNatToString(n);
  }

  /** The text is the lines joined by newlines; it ends with a newline, and
      splitting it at newlines gives the lines back when none contains one. */
  lemma MarkdownText(fps: seq<FilteredPaper>, today: string, summarize: string -> string)
    ensures var text := Join(MarkdownLines(fps, today, summarize), "\n");
            text != [] && text[|text| - 1] == '\n'
    ensures var lines := MarkdownLines(fps, today, summarize);
            (forall i :: 0 <= i < |lines| ==> '\n' !in lines[i]) ==> Split(Join(lines, "\n"), '\n') == lines
  {
    var lines := MarkdownLines(fps, today, summarize);
    JoinEndsWithEmpty(lines, "\n");
    if forall i :: 0 <= i < |lines| ==> '\n' !in lines[i] {
      SplitJoin(lines, '\n');
    }
  }

  /** Joining lines whose last one is empty ends with the separator. */
  lemma JoinEndsWithEmpty(parts: seq<string>, sep: string)
    requires |parts| >= 2 && parts[|parts| - 1] == "" && sep != ""
    ensures var j := Join(parts, sep);
            |j| >= |sep| && j[|j| - |sep|..] == sep
  {
    JoinSnoc(parts, sep);
  }

  /** The last part of a join comes after the last separator. */
  lemma {:induction false} JoinSnoc(parts: seq<string>, sep: string)
    requires |parts| >= 2
    ensures Join(parts, sep) == Join(parts[..|parts| - 1], sep) + sep + parts[|parts| - 1]
    decreases |parts|
  {
    var init := parts[..|parts| - 1];
    if |parts| > 2 {
      JoinSnoc(parts[1..], sep);
      assert parts[1..][..|parts| - 2] == init[1..];
      assert Join(init, sep) == init[0] + sep + Join(init[1..], sep);
    } else {
      assert Join(init, sep) == parts[0];
      assert Join(parts[1..], sep) == parts[1];
    }
  }

  // ---------------------------------------------------------------------------
  // Column structure of a row
  // ---------------------------------------------------------------------------

  /** The number of `|` in `s` not preceded by a backslash: the column
      separators a Markdown renderer sees. */
  function CountBare(s: string): nat {
    if s == [] then 0
    else
      var n := |s|;
      CountBare(s[..n - 1]) + (if s[n - 1] == '|' && (n == 1 || s[n - 2] != '\\') then 1 else 0)
  }

  /** Whether a pipe starting `b` is bare depends on `a`; otherwise counts add. */
  lemma {:induction false} CountBareAppend(a: string, b: string)
    requires b == [] || b[0] != '|'
    ensures CountBare(a + b) == CountBare(a) + CountBare(b)
    decreases |b|
  {
    if b != [] {
      var ab := a + b;
      var n := |b|;
      assert ab[..|ab| - 1] == a + b[..n - 1];
      assert ab[|ab| - 1] == b[n - 1];
      if n >= 2 {
        assert ab[|ab| - 2] == b[n - 2];
        CountBareAppend(a, b[..n - 1]);
      } else {
        assert b[..n - 1] == [];
        assert a + b[..n - 1] == a;
      }
    } else {
      assert a + b == a;
    }
  }

  lemma {:induction false} CountBareEscaped(s: string)
    requires AllPipesEscaped(s)
    ensures CountBare(s) == 0
    decreases |s|
  {
    if s != [] {
      assert AllPipesEscaped(s[..|s| - 1]);
      CountBareEscaped(s[..|s| - 1]);
    }
  }

  /** A cell that starts with anything but `|` and has no bare pipe adds no
      column separator. */
  ghost predicate QuietCell(s: string) {
    (s == [] || s[0] != '|') && CountBare(s) == 0
  }

  lemma EscapedCellIsQuiet(s: string)
    ensures QuietCell(Escape(s))
  {
    EscapeFirst(s);
    EscapeEscapesAll(s);
    CountBareEscaped(Escape(s));
  }

  lemma PipeFreeCellIsQuiet(s: string)
    requires '|' !in s
    ensures QuietCell(s)
  {
    CountBareEscaped(s);
  }

  /** Quiet cells joined with ` | ` give one separator between each two. */
  lemma {:induction false} CountBareJoin(cells: seq<string>)
    requires cells != []
    requires forall i :: 0 <= i < |cells| ==> QuietCell(cells[i])
    ensures CountBare(Join(cells, " | ")) == |cells| - 1
    ensures QuietCell(cells[0]) && (Join(cells, " | ") == [] || Join(cells, " | ")[0] != '|')
    decreases |cells|
  {
    assert QuietCell(cells[0]);
    if |cells| > 1 {
      var rest := Join(cells[1..], " | ");
      CountBareJoin(cells[1..]);
      assert CountBare(" | ") == 1 by {
        assert " | "[..2] == " |";
        assert " |"[..1] == " ";
        assert " "[..0] == [];
      }
      CountBareAppend(cells[0], " | ");
      CountBareAppend(cells[0] + " | ", rest);
      assert Join(cells, " | ") == cells[0] + " | " + rest;
      assert (cells[0] + " | " + rest)[0] != '|' by {
        if cells[0] == [] {
          assert (cells[0] + " | " + rest)[0] == ' ';
        } else {
          assert (cells[0] + " | " + rest)[0] == cells[0][0];
        }
      }
    }
  }

  /** Quiet cells give a row one more separator than it has cells. */
  lemma RowTextSeparators(cells: seq<string>)
    requires cells != []
    requires forall i :: 0 <= i < |cells| ==> QuietCell(cells[i])
    ensures CountBare(RowText(cells)) == |cells| + 1
  {
    var body := Join(cells, " | ");
    CountBareJoin(cells);
    assert CountBare("| ") == 1 by { assert "| "[..1] == "|"; assert "|"[..0] == []; }
    assert CountBare(" |") == 1 by { assert " |"[..1] == " "; assert " "[..0] == []; }
    CountBareAppend("| ", body);
    CountBareAppend("| " + body, " |");
  }

  /** When the keywords and the URL hold no `|`, a row has exactly seven
      column separators: six cells, whatever the title, journal and summary
      contain. */
  lemma RowHasSixCells(n: nat, fp: FilteredPaper, summarize: string -> string)
    requires forall k :: k in fp.matchedKeywords ==> '|' !in k
    requires '|' !in fp.paper.url
    ensures CountBare(Row(n, fp, summarize)) == 7
  {
    var cells := RowCells(n, fp, summarize);
    var paper := fp.paper;
    assert '|' !in cells[4] by { JoinAvoids(fp.matchedKeywords, ", ", '|'); }
    assert '|' !in cells[0];
    assert '|' !in cells[5];
    PipeFreeCellIsQuiet(cells[0]);
    PipeFreeCellIsQuiet(cells[4]);
    PipeFreeCellIsQuiet(cells[5]);
    EscapedCellIsQuiet(paper.title);
    EscapedCellIsQuiet(paper.journalName);
    EscapedCellIsQuiet(summarize(paper.abstractText));
    RowTextSeparators(cells);
  }

  /** A join contains a character only if a part or the separator does. */
  lemma {:induction false} JoinAvoids(parts: seq<string>, sep: string, c: char)
    requires c !in sep && forall k :: k in parts ==> c !in k
    ensures c !in Join(parts, sep)
    decreases |parts|
  {
    if |parts| > 1 {
      assert parts[0] in parts;
      assert forall k :: k in parts[1..] ==> k in parts;
      JoinAvoids(parts[1..], sep, c);
    } else if |parts| == 1 {
      assert parts[0] in parts;
    }
  }

  // ---------------------------------------------------------------------------
  // CSV export
  // ---------------------------------------------------------------------------

  const CsvHeader: seq<string> := ["Title", "Journal", "Published", "Summary", "Keywords", "Link", "Authors"]

  /** The data row of one paper, in header order. */
  function CsvRow(fp: FilteredPaper, summarize: string -> string): seq<string> {
    var paper := fp.paper;
    [ paper.title,
      paper.journalName,
      paper.publishedDate,
      summarize(paper.abstractText),
      if fp.matchedKeywords != [] then Join(fp.matchedKeywords, ", ") else "",
      paper.url,
      if paper.authors != [] then Join(paper.authors, ", ") else "" ]
  }

  /** `export_csv` with `extract_summary` as `summarize`: the rows handed to
      the CSV writer, header first. */
  method ExportCsv(fps: seq<FilteredPaper>, summarize: string -> string) returns (rows: seq<seq<string>>)
    ensures |rows| == |fps| + 1 && rows[0] == CsvHeader
    ensures forall i :: 0 <= i < |fps| ==> rows[i + 1] == CsvRow(fps[i], summarize)
  {
    rows := [CsvHeader];
    for i := 0 to |fps|
      invariant |rows| == i + 1 && rows[0] == CsvHeader
      invariant forall j :: 0 <= j < i ==> rows[j + 1] == CsvRow(fps[j], summarize)
    {
      var paper := fps[i].paper;
      var summary := summarize(paper.abstractText);
      var keywordsStr := if fps[i].matchedKeywords != [] then Join(fps[i].matchedKeywords, ", ") else "";
      var authorsStr := if paper.authors != [] then Join(paper.authors, ", ") else "";
      var row := [paper.title, paper.journalName, paper.publishedDate, summary, keywordsStr, paper.url, authorsStr];
      assert row == CsvRow(fps[i], summarize);
      rows := rows + [row];
    }
  }

  /** Every data row has one field per header column, and its summary field
      is a summary in the sense of `ExtractSummary`'s contract. */
  lemma CsvRowShape(fp: FilteredPaper)
    ensures |CsvRow(fp, Summarizer.ExtractSummary)| == |CsvHeader|
    ensures var s := CsvRow(fp, Summarizer.ExtractSummary)[3];
            s != [] && |s| <= Summarizer.MaxLength && Summarizer.IsTerminator(s[|s| - 1])
  {
    var s := Summarizer.ExtractSummary(fp.paper.abstractText);
    CsvRowFields(fp, Summarizer.ExtractSummary);
  }

  lemma CsvRowFields(fp: FilteredPaper, summarize: string -> string)
    ensures |CsvRow(fp, summarize)| == |CsvHeader|
    ensures CsvRow(fp, summarize)[3] == summarize(fp.paper.abstractText)
  {
  }

  /** A join with a non-empty separator is empty only for no parts or one
      empty part. */
  lemma JoinEmpty(parts: seq<string>, sep: string)
    requires sep != ""
    ensures Join(parts, sep) == "" <==> parts == [] || parts == [""]
  {
  }

  /** The keywords field is empty exactly when there are no matched keywords
      or the only one is empty; in Markdown the same list gives an em dash
      instead. */
  lemma KeywordsFields(fp: FilteredPaper, summarize: string -> string)
    ensures CsvRow(fp, summarize)[4] == "" <==> fp.matchedKeywords == [] || fp.matchedKeywords == [""]
    ensures fp.matchedKeywords == [] ==> KeywordsCell(fp.matchedKeywords) == EmDash
  {
    JoinEmpty(fp.matchedKeywords, ", ");
  }
}
