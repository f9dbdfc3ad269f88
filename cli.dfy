/** The command-line entry point (src/main.py): the keep/skip/quit review of
    the matched papers, the choice of output file and format, and the order
    of steps and early exits of `main`. The terminal is outside the model:
    the prompt answers arrive as an already-resolved sequence of replies, the
    clock as a timestamp string, and each journal's CrossRef responses as a
    sequence of pages. */
module Cli {
  import opened Wrappers
  import opened Strings
  import opened Seqs
  import opened Filter
  import Crossref
  import Configuration
  import Formatter
  import Summarizer

  // ---------------------------------------------------------------------------
  // Interactive review
  // ---------------------------------------------------------------------------

  /** An answer to "Keep this paper?". `Blank` is an empty answer, which the
      prompt turns into its default `y`. */
  datatype Reply = Yes | No | Quit | Blank

  /** The answers that keep the paper on screen. */
  predicate Keeps(reply: Reply) {
    reply == Yes || reply == Blank
  }

  /** `accepted` followed by the papers of `rest`, if the review got that far. */
  function After(accepted: seq<FilteredPaper>, rest: Option<seq<FilteredPaper>>): Option<seq<FilteredPaper>> {
    if rest.Some? then Some(accepted + rest.value) else None
  }

  /** What `_interactive_review` returns: the kept papers, up to the first
      `Quit`; None when the answers run out first, where the prompt meets the
      end of its input and raises. */
  function Review(papers: seq<FilteredPaper>, replies: seq<Reply>): Option<seq<FilteredPaper>>
    decreases |papers|
  {
    if papers == [] then Some([])
    else if replies == [] then None
    else if replies[0] == Quit then Some([])
    else
      var rest := Review(papers[1..], replies[1..]);
      if Keeps(replies[0]) then After([papers[0]], rest) else rest
  }

  /** `_interactive_review`: one reply is read per paper, in order. */
  method InteractiveReview(filtered: seq<FilteredPaper>, replies: seq<Reply>)
    returns (accepted: Option<seq<FilteredPaper>>)
    ensures accepted == Review(filtered, replies)
    ensures filtered == [] ==> accepted == Some([])
  {
    if filtered == [] {
      return Some([]);
    }
    var kept: seq<FilteredPaper> := [];
    assert filtered[0..] == filtered && replies[0..] == replies;
    assert Review(filtered, replies).Some? ==> [] + Review(filtered, replies).value == Review(filtered, replies).value;
    for i := 0 to |filtered|
      invariant i <= |replies|
      invariant Review(filtered, replies) == After(kept, Review(filtered[i..], replies[i..]))
    {
      if i == |replies| {
        // the prompt finds no more input
        return None;
      }
      var choice := replies[i];
      assert filtered[i..][1..] == filtered[i + 1..];
      assert replies[i..][1..] == replies[i + 1..];
      ghost var rest := Review(filtered[i + 1..], replies[i + 1..]);
      if choice == Quit {
        assert kept + [] == kept;
        return Some(kept);
      } else if choice == Yes || choice == Blank {
        assert Review(filtered[i..], replies[i..]) == After([filtered[i]], rest);
        assert rest.Some? ==> kept + ([filtered[i]] + rest.value) == kept + [filtered[i]] + rest.value;
        kept := kept + [filtered[i]];
      } else {
        assert Review(filtered[i..], replies[i..]) == rest;
      }
    }
    assert filtered[|filtered|..] == [];
    assert kept + [] == kept;
    return Some(kept);
  }

  /** Reference definition: the papers whose reply keeps them, in order, when
      each paper has a reply. */
  function Kept(papers: seq<FilteredPaper>, replies: seq<Reply>): seq<FilteredPaper>
    requires |papers| <= |replies|
    decreases |papers|
  {
    if papers == [] then []
    else
      var n := |papers| - 1;
      Kept(papers[..n], replies) + (if Keeps(replies[n]) then [papers[n]] else [])
  }

  lemma {:induction false} KeptCons(papers: seq<FilteredPaper>, replies: seq<Reply>)
    requires 0 < |papers| <= |replies|
    ensures Kept(papers, replies)
            == (if Keeps(replies[0]) then [papers[0]] else []) + Kept(papers[1..], replies[1..])
    decreases |papers|
  {
    var n := |papers| - 1;
    if n > 0 {
      KeptCons(papers[..n], replies);
      assert papers[..n][1..] == papers[1..][..n - 1];
      assert replies[1..][n - 1] == replies[n];
    }
  }

  lemma {:induction false} KeptSubseq(papers: seq<FilteredPaper>, replies: seq<Reply>)
    requires |papers| <= |replies|
    ensures IsSubseq(Kept(papers, replies), papers)
    decreases |papers|
  {
    if papers != [] {
      var n := |papers| - 1;
      KeptSubseq(papers[..n], replies);
      assert papers == papers[..n] + [papers[n]];
      if Keeps(replies[n]) {
        assert Kept(papers, replies) == Kept(papers[..n], replies) + [papers[n]];
        SubseqExtendBoth(Kept(papers[..n], replies), papers[..n], papers[n]);
      } else {
        assert Kept(papers, replies) == Kept(papers[..n], replies);
        SubseqExtendRight(Kept(papers[..n], replies), papers[..n], papers[n]);
      }
    }
  }

  /** With an answer for every paper and no `Quit`, exactly the papers
      answered `y` or left blank are accepted. */
  lemma {:induction false} ReviewWithoutQuit(papers: seq<FilteredPaper>, replies: seq<Reply>)
    requires |papers| <= |replies|
    requires forall i :: 0 <= i < |papers| ==> replies[i] != Quit
    ensures Review(papers, replies) == Some(Kept(papers, replies))
    decreases |papers|
  {
    if papers != [] {
      assert forall i :: 0 <= i < |papers| - 1 ==> replies[1..][i] == replies[i + 1];
      ReviewWithoutQuit(papers[1..], replies[1..]);
      KeptCons(papers, replies);
      var k := Kept(papers[1..], replies[1..]);
      assert replies[0] != Quit;
      if Keeps(replies[0]) {
        assert Review(papers, replies) == After([papers[0]], Some(k));
      } else {
        assert [] + k == k;
        assert Review(papers, replies) == Some(k);
      }
    }
  }

  /** A `Quit` on the paper at `q` ends the review: the papers before it are
      decided by their replies, and neither it nor any later paper is kept. */
  lemma {:induction false} ReviewStopsAtQuit(papers: seq<FilteredPaper>, replies: seq<Reply>, q: nat)
    requires q < |papers| && q < |replies| && replies[q] == Quit
    requires forall i :: 0 <= i < q ==> replies[i] != Quit
    ensures Review(papers, replies) == Some(Kept(papers[..q], replies))
    decreases q
  {
    if q > 0 {
      assert forall i :: 0 <= i < q - 1 ==> replies[1..][i] == replies[i + 1];
      ReviewStopsAtQuit(papers[1..], replies[1..], q - 1);
      KeptCons(papers[..q], replies);
      assert papers[..q][1..] == papers[1..][..q - 1];
      var k := Kept(papers[1..][..q - 1], replies[1..]);
      assert replies[0] != Quit;
      if Keeps(replies[0]) {
        assert Review(papers, replies) == After([papers[0]], Some(k));
      } else {
        assert [] + k == k;
        assert Review(papers, replies) == Some(k);
      }
    }
  }

  /** Running out of answers before the last paper, without a `Quit`, aborts
      the review. */
  lemma {:induction false} ReviewRunsOut(papers: seq<FilteredPaper>, replies: seq<Reply>)
    requires |replies| < |papers|
    requires forall i :: 0 <= i < |replies| ==> replies[i] != Quit
    ensures Review(papers, replies) == None
    decreases |replies|
  {
    if replies != [] {
      assert forall i :: 0 <= i < |replies| - 1 ==> replies[1..][i] == replies[i + 1];
      ReviewRunsOut(papers[1..], replies[1..]);
    }
  }

  /** The accepted papers are an order-preserving selection of the input. */
  lemma {:induction false} ReviewSubseq(papers: seq<FilteredPaper>, replies: seq<Reply>)
    requires Review(papers, replies).Some?
    ensures IsSubseq(Review(papers, replies).value, papers)
    ensures |Review(papers, replies).value| <= |papers|
    decreases |papers|
  {
    var r := Review(papers, replies).value;
    if papers != [] && replies[0] != Quit {
      var rest := Review(papers[1..], replies[1..]).value;
      ReviewSubseq(papers[1..], replies[1..]);
      assert papers == [papers[0]] + papers[1..];
      if Keeps(replies[0]) {
        SubseqPrependBoth(rest, papers[1..], papers[0]);
      } else {
        SubseqPrependRight(rest, papers[1..], papers[0]);
      }
    }
    SubseqLength(r, papers);
  }

  // ---------------------------------------------------------------------------
  // Output file and format
  // ---------------------------------------------------------------------------

  /** The position of the last `c` in `s`. */
  function LastIndex(s: string, c: char): (r: Option<nat>)
    ensures r.Some? ==> r.value < |s| && s[r.value] == c && forall j :: r.value < j < |s| ==> s[j] != c
    ensures r.None? ==> forall j :: 0 <= j < |s| ==> s[j] != c
  {
    if s == [] then None
    else if s[|s| - 1] == c then Some(|s| - 1)
    else LastIndex(s[..|s| - 1], c)
  }

  /** `PurePath.name`: the text after the last `/`. */
  function FileName(path: string): (r: string)
    ensures |r| <= |path| && r == path[|path| - |r|..]
    ensures |r| == |path| || path[|path| - |r| - 1] == '/'
    ensures forall i :: 0 <= i < |r| ==> r[i] != '/'
  {
    match LastIndex(path, '/')
    case None => path
    case Some(i) => path[i + 1..]
  }

  /** `PurePath.suffix`: the name from its last dot on, when that dot is
      neither the first nor the last character of the name. */
  function Suffix(name: string): (r: string)
    ensures r == [] || (2 <= |r| < |name| && r == name[|name| - |r|..] && r[0] == '.')
    ensures forall i :: 1 <= i < |r| ==> r[i] != '.'
  {
    match LastIndex(name, '.')
    case None => ""
    case Some(i) => if 0 < i < |name| - 1 then name[i..] else ""
  }

  /** `PurePath.stem`: the name without its suffix. */
  function Stem(name: string): string {
    name[..|name| - |Suffix(name)|]
  }

  /** `PurePath.with_suffix`: the directory, then the stem with the new
      suffix; None where pathlib raises because the name is empty. */
  function WithSuffix(path: string, suffix: string): Option<string> {
    var name := FileName(path);
    if name == "" then None else Some(path[..|path| - |name|] + (Stem(name) + suffix))
  }

  /** `_generate_output_path`, with the formatted clock reading as a
      parameter. */
  function GeneratedPath(timestamp: string, ext: string): string {
    "results_" + timestamp + ext
  }

  datatype Format = Markdown | Csv

  datatype Destination = Destination(format: Format, path: string)

  /** The file `_save_results` writes and its format: the `--output` argument
      or a generated name; a `.md` suffix in any case means Markdown, a `.csv`
      suffix in any case is kept, anything else becomes `.csv`. None where the
      suffix replacement raises. */
  function ChooseOutput(outputArg: string, timestamp: string): Option<Destination> {
    var path := if outputArg != "" then outputArg else GeneratedPath(timestamp, ".csv");
    var ext := Lower(Suffix(FileName(path)));
    if ext == ".md" then Some(Destination(Markdown, path))
    else if ext == ".csv" then Some(Destination(Csv, path))
    else
      match WithSuffix(path, ".csv")
      case None => None
      case Some(p) => Some(Destination(Csv, p))
  }

  lemma {:induction false} LastIndexAppend(a: string, b: string, c: char)
    requires forall i :: 0 <= i < |b| ==> b[i] != c
    ensures LastIndex(a + b, c) == LastIndex(a, c)
    decreases |b|
  {
    if b == [] {
      assert a + b == a;
    } else {
      var n := |b| - 1;
      assert (a + b)[..|a + b| - 1] == a + b[..n];
      LastIndexAppend(a, b[..n], c);
    }
  }

  lemma FileNameOf(dir: string, name: string)
    requires dir == [] || dir[|dir| - 1] == '/'
    requires forall i :: 0 <= i < |name| ==> name[i] != '/'
    ensures FileName(dir + name) == name
  {
    LastIndexAppend(dir, name, '/');
    if dir == [] {
      assert dir + name == name;
    } else {
      assert (dir + name)[|dir|..] == name;
    }
  }

  lemma SuffixOf(stem: string, ext: string)
    requires stem != [] && 2 <= |ext| && ext[0] == '.'
    requires forall i :: 1 <= i < |ext| ==> ext[i] != '.'
    ensures Suffix(stem + ext) == ext
  {
    var name := stem + ext;
    assert name[|stem|] == '.';
    var i := LastIndex(name, '.').value;
    assert i == |stem|;
    assert name[i..] == ext;
  }

  lemma LowerCsv()
    ensures Lower(".csv") == ".csv"
  {
    assert LowerChar('.') == '.' && LowerChar('c') == 'c' && LowerChar('s') == 's' && LowerChar('v') == 'v';
    assert Lower(".csv") == ['.', 'c', 's', 'v'];
  }

  lemma LowerMd()
    ensures Lower(".MD") == ".md"
  {
    assert LowerChar('.') == '.' && LowerChar('M') == 'm' && LowerChar('D') == 'd';
    assert Lower(".MD") == ['.', 'm', 'd'];
  }

  lemma CsvSuffix(stem: string)
    requires stem != []
    ensures Suffix(stem + ".csv") == ".csv"
  {
    SuffixOf(stem, ".csv");
  }

  /** Replacing the suffix by `.csv` keeps the directory and the stem, and
      leaves a file name whose suffix is `.csv`. */
  lemma ReplacedSuffix(path: string, q: string)
    requires WithSuffix(path, ".csv") == Some(q)
    ensures var name := FileName(path);
            && FileName(q) == Stem(name) + ".csv"
            && q[..|q| - |FileName(q)|] == path[..|path| - |name|]
            && Suffix(FileName(q)) == ".csv"
  {
    var name := FileName(path);
    var stem := Stem(name);
    var dir := path[..|path| - |name|];
    assert q == dir + (stem + ".csv");
    DirectoryEnd(path);
    StemNoSlash(name);
    assert FileName(q) == stem + ".csv" by {
      CsvNoSlash(stem);
      FileNameOf(dir, stem + ".csv");
    }
    assert q[..|dir|] == dir;
    CsvSuffix(stem);
  }

  /** The directory part of a path ends in `/` unless it is empty. */
  lemma DirectoryEnd(path: string)
    ensures var dir := path[..|path| - |FileName(path)|];
            dir == [] || dir[|dir| - 1] == '/'
  {
  }

  /** The stem of a non-empty name without `/` is non-empty and without `/`. */
  lemma StemNoSlash(name: string)
    requires name != [] && forall i :: 0 <= i < |name| ==> name[i] != '/'
    ensures Stem(name) != [] && forall i :: 0 <= i < |Stem(name)| ==> Stem(name)[i] != '/'
  {
    var stem := Stem(name);
    assert forall i :: 0 <= i < |stem| ==> stem[i] == name[i];
  }

  lemma CsvNoSlash(stem: string)
    requires forall i :: 0 <= i < |stem| ==> stem[i] != '/'
    ensures forall i :: 0 <= i < |stem + ".csv"| ==> (stem + ".csv")[i] != '/'
  {
    var t := stem + ".csv";
    forall i | 0 <= i < |t|
      ensures t[i] != '/'
    {
      if i >= |stem| {
        assert t[i] == ".csv"[i - |stem|];
      }
    }
  }

  /** The stem and suffix of a name made of a stem and a suffix. */
  lemma StemOf(stem: string, ext: string)
    requires stem != [] && 2 <= |ext| && ext[0] == '.'
    requires forall i :: 1 <= i < |ext| ==> ext[i] != '.'
    ensures Suffix(stem + ext) == ext && Stem(stem + ext) == stem
  {
    SuffixOf(stem, ext);
    assert (stem + ext)[..|stem|] == stem;
  }

  /** The chosen format agrees with the chosen file's suffix, and choosing
      again from the chosen path changes nothing. */
  lemma ChooseOutputStable(outputArg: string, timestamp: string)
    requires ChooseOutput(outputArg, timestamp).Some?
    ensures var d := ChooseOutput(outputArg, timestamp).value;
            && d.path != ""
            && (d.format == Markdown <==> Lower(Suffix(FileName(d.path))) == ".md")
            && (d.format == Csv <==> Lower(Suffix(FileName(d.path))) == ".csv")
            && ChooseOutput(d.path, timestamp) == Some(d)
  {
    var path := if outputArg != "" then outputArg else GeneratedPath(timestamp, ".csv");
    var ext := Lower(Suffix(FileName(path)));
    if ext != ".md" && ext != ".csv" {
      ReplacedSuffix(path, WithSuffix(path, ".csv").value);
      LowerCsv();
      assert |".csv"| == 4;
    }
  }

  /** Without `--output`, the results go to `results_<timestamp>.csv` as CSV. */
  lemma DefaultOutputIsCsv(timestamp: string)
    requires forall i :: 0 <= i < |timestamp| ==> timestamp[i] != '/'
    ensures ChooseOutput("", timestamp) == Some(Destination(Csv, "results_" + timestamp + ".csv"))
  {
    var stem := "results_" + timestamp;
    assert GeneratedPath(timestamp, ".csv") == stem + ".csv";
    FileNameOf([], stem + ".csv");
    assert [] + (stem + ".csv") == stem + ".csv";
    SuffixOf(stem, ".csv");
    LowerCsv();
  }

  /** Upper-case `.MD` selects Markdown, and the path is kept as given. */
  lemma UpperCaseMarkdown(stem: string, timestamp: string)
    requires stem != [] && forall i :: 0 <= i < |stem| ==> stem[i] != '/'
    ensures ChooseOutput(stem + ".MD", timestamp) == Some(Destination(Markdown, stem + ".MD"))
  {
    var path := stem + ".MD";
    assert path != "";
    assert Lower(Suffix(FileName(path))) == ".md" by {
      assert FileName(path) == path by {
        FileNameOf([], path);
        assert [] + path == path;
      }
      assert Suffix(path) == ".MD" by {
        SuffixOf(stem, ".MD");
      }
      LowerMd();
    }
  }

  /** Any other suffix is replaced by `.csv`, keeping the directory and the
      stem. */
  lemma OtherSuffixReplaced(dir: string, stem: string, ext: string, timestamp: string)
    requires dir == [] || dir[|dir| - 1] == '/'
    requires stem != [] && forall i :: 0 <= i < |stem| ==> stem[i] != '/'
    requires 2 <= |ext| && ext[0] == '.' && forall i :: 1 <= i < |ext| ==> ext[i] != '.' && ext[i] != '/'
    requires Lower(ext) != ".md" && Lower(ext) != ".csv"
    ensures ChooseOutput(dir + stem + ext, timestamp) == Some(Destination(Csv, dir + stem + ".csv"))
  {
    var name := stem + ext;
    var path := dir + name;
    assert dir + stem + ext == path && dir + stem + ".csv" == dir + (stem + ".csv");
    assert path != "";
    assert FileName(path) == name by {
      FileNameOf(dir, name);
    }
    StemOf(stem, ext);
    assert path[..|path| - |name|] == dir;
  }

  // ---------------------------------------------------------------------------
  // The pipeline of `main`
  // ---------------------------------------------------------------------------

  /** `fetch_recent_papers` is called with its default `max_results`. */
  const FetchLimit: int := 100

  /** How a run ends. */
  datatype Outcome =
    | ConfigFailed(error: Configuration.ConfigError)   // reported; exit status 1
    | NoMatches                                         // "No papers matched your keywords."
    | ReviewAborted                                     // the prompt met the end of its input
    | NothingToSave                                     // "No papers to save."
    | BadOutputPath                                     // `with_suffix` raised
    | Saved(destination: Destination, papers: seq<FilteredPaper>)

  /** The file a run writes. */
  datatype OutputFile =
    | NoFile
    | MarkdownFile(path: string, text: string)
    | CsvFile(path: string, rows: seq<seq<string>>)

  /** The responses the `j`-th configured journal's requests receive; a
      journal without any gets a failing first request. */
  function ResponsesFor(responses: seq<seq<Crossref.Response>>, j: nat): seq<Crossref.Response> {
    if j < |responses| then responses[j] else []
  }

  /** All fetched papers, journal after journal in configured order. */
  function FetchAll(journals: seq<Configuration.JournalConfig>, responses: seq<seq<Crossref.Response>>): seq<Crossref.Paper>
    decreases |journals|
  {
    if journals == [] then []
    else
      var j := |journals| - 1;
      FetchAll(journals[..j], responses) + Crossref.Fetched(ResponsesFor(responses, j), journals[j].name, FetchLimit)
  }

  /** How `main` ends for the given configuration file, responses, review
      flag, replies, `--output` argument and clock reading. */
  function MainOutcome(fileExists: bool, raw: Option<Configuration.Document>, responses: seq<seq<Crossref.Response>>,
                       noReview: bool, replies: seq<Reply>, outputArg: string, timestamp: string): Outcome
  {
    var loaded := Configuration.Load(fileExists, raw);
    if loaded.Failure? then ConfigFailed(loaded.error)
    else
      var config := loaded.value;
      var filtered := FilterSpec(FetchAll(config.journals, responses), config.keywords);
      if filtered == [] then NoMatches
      else
        var reviewed := if noReview then Some(filtered) else Review(filtered, replies);
        if reviewed.None? then ReviewAborted
        else if reviewed.value == [] then NothingToSave
        else
          match ChooseOutput(outputArg, timestamp)
          case None => BadOutputPath
          case Some(d) => Saved(d, reviewed.value)
  }

  /** `main`, after argument parsing: load, fetch every journal, filter,
      review or not, and save. `today` is the report date. */
  method Run(fileExists: bool, raw: Option<Configuration.Document>, responses: seq<seq<Crossref.Response>>,
             noReview: bool, replies: seq<Reply>, outputArg: string, timestamp: string, today: string)
    returns (outcome: Outcome, file: OutputFile)
    ensures outcome == MainOutcome(fileExists, raw, responses, noReview, replies, outputArg, timestamp)
    ensures !outcome.Saved? ==> file == NoFile
    ensures outcome.Saved? && outcome.destination.format == Markdown ==>
              file == MarkdownFile(outcome.destination.path,
                                   Join(Formatter.MarkdownLines(outcome.papers, today, Summarizer.ExtractSummary), "\n"))
    ensures outcome.Saved? && outcome.destination.format == Csv ==>
              && file.CsvFile? && file.path == outcome.destination.path
              && |file.rows| == |outcome.papers| + 1 && file.rows[0] == Formatter.CsvHeader
              && forall i :: 0 <= i < |outcome.papers| ==>
                   file.rows[i + 1] == Formatter.CsvRow(outcome.papers[i], Summarizer.ExtractSummary)
  {
    file := NoFile;
    var loaded := Configuration.FromYaml(fileExists, raw);
    if loaded.Failure? {
      return ConfigFailed(loaded.error), NoFile;
    }
    var config := loaded.value;

    var allPapers: seq<Crossref.Paper> := [];
    for j := 0 to |config.journals|
      invariant allPapers == FetchAll(config.journals[..j], responses)
    {
      var papers, cursors := Crossref.FetchRecentPapers(ResponsesFor(responses, j), config.journals[j].name, FetchLimit);
      assert config.journals[..j + 1][..j] == config.journals[..j];
      allPapers := allPapers + papers;
    }
    assert config.journals[..|config.journals|] == config.journals;

    var filtered := FilterPapers(allPapers, config.keywords);
    if filtered == [] {
      return NoMatches, NoFile;
    }

    var finalPapers: seq<FilteredPaper>;
    if noReview {
      finalPapers := filtered;
    } else {
      var reviewed := InteractiveReview(filtered, replies);
      if reviewed.None? {
        return ReviewAborted, NoFile;
      }
      finalPapers := reviewed.value;
    }
    if finalPapers == [] {
      return NothingToSave, NoFile;
    }

    var destination := ChooseOutput(outputArg, timestamp);
    if destination.None? {
      return BadOutputPath, NoFile;
    }
    var d := destination.value;
    if d.format == Markdown {
      var text := Formatter.ExportMarkdown(finalPapers, today, Summarizer.ExtractSummary);
      file := MarkdownFile(d.path, text);
    } else {
      var rows := Formatter.ExportCsv(finalPapers, Summarizer.ExtractSummary);
      file := CsvFile(d.path, rows);
    }
    outcome := Saved(d, finalPapers);
  }

  /** Once the configuration loads: nothing is saved when no paper matched
      or none was accepted; what is saved is a non-empty, order-preserving
      selection of the matched papers, all of them under `--no-review`. */
  lemma MainSaves(fileExists: bool, raw: Option<Configuration.Document>, responses: seq<seq<Crossref.Response>>,
                  noReview: bool, replies: seq<Reply>, outputArg: string, timestamp: string)
    requires Configuration.Load(fileExists, raw).Success?
    ensures var config := Configuration.Load(fileExists, raw).value;
            var filtered := FilterSpec(FetchAll(config.journals, responses), config.keywords);
            var outcome := MainOutcome(fileExists, raw, responses, noReview, replies, outputArg, timestamp);
            && (filtered == [] ==> outcome == NoMatches)
            && (filtered != [] && !noReview && Review(filtered, replies) == Some([]) ==> outcome == NothingToSave)
            && (outcome.Saved? ==> outcome.papers != [] && IsSubseq(outcome.papers, filtered))
            && (outcome.Saved? && noReview ==> outcome.papers == filtered)
            && (filtered != [] && noReview && ChooseOutput(outputArg, timestamp).Some? ==>
                  outcome == Saved(ChooseOutput(outputArg, timestamp).value, filtered))
  {
    var config := Configuration.Load(fileExists, raw).value;
    var filtered := FilterSpec(FetchAll(config.journals, responses), config.keywords);
    if noReview {
      SubseqRefl(filtered);
    } else if filtered != [] && Review(filtered, replies).Some? {
      ReviewSubseq(filtered, replies);
    }
  }
}
