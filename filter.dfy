/** Keyword filtering (src/filter.py): a case-insensitive substring test of
    each configured keyword against a paper's title and its HTML-stripped
    abstract. */
module Filter {
  import opened Strings
  import opened Seqs
  import Summarizer
  import opened Crossref

  /** A paper that passed the filter, with the keywords it matched. */
  datatype FilteredPaper = FilteredPaper(paper: Paper, matchedKeywords: seq<string>)

  /** `kw_lower in title_lower or kw_lower in abstract_lower`. */
  predicate KeywordHits(kwLower: string, titleLower: string, abstractLower: string) {
    IsSubstring(kwLower, titleLower) || IsSubstring(kwLower, abstractLower)
  }

  /** The keywords whose lowercase form hits the lowered texts, in configured
      order and original casing. */
  function Matched(keywords: seq<string>, titleLower: string, abstractLower: string): seq<string> {
    if keywords == [] then []
    else
      var kw := keywords[|keywords| - 1];
      Matched(keywords[..|keywords| - 1], titleLower, abstractLower)
      + (if KeywordHits(Lower(kw), titleLower, abstractLower) then [kw] else [])
  }

  /** The texts a paper is searched in: its lowered title and its lowered,
      HTML-stripped abstract. */
  function TitleLower(p: Paper): string {
    Lower(p.title)
  }

  function AbstractLower(p: Paper): string {
    Lower(Summarizer.StripHtml(p.abstractText))
  }

  /** The lowercase keyword occurs in the lowercase title or in the lowercase
      stripped abstract. */
  predicate Hits(p: Paper, kw: string) {
    KeywordHits(Lower(kw), TitleLower(p), AbstractLower(p))
  }

  function MatchedKeywords(p: Paper, keywords: seq<string>): seq<string> {
    Matched(keywords, TitleLower(p), AbstractLower(p))
  }

  /** The papers `matcher` finds some keyword in, each paired with what it
      found, in input order. */
  function Keep(papers: seq<Paper>, matcher: Paper -> seq<string>): seq<FilteredPaper> {
    if papers == [] then []
    else
      var p := papers[|papers| - 1];
      var m := matcher(p);
      Keep(papers[..|papers| - 1], matcher) + (if m != [] then [FilteredPaper(p, m)] else [])
  }

  /** The papers with at least one matched keyword, in input order. */
  function Filtered(papers: seq<Paper>, keywords: seq<string>): seq<FilteredPaper> {
    Keep(papers, p => MatchedKeywords(p, keywords))
  }

  /** Every paper, each with an empty keyword list. */
  function PassThrough(papers: seq<Paper>): seq<FilteredPaper> {
    seq(|papers|, i requires 0 <= i < |papers| => FilteredPaper(papers[i], []))
  }

  /** What `filter_papers` returns. */
  function FilterSpec(papers: seq<Paper>, keywords: seq<string>): seq<FilteredPaper> {
    if keywords == [] then PassThrough(papers) else Filtered(papers, keywords)
  }

  function PapersOf(results: seq<FilteredPaper>): seq<Paper> {
    seq(|results|, i requires 0 <= i < |results| => results[i].paper)
  }

  /** `filter_papers`: the keywords are lowered once, then each paper's
      lowered title and abstract are tested against each keyword. */
  method FilterPapers(papers: seq<Paper>, keywords: seq<string>) returns (results: seq<FilteredPaper>)
    ensures results == FilterSpec(papers, keywords)
  {
    if keywords == [] {
      return PassThrough(papers);
    }

    results := [];
    var lowercaseKeywords := seq(|keywords|, i requires 0 <= i < |keywords| => Lower(keywords[i]));

    for i := 0 to |papers|
      invariant results == Keep(papers[..i], p => MatchedKeywords(p, keywords))
    {
      var paper := papers[i];
      var titleLower := Lower(paper.title);
      var abstractLower := Lower(Summarizer.StripHtml(paper.abstractText));
      assert titleLower == TitleLower(paper) && abstractLower == AbstractLower(paper);

      var matched: seq<string> := [];
      for j := 0 to |keywords|
        invariant matched == Matched(keywords[..j], titleLower, abstractLower)
      {
        MatchedSnoc(keywords, j, titleLower, abstractLower);
        if IsSubstring(lowercaseKeywords[j], titleLower) || IsSubstring(lowercaseKeywords[j], abstractLower) {
          matched := matched + [keywords[j]];
        }
      }
      assert keywords[..|keywords|] == keywords;

      KeepSnoc(papers, i, p => MatchedKeywords(p, keywords));
      if matched != [] {
        results := results + [FilteredPaper(paper, matched)];
      }
    }
    assert papers[..|papers|] == papers;
  }

  lemma MatchedSnoc(keywords: seq<string>, j: nat, titleLower: string, abstractLower: string)
    requires j < |keywords|
    ensures Matched(keywords[..j + 1], titleLower, abstractLower)
            == Matched(keywords[..j], titleLower, abstractLower)
               + (if KeywordHits(Lower(keywords[j]), titleLower, abstractLower) then [keywords[j]] else [])
  {
    assert keywords[..j + 1][..j] == keywords[..j];
  }

  lemma KeepSnoc(papers: seq<Paper>, i: nat, matcher: Paper -> seq<string>)
    requires i < |papers|
    ensures var m := matcher(papers[i]);
            Keep(papers[..i + 1], matcher) == Keep(papers[..i], matcher) + (if m != [] then [FilteredPaper(papers[i], m)] else [])
  {
    assert papers[..i + 1][..i] == papers[..i];
  }

  // ---------------------------------------------------------------------------
  // Matched keywords
  // ---------------------------------------------------------------------------

  /** A keyword is listed iff it is configured and hits the paper. */
  lemma {:induction false} MatchedIff(keywords: seq<string>, t: string, a: string, kw: string)
    ensures kw in Matched(keywords, t, a) <==> kw in keywords && KeywordHits(Lower(kw), t, a)
  {
    if keywords != [] {
      var init := keywords[..|keywords| - 1];
      MatchedIff(init, t, a, kw);
      assert keywords == init + [keywords[|keywords| - 1]];
    }
  }

  /** The matched keywords keep the configured order and casing. */
  lemma {:induction false} MatchedInOrder(keywords: seq<string>, t: string, a: string)
    ensures IsSubseq(Matched(keywords, t, a), keywords)
  {
    if keywords != [] {
      var init := keywords[..|keywords| - 1];
      var last := keywords[|keywords| - 1];
      MatchedInOrder(init, t, a);
      assert keywords == init + [last];
      if KeywordHits(Lower(last), t, a) {
        assert Matched(keywords, t, a) == Matched(init, t, a) + [last];
        SubseqExtendBoth(Matched(init, t, a), init, last);
      } else {
        assert Matched(keywords, t, a) == Matched(init, t, a);
        SubseqExtendRight(Matched(init, t, a), init, last);
      }
    }
  }

  /** A keyword configured twice is listed twice when it hits. */
  lemma {:induction false} MatchedMultiplicity(keywords: seq<string>, t: string, a: string, kw: string)
    ensures multiset(Matched(keywords, t, a))[kw] == if KeywordHits(Lower(kw), t, a) then multiset(keywords)[kw] else 0
  {
    if keywords != [] {
      var init := keywords[..|keywords| - 1];
      MatchedMultiplicity(init, t, a, kw);
      assert keywords == init + [keywords[|keywords| - 1]];
    }
  }

  /** Some keyword is listed iff some configured keyword hits. */
  lemma MatchedNonEmptyIff(p: Paper, keywords: seq<string>)
    ensures MatchedKeywords(p, keywords) != [] <==> exists kw :: kw in keywords && Hits(p, kw)
  {
    var m := MatchedKeywords(p, keywords);
    if m != [] {
      MatchedIff(keywords, TitleLower(p), AbstractLower(p), m[0]);
    }
    forall kw | kw in keywords && Hits(p, kw)
      ensures m != []
    {
      MatchedIff(keywords, TitleLower(p), AbstractLower(p), kw);
    }
  }

  // ---------------------------------------------------------------------------
  // The filtered list
  // ---------------------------------------------------------------------------

  /** With no keywords configured every paper is returned, in order, with no
      matched keywords. */
  lemma NoKeywordsPassesAll(papers: seq<Paper>)
    ensures |FilterSpec(papers, [])| == |papers|
    ensures PapersOf(FilterSpec(papers, [])) == papers
    ensures forall i :: 0 <= i < |papers| ==> FilterSpec(papers, [])[i].matchedKeywords == []
  {
  }

  lemma PapersOfSnoc(results: seq<FilteredPaper>, fp: FilteredPaper)
    ensures PapersOf(results + [fp]) == PapersOf(results) + [fp.paper]
  {
  }

  lemma {:induction false} KeepEntries(papers: seq<Paper>, matcher: Paper -> seq<string>)
    ensures forall i :: 0 <= i < |Keep(papers, matcher)| ==>
              Keep(papers, matcher)[i].matchedKeywords == matcher(Keep(papers, matcher)[i].paper)
              && Keep(papers, matcher)[i].matchedKeywords != []
  {
    if papers != [] {
      KeepEntries(papers[..|papers| - 1], matcher);
    }
  }

  lemma {:induction false} KeepInOrder(papers: seq<Paper>, matcher: Paper -> seq<string>)
    ensures IsSubseq(PapersOf(Keep(papers, matcher)), papers)
  {
    if papers != [] {
      var init := papers[..|papers| - 1];
      var p := papers[|papers| - 1];
      var kept := Keep(init, matcher);
      KeepInOrder(init, matcher);
      assert papers == init + [p];
      if matcher(p) != [] {
        assert Keep(papers, matcher) == kept + [FilteredPaper(p, matcher(p))];
        PapersOfSnoc(kept, FilteredPaper(p, matcher(p)));
        SubseqExtendBoth(PapersOf(kept), init, p);
      } else {
        assert Keep(papers, matcher) == kept;
        SubseqExtendRight(PapersOf(kept), init, p);
      }
    }
  }

  lemma {:induction false} KeepMultiplicity(papers: seq<Paper>, matcher: Paper -> seq<string>, p: Paper)
    ensures multiset(PapersOf(Keep(papers, matcher)))[p] == if matcher(p) != [] then multiset(papers)[p] else 0
  {
    if papers != [] {
      var init := papers[..|papers| - 1];
      var q := papers[|papers| - 1];
      var kept := Keep(init, matcher);
      KeepMultiplicity(init, matcher, p);
      assert papers == init + [q];
      if matcher(q) != [] {
        assert Keep(papers, matcher) == kept + [FilteredPaper(q, matcher(q))];
        PapersOfSnoc(kept, FilteredPaper(q, matcher(q)));
      } else {
        assert Keep(papers, matcher) == kept;
      }
    }
  }

  /** Every entry carries exactly the keywords its paper matches, and at least one. */
  lemma FilteredEntries(papers: seq<Paper>, keywords: seq<string>)
    ensures forall i :: 0 <= i < |Filtered(papers, keywords)| ==>
              Filtered(papers, keywords)[i].matchedKeywords == MatchedKeywords(Filtered(papers, keywords)[i].paper, keywords)
              && Filtered(papers, keywords)[i].matchedKeywords != []
  {
    KeepEntries(papers, p => MatchedKeywords(p, keywords));
  }

  /** The kept papers are an order-preserving subsequence of the input. */
  lemma FilteredInOrder(papers: seq<Paper>, keywords: seq<string>)
    ensures IsSubseq(PapersOf(Filtered(papers, keywords)), papers)
  {
    KeepInOrder(papers, p => MatchedKeywords(p, keywords));
  }

  /** A paper occurs in the result as often as in the input when it matches,
      and not at all otherwise; in particular each input entry is kept at most
      once. */
  lemma FilteredMultiplicity(papers: seq<Paper>, keywords: seq<string>, p: Paper)
    ensures multiset(PapersOf(Filtered(papers, keywords)))[p]
            == if MatchedKeywords(p, keywords) != [] then multiset(papers)[p] else 0
  {
    KeepMultiplicity(papers, q => MatchedKeywords(q, keywords), p);
  }

  /** With keywords configured, a paper of the input is kept iff some keyword
      hits its title or stripped abstract. */
  lemma KeptIffSomeKeywordHits(papers: seq<Paper>, keywords: seq<string>, p: Paper)
    requires keywords != [] && p in papers
    ensures p in PapersOf(FilterSpec(papers, keywords)) <==> exists kw :: kw in keywords && Hits(p, kw)
  {
    FilteredMultiplicity(papers, keywords, p);
    MatchedNonEmptyIff(p, keywords);
  }
}
