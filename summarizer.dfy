/** Abstract cleaning and the one-sentence summary (src/summarizer.py). */
module Summarizer {
  import opened Strings
  import Seqs

  // ---------------------------------------------------------------------------
  // Markup tags: the pattern `<[^>]+>`
  // ---------------------------------------------------------------------------

  /** A markup tag as `<[^>]+>` matches it: `<`, one or more characters other
      than `>`, then `>`. */
  ghost predicate IsTag(t: string) {
    |t| >= 3 && t[0] == '<' && t[|t| - 1] == '>' && forall k :: 0 < k < |t| - 1 ==> t[k] != '>'
  }

  ghost predicate ContainsTag(s: string) {
    exists i, j :: 0 <= i < j <= |s| && IsTag(s[i..j])
  }

  /** Length of the tag that starts `s`, or 0 when no tag starts there. The
      greedy `[^>]+` runs up to the first `>`. */
  function TagLength(s: string): (n: nat)
    ensures n <= |s|
    ensures n > 0 ==> IsTag(s[..n])
    ensures n == 0 ==> forall m :: 0 <= m <= |s| ==> !IsTag(s[..m])
  {
    if s == [] || s[0] != '<' then 0
    else
      var k := IndexOf(s[1..], '>');
      if 1 <= k < |s| - 1 then k + 2 else 0
  }

  /** `re.sub(r"<[^>]+>", rep, s)`: each tag, found left to right without
      overlap, becomes `rep`. */
  function ReplaceTags(s: string, rep: string): string
    decreases |s|
  {
    if s == [] then []
    else
      var n := TagLength(s);
      if n > 0 then rep + ReplaceTags(s[n..], rep) else [s[0]] + ReplaceTags(s[1..], rep)
  }

  /** Every `<` is followed at once by `>`, or by no `>` at all; such a text
      holds no tag. */
  ghost predicate TagFree(s: string) {
    forall i :: 0 <= i < |s| && s[i] == '<' ==> (i + 1 < |s| && s[i + 1] == '>') || '>' !in s[i + 1..]
  }

  lemma TagFreeHasNoTag(s: string)
    requires TagFree(s)
    ensures !ContainsTag(s)
  {
    forall i, j | 0 <= i < j <= |s| ensures !IsTag(s[i..j]) {
      if s[i] == '<' && j - i >= 3 {
        if i + 1 < |s| && s[i + 1] == '>' {
          assert s[i..j][1] == '>';
        } else {
          assert s[j - 1] in s[i + 1..];
        }
      }
    }
  }

  lemma TagFreePrepend(x: string, y: string)
    requires TagFree(y) && '<' !in x
    ensures TagFree(x + y)
  {
    var s := x + y;
    forall i | 0 <= i < |s| && s[i] == '<'
      ensures (i + 1 < |s| && s[i + 1] == '>') || '>' !in s[i + 1..]
    {
      assert s[..|x|] == x;
      assert y[i - |x|] == '<';
      assert s[i + 1..] == y[i - |x| + 1..];
    }
  }

  /** A `<` put in front keeps the text tag-free when what follows starts with
      `>` or holds no `>`. */
  lemma TagFreeCons(c: char, rest: string)
    requires TagFree(rest)
    requires c == '<' ==> (rest != [] && rest[0] == '>') || '>' !in rest
    ensures TagFree([c] + rest)
  {
    var r := [c] + rest;
    forall i | 0 <= i < |r| && r[i] == '<'
      ensures (i + 1 < |r| && r[i + 1] == '>') || '>' !in r[i + 1..]
    {
      if i > 0 {
        assert r[i] == rest[i - 1];
        assert r[i + 1..] == rest[i..];
      } else {
        assert r[1..] == rest;
      }
    }
  }

  lemma TagFreeSlice(s: string, a: nat, b: nat)
    requires TagFree(s) && a <= b <= |s|
    ensures TagFree(s[a..b])
  {
    var t := s[a..b];
    forall i | 0 <= i < |t| && t[i] == '<'
      ensures (i + 1 < |t| && t[i + 1] == '>') || '>' !in t[i + 1..]
    {
      assert s[a + i] == '<';
      if '>' in t[i + 1..] {
        var k :| i + 1 <= k < |t| && t[k] == '>';
        assert s[a + k] == '>' && s[a + k] in s[a + i + 1..];
        assert a + i + 1 < |s| && s[a + i + 1] == '>';
      }
    }
  }

  lemma {:induction false} ReplaceTagsKeepsAngles(s: string, rep: string)
    requires '>' !in rep
    ensures '>' in ReplaceTags(s, rep) ==> '>' in s
    decreases |s|
  {
    if s != [] {
      var n := TagLength(s);
      if n > 0 {
        ReplaceTagsKeepsAngles(s[n..], rep);
        if '>' in s[n..] { var k :| 0 <= k < |s[n..]| && s[n..][k] == '>'; assert s[n + k] == '>'; }
      } else {
        ReplaceTagsKeepsAngles(s[1..], rep);
        if '>' in s[1..] { var k :| 0 <= k < |s[1..]| && s[1..][k] == '>'; assert s[1 + k] == '>'; }
      }
    }
  }

  /** No tag survives the substitution, whatever the replacement, as long as
      the replacement holds no angle bracket. */
  lemma {:induction false} ReplaceTagsTagFree(s: string, rep: string)
    requires '<' !in rep && '>' !in rep
    ensures TagFree(ReplaceTags(s, rep))
    decreases |s|
  {
    if s != [] {
      var n := TagLength(s);
      if n > 0 {
        ReplaceTagsTagFree(s[n..], rep);
        TagFreePrepend(rep, ReplaceTags(s[n..], rep));
      } else {
        var rest := ReplaceTags(s[1..], rep);
        ReplaceTagsTagFree(s[1..], rep);
        if s[0] == '<' {
          if |s| > 1 && s[1] == '>' {
            assert TagLength(s[1..]) == 0;
            assert rest[0] == '>';
          } else {
            var k := IndexOf(s[1..], '>');
            assert k == |s| - 1;
            assert '>' !in s[1..];
            ReplaceTagsKeepsAngles(s[1..], rep);
          }
        }
        TagFreeCons(s[0], rest);
      }
    }
  }

  /** On a text without tags the substitution changes nothing. */
  lemma {:induction false} ReplaceTagsIdentity(s: string, rep: string)
    requires TagFree(s)
    ensures ReplaceTags(s, rep) == s
    decreases |s|
  {
    if s != [] {
      assert TagLength(s) == 0 by {
        if s[0] == '<' {
          var k := IndexOf(s[1..], '>');
          if |s| > 1 && s[1] == '>' {
            assert k == 0;
          } else {
            assert '>' !in s[1..];
            assert k == |s| - 1;
          }
        }
      }
      TagFreeSlice(s, 1, |s|);
      ReplaceTagsIdentity(s[1..], rep);
    }
  }

  /** Text without `<` passes through the substitution unchanged, whatever
      follows it. */
  lemma {:induction false} ReplaceTagsPlainPrefix(x: string, y: string, rep: string)
    requires '<' !in x
    ensures ReplaceTags(x + y, rep) == x + ReplaceTags(y, rep)
    decreases |x|
  {
    if x != [] {
      var s := x + y;
      assert s[0] == x[0] && s[1..] == x[1..] + y;
      assert TagLength(s) == 0;
      assert ReplaceTags(s, rep) == [x[0]] + ReplaceTags(x[1..] + y, rep);
      ReplaceTagsPlainPrefix(x[1..], y, rep);
      assert x == [x[0]] + x[1..];
    } else {
      assert x + y == y;
    }
  }

  /** A tag at the front becomes `rep`, and matching resumes right after its `>`. */
  lemma ReplaceTagsLeadingTag(t: string, y: string, rep: string)
    requires IsTag(t)
    ensures ReplaceTags(t + y, rep) == rep + ReplaceTags(y, rep)
  {
    var s := t + y;
    var inner := t[1..|t| - 1];
    assert '>' !in inner;
    assert s[1..] == inner + ['>'] + y;
    IndexOfAfter(inner, '>', y);
    assert TagLength(s) == |t|;
    assert s[|t|..] == y;
  }

  /** The text before the first tag is kept, the tag becomes `rep`, and the
      substitution carries on after the tag. */
  lemma ReplaceTagsSplit(x: string, t: string, y: string, rep: string)
    requires '<' !in x && IsTag(t)
    ensures ReplaceTags(x + t + y, rep) == x + rep + ReplaceTags(y, rep)
  {
    assert x + t + y == x + (t + y);
    ReplaceTagsPlainPrefix(x, t + y, rep);
    ReplaceTagsLeadingTag(t, y, rep);
  }

  // ---------------------------------------------------------------------------
  // Whitespace: `re.sub(r"\s+", " ", s)`
  // ---------------------------------------------------------------------------

  /** Each maximal run of whitespace becomes one space. */
  function CollapseSpaces(s: string): (r: string)
    ensures |r| <= |s|
    ensures s != [] ==> r != [] && r[0] == (if IsSpace(s[0]) then ' ' else s[0])
    decreases |s|
  {
    if s == [] then []
    else if IsSpace(s[0]) then " " + CollapseSpaces(DropSpaces(s[1..]))
    else [s[0]] + CollapseSpaces(s[1..])
  }

  /** The only whitespace is a single space, never two in a row. */
  ghost predicate SpacesCollapsed(s: string) {
    forall i :: 0 <= i < |s| && IsSpace(s[i]) ==> s[i] == ' ' && (i + 1 == |s| || !IsSpace(s[i + 1]))
  }

  /** What `strip_html` promises of its output's whitespace. */
  ghost predicate Normalized(s: string) {
    SpacesCollapsed(s) && (s == [] || (!IsSpace(s[0]) && !IsSpace(s[|s| - 1])))
  }

  lemma {:induction false} CollapseSpacesCollapses(s: string)
    ensures SpacesCollapsed(CollapseSpaces(s))
    decreases |s|
  {
    if s != [] {
      var t := if IsSpace(s[0]) then DropSpaces(s[1..]) else s[1..];
      CollapseSpacesCollapses(t);
      var r := CollapseSpaces(s);
      assert r[1..] == CollapseSpaces(t);
      forall i | 0 <= i < |r| && IsSpace(r[i])
        ensures r[i] == ' ' && (i + 1 == |r| || !IsSpace(r[i + 1]))
      {
        if i > 0 {
          assert r[i] == r[1..][i - 1];
        }
      }
    }
  }

  lemma {:induction false} CollapseSpacesKeepsAngles(s: string)
    ensures '>' in CollapseSpaces(s) ==> '>' in s
    decreases |s|
  {
    if s != [] {
      if IsSpace(s[0]) {
        var t := DropSpaces(s[1..]);
        CollapseSpacesKeepsAngles(t);
        assert CollapseSpaces(s) == " " + CollapseSpaces(t);
        assert t == s[|s| - |t|..];
      } else {
        CollapseSpacesKeepsAngles(s[1..]);
        assert CollapseSpaces(s) == [s[0]] + CollapseSpaces(s[1..]);
        assert s == [s[0]] + s[1..];
      }
    }
  }

  lemma {:induction false} CollapseSpacesTagFree(s: string)
    requires TagFree(s)
    ensures TagFree(CollapseSpaces(s))
    decreases |s|
  {
    if s != [] {
      if IsSpace(s[0]) {
        var t := DropSpaces(s[1..]);
        TagFreeSlice(s, |s| - |t|, |s|);
        CollapseSpacesTagFree(t);
        assert CollapseSpaces(s) == [' '] + CollapseSpaces(t);
        TagFreeCons(' ', CollapseSpaces(t));
      } else {
        var t := s[1..];
        TagFreeSlice(s, 1, |s|);
        CollapseSpacesTagFree(t);
        assert CollapseSpaces(s) == [s[0]] + CollapseSpaces(t);
        if s[0] == '<' && !(|s| > 1 && s[1] == '>') {
          assert '>' !in t;
          CollapseSpacesKeepsAngles(t);
        }
        TagFreeCons(s[0], CollapseSpaces(t));
      }
    }
  }

  lemma {:induction false} CollapseSpacesIdentity(s: string)
    requires SpacesCollapsed(s)
    ensures CollapseSpaces(s) == s
    decreases |s|
  {
    if s != [] {
      var t := s[1..];
      SpacesCollapsedSlice(s, 1, |s|);
      CollapseSpacesIdentity(t);
      if IsSpace(s[0]) {
        assert s[0] == ' ' && (t == [] || !IsSpace(t[0]));
        assert DropSpaces(t) == t;
        assert CollapseSpaces(s) == " " + t;
      } else {
        assert CollapseSpaces(s) == [s[0]] + t;
      }
    }
  }

  lemma SpacesCollapsedSlice(s: string, a: nat, b: nat)
    requires SpacesCollapsed(s) && a <= b <= |s|
    ensures SpacesCollapsed(s[a..b])
  {
    var t := s[a..b];
    forall i | 0 <= i < |t| && IsSpace(t[i])
      ensures t[i] == ' ' && (i + 1 == |t| || !IsSpace(t[i + 1]))
    {
      assert t[i] == s[a + i];
      if i + 1 < |t| { assert t[i + 1] == s[a + i + 1]; }
    }
  }

  /** Collapsing changes whitespace only: with all whitespace removed, the
      collapsed text and the original read the same. */
  lemma {:induction false} CollapseSpacesKeepsText(s: string)
    ensures NonSpace(CollapseSpaces(s)) == NonSpace(s)
    decreases |s|
  {
    if s != [] {
      var r := CollapseSpaces(s);
      if IsSpace(s[0]) {
        var t := DropSpaces(s[1..]);
        CollapseSpacesKeepsText(t);
        assert r[0] == ' ' && r[1..] == CollapseSpaces(t);
        var k := |s[1..]| - |t|;
        assert s[1..] == s[1..][..k] + t;
        NonSpaceAllSpace(s[1..][..k]);
        NonSpaceAppend(s[1..][..k], t);
      } else {
        CollapseSpacesKeepsText(s[1..]);
        assert r[0] == s[0] && r[1..] == CollapseSpaces(s[1..]);
      }
    }
  }

  /** A whitespace run on its own becomes one space. */
  lemma CollapseSpacesRun(w: string)
    requires w != [] && forall i :: 0 <= i < |w| ==> IsSpace(w[i])
    ensures CollapseSpaces(w) == " "
  {
    DropSpacesAllSpace(w[1..]);
  }

  /** Collapsing works piece by piece across a cut that does not fall inside a
      whitespace run. */
  lemma {:induction false} CollapseSpacesAppend(x: string, y: string)
    requires x == [] || !IsSpace(x[|x| - 1])
    ensures CollapseSpaces(x + y) == CollapseSpaces(x) + CollapseSpaces(y)
    decreases |x|
  {
    if x != [] {
      var h, t := if IsSpace(x[0]) then " " else [x[0]], [];
      if IsSpace(x[0]) {
        t := CollapseSpaceHead(x, y);
      } else {
        t := x[1..];
        CollapseWordHead(x, y);
      }
      assert CollapseSpaces(t + y) == CollapseSpaces(t) + CollapseSpaces(y) by {
        CollapseSpacesAppend(t, y);
      }
      Seqs.AppendAssoc(h, CollapseSpaces(t), CollapseSpaces(y));
    } else {
      assert x + y == y;
    }
  }

  lemma CollapseSpaceHead(x: string, y: string) returns (t: string)
    requires x != [] && IsSpace(x[0]) && !IsSpace(x[|x| - 1])
    ensures t == DropSpaces(x[1..])
    ensures t != [] && !IsSpace(t[|t| - 1]) && |t| < |x|
    ensures CollapseSpaces(x) == " " + CollapseSpaces(t)
    ensures CollapseSpaces(x + y) == " " + CollapseSpaces(t + y)
  {
    t := DropSpaces(x[1..]);
    assert t != [] && t[|t| - 1] == x[|x| - 1] by { assert x[1..][|x| - 2] == x[|x| - 1]; }
    assert (x + y)[0] == x[0] && (x + y)[1..] == x[1..] + y;
    DropSpacesAppend(x[1..], y);
  }

  lemma CollapseWordHead(x: string, y: string)
    requires x != [] && !IsSpace(x[0])
    ensures !IsSpace(x[|x| - 1]) ==> x[1..] == [] || !IsSpace(x[1..][|x| - 2])
    ensures CollapseSpaces(x) == [x[0]] + CollapseSpaces(x[1..])
    ensures CollapseSpaces(x + y) == [x[0]] + CollapseSpaces(x[1..] + y)
  {
    assert (x + y)[0] == x[0] && (x + y)[1..] == x[1..] + y;
  }

  // ---------------------------------------------------------------------------
  // strip_html
  // ---------------------------------------------------------------------------

  /** `strip_html`: tags become a space, whitespace runs collapse to one space,
      and the ends are stripped. */
  function StripHtml(text: string): (r: string)
    ensures text == [] ==> r == []
    ensures r == [] || (!IsSpace(r[0]) && !IsSpace(r[|r| - 1]))
  {
    if text == [] then [] else Trim(CollapseSpaces(ReplaceTags(text, " ")))
  }

  lemma TrimTagFree(s: string)
    requires TagFree(s)
    ensures TagFree(Trim(s))
  {
    var d := DropSpaces(s);
    TagFreeSlice(s, |s| - |d|, |s|);
    TagFreeSlice(d, 0, |DropTrailingSpaces(d)|);
  }

  lemma TrimSpacesCollapsed(s: string)
    requires SpacesCollapsed(s)
    ensures SpacesCollapsed(Trim(s))
  {
    var d := DropSpaces(s);
    SpacesCollapsedSlice(s, |s| - |d|, |s|);
    SpacesCollapsedSlice(d, 0, |DropTrailingSpaces(d)|);
  }

  /** No tag survives `strip_html`. */
  lemma StripHtmlTagFree(text: string)
    ensures TagFree(StripHtml(text)) && !ContainsTag(StripHtml(text))
  {
    if text != [] {
      var replaced := ReplaceTags(text, " ");
      ReplaceTagsTagFree(text, " ");
      CollapseSpacesTagFree(replaced);
      TrimTagFree(CollapseSpaces(replaced));
      TagFreeHasNoTag(StripHtml(text));
    }
  }

  /** `strip_html` leaves no leading or trailing whitespace, and inside only
      single spaces. */
  lemma StripHtmlNormalized(text: string)
    ensures Normalized(StripHtml(text))
  {
    if text != [] {
      var replaced := ReplaceTags(text, " ");
      CollapseSpacesCollapses(replaced);
      TrimSpacesCollapsed(CollapseSpaces(replaced));
    }
  }

  /** Cleaning an already cleaned text changes nothing. */
  lemma StripHtmlIdempotent(text: string)
    ensures StripHtml(StripHtml(text)) == StripHtml(text)
  {
    var s := StripHtml(text);
    StripHtmlTagFree(text);
    StripHtmlNormalized(text);
    if s != [] {
      ReplaceTagsIdentity(s, " ");
      CollapseSpacesIdentity(s);
      TrimKeeps(s);
    }
  }

  /** `strip_html` changes whitespace only, once the tags are spaces: with
      all whitespace removed it reads as the tag-substituted input. */
  lemma StripHtmlKeepsText(text: string)
    ensures NonSpace(StripHtml(text)) == NonSpace(ReplaceTags(text, " "))
  {
    if text != [] {
      var replaced := ReplaceTags(text, " ");
      NonSpaceTrim(CollapseSpaces(replaced));
      CollapseSpacesKeepsText(replaced);
    }
  }

  /** Text wrapped in an opening and a closing tag, such as a JATS `<p>…</p>`
      paragraph, comes out as the text itself when it is already clean. */
  lemma StripHtmlWrapped(open: string, w: string, close: string)
    requires IsTag(open) && IsTag(close)
    requires '<' !in w && Normalized(w) && w != []
    ensures StripHtml(open + w + close) == w
  {
    var padded := " " + w + " ";
    ReplaceTagsWrapped(open, w, close, " ");
    assert CollapseSpaces(padded) == padded by {
      CollapseSpacesAppend(" " + w, " ");
      CollapseSpacesRun(" ");
      PaddedWordCollapse(w);
    }
    TrimPadded(w);
  }

  /** Both tags around a tag-free text are replaced, and the text is kept. */
  lemma ReplaceTagsWrapped(open: string, w: string, close: string, rep: string)
    requires IsTag(open) && IsTag(close) && '<' !in w
    ensures ReplaceTags(open + w + close, rep) == rep + w + rep
  {
    var tail := w + close;
    assert ReplaceTags(open + w + close, rep) == rep + ReplaceTags(tail, rep) by {
      assert open + w + close == open + tail;
      ReplaceTagsLeadingTag(open, tail, rep);
    }
    assert ReplaceTags(tail, rep) == w + ReplaceTags(close, rep) by {
      ReplaceTagsPlainPrefix(w, close, rep);
    }
    assert ReplaceTags(close, rep) == rep by {
      assert close + [] == close;
      ReplaceTagsLeadingTag(close, [], rep);
    }
  }

  lemma PaddedWordCollapse(w: string)
    requires Normalized(w) && w != []
    ensures CollapseSpaces(" " + w) == " " + w
  {
    var s := " " + w;
    assert s[1..] == w;
    assert DropSpaces(w) == w;
    CollapseSpacesIdentity(w);
  }

  lemma TrimPadded(w: string)
    requires Stripped(w)
    ensures Trim(" " + w + " ") == w
  {
    var s := " " + w + " ";
    assert s[1..] == w + " ";
    assert DropSpaces(w + " ") == w + " ";
    assert (w + " ")[..|w|] == w;
  }

  // ---------------------------------------------------------------------------
  // extract_summary
  // ---------------------------------------------------------------------------

  const Fallback: string := "No abstract available."
  const MaxLength: nat := 300

  predicate IsTerminator(c: char) {
    c == '.' || c == '!' || c == '?'
  }

  /** `(?<=[.!?])\s+(?=[A-Z])` matches at position `i` of `s`. */
  predicate IsBreakAt(s: string, i: int) {
    && 1 <= i < |s|
    && IsTerminator(s[i - 1])
    && IsSpace(s[i])
    && var rest := DropSpaces(s[i..]); rest != [] && IsAsciiUpper(rest[0])
  }

  /** The leftmost match at or after `from`, or `|s|` when there is none. */
  function FindBreak(s: string, from: nat): (k: nat)
    requires from <= |s|
    ensures from <= k <= |s|
    ensures k < |s| ==> IsBreakAt(s, k)
    ensures forall j :: from <= j < k ==> !IsBreakAt(s, j)
    decreases |s| - from
  {
    if from == |s| then |s|
    else if IsBreakAt(s, from) then from
    else FindBreak(s, from + 1)
  }

  /** `re.split(..., clean, maxsplit=1)[0].strip()`. */
  function FirstSentence(clean: string): string {
    Trim(clean[..FindBreak(clean, 0)])
  }

  /** Appends `.` when the text does not already end in terminating punctuation. */
  function EnsureTerminated(t: string): string {
    if t != [] && !IsTerminator(t[|t| - 1]) then t + "." else t
  }

  /** The 300-character cap: the first 297 characters and `...`. */
  function Cap(t: string): string {
    if |t| > MaxLength then t[..MaxLength - 3] + "..." else t
  }

  /** The summary of a non-empty cleaned text. */
  function SummaryOf(clean: string): (r: string)
    requires clean != [] && !IsSpace(clean[0])
    ensures r != [] && |r| <= MaxLength && IsTerminator(r[|r| - 1])
  {
    FirstSentenceNonEmpty(clean);
    SummaryShape(FirstSentence(clean));
    Cap(EnsureTerminated(FirstSentence(clean)))
  }

  /** `extract_summary`. */
  function ExtractSummary(rawAbstract: string): (r: string)
    ensures r != [] && |r| <= MaxLength && IsTerminator(r[|r| - 1])
  {
    if rawAbstract == [] || Trim(rawAbstract) == [] then Fallback
    else
      var clean := StripHtml(rawAbstract);
      if clean == [] then Fallback else SummaryOf(clean)
  }

  lemma SummaryShape(t: string)
    requires t != []
    ensures var r := Cap(EnsureTerminated(t));
            r != [] && |r| <= MaxLength && IsTerminator(r[|r| - 1])
  {
    var e := EnsureTerminated(t);
    assert e != [] && IsTerminator(e[|e| - 1]);
    if |e| > MaxLength {
      var r := e[..MaxLength - 3] + "...";
      assert |r| == MaxLength && r[|r| - 1] == '.';
    }
  }

  lemma FirstSentenceNonEmpty(clean: string)
    requires clean != [] && !IsSpace(clean[0])
    ensures FirstSentence(clean) != []
  {
    var k := FindBreak(clean, 0);
    assert k > 0;
    assert !IsSpace(clean[..k][0]);
  }

  // ---------------------------------------------------------------------------
  // Properties
  // ---------------------------------------------------------------------------

  /** A text of whitespace only cleans to nothing. */
  lemma BlankStripsToEmpty(s: string)
    ensures StripHtml(s) != [] ==> Trim(s) != []
  {
    if s != [] && Trim(s) == [] {
      TrimEmpty(s);
      assert TagFree(s);
      ReplaceTagsIdentity(s, " ");
      assert DropSpaces(s[1..]) == [];
    }
  }

  /** The fallback text comes back exactly when the abstract cleans to nothing
      (empty, only whitespace, or only tags). */
  lemma SummaryFallback(rawAbstract: string)
    requires StripHtml(rawAbstract) == []
    ensures ExtractSummary(rawAbstract) == Fallback
  {
  }

  /** The summary of a cleaned text is its first sentence: the text up to the
      leftmost break, or all of it when there is no break; ended by
      punctuation and capped at 300 characters. */
  lemma {:induction false} SummaryOfFirstSentence(clean: string)
    requires clean != [] && !IsSpace(clean[0]) && !IsSpace(clean[|clean| - 1])
    ensures var k := FindBreak(clean, 0);
            var sentence := EnsureTerminated(clean[..k]);
            && 0 < k
            && (forall j :: 0 <= j < k ==> !IsBreakAt(clean, j))
            && (k < |clean| ==> IsBreakAt(clean, k))
            && (|sentence| <= MaxLength ==> SummaryOf(clean) == sentence)
            && (|sentence| > MaxLength ==> SummaryOf(clean) == sentence[..MaxLength - 3] + "...")
  {
    var k := FindBreak(clean, 0);
    assert k > 0;
    assert clean[..k][0] == clean[0] && clean[..k][k - 1] == clean[k - 1];
    TrimKeeps(clean[..k]);
  }

  /** An abstract that cleans to some text is summarised from that text. */
  lemma SummaryOfCleaned(rawAbstract: string)
    requires StripHtml(rawAbstract) != []
    ensures ExtractSummary(rawAbstract) == SummaryOf(StripHtml(rawAbstract))
  {
    BlankStripsToEmpty(rawAbstract);
  }

  /** The break that ends a summary, in a cleaned text: a `.`, `!` or `?`, one
      space, then an upper-case ASCII letter. */
  lemma BreakInCleanText(clean: string, k: nat)
    requires SpacesCollapsed(clean) && IsBreakAt(clean, k)
    ensures IsTerminator(clean[k - 1]) && clean[k] == ' ' && k + 1 < |clean| && IsAsciiUpper(clean[k + 1])
  {
    assert clean[k..][1..] == clean[k + 1..];
    assert DropSpaces(clean[k..]) == DropSpaces(clean[k + 1..]);
    assert !IsSpace(clean[k + 1]);
    assert DropSpaces(clean[k..]) == clean[k + 1..];
  }
}
