/** Loading the configuration (src/config.py). Reading and parsing the YAML
    file is outside the model: the loader starts from whether the file exists
    and from the parsed document, with each top-level key it reads either
    absent (None) or holding a value of the expected shape. */
module Configuration {
  import opened Wrappers
  import opened Strings
  import Seqs

  /** A journal to scan. */
  datatype JournalConfig = JournalConfig(name: string, issn: string)

  /** The loaded configuration. */
  datatype Config = Config(journals: seq<JournalConfig>, keywords: seq<string>, searchDays: int, email: string)

  /** One entry of the `journals` list; an absent key is None. */
  datatype JournalEntry = JournalEntry(name: Option<string>, issn: Option<string>)

  /** The parsed document: the keys the loader reads, and how many other keys
      there are. */
  datatype Document = Document(
    journals: Option<seq<JournalEntry>>,
    keywords: Option<seq<string>>,
    searchDays: Option<int>,
    email: Option<string>,
    otherKeys: nat)

  datatype ConfigError =
    | NotFound          // the file does not exist
    | EmptyFile         // the document is empty or null
    | MissingField(index: nat)  // the journal entry at `index` lacks `name` or `issn`
    | NoJournals
    | NoKeywords

  const DefaultSearchDays: int := 30

  /** An empty mapping, like a null document, is falsy. */
  predicate IsEmptyDocument(doc: Document) {
    doc.journals.None? && doc.keywords.None? && doc.searchDays.None? && doc.email.None? && doc.otherKeys == 0
  }

  predicate Complete(e: JournalEntry) {
    e.name.Some? && e.issn.Some?
  }

  /** The position of the first entry lacking `name` or `issn`. */
  function FirstIncomplete(entries: seq<JournalEntry>): (r: Option<nat>)
    ensures r.Some? ==> r.value < |entries|
  {
    if entries == [] then None
    else if !Complete(entries[0]) then Some(0)
    else
      var rest := FirstIncomplete(entries[1..]);
      if rest.Some? then Some(rest.value + 1) else None
  }

  function ToJournal(e: JournalEntry): JournalConfig
    requires Complete(e)
  {
    JournalConfig(e.name.value, e.issn.value)
  }

  /** `[kw.strip() for kw in keywords if kw.strip()]`. */
  function NormalizeKeywords(keywords: seq<string>): seq<string> {
    if keywords == [] then []
    else
      var kw := Trim(keywords[|keywords| - 1]);
      NormalizeKeywords(keywords[..|keywords| - 1]) + (if kw != "" then [kw] else [])
  }

  /** What `Config.from_yaml` returns or raises. */
  function Load(fileExists: bool, raw: Option<Document>): Result<Config, ConfigError> {
    if !fileExists then Failure(NotFound)
    else if raw.None? || IsEmptyDocument(raw.value) then Failure(EmptyFile)
    else
      var doc := raw.value;
      var entries := if doc.journals.Some? then doc.journals.value else [];
      var missing := FirstIncomplete(entries);
      if missing.Some? then Failure(MissingField(missing.value))
      else if entries == [] then Failure(NoJournals)
      else
        var keywords := if doc.keywords.Some? then doc.keywords.value else [];
        if keywords == [] then Failure(NoKeywords)
        else
          FirstIncompleteNone(entries);
          Success(Config(
            seq(|entries|, i requires 0 <= i < |entries| => ToJournal(entries[i])),
            NormalizeKeywords(keywords),
            if doc.searchDays.Some? then doc.searchDays.value else DefaultSearchDays,
            if doc.email.Some? then doc.email.value else ""))
  }

  /** `Config.from_yaml`: the journal entries are checked and converted one by
      one, and the first incomplete entry raises at once. */
  method FromYaml(fileExists: bool, raw: Option<Document>) returns (r: Result<Config, ConfigError>)
    ensures r == Load(fileExists, raw)
  {
    if !fileExists {
      return Failure(NotFound);
    }
    if raw.None? || IsEmptyDocument(raw.value) {
      return Failure(EmptyFile);
    }
    var doc := raw.value;

    var entries := if doc.journals.Some? then doc.journals.value else [];
    var journals: seq<JournalConfig> := [];
    for i := 0 to |entries|
      invariant forall j :: 0 <= j < i ==> Complete(entries[j])
      invariant |journals| == i && forall j :: 0 <= j < i ==> journals[j] == ToJournal(entries[j])
    {
      var e := entries[i];
      if e.name.None? || e.issn.None? {
        FirstIncompleteAt(entries, i);
        return Failure(MissingField(i));
      }
      journals := journals + [JournalConfig(e.name.value, e.issn.value)];
    }
    FirstIncompleteNone(entries);
    assert journals == seq(|entries|, i requires 0 <= i < |entries| => ToJournal(entries[i]));

    if journals == [] {
      return Failure(NoJournals);
    }

    var keywords := if doc.keywords.Some? then doc.keywords.value else [];
    if keywords == [] {
      return Failure(NoKeywords);
    }

    var searchDays := if doc.searchDays.Some? then doc.searchDays.value else DefaultSearchDays;
    var email := if doc.email.Some? then doc.email.value else "";
    r := Success(Config(journals, NormalizeKeywords(keywords), searchDays, email));
  }

  // ---------------------------------------------------------------------------
  // The first incomplete entry
  // ---------------------------------------------------------------------------

  /** No entry is reported when all are complete. */
  lemma {:induction false} FirstIncompleteNone(entries: seq<JournalEntry>)
    ensures FirstIncomplete(entries).None? <==> forall j :: 0 <= j < |entries| ==> Complete(entries[j])
  {
    if entries != [] {
      FirstIncompleteNone(entries[1..]);
      if Complete(entries[0]) {
        forall j | 0 <= j < |entries| && j > 0
          ensures Complete(entries[j]) <==> Complete(entries[1..][j - 1])
        {
        }
      }
    }
  }

  /** The entry reported is the first incomplete one. */
  lemma {:induction false} FirstIncompleteAt(entries: seq<JournalEntry>, i: nat)
    requires i < |entries| && !Complete(entries[i])
    requires forall j :: 0 <= j < i ==> Complete(entries[j])
    ensures FirstIncomplete(entries) == Some(i)
  {
    if i > 0 {
      FirstIncompleteAt(entries[1..], i - 1);
    }
  }

  // ---------------------------------------------------------------------------
  // Outcomes
  // ---------------------------------------------------------------------------

  /** Loading succeeds exactly when the file exists, the document is not
      empty, every journal entry has a name and an ISSN, there is at least one
      journal and the raw keyword list is not empty. */
  lemma LoadSucceedsIff(fileExists: bool, raw: Option<Document>)
    ensures Load(fileExists, raw).Success? <==>
            && fileExists && raw.Some? && !IsEmptyDocument(raw.value)
            && raw.value.journals.Some? && raw.value.journals.value != []
            && (forall j :: 0 <= j < |raw.value.journals.value| ==> Complete(raw.value.journals.value[j]))
            && raw.value.keywords.Some? && raw.value.keywords.value != []
  {
    if fileExists && raw.Some? {
      var entries := if raw.value.journals.Some? then raw.value.journals.value else [];
      FirstIncompleteNone(entries);
    }
  }

  /** An incomplete journal entry is reported before a missing journal or
      keyword list, and it is the first incomplete entry. */
  lemma MissingFieldFirst(doc: Document, i: nat)
    requires !IsEmptyDocument(doc) && doc.journals.Some?
    requires i < |doc.journals.value| && !Complete(doc.journals.value[i])
    requires forall j :: 0 <= j < i ==> Complete(doc.journals.value[j])
    ensures Load(true, Some(doc)) == Failure(MissingField(i))
  {
    FirstIncompleteAt(doc.journals.value, i);
  }

  /** A successful load keeps the journals in configured order and fills in
      the defaults for absent keys. */
  lemma LoadedConfig(doc: Document)
    requires Load(true, Some(doc)).Success?
    ensures var c := Load(true, Some(doc)).value;
            && doc.journals.Some? && |c.journals| == |doc.journals.value|
            && (forall j :: 0 <= j < |c.journals| ==>
                  Some(c.journals[j].name) == doc.journals.value[j].name
                  && Some(c.journals[j].issn) == doc.journals.value[j].issn)
            && (doc.searchDays.None? ==> c.searchDays == 30)
            && (doc.email.None? ==> c.email == "")
  {
    var entries := if doc.journals.Some? then doc.journals.value else [];
    assert entries != [];
    FirstIncompleteNone(entries);
    var c := Load(true, Some(doc)).value;
    assert c.journals == seq(|entries|, i requires 0 <= i < |entries| => ToJournal(entries[i]));
  }

  /** The emptiness check is on the raw list: a list of blank keywords passes
      it and leaves no keyword at all. */
  lemma BlankKeywordsPass(doc: Document)
    requires doc.journals.Some? && doc.journals.value != []
    requires forall j :: 0 <= j < |doc.journals.value| ==> Complete(doc.journals.value[j])
    requires doc.keywords.Some? && doc.keywords.value != []
    requires forall k :: k in doc.keywords.value ==> forall i :: 0 <= i < |k| ==> IsSpace(k[i])
    ensures Load(true, Some(doc)).Success?
    ensures Load(true, Some(doc)).value.keywords == []
  {
    FirstIncompleteNone(doc.journals.value);
    BlankKeywordsVanish(doc.keywords.value);
  }

  // ---------------------------------------------------------------------------
  // Keyword normalisation
  // ---------------------------------------------------------------------------

  lemma NormalizeKeywordsSnoc(keywords: seq<string>, kw: string)
    ensures NormalizeKeywords(keywords + [kw])
            == NormalizeKeywords(keywords) + (if Trim(kw) != "" then [Trim(kw)] else [])
  {
    assert (keywords + [kw])[..|keywords|] == keywords;
  }

  /** Keywords are normalised one at a time, in order: the list of `a + b`
      is that of `a` followed by that of `b`. */
  lemma {:induction false} NormalizeKeywordsAppend(a: seq<string>, b: seq<string>)
    ensures NormalizeKeywords(a + b) == NormalizeKeywords(a) + NormalizeKeywords(b)
    decreases |b|
  {
    if b != [] {
      var init := b[..|b| - 1];
      var last := b[|b| - 1];
      var tail := if Trim(last) != "" then [Trim(last)] else [];
      assert b == init + [last];
      assert a + b == (a + init) + [last];
      NormalizeKeywordsSnoc(a + init, last);
      NormalizeKeywordsSnoc(init, last);
      NormalizeKeywordsAppend(a, init);
      Seqs.AppendAssoc(NormalizeKeywords(a), NormalizeKeywords(init), tail);
    } else {
      assert a + b == a;
    }
  }

  /** One keyword gives its strip, or nothing when it is blank. */
  lemma NormalizeKeywordsSingle(kw: string)
    ensures Trim(kw) != "" ==> NormalizeKeywords([kw]) == [Trim(kw)]
    ensures Trim(kw) == "" ==> NormalizeKeywords([kw]) == []
  {
    assert [kw][..0] == [];
  }

  /** Every kept keyword is non-empty and has no surrounding whitespace. */
  lemma {:induction false} NormalizedKeywordsTrimmed(keywords: seq<string>)
    ensures |NormalizeKeywords(keywords)| <= |keywords|
    ensures forall i :: 0 <= i < |NormalizeKeywords(keywords)| ==> Stripped(NormalizeKeywords(keywords)[i])
  {
    if keywords != [] {
      var init := keywords[..|keywords| - 1];
      var kw := Trim(keywords[|keywords| - 1]);
      NormalizedKeywordsTrimmed(init);
      assert kw != "" ==> Stripped(kw);
      assert NormalizeKeywords(keywords) == NormalizeKeywords(init) + (if kw != "" then [kw] else []);
    }
  }

  /** Every keyword that is not blank is kept, stripped. */
  lemma {:induction false} NormalizedKeywordsKept(keywords: seq<string>)
    ensures forall kw :: kw in keywords && Trim(kw) != "" ==> Trim(kw) in NormalizeKeywords(keywords)
  {
    if keywords != [] {
      var init := keywords[..|keywords| - 1];
      var last := keywords[|keywords| - 1];
      NormalizedKeywordsKept(init);
      assert keywords == init + [last];
      NormalizeKeywordsSnoc(init, last);
    }
  }

  /** Blank keywords are all dropped. */
  lemma {:induction false} BlankKeywordsVanish(keywords: seq<string>)
    requires forall k :: k in keywords ==> forall i :: 0 <= i < |k| ==> IsSpace(k[i])
    ensures NormalizeKeywords(keywords) == []
  {
    if keywords != [] {
      var init := keywords[..|keywords| - 1];
      var last := keywords[|keywords| - 1];
      assert last in keywords;
      TrimEmpty(last);
      assert forall k :: k in init ==> k in keywords;
      BlankKeywordsVanish(init);
    }
  }

  /** Normalising twice changes nothing. */
  lemma {:induction false} NormalizeKeywordsIdempotent(keywords: seq<string>)
    ensures NormalizeKeywords(NormalizeKeywords(keywords)) == NormalizeKeywords(keywords)
  {
    if keywords != [] {
      var init := keywords[..|keywords| - 1];
      var kw := Trim(keywords[|keywords| - 1]);
      var n := NormalizeKeywords(init);
      NormalizeKeywordsIdempotent(init);
      if kw != "" {
        TrimKeeps(kw);
        NormalizeKeywordsSnoc(n, kw);
      } else {
        assert NormalizeKeywords(keywords) == n;
      }
    }
  }
}
