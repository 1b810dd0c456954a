// The driver: how the word budget is shared out among the sections, how
// each section's summary entry is produced with errors caught at the section
// boundary, and how the entries are laid out for the PDF. Retrieval and
// completion enter as functions that give a value or fail; the PDF library
// is replaced by a list of layout commands.

module Driver {
  import opened Wrappers
  import opened Text
  import opened Sections
  import Prompts
  import Rag
  import Model

  // ------------------------------------------------------------ word count

  /** `estimate_word_count`: `len(text.split())`, the number of maximal runs of non-whitespace characters. */
  function EstimateWordCount(text: string): (n: nat)
    ensures n == RunStarts(text, true)
    ensures n == 0 <==> IsBlank(text)
  {
    WordsCountRuns(text);
    WordsEmptyIffBlank(text);
    |Words(text)|
  }

  // ------------------------------------------------------------ text for the PDF

  const EnDash: char := '\U{2013}'
  const EmDash: char := '\U{2014}'
  const LeftSingle: char := '\U{2018}'
  const RightSingle: char := '\U{2019}'
  const LeftDouble: char := '\U{201C}'
  const RightDouble: char := '\U{201D}'

  /** `s.replace(c, r)` for a single character `c`. */
  function Replace(s: string, c: char, r: string): string {
    if s == [] then [] else (if s[0] == c then r else [s[0]]) + Replace(s[1..], c, r)
  }

  /** The closing comprehension: code points from 256 on become spaces. */
  function Latin1(s: string): (r: string)
    ensures |r| == |s|
    ensures forall i :: 0 <= i < |r| ==> r[i] as int < 256
  {
    seq(|s|, i requires 0 <= i < |s| => if s[i] as int < 256 then s[i] else ' ')
  }

  /** The six `replace` calls, in order. */
  function Replacements(s: string): string {
    var t := Replace(s, EnDash, "-");
    var t := Replace(t, EmDash, "--");
    var t := Replace(Replace(t, LeftSingle, "'"), RightSingle, "'");
    Replace(Replace(t, LeftDouble, "\""), RightDouble, "\"")
  }

  /** `clean_text_for_pdf`: dashes and curly quotes replaced, then what Latin-1 cannot hold blanked. */
  function CleanTextForPdf(s: string): (r: string)
    ensures forall i :: 0 <= i < |r| ==> r[i] as int < 256
  {
    Latin1(Replacements(s))
  }

  /** What `clean_text_for_pdf` does to one character. */
  function PdfChar(c: char): string {
    if c == EnDash then "-"
    else if c == EmDash then "--"
    else if c == LeftSingle || c == RightSingle then "'"
    else if c == LeftDouble || c == RightDouble then "\""
    else if c as int < 256 then [c]
    else " "
  }

  /** The character-by-character reading of `clean_text_for_pdf`. */
  function PerChar(s: string): string {
    if s == [] then [] else PdfChar(s[0]) + PerChar(s[1..])
  }

  lemma {:induction false} ReplaceConcat(a: string, b: string, c: char, r: string)
    ensures Replace(a + b, c, r) == Replace(a, c, r) + Replace(b, c, r)
  {
    if a != [] {
      assert (a + b)[1..] == a[1..] + b;
      ReplaceConcat(a[1..], b, c, r);
    } else {
      assert a + b == b;
    }
  }

  lemma ReplaceOne(x: char, c: char, r: string)
    ensures Replace([x], c, r) == if x == c then r else [x]
  {
    assert [x][1..] == [];
  }

  lemma {:induction false} ReplaceAbsent(s: string, c: char, r: string)
    requires c !in s
    ensures Replace(s, c, r) == s
  {
    if s != [] {
      ReplaceAbsent(s[1..], c, r);
      assert [s[0]] + s[1..] == s;
    }
  }

  lemma ReplacementsConcat(a: string, b: string)
    ensures Replacements(a + b) == Replacements(a) + Replacements(b)
  {
    var t1a, t1b := Replace(a, EnDash, "-"), Replace(b, EnDash, "-");
    ReplaceConcat(a, b, EnDash, "-");
    var t2a, t2b := Replace(t1a, EmDash, "--"), Replace(t1b, EmDash, "--");
    ReplaceConcat(t1a, t1b, EmDash, "--");
    var t3a, t3b := Replace(t2a, LeftSingle, "'"), Replace(t2b, LeftSingle, "'");
    ReplaceConcat(t2a, t2b, LeftSingle, "'");
    var t4a, t4b := Replace(t3a, RightSingle, "'"), Replace(t3b, RightSingle, "'");
    ReplaceConcat(t3a, t3b, RightSingle, "'");
    var t5a, t5b := Replace(t4a, LeftDouble, "\""), Replace(t4b, LeftDouble, "\"");
    ReplaceConcat(t4a, t4b, LeftDouble, "\"");
    ReplaceConcat(t5a, t5b, RightDouble, "\"");
  }

  lemma Latin1Concat(a: string, b: string)
    ensures Latin1(a + b) == Latin1(a) + Latin1(b)
  {
  }

  lemma CleanConcat(a: string, b: string)
    ensures CleanTextForPdf(a + b) == CleanTextForPdf(a) + CleanTextForPdf(b)
  {
    ReplacementsConcat(a, b);
    Latin1Concat(Replacements(a), Replacements(b));
  }

  /** The replacements from the `from`-th on leave alone a string that holds none of their characters. */
  lemma ReplaceRest(t: string, from: nat)
    requires from <= 5
    requires forall c :: c in t ==> c !in [EnDash, EmDash, LeftSingle, RightSingle, LeftDouble, RightDouble][from..]
    ensures from <= 1 ==> Replace(t, EmDash, "--") == t
    ensures from <= 2 ==> Replace(t, LeftSingle, "'") == t
    ensures from <= 3 ==> Replace(t, RightSingle, "'") == t
    ensures from <= 4 ==> Replace(t, LeftDouble, "\"") == t
    ensures Replace(t, RightDouble, "\"") == t
  {
    var cs := [EnDash, EmDash, LeftSingle, RightSingle, LeftDouble, RightDouble];
    assert cs[5] in cs[from..];
    ReplaceAbsent(t, RightDouble, "\"");
    if from <= 4 { assert cs[4] in cs[from..]; ReplaceAbsent(t, LeftDouble, "\""); }
    if from <= 3 { assert cs[3] in cs[from..]; ReplaceAbsent(t, RightSingle, "'"); }
    if from <= 2 { assert cs[2] in cs[from..]; ReplaceAbsent(t, LeftSingle, "'"); }
    if from <= 1 { assert cs[1] in cs[from..]; ReplaceAbsent(t, EmDash, "--"); }
  }

  lemma CleanOne(x: char)
    ensures CleanTextForPdf([x]) == PdfChar(x)
  {
    ReplaceOne(x, EnDash, "-");
    var t1 := Replace([x], EnDash, "-");
    if x == EnDash {
      ReplaceRest(t1, 1);
    } else {
      ReplaceOne(x, EmDash, "--");
      var t2 := Replace(t1, EmDash, "--");
      if x == EmDash {
        ReplaceRest(t2, 2);
      } else {
        ReplaceOne(x, LeftSingle, "'");
        ReplaceOne(x, RightSingle, "'");
        var t4 := Replace(Replace(t1, LeftSingle, "'"), RightSingle, "'");
        if x == LeftSingle {
          ReplaceAbsent("'", RightSingle, "'");
          ReplaceRest(t4, 4);
        } else if x == RightSingle {
          ReplaceRest(t4, 4);
        } else {
          ReplaceOne(x, LeftDouble, "\"");
          ReplaceOne(x, RightDouble, "\"");
          if x == LeftDouble {
            ReplaceAbsent("\"", RightDouble, "\"");
          }
        }
      }
    }
  }

  /** `clean_text_for_pdf` works character by character. */
  lemma {:induction false} CleanIsPerChar(s: string)
    ensures CleanTextForPdf(s) == PerChar(s)
  {
    if s != [] {
      assert s == [s[0]] + s[1..];
      CleanConcat([s[0]], s[1..]);
      CleanOne(s[0]);
      CleanIsPerChar(s[1..]);
    }
  }

  lemma {:induction false} PerCharBelow256(s: string)
    ensures forall i :: 0 <= i < |PerChar(s)| ==> PerChar(s)[i] as int < 256
  {
    if s != [] {
      PerCharBelow256(s[1..]);
    }
  }

  lemma {:induction false} PerCharKeepsLatin1(s: string)
    requires forall i :: 0 <= i < |s| ==> s[i] as int < 256
    ensures PerChar(s) == s
  {
    if s != [] {
      PerCharKeepsLatin1(s[1..]);
      assert [s[0]] + s[1..] == s;
    }
  }

  /** The number of em dashes, each of which becomes two characters. */
  function EmDashes(s: string): nat {
    if s == [] then 0 else (if s[0] == EmDash then 1 else 0) + EmDashes(s[1..])
  }

  lemma {:induction false} PerCharLength(s: string)
    ensures |PerChar(s)| == |s| + EmDashes(s)
  {
    if s != [] {
      PerCharLength(s[1..]);
    }
  }

  /**
   * The four guarantees of `clean_text_for_pdf`: every code point below
   * 256, text already below 256 unchanged, one extra character per em
   * dash, and cleaning twice the same as cleaning once.
   */
  lemma CleanTextForPdfGuarantees(s: string)
    ensures forall i :: 0 <= i < |CleanTextForPdf(s)| ==> CleanTextForPdf(s)[i] as int < 256
    ensures (forall i :: 0 <= i < |s| ==> s[i] as int < 256) ==> CleanTextForPdf(s) == s
    ensures |CleanTextForPdf(s)| == |s| + EmDashes(s)
    ensures CleanTextForPdf(CleanTextForPdf(s)) == CleanTextForPdf(s)
  {
    CleanIsPerChar(s);
    PerCharBelow256(s);
    PerCharLength(s);
    if forall i :: 0 <= i < |s| ==> s[i] as int < 256 {
      PerCharKeepsLatin1(s);
    }
    CleanIsPerChar(PerChar(s));
    PerCharKeepsLatin1(PerChar(s));
  }

  // ------------------------------------------------------------ word budget

  /** The share of section `i` when `total` words are split over `n > 0` sections. */
  function Share(total: nat, n: nat, i: nat): nat
    requires n > 0
  {
    total / n + (if i < total % n then 1 else 0)
  }

  /** The budget lines of `main`: `n` equal shares, the first `total % n` one word larger; `[total]` when there are no sections. */
  method AllocateWordTargets(total: nat, n: nat) returns (targets: seq<nat>)
    ensures n == 0 ==> targets == [total]
    ensures n > 0 ==> |targets| == n && forall i :: 0 <= i < n ==> targets[i] == Share(total, n, i)
  {
    if n == 0 {
      return [total];
    }
    var a := new nat[n](_ => total / n);
    var remaining := total % n;
    for i := 0 to remaining
      invariant forall j :: 0 <= j < n ==> a[j] == total / n + (if j < i then 1 else 0)
    {
      a[i] := a[i] + 1;
    }
    targets := a[..];
  }

  /** The first `m` shares. */
  function Shares(total: nat, n: nat, m: nat): (s: seq<nat>)
    requires n > 0
    ensures |s| == m
  {
    seq(m, i requires 0 <= i < m => Share(total, n, i))
  }

  lemma {:induction false} SharesSum(total: nat, n: nat, m: nat)
    requires n > 0
    ensures Sum(Shares(total, n, m)) == m * (total / n) + Min(m, total % n)
  {
    if m > 0 {
      assert Shares(total, n, m) == Shares(total, n, m - 1) + [Share(total, n, m - 1)];
      SumSnoc(Shares(total, n, m - 1), Share(total, n, m - 1));
      SharesSum(total, n, m - 1);
    }
  }

  /**
   * The budget is spent exactly: the shares add up to the total, each is
   * `total / n` or one more, and exactly the first `total % n` get the
   * extra word.
   */
  lemma BudgetIsExact(total: nat, n: nat, targets: seq<nat>)
    requires n > 0 && |targets| == n && forall i :: 0 <= i < n ==> targets[i] == Share(total, n, i)
    ensures Sum(targets) == total
    ensures forall i :: 0 <= i < n ==> targets[i] == total / n || targets[i] == total / n + 1
    ensures forall i :: 0 <= i < n ==> (targets[i] == total / n + 1 <==> i < total % n)
  {
    assert targets == Shares(total, n, n);
    SharesSum(total, n, n);
  }

  /** `main`'s own numbers: 25000 words over 7 sections is 3572 three times, then 3571 four times. */
  lemma SevenSections()
    ensures Shares(25000, 7, 7) == [3572, 3572, 3572, 3571, 3571, 3571, 3571]
  {
  }

  // ------------------------------------------------------------ the summarization loop

  /** The context handed to the prompt: the retrieved chunks joined by blank lines. */
  function Context(chunks: seq<string>): string {
    JoinWith(chunks, "\n\n")
  }

  /** What happens inside the `try` for one section: retrieve, build the prompt, complete, count the words. */
  function SectionOutcome(section: Section, target: nat,
                          retrieve: Section -> Result<seq<string>>, complete: string -> Result<string>): Result<string>
  {
    match retrieve(section)
    case Err(e) => Err(e)
    case Ok(chunks) => complete(Prompts.SectionPrompt(section, Context(chunks), target))
  }

  /** `section.get("title", f"Section {i+1}")` as the f-string shows it. */
  function EntryTitle(title: TitleField, i: nat): string {
    match title
    case Absent => "Section " + NatToString(i + 1)
    case Null => "None"
    case Named(name) => name
  }

  function SuccessEntry(title: string, summary: string): string {
    "# " + title + "\n" + summary + "\n\n"
  }

  const ErrorLead: string := "[Error in summarizing this section: "

  function FailureEntry(i: nat, e: string): string {
    "# Section " + NatToString(i + 1) + "\n" + ErrorLead + e + "]\n\n"
  }

  /** An entry opens with "# " and ends with a blank line. */
  predicate Framed(e: string) {
    "# " <= e && |e| >= 4 && e[|e| - 2..] == "\n\n"
  }

  /** An entry headed "Section i+1". */
  predicate FailureHeaded(i: nat, e: string) {
    "# Section " + NatToString(i + 1) + "\n" <= e
  }

  /** The entry for section `i`: its summary under its title, or the error under "Section i+1". */
  function Entry(i: nat, section: Section, outcome: Result<string>): (e: string)
    ensures Framed(e)
    ensures outcome.Err? ==> FailureHeaded(i, e)
  {
    match outcome
    case Ok(summary) => SuccessEntry(EntryTitle(section.title, i), summary)
    case Err(e) => FailureEntry(i, e)
  }

  /** What an outcome adds to the word total: the summary's words, or nothing for a failure. */
  function WordsOf(outcome: Result<string>): nat {
    match outcome
    case Ok(summary) => EstimateWordCount(summary)
    case Err(_) => 0
  }

  /** The entry `main` writes for section `i`. */
  function EntryOf(sections: seq<Section>, targets: seq<nat>, i: nat,
                   retrieve: Section -> Result<seq<string>>, complete: string -> Result<string>): string
    requires i < |sections| && i < |targets|
  {
    Entry(i, sections[i], SectionOutcome(sections[i], targets[i], retrieve, complete))
  }

  /** The word total over the first `m` sections. */
  function TotalWords(sections: seq<Section>, targets: seq<nat>, m: nat,
                      retrieve: Section -> Result<seq<string>>, complete: string -> Result<string>): nat
    requires m <= |sections| && m <= |targets|
  {
    if m == 0 then 0
    else TotalWords(sections, targets, m - 1, retrieve, complete)
         + WordsOf(SectionOutcome(sections[m - 1], targets[m - 1], retrieve, complete))
  }

  /** The body of the summarization loop for section `i`: the `try` and its `except`. */
  method SummarizeSection(i: nat, section: Section, target: nat,
                          retrieve: Section -> Result<seq<string>>, complete: string -> Result<string>)
    returns (entry: string, summaryWords: nat)
    ensures entry == Entry(i, section, SectionOutcome(section, target, retrieve, complete))
    ensures summaryWords == WordsOf(SectionOutcome(section, target, retrieve, complete))
  {
    var found := retrieve(section);
    if found.Err? {
      return FailureEntry(i, found.error), 0;
    }
    var prompt := Prompts.SectionPrompt(section, Context(found.value), target);
    var reply := complete(prompt);
    if reply.Err? {
      return FailureEntry(i, reply.error), 0;
    }
    summaryWords := EstimateWordCount(reply.value);
    entry := SuccessEntry(EntryTitle(section.title, i), reply.value);
  }

  /**
   * The summarization loop of `main`: one entry per section, in section
   * order, whatever happens to each, and the word count of the successful
   * summaries.
   */
  method SummarizeSections(sections: seq<Section>, targets: seq<nat>,
                           retrieve: Section -> Result<seq<string>>, complete: string -> Result<string>)
    returns (entries: seq<string>, totalWords: nat)
    ensures |entries| == Min(|sections|, |targets|)
    ensures forall i :: 0 <= i < |entries| ==> entries[i] == EntryOf(sections, targets, i, retrieve, complete)
    ensures totalWords == TotalWords(sections, targets, |entries|, retrieve, complete)
  {
    entries, totalWords := [], 0;
    var n := Min(|sections|, |targets|);
    ghost var expected := seq(n, j requires 0 <= j < n => EntryOf(sections, targets, j, retrieve, complete));
    for i := 0 to n
      invariant entries == expected[..i]
      invariant totalWords == TotalWords(sections, targets, i, retrieve, complete)
    {
      var entry, summaryWords := SummarizeSection(i, sections[i], targets[i], retrieve, complete);
      assert entry == expected[i];
      assert expected[..i + 1] == expected[..i] + [expected[i]];
      entries := entries + [entry];
      totalWords := totalWords + summaryWords;
    }
    assert entries == expected;
  }

  /** A failed section is reported under "Section i+1" whatever its title. */
  lemma FailureIgnoresTitle(i: nat, s1: Section, s2: Section, e: string)
    ensures Entry(i, s1, Err(e)) == Entry(i, s2, Err(e))
    ensures "# Section " + NatToString(i + 1) + "\n" <= Entry(i, s1, Err(e))
  {
  }

  /**
   * What the completion step of the loop yields for one prompt:
   * `summarize_with_groq` with its default of three attempts, where a `None`
   * would fail at the word count. With three attempts it never falls through
   * to `None`, so the step fails exactly when an exception escapes
   * `summarize_with_groq`, and otherwise gives the text it returned.
   */
  function CompletionOf(prompt: string, post: (string, nat) -> Model.Attempt): (r: Result<string>)
    ensures r.Ok? ==> Model.Summarize(prompt, 3, post).result == Model.Returned(Some(r.value))
    ensures r.Err? ==> Model.Summarize(prompt, 3, post).result == Model.Raised(r.error)
  {
    match Model.Summarize(prompt, 3, post).result
    case Returned(Some(text)) => Ok(text)
    case Returned(None) => Err("'NoneType' object has no attribute 'split'")
    case Raised(m) => Err(m)
  }

  /** The completion `main` uses, as the loop takes it. */
  function AsCompletion(post: (string, nat) -> Model.Attempt): string -> Result<string> {
    (prompt: string) => CompletionOf(prompt, post)
  }

  /**
   * The retrieval the summarization loop uses: `retrieve_relevant_chunks`
   * with two neighbours, over the section list the vector store returned.
   * It never fails, since its own `except` already turns failures into
   * `[]`, and gives at most two chunks of at most 2000 characters.
   */
  function AsRetrieval(sections: seq<Section>, search: (string, nat) -> Result<seq<int>>): (r: Section -> Result<seq<string>>)
    ensures forall section :: r(section).Ok? && |r(section).value| <= 2
    ensures forall section, i :: r(section).Ok? && 0 <= i < |r(section).value| ==> |r(section).value[i]| <= Rag.ChunkLimit
  {
    (section: Section) => Ok(Rag.RetrieveRelevantChunks(sections, section, 2, search))
  }

  lemma ContextOfFew(r: seq<string>)
    requires |r| <= 2 && forall i :: 0 <= i < |r| ==> |r[i]| <= Rag.ChunkLimit
    ensures |Context(r)| <= 2 * Rag.ChunkLimit + 2
  {
    if |r| == 2 {
      assert JoinWith(r[1..], "\n\n") == r[1];
    }
  }

  /**
   * Two chunks of at most 2000 characters joined by a blank line fit in
   * 5000: the prompt never cuts the retrieved context. Every chunk is the
   * prefix of a section whose content differs from the summarized section's
   * first 5000 characters, which is all the self exclusion looks at.
   */
  lemma ContextNeverTruncated(sections: seq<Section>, section: Section, search: (string, nat) -> Result<seq<int>>)
    ensures var r := Rag.RetrieveRelevantChunks(sections, section, 2, search);
      var c := Context(r);
      && |c| <= 4002 && Take(c, Prompts.ContextLimit) == c
      && forall chunk :: chunk in r ==>
           exists j :: 0 <= j < |sections| && sections[j].content != Take(section.content, Rag.EmbedLimit) &&
             chunk == Take(sections[j].content, Rag.ChunkLimit)
  {
    var r := Rag.RetrieveRelevantChunks(sections, section, 2, search);
    Rag.RetrievedChunksExcludeQuery(sections, section, 2, search);
    ContextOfFew(r);
  }

  /**
   * A section prompt needs no cutting before it is sent unless title and
   * target together take more than 16379 characters: the template is 621
   * characters and the two texts at most 15000.
   */
  lemma PromptFitsRequestLimit(section: Section, context: string, target: nat)
    requires |Prompts.TitleText(section.title)| + |NatToString(target)| <= 16379
    ensures Model.TruncatePrompt(Prompts.SectionPrompt(section, context, target)) ==
      Prompts.SectionPrompt(section, context, target)
  {
    Prompts.PromptLength(section.title, Some(section.content), context, target);
  }

  // ------------------------------------------------------------ the PDF layout

  /** What the layout loop asks of the PDF writer: a bold heading cell, a body paragraph, or a 5-point gap. */
  datatype Command = Heading(text: string) | Paragraph(text: string) | Gap

  /** The non-blank lines, stripped, in order: the lines for which `line.strip()` is true. */
  function NonBlankLines(lines: seq<string>): (r: seq<string>)
    ensures |r| <= |lines|
    ensures forall i :: 0 <= i < |r| ==> r[i] != [] && r[i] == Strip(r[i])
  {
    if lines == [] then []
    else
      var t := Strip(lines[|lines| - 1]);
      StripNoOuterSpace(t);
      NonBlankLines(lines[..|lines| - 1]) + (if t == [] then [] else [t])
  }

  /** One paragraph per text, cleaned for the PDF writer. */
  function Paragraphs(texts: seq<string>): (r: seq<Command>)
    ensures |r| == |texts|
  {
    seq(|texts|, i requires 0 <= i < |texts| => Paragraph(CleanTextForPdf(texts[i])))
  }

  /** The body of an entry: a paragraph for each non-blank line. */
  function BodyCommands(lines: seq<string>): seq<Command> {
    Paragraphs(NonBlankLines(lines))
  }

  /** The entry's lines: a heading from a first line starting with "# ", the body paragraphs, then a gap. */
  function EntryCommands(entry: string): (r: seq<Command>)
    ensures |r| >= 1 && r[|r| - 1] == Gap
    ensures r[0].Heading? <==> "# " <= SplitOn(entry, '\n')[0]
    ensures forall i :: 0 < i < |r| - 1 ==> r[i].Paragraph?
  {
    var lines := SplitOn(entry, '\n');
    if "# " <= lines[0] then [Heading(CleanTextForPdf(lines[0][2..]))] + BodyCommands(lines[1..]) + [Gap]
    else BodyCommands(lines) + [Gap]
  }

  /** The commands for all entries, in order. */
  function Layout(entries: seq<string>): seq<Command> {
    if entries == [] then [] else Layout(entries[..|entries| - 1]) + EntryCommands(entries[|entries| - 1])
  }

  lemma ParagraphsConcat(xs: seq<string>, ys: seq<string>)
    ensures Paragraphs(xs + ys) == Paragraphs(xs) + Paragraphs(ys)
  {
    var l, r := Paragraphs(xs + ys), Paragraphs(xs) + Paragraphs(ys);
    forall i | 0 <= i < |l| ensures l[i] == r[i] {
      if i < |xs| {
        assert (xs + ys)[i] == xs[i];
      } else {
        assert (xs + ys)[i] == ys[i - |xs|];
      }
    }
  }

  lemma {:induction false} NonBlankLinesConcat(xs: seq<string>, ys: seq<string>)
    ensures NonBlankLines(xs + ys) == NonBlankLines(xs) + NonBlankLines(ys)
    decreases |ys|
  {
    if ys == [] {
      assert xs + ys == xs;
    } else {
      var init := ys[..|ys| - 1];
      assert (xs + ys)[..|xs + ys| - 1] == xs + init;
      NonBlankLinesConcat(xs, init);
    }
  }

  /** Laying out more lines adds their paragraphs after the others. */
  lemma BodyCommandsConcat(xs: seq<string>, ys: seq<string>)
    ensures BodyCommands(xs + ys) == BodyCommands(xs) + BodyCommands(ys)
  {
    NonBlankLinesConcat(xs, ys);
    ParagraphsConcat(NonBlankLines(xs), NonBlankLines(ys));
  }

  /** The inner loop of the layout: a paragraph for each line whose `strip()` is not empty. */
  method BodyLayout(lines: seq<string>) returns (commands: seq<Command>)
    ensures commands == BodyCommands(lines)
  {
    commands := [];
    for k := 0 to |lines|
      invariant commands == BodyCommands(lines[..k])
    {
      var t := Strip(lines[k]);
      assert lines[..k + 1] == lines[..k] + [lines[k]];
      BodyCommandsConcat(lines[..k], [lines[k]]);
      assert [lines[k]][..0] == [];
      if t != [] {
        assert BodyCommands([lines[k]]) == [Paragraph(CleanTextForPdf(t))];
        commands := commands + [Paragraph(CleanTextForPdf(t))];
      } else {
        assert BodyCommands([lines[k]]) == [];
      }
    }
    assert lines[..|lines|] == lines;
  }

  /** The body of the layout loop for one entry: split into lines, a heading if the first starts with "# ", the paragraphs, a gap. */
  method EntryLayout(entry: string) returns (commands: seq<Command>)
    ensures commands == EntryCommands(entry)
  {
    var lines := SplitOn(entry, '\n');
    if "# " <= lines[0] {
      var paragraphs := BodyLayout(lines[1..]);
      commands := [Heading(CleanTextForPdf(lines[0][2..]))] + paragraphs + [Gap];
    } else {
      var paragraphs := BodyLayout(lines);
      commands := paragraphs + [Gap];
    }
  }

  /** The layout loop of `main`, entry by entry. */
  method LayoutSummary(entries: seq<string>) returns (commands: seq<Command>)
    ensures commands == Layout(entries)
  {
    commands := [];
    for e := 0 to |entries|
      invariant commands == Layout(entries[..e])
    {
      assert entries[..e + 1][..e] == entries[..e];
      var more := EntryLayout(entries[e]);
      commands := commands + more;
    }
    assert entries[..|entries|] == entries;
  }

  /** The two line breaks that close an entry split off two empty lines. */
  lemma TrailingBreaks(summary: string)
    ensures SplitOn(summary + "\n\n", '\n') == SplitOn(summary, '\n') + [[], []]
  {
    var none: string := [];
    SplitOnConcat(none, '\n', none);
    assert none + ['\n'] + none == "\n";
    assert SplitOn(none, '\n') == [[]];
    SplitOnConcat(summary, '\n', "\n");
    assert summary + ['\n'] + "\n" == summary + "\n\n";
  }

  /** The lines of a success entry: the heading line, the summary's lines, two empty lines. */
  lemma SuccessEntryLines(title: string, summary: string)
    requires '\n' !in title
    ensures SplitOn(SuccessEntry(title, summary), '\n') == ["# " + title] + (SplitOn(summary, '\n') + [[], []])
  {
    var first := "# " + title;
    assert '\n' !in first;
    SplitOnNoSep(first, '\n');
    TrailingBreaks(summary);
    SplitOnConcat(first, '\n', summary + "\n\n");
    assert SuccessEntry(title, summary) == first + ['\n'] + (summary + "\n\n");
  }

  /**
   * A success entry whose title has no line break lays out as that title,
   * cleaned, for the heading, then one paragraph per non-blank line of the
   * summary, stripped and cleaned, in order, then a gap: the two blank
   * lines that close the entry add nothing.
   */
  lemma SuccessEntryLayout(title: string, summary: string)
    requires '\n' !in title
    ensures var nb := NonBlankLines(SplitOn(summary, '\n'));
      EntryCommands(SuccessEntry(title, summary)) ==
        [Heading(CleanTextForPdf(title))]
        + seq(|nb|, i requires 0 <= i < |nb| => Paragraph(CleanTextForPdf(nb[i])))
        + [Gap]
  {
    var first := "# " + title;
    var body := SplitOn(summary, '\n');
    var blanks: seq<string> := [[], []];
    var lines := SplitOn(SuccessEntry(title, summary), '\n');
    SuccessEntryLines(title, summary);
    assert lines[0] == first && "# " <= first && first[2..] == title;
    assert lines[1..] == body + blanks;
    NonBlankLinesConcat(body, blanks);
    assert blanks[..1][..0] == [];
    assert NonBlankLines(blanks) == [];
    assert body + blanks == lines[1..];
    assert NonBlankLines(lines[1..]) == NonBlankLines(body);
  }

  /** Every text the layout hands to the PDF writer is Latin-1, as the core fonts require. */
  lemma {:induction false} LayoutIsLatin1(entries: seq<string>)
    ensures forall c :: c in Layout(entries) && !c.Gap? ==> forall k :: 0 <= k < |c.text| ==> c.text[k] as int < 256
  {
    if entries != [] {
      LayoutIsLatin1(entries[..|entries| - 1]);
      var lines := SplitOn(entries[|entries| - 1], '\n');
      BodyIsLatin1(lines);
      BodyIsLatin1(lines[1..]);
      if "# " <= lines[0] {
        CleanTextForPdfGuarantees(lines[0][2..]);
      }
    }
  }

  lemma BodyIsLatin1(lines: seq<string>)
    ensures forall c :: c in BodyCommands(lines) ==> c.Paragraph? && forall k :: 0 <= k < |c.text| ==> c.text[k] as int < 256
  {
    var nb := NonBlankLines(lines);
    forall i | 0 <= i < |nb| {
      CleanTextForPdfGuarantees(nb[i]);
    }
  }
}
