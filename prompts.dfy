// The prompt sent for one section: a fixed instruction text with the word
// target, the section title, the first 10000 characters of the section and
// the first 5000 characters of the retrieved context filled in.

module Prompts {
  import opened Wrappers
  import opened Text
  import opened Sections

  const ContentLimit: nat := 10000
  const ContextLimit: nat := 5000

  /** The template up to the word target. */
  const Intro: string :=
    "You are summarizing a section of 'Nexus: A Brief History of Information Networks from the Stone Age to AI' by Yuval Noah Harari. Your summary must:\n"
    + "- Be clear, concise, and professional, preserving key arguments, facts, and tone.\n"
    + "- Avoid repetition of ideas from other sections.\n"
    + "- Target ~"

  /** From the word target to the title line. */
  const AfterTarget: string := WordsTag + BudgetNote

  const BudgetNote: string :=
    " for a 100-page summary (25,000 words total).\n"
    + "- Use provided context to ensure coherence.\n"
    + "- Structure the summary with an introduction, key points, and conclusion.\n"
    + "\n"

  const WordsTag: string := " words"
  const TitleTag: string := "Section Title: "
  const TextTag: string := "Section Text: "
  const ContextTag: string := "Relevant Context: "

  /** After the context: the comment-like text that is part of the string, and the closing instruction. */
  const Closing: string :=
    "  # Limit context size\n"
    + "\n"
    + "Provide the summary in a narrative format, readable as part of a cohesive book summary.\n"

  /** `section.get("title", "Section")` as the f-string shows it: a missing key gives "Section", a `None` gives "None". */
  function TitleText(title: TitleField): (t: string)
    ensures title.Named? ==> t == title.name
  {
    match title
    case Absent => "Section"
    case Null => "None"
    case Named(name) => name
  }

  /** `section.get("content", "")[:10000]`. */
  function MainText(content: Option<string>): (t: string)
    ensures |t| <= ContentLimit
    ensures content.Some? ==> t <= content.value && |t| == Min(ContentLimit, |content.value|)
    ensures content.None? ==> t == []
  {
    match content
    case None => ""
    case Some(c) => Take(c, ContentLimit)
  }

  /** The instructions, with the word target filled in. */
  function Head(targetWords: nat): string {
    Intro + NatToString(targetWords) + AfterTarget
  }

  function TitleLine(title: TitleField): string {
    TitleTag + TitleText(title)
  }

  function TextLine(content: Option<string>): string {
    "\n" + TextTag + MainText(content)
  }

  function ContextLine(context: string): string {
    "\n" + ContextTag + Take(context, ContextLimit) + Closing
  }

  /** `get_summary_prompt`: the f-string, line by line. */
  function GetSummaryPrompt(title: TitleField, content: Option<string>, context: string, targetWords: nat): string {
    Head(targetWords) + TitleLine(title) + TextLine(content) + ContextLine(context)
  }

  /** The prompt for one of the segmenter's sections. */
  function SectionPrompt(section: Section, context: string, targetWords: nat): string {
    GetSummaryPrompt(section.title, Some(section.content), context, targetWords)
  }

  /** The fixed text of the template. */
  lemma TemplateLengths()
    ensures |Intro| == 289 && |AfterTarget| == 171 && |TitleTag| == 15 && |TextTag| == 14
    ensures |ContextTag| == 18 && |Closing| == 112
  {
  }

  /**
   * The prompt's length: 621 characters of template, the digits of the
   * target, the title, and the two truncated texts.
   */
  lemma PromptLength(title: TitleField, content: Option<string>, context: string, targetWords: nat)
    ensures |GetSummaryPrompt(title, content, context, targetWords)| ==
      621 + |NatToString(targetWords)| + |TitleText(title)| + |MainText(content)| + Min(ContextLimit, |context|)
  {
    TemplateLengths();
  }

  /**
   * Only the first 10000 characters of the content and the first 5000 of
   * the context matter: inputs that agree on those give the same prompt.
   */
  lemma PromptSeesOnlyPrefixes(title: TitleField, c1: string, c2: string, x1: string, x2: string, targetWords: nat)
    requires Take(c1, ContentLimit) == Take(c2, ContentLimit)
    requires Take(x1, ContextLimit) == Take(x2, ContextLimit)
    ensures GetSummaryPrompt(title, Some(c1), x1, targetWords) == GetSummaryPrompt(title, Some(c2), x2, targetWords)
  {
  }

  lemma Slices(p: string, h: string, u: string, v: string, w: string) returns (i: nat, j: nat, k: nat)
    requires p == h + u + v + w && u != [] && v != []
    ensures i < j < k <= |p| && p[i..j] == u && p[j..k] == v && p[k..] == w
  {
    i, j, k := |h|, |h| + |u|, |h| + |u| + |v|;
  }

  /**
   * The three fields appear in the order title, text, context, each after
   * its label, the context followed by the closing text.
   */
  lemma FieldsInOrder(title: TitleField, content: Option<string>, context: string, targetWords: nat)
    returns (i: nat, j: nat, k: nat)
    ensures var p := GetSummaryPrompt(title, content, context, targetWords);
      && i < j < k <= |p|
      && p[i..j] == TitleTag + TitleText(title)
      && p[j..k] == "\n" + TextTag + MainText(content)
      && p[k..] == "\n" + ContextTag + Take(context, ContextLimit) + Closing
  {
    i, j, k := Slices(GetSummaryPrompt(title, content, context, targetWords),
                      Head(targetWords), TitleLine(title), TextLine(content), ContextLine(context));
  }

  lemma Regroup(a: string, b: string, c: string, d: string, e: string, f: string)
    ensures a + b + c + d + e + f == a + (b + (c + (d + e + f)))
  {
  }

  lemma Split(a: string, b: string, c1: string, c2: string, d: string, e: string, f: string)
    ensures a + b + c1 <= a + b + (c1 + c2) + d + e + f
  {
    assert a + b + (c1 + c2) + d + e + f == (a + b + c1) + (c2 + d + e + f);
  }

  /** The word target is written in decimal right after "Target ~", followed by " words". */
  lemma TargetIsStated(title: TitleField, content: Option<string>, context: string, targetWords: nat)
    ensures Intro + NatToString(targetWords) + WordsTag <= GetSummaryPrompt(title, content, context, targetWords)
  {
    Split(Intro, NatToString(targetWords), WordsTag, BudgetNote, TitleLine(title), TextLine(content), ContextLine(context));
  }

  /** What follows the word target: " words", the rest of the instructions and the three fields. */
  function AfterDigits(title: TitleField, content: Option<string>, context: string): string {
    AfterTarget + (TitleLine(title) + TextLine(content) + ContextLine(context))
  }

  /** After the fixed introduction come the target's digits, then the text after them. */
  lemma DigitsAfterIntro(title: TitleField, content: Option<string>, context: string, targetWords: nat)
    ensures GetSummaryPrompt(title, content, context, targetWords) ==
      Intro + (NatToString(targetWords) + AfterDigits(title, content, context))
    ensures AfterDigits(title, content, context) != [] && AfterDigits(title, content, context)[0] == ' '
  {
    Regroup(Intro, NatToString(targetWords), AfterTarget, TitleLine(title), TextLine(content), ContextLine(context));
    assert WordsTag[0] == ' ';
  }

  lemma Cancel(i: string, a: string, b: string)
    requires i + a == i + b
    ensures a == b
  {
    assert a == (i + a)[|i|..];
  }

  /** The prompt determines the word target. */
  lemma TargetIsRecoverable(t1: TitleField, c1: Option<string>, x1: string, n1: nat,
                            t2: TitleField, c2: Option<string>, x2: string, n2: nat)
    requires GetSummaryPrompt(t1, c1, x1, n1) == GetSummaryPrompt(t2, c2, x2, n2)
    ensures n1 == n2
  {
    DigitsAfterIntro(t1, c1, x1, n1);
    DigitsAfterIntro(t2, c2, x2, n2);
    Cancel(Intro, NatToString(n1) + AfterDigits(t1, c1, x1), NatToString(n2) + AfterDigits(t2, c2, x2));
    DecimalPrefixFree(n1, AfterDigits(t1, c1, x1), n2, AfterDigits(t2, c2, x2));
  }

  /** "Section" is shown for a missing title and for the title "Section" only, "None" for `None` and the title "None" only. */
  lemma TitleFallbackOnlyWhenAbsent(title: TitleField)
    ensures TitleText(title) == "Section" <==> title == Absent || title == Named("Section")
    ensures TitleText(title) == "None" <==> title == Null || title == Named("None")
  {
  }
}
