# Book summarizer core, modelled in Dafny

The summarizer reads a book as a list of page strings. It does these steps in order:

1. It cleans OCR text.
2. It cuts the book into sections at heading pages (PROLOGUE, PART n, CHAPTER n, ...).
3. It shares a budget of 25000 words among the sections.
4. For each section, it does the following. The section-level `try` catches every error along the way.
   - It retrieves two neighbouring sections from a vector store as context.
   - It fills in the summary prompt.
   - It asks the completion API for a summary, with a bounded number of retries.
5. It lays the summary entries out for the PDF writer.

This project models each of those steps. It proves what each step promises.

The modules follow the program's files:

| module | file | what it holds |
|---|---|---|
| `Wrappers` | `wrappers.dfy` | `Option` and `Result` |
| `Text` | `text.dfy` | the Python string operations the core relies on |
| `Sections` | `sections.dfy` | the section record |
| `PdfUtils` | `pdf_utils.dfy` | `clean_ocr_text` and `split_into_sections` |
| `Rag` | `rag.dfy` | the vector store input and the retrieval post-filter |
| `Prompts` | `prompts.dfy` | `get_summary_prompt` |
| `Model` | `model.dfy` | prompt truncation and the retry loop of `summarize_with_groq` |
| `Driver` | `driver.dfy` | `main`: word count, PDF text cleaning, budget, summarization loop and layout |

The Python string operations in `Text` are `isspace`, `strip`, `split()`, `split(sep)`, `join`, slicing, `str(n)`, `upper` and `title`.

Loops in the source are Dafny methods with loop invariants, each proved equal to a reference function. These are:
- the page loop and its inner pattern loop;
- the budget loop over an array;
- the summarization loop;
- the layout loop;
- the retry loop.

The rest are functions.

External services are passed in as functions that return a value or fail:
- the sentence embedder;
- the FAISS search;
- the completion request;
- as seen from the driver, retrieval and completion.

Nothing is executed. What each operation does for all inputs is stated as lemmas.

Four behaviours of the code a reader may not expect. The model follows the code in each:
- **CHAPTER headings.** The pattern `\bCHAPTER\s+\d+\.?\s*` ends in `\s*`. So when no earlier pattern of the table matches anywhere on the page, the title of a page starting "CHAPTER 1. The" is "Chapter 1. ": the title keeps the trailing space. For the page "CHAPTER 1. The end" this is `PdfUtils.ChapterPageHeading`.
- **Table order beats position.** Each pattern is searched over the whole upper-cased page, in table order. So a page "CHAPTER 1. The prologue" opens a section titled "Prologue": PROLOGUE comes first in the table, although CHAPTER matches at the start of the page (`PdfUtils.TableOrderBeatsPosition`).
- **Budget for seven sections.** The loop gives the extra words to the first `25000 % 7 = 3` sections. So the targets are 3572 three times, then 3571 four times (`Driver.SevenSections`).
- **Mixed-case patterns.** Matching runs on `page.upper()`. So the mixed-case patterns `Acknowledgments`, `Notes` and `Index` never match (`PdfUtils.MixedCasePatternsNeverMatch`).

## Model

| member | source | states |
|---|---|---|
| PdfUtils.RemoveOcrBlocks | Book_Summarizer-RAG/pdf_utils.py:12 | Lazy deletion of `<CONTENT_FROM_OCR>…</CONTENT_FROM_OCR>` blocks, scanning left to right; the result is no longer and holds only characters of the input |
| PdfUtils.RemoveMarkers | Book_Summarizer-RAG/pdf_utils.py:13 | Deletion of `...(truncated N characters)...` markers; the result is no longer and holds only input characters |
| PdfUtils.RemoveOcrBlocksDeletesBlock | Book_Summarizer-RAG/pdf_utils.py:12 | A block is deleted from its opening tag to the first closing tag after it: for `a` and `m` without `<`, `a + open + m + close + b` becomes `a` followed by the cleaned `b` |
| PdfUtils.RemoveMarkersDeletesMarker | Book_Summarizer-RAG/pdf_utils.py:13 | A marker is deleted whole: for `a` without `.` and any number n, `a + "...(truncated " + str(n) + " characters)..." + b` becomes `a` followed by the cleaned `b` |
| PdfUtils.CollapseSpaces | Book_Summarizer-RAG/pdf_utils.py:14 | Every whitespace run becomes one space; every other output character is a non-space input character |
| PdfUtils.DeleteNonAscii | Book_Summarizer-RAG/pdf_utils.py:15 | Output characters are below 0x80 and come from the input; ASCII input is unchanged |
| PdfUtils.CleanOcrText | Book_Summarizer-RAG/pdf_utils.py:10-16 | Output has no code point at or above 0x80 and no whitespace other than `' '` |
| PdfUtils.CollapseShape | Book_Summarizer-RAG/pdf_utils.py:14 | A collapsed string is one optional leading space, then the words of the input joined by single spaces, then trailing whitespace |
| PdfUtils.CollapseStripIsJoinedWords | Book_Summarizer-RAG/pdf_utils.py:14 | Collapse then strip equals `" ".join(s.split())` |
| PdfUtils.CleanOcrTextOnAscii | Book_Summarizer-RAG/pdf_utils.py:10-16 | On ASCII input the result is the words (after tag and marker removal) joined by single spaces: stripped, never two spaces in a row |
| PdfUtils.AsciiSurvivesCleaning | Book_Summarizer-RAG/pdf_utils.py:12-15 | On ASCII input every step keeps the text ASCII, so the final deletion removes nothing |
| PdfUtils.CleanOcrTextOfTidyText | Book_Summarizer-RAG/pdf_utils.py:10-16 | On tidy text (no tag, no marker, single-spaced, stripped) only the non-ASCII deletion acts |
| PdfUtils.CleanOcrTextCanDoubleSpace | Book_Summarizer-RAG/pdf_utils.py:14-15 | Deleting non-ASCII after the collapse can leave a double space: `u + " " + c + " " + v` with non-ASCII `c` cleans to `u + "  " + v` |
| PdfUtils.RemoveOcrBlocksNoTag | Book_Summarizer-RAG/pdf_utils.py:12 | Text without `<` is left alone by the OCR-block deletion |
| PdfUtils.RemoveMarkersNoDot | Book_Summarizer-RAG/pdf_utils.py:13 | Text without `.` is left alone by the marker deletion |
| PdfUtils.CollapseSingleSpaced | Book_Summarizer-RAG/pdf_utils.py:14 | Text whose whitespace is single spaces is left alone by the collapse |
| PdfUtils.MatchAt | Book_Summarizer-RAG/pdf_utils.py:61-70 | The match of one heading pattern at a position: `\b`, literal text, `\s+`, numeral alternatives, `\d+`, optional dot, `\s*`; a match is non-empty and in bounds |
| PdfUtils.SearchFrom | Book_Summarizer-RAG/pdf_utils.py:77-83 | `re.search(...).group(0)` scanning from a position; a match it returns is non-empty |
| PdfUtils.SearchFromNone | Book_Summarizer-RAG/pdf_utils.py:78 | `re.search` finds nothing if and only if the pattern matches at no position from the start position on |
| PdfUtils.SearchFromFirst | Book_Summarizer-RAG/pdf_utils.py:78-83 | When it finds something, that is the match at the first position where the pattern matches: the pattern matches nowhere before it |
| PdfUtils.ChapterPageHeading | Book_Summarizer-RAG/pdf_utils.py:74-84 | The page "CHAPTER 1. The end" is a heading page for the CHAPTER pattern with match "CHAPTER 1. ", and its title is "Chapter 1. " |
| PdfUtils.TableOrderBeatsPosition | Book_Summarizer-RAG/pdf_utils.py:77-84 | On "CHAPTER 1. The prologue" CHAPTER matches at the very start, yet the heading is PROLOGUE with title "Prologue", because PROLOGUE comes first in the table |
| PdfUtils.FirstMatchFrom | Book_Summarizer-RAG/pdf_utils.py:77-87 | The first pattern of the table that matches; its index lies in the table and its text is non-empty |
| PdfUtils.FirstMatchFromIsFirst | Book_Summarizer-RAG/pdf_utils.py:77-87 | First match wins: pattern k is chosen with text m if and only if it matches with m and no earlier pattern matches |
| PdfUtils.FirstMatchIsFirstPattern | Book_Summarizer-RAG/pdf_utils.py:61-87 | The same for a page: the heading is found on `page.upper()`, and later patterns are not tried |
| PdfUtils.MixedCasePatternsNeverMatch | Book_Summarizer-RAG/pdf_utils.py:66-78 | `Acknowledgments`, `Notes` and `Index` never match upper-cased text, so a heading is always PROLOGUE, PART, CHAPTER, EPILOGUE or ABOUT THE AUTHOR |
| PdfUtils.TitleSample | Book_Summarizer-RAG/pdf_utils.py:84 | `.title()` turns "PART II" into "Part Ii" |
| PdfUtils.HeadingOf | Book_Summarizer-RAG/pdf_utils.py:74-84 | The heading found on a page, if any, comes from PROLOGUE, PART, CHAPTER, EPILOGUE or ABOUT THE AUTHOR (patterns 0-3 and 7) and has non-empty text |
| PdfUtils.HeadingTitle | Book_Summarizer-RAG/pdf_utils.py:83-84 | The title of a heading page is non-empty |
| PdfUtils.KeepNonBlank | Book_Summarizer-RAG/pdf_utils.py:97 | The final filter keeps only sections whose content strips to something, and never adds any |
| PdfUtils.FirstHeading | Book_Summarizer-RAG/pdf_utils.py:77-87 | The inner `for title_pattern` loop with its `break` finds exactly the first matching pattern |
| PdfUtils.SplitIntoSections | Book_Summarizer-RAG/pdf_utils.py:57-99 | The page loop, on the mutable current section and counter, returns exactly `Segment(pages)` |
| PdfUtils.ScanIsSectioned | Book_Summarizer-RAG/pdf_utils.py:73-94 | The page loop keeps its invariant, and closing it gives the page-by-page reference sections |
| PdfUtils.StepIsExtend | Book_Summarizer-RAG/pdf_utils.py:74-89 | One pass of the loop extends the reference sections by that page: skip blank, open on heading, append `" " + page` otherwise |
| PdfUtils.Segment | Book_Summarizer-RAG/pdf_utils.py:57-99 | What `split_into_sections` returns is the reference sectioning (the filter at line 97 removes nothing), and every section has a non-empty title and content that is not blank |
| PdfUtils.KeepNonBlankKeepsAll | Book_Summarizer-RAG/pdf_utils.py:97 | The filter returns its input when no content is blank |
| PdfUtils.SectionedWellFormed | Book_Summarizer-RAG/pdf_utils.py:74-97 | Every section has a non-empty title and content that is not blank |
| PdfUtils.ContentsPreservePages | Book_Summarizer-RAG/pdf_utils.py:74-89 | The sections' contents, read in order, are the non-blank pages in order, each body page after a space: nothing is lost or reordered |
| PdfUtils.SectionCount | Book_Summarizer-RAG/pdf_utils.py:73-94 | The number of sections is the number of heading pages, plus one when a body page comes before every heading |
| PdfUtils.SectionedOrigin | Book_Summarizer-RAG/pdf_utils.py:79-93 | Every section is the leading "Section 1" (first, with content starting with a space, present exactly when a body page leads), or is opened by a heading page, whose title it carries and with whose text its content starts |
| PdfUtils.HeadingPageStartsSection | Book_Summarizer-RAG/pdf_utils.py:78-86 | A heading page cuts the book: the sections before it are followed by those from it on, untouched by what came earlier |
| Rag.EmbeddingTexts | Book_Summarizer-RAG/rag.py:13 | One embedding text per section |
| Rag.EmbeddingTextsArePrefixes | Book_Summarizer-RAG/rag.py:13 | Text i is the prefix of section i's content of length min(5000, \|content\|); the whole content when it is short enough |
| Rag.BuildVectorStore | Book_Summarizer-RAG/rag.py:9-23 | An empty list raises "No valid sections for vector store"; an embedder failure is passed on; otherwise the sections come back unchanged, beside the embeddings of their texts |
| Rag.PyIndex | Book_Summarizer-RAG/rag.py:31 | Python list indexing: defined exactly for -n <= i < n, negative indices counting from the end |
| Rag.Chunks | Book_Summarizer-RAG/rag.py:31 | The comprehension succeeds exactly when every index is in range, and gives at most one chunk per neighbour |
| Rag.ChunksFollowNeighbours | Book_Summarizer-RAG/rag.py:31 | The chunks are those of the kept neighbours, in neighbour order: strictly increasing positions, a position kept if and only if its content differs from the query, each chunk the first 2000 characters of that section |
| Rag.RetrieveRelevantChunks | Book_Summarizer-RAG/rag.py:25-36 | `retrieve_relevant_chunks` as written: at most `top_k` chunks, each at most 2000 characters |
| Rag.RetrievedChunksExcludeQuery | Book_Summarizer-RAG/rag.py:28-31 | Every retrieved chunk is the first 2000 characters of a section whose content differs from the query section's first 5000 characters |
| Rag.FirstKeptChunks | Book_Summarizer-RAG/rag.py:31 | `[...][:top_k]` keeps the first `top_k` kept neighbours, min(top_k, number kept) chunks, in neighbour order, none skipped, and all of them when fewer than `top_k` are returned |
| Rag.RetrievedChunksFollowNeighbours | Book_Summarizer-RAG/rag.py:28-31 | A non-empty answer means the search succeeded with all indices in range; then the answer is exactly the first min(top_k, number kept) chunks of the neighbours whose content differs from the query's first 5000 characters, in neighbour order, none skipped |
| Rag.RetrievalFailureIsEmpty | Book_Summarizer-RAG/rag.py:27-36 | A failing search, or any index out of range, gives `[]` |
| Rag.PaddingReadsLastSection | Book_Summarizer-RAG/rag.py:30-31 | FAISS's `-1` padding reads the last section, once per padding entry, unless it is the query |
| Rag.LongQueryRetrievesItself | Book_Summarizer-RAG/rag.py:28-31 | As written, a section longer than 5000 characters whose search lists it first is retrieved as its own context; the correction gives the next two sections instead |
| Rag.RetrieveOtherChunks | Book_Summarizer-RAG/rag.py:28-31 | The corrected retrieval of the finding below, which excludes by whole content: at most `top_k` chunks, each at most 2000 characters |
| Rag.ChunksExcludeQuery | Book_Summarizer-RAG/rag.py:31 | Every chunk is the prefix of some section whose content differs from the compared query |
| Rag.OtherChunksExcludeSelf | Book_Summarizer-RAG/rag.py:28-31 | With the correction, no chunk comes from a section whose content equals the query section's, whatever its length |
| Rag.OtherChunksFollowNeighbours | Book_Summarizer-RAG/rag.py:28-31 | The corrected retrieval likewise returns exactly the first min(top_k, number kept) chunks of the neighbours whose content differs from the query section's whole content, none skipped |
| Rag.OtherChunksAgreeOnShortQueries | Book_Summarizer-RAG/rag.py:28-31 | For query sections of at most 5000 characters the correction changes nothing |
| Prompts.TitleText | Book_Summarizer-RAG/prompts.py:2 | `section.get("title", "Section")`: a present title is used as-is |
| Prompts.TitleFallbackOnlyWhenAbsent | Book_Summarizer-RAG/prompts.py:2 | "Section" appears only for a missing key or a title "Section", and "None" only for `None` or a title "None" |
| Prompts.MainText | Book_Summarizer-RAG/prompts.py:3 | The content's first min(10000, \|content\|) characters, as a prefix; `""` when the key is missing |
| Prompts.PromptLength | Book_Summarizer-RAG/prompts.py:4-16 | The prompt is 621 characters of template, plus the target's digits, the title, the truncated content and min(5000, \|context\|) |
| Prompts.PromptSeesOnlyPrefixes | Book_Summarizer-RAG/prompts.py:3-13 | Inputs that agree on the first 10000 content and the first 5000 context characters give the same prompt |
| Prompts.FieldsInOrder | Book_Summarizer-RAG/prompts.py:11-16 | The title, text and context fields appear in that order after their labels, and the context is followed by `"  # Limit context size"` and the closing text |
| Prompts.TargetIsStated | Book_Summarizer-RAG/prompts.py:7 | The prompt contains "Target ~", the target in decimal, then " words" |
| Prompts.TargetIsRecoverable | Book_Summarizer-RAG/prompts.py:7 | Two equal prompts have equal targets |
| Model.TruncatePrompt | Book_Summarizer-RAG/model.py:20-22 | A prompt of at most 32000 characters is sent unchanged; a longer one becomes 31915 characters that keep its first 31900 |
| Model.TruncateIdempotent | Book_Summarizer-RAG/model.py:20-22 | Truncating twice is truncating once |
| Model.SummarizeWithGroq | Book_Summarizer-RAG/model.py:13-45 | The retry loop, run step by step, gives exactly the outcome, the sleeps and the number of attempts of the reference run |
| Model.RetryFrom | Book_Summarizer-RAG/model.py:32-45 | The retry loop from attempt k: `None` comes back exactly when no attempt remains; otherwise between 1 and `max_retries - k` attempts, with one sleep fewer than attempts |
| Model.Summarize | Book_Summarizer-RAG/model.py:32-45 | `None` comes back exactly when `max_retries <= 0`; otherwise between 1 and `max_retries` attempts, with one sleep fewer than attempts |
| Model.RetryFromShape | Book_Summarizer-RAG/model.py:32-45 | From attempt k: no attempt when none remain; otherwise every attempt but the last failed, the attempts are bounded, a sleep of 2^j follows each failed attempt j but the last, and the last attempt decides the outcome |
| Model.RetryPolicy | Book_Summarizer-RAG/model.py:32-45 | With `max_retries <= 0` nothing is sent and `None` comes back; otherwise at most `max_retries` attempts, the first reply is returned, a malformed body raises, and after `max_retries` request errors the failure message with the last error is returned |
| Model.Backoff | Book_Summarizer-RAG/model.py:40-41 | The sleeps are 1, 2, 4, ... seconds and add up to 2^s - 1; at most 3 seconds with three attempts |
| Driver.EstimateWordCount | Book_Summarizer-RAG/main.py:14-16 | `len(text.split())` is the number of maximal non-whitespace runs, 0 exactly for a blank text |
| Text.WordsCountRuns | Book_Summarizer-RAG/main.py:16 | `split()` yields one word per maximal run of non-whitespace |
| Text.SplitJoinRoundTrip | Book_Summarizer-RAG/main.py:94 | Joining the parts of `split("\n")` with `"\n"` gives back the entry |
| Text.TitleFromAt | Book_Summarizer-RAG/pdf_utils.py:84 | `.title()` works character by character: each output character depends only on that input character and whether the one before it is a letter |
| Text.DecimalRoundTrip | Book_Summarizer-RAG/prompts.py:7 | The decimal digits written for the target read back as the target |
| Driver.CleanTextForPdf | Book_Summarizer-RAG/main.py:18-24 | Every output code point is below 256, so FPDF's Latin-1 font can draw it |
| Driver.CleanTextForPdfGuarantees | Book_Summarizer-RAG/main.py:18-24 | Every output code point is below 256; input below 256 is unchanged; the output is one character longer per em dash; cleaning twice is cleaning once |
| Driver.CleanIsPerChar | Book_Summarizer-RAG/main.py:18-24 | The six replacements and the comprehension act character by character |
| Driver.AllocateWordTargets | Book_Summarizer-RAG/main.py:49-52 | With no sections the list is `[total]`; otherwise n targets, target i being `total // n` plus one exactly when `i < total % n` |
| Driver.BudgetIsExact | Book_Summarizer-RAG/main.py:49-52 | The targets add up to the total; each is `total // n` or one more; exactly the first `total % n` get the extra word |
| Driver.SevenSections | Book_Summarizer-RAG/main.py:49-52 | 25000 words over 7 sections: 3572 three times, then 3571 four times |
| Driver.SummarizeSection | Book_Summarizer-RAG/main.py:55-73 | One loop body: a success entry `"# " + title + "\n" + summary + "\n\n"` with its word count, or, for a failure anywhere in retrieval or completion, the failure entry and no words |
| Driver.SummarizeSections | Book_Summarizer-RAG/main.py:54-73 | One entry per section, in section order, whatever happens to each; the total counts the words of the successful summaries only |
| Driver.Entry | Book_Summarizer-RAG/main.py:67-73 | An entry starts with `"# "` and ends with a blank line; a failure entry starts with `"# Section " + str(i+1) + "\n"` |
| Driver.CompletionOf | Book_Summarizer-RAG/main.py:61-62 | What the loop body sees of `summarize_with_groq(prompt)`: a returned text, or the exception it raised; a `None` result is an error, raised by `len(None.split())` |
| Driver.AsRetrieval | Book_Summarizer-RAG/main.py:57 | The loop's retrieval is `retrieve_relevant_chunks` as written with `top_k=2`: it never raises, and gives at most two chunks of at most 2000 characters |
| Driver.FailureIgnoresTitle | Book_Summarizer-RAG/main.py:73 | A failure entry is headed "Section i+1" whatever the section's title |
| Driver.ContextNeverTruncated | Book_Summarizer-RAG/main.py:57-58 | With the retrieval as written, the context is at most 4002 characters, so `context[:5000]` keeps all of it; every chunk is the first 2000 characters of a section whose content differs from the summarized section's first 5000 characters |
| Driver.PromptFitsRequestLimit | Book_Summarizer-RAG/main.py:58-61 | A section prompt is sent uncut unless title and target together take more than 16379 characters |
| Driver.NonBlankLines | Book_Summarizer-RAG/main.py:99-101 | The non-blank lines, stripped: no more lines than given, each non-empty and without outer whitespace |
| Driver.BodyLayout | Book_Summarizer-RAG/main.py:99-106 | The inner line loop gives one cleaned paragraph per non-blank line, in order |
| Driver.EntryCommands | Book_Summarizer-RAG/main.py:94-107 | One entry's commands: a heading exactly when its first line starts with `"# "`, then only paragraphs, then a closing gap |
| Driver.EntryLayout | Book_Summarizer-RAG/main.py:94-107 | One entry: a heading from a first line that starts with `"# "`, the body paragraphs, a gap |
| Driver.LayoutSummary | Book_Summarizer-RAG/main.py:93-107 | The layout loop gives the commands of every entry, in entry order |
| Driver.BodyCommandsConcat | Book_Summarizer-RAG/main.py:99-101 | Laying out more lines adds their paragraphs after the others |
| Driver.SuccessEntryLines | Book_Summarizer-RAG/main.py:67-94 | The lines of a success entry are the heading line, the summary's lines and two empty lines |
| Driver.SuccessEntryLayout | Book_Summarizer-RAG/main.py:67-101 | A success entry whose title has no line break lays out as the cleaned title, one cleaned paragraph per non-blank summary line in order, and a gap |
| Driver.LayoutIsLatin1 | Book_Summarizer-RAG/main.py:93-107 | Every text handed to the PDF writer is Latin-1 |

## Left out

- Reading the PDF and OCR (`load_book`, `ocr_page_image`, pdf_utils.py:18-55) use pypdfium2, PIL and Tesseract. They are not modelled. Pages are given as a list of strings.
- Sentence embedding and the FAISS index work on floats in foreign code. They are passed in as functions. The embedder is a function from texts to embeddings or a failure. The search is a function from query text and count to neighbour indices or a failure.
- The HTTP request, headers, environment variables, logging and wall-clock sleeping in model.py are not modelled. Each attempt's outcome comes from a function of the prompt sent and the attempt number. The sleeps are returned as a list of durations.
  - `requests.exceptions.RequestException` and its subclasses, including JSON decoding errors, are `RequestError`.
  - A reply of the wrong shape is `Malformed`.
  - The reply content is taken to be a string.
- `str(e)` of an exception is modelled as its message string.
- The FPDF calls are not modelled: fonts, cells, page breaks, the banner title cell and output. The layout loop produces a list of heading, paragraph and gap commands instead.
- Directory creation, the text file written with `"\n".join(summary_sections)`, logging and tqdm in main.py are not modelled.
- `main` itself, which wires the steps together, is not modelled as one operation. The driver members take retrieval and completion as parameters. `Driver.AsRetrieval` and `Driver.AsCompletion` build those parameters from the model's own retrieval and retry loop.
- Regular expressions are modelled pattern by pattern. There is no general regex engine.
  - `\b`, `\w` and `\d` are modelled on ASCII, as are `upper()` and `title()`. The heading patterns run on pages after `clean_ocr_text`, which leaves only ASCII.
  - `\s`, `strip()` and `split()` use Python's full whitespace set.
- PdfUtils.RemoveMarkers: models `\d+` as ASCII digits, but this step runs on raw extracted text, where Python's `\d` also matches other decimal digits. A marker such as `...(truncated ٣ characters)...` is removed by the source and kept by the model.
- `top_k` and the word target are natural numbers. A negative `top_k` is not modelled.
- Section dictionaries always carry a string `content`. The prompt builder's missing-`content` case is modelled (`Prompts.MainText`). The segmenter never produces such a section.

## Findings

| source | as written | input that shows it | evidently intended | confidence | as-written member | corrected member |
|---|---|---|---|---|---|---|
| Book_Summarizer-RAG/rag.py:28-31 | Self exclusion compares each neighbour's full content with `query_text`, which is the query section's content cut to 5000 characters. | A book of four sections, the first of 5001 characters, with `top_k=2` and a search that returns `[0, 1, 2]` for it: the first section is retrieved as its own context, beside the second; the third is never reached. | Neighbours are compared with the query section's whole content, so a section is never its own context. | not executed | Rag.LongQueryRetrievesItself | Rag.OtherChunksExcludeSelf |

The driver model uses the retrieval as written, `Rag.RetrieveRelevantChunks`, through `Driver.AsRetrieval`; `Driver.ContextNeverTruncated` is stated over it.
