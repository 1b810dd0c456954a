/**
 * Page cleaning and the section segmenter: `clean_ocr_text` and
 * `split_into_sections`. Pages arrive as strings; reading the PDF and OCR
 * are not part of this model.
 */
module PdfUtils {
  import opened Wrappers
  import opened Text
  import opened Sections

  // ======================================================= clean_ocr_text

  const OcrOpen: string := "<CONTENT_FROM_OCR>"
  const OcrClose: string := "</CONTENT_FROM_OCR>"

  /** The position of the first occurrence of `pat` in `s`. */
  function FindFirst(s: string, pat: string): (r: Option<nat>)
    ensures r.Some? ==> r.value + |pat| <= |s| && pat <= s[r.value..]
  {
    if pat <= s then Some(0)
    else if s == [] then None
    else match FindFirst(s[1..], pat)
      case Some(k) => Some(k + 1)
      case None => None
  }

  /**
   * `re.sub(r"<CONTENT_FROM_OCR>.*?</CONTENT_FROM_OCR>", "", s, flags=re.DOTALL)`:
   * scanning left to right, an opening tag that has a closing tag somewhere
   * after it is deleted together with everything up to the first such
   * closing tag; an opening tag with no closing tag after it stays.
   */
  function RemoveOcrBlocks(s: string): (r: string)
    ensures |r| <= |s|
    ensures forall i :: 0 <= i < |r| ==> r[i] in s
    decreases |s|
  {
    if s == [] then []
    else if OcrOpen <= s && FindFirst(s[|OcrOpen|..], OcrClose).Some? then
      var rest := s[|OcrOpen| + FindFirst(s[|OcrOpen|..], OcrClose).value + |OcrClose|..];
      RemoveOcrBlocks(rest)
    else [s[0]] + RemoveOcrBlocks(s[1..])
  }

  const MarkerHead: string := "...(truncated "
  const MarkerTail: string := " characters)..."

  /** The length of the maximal run of ASCII digits at the front of `s`. */
  function DigitRun(s: string): (n: nat)
    ensures n <= |s| && (n == |s| || !IsAsciiDigit(s[n]))
    ensures forall i :: 0 <= i < n ==> IsAsciiDigit(s[i])
  {
    if s != [] && IsAsciiDigit(s[0]) then 1 + DigitRun(s[1..]) else 0
  }

  /** The length of a `...(truncated N characters)...` marker at the front of `s`, if one is there. */
  function MarkerLength(s: string): (r: Option<nat>)
    ensures r.Some? ==> 0 < r.value <= |s|
  {
    if MarkerHead <= s then
      var d := DigitRun(s[|MarkerHead|..]);
      if d > 0 && MarkerTail <= s[|MarkerHead| + d..] then Some(|MarkerHead| + d + |MarkerTail|) else None
    else None
  }

  /** `re.sub(r"\.\.\.\(truncated \d+ characters\)\.\.\.", "", s)` */
  function RemoveMarkers(s: string): (r: string)
    ensures |r| <= |s|
    ensures forall i :: 0 <= i < |r| ==> r[i] in s
    decreases |s|
  {
    if s == [] then []
    else match MarkerLength(s)
      case Some(n) => RemoveMarkers(s[n..])
      case None => [s[0]] + RemoveMarkers(s[1..])
  }

  /** `re.sub(r"[\n\s]+", " ", s)`: every maximal run of whitespace becomes one space. */
  function CollapseSpaces(s: string): (r: string)
    ensures forall i :: 0 <= i < |r| ==> r[i] == ' ' || (r[i] in s && !IsSpace(r[i]))
    decreases |s|
  {
    if s == [] then []
    else if IsSpace(s[0]) then
      var t := TrimStart(s);
      TrimStartSplits(s);
      assert forall c :: c in t ==> c in s;
      [' '] + CollapseSpaces(t)
    else [s[0]] + CollapseSpaces(s[1..])
  }

  /** `re.sub(r"[^\x00-\x7F]+", "", s)`: every character at or above 0x80 is deleted. */
  function DeleteNonAscii(s: string): (r: string)
    ensures forall i :: 0 <= i < |r| ==> r[i] as int < 0x80 && r[i] in s
    ensures (forall i :: 0 <= i < |s| ==> s[i] as int < 0x80) ==> r == s
  {
    if s == [] then []
    else if s[0] as int < 0x80 then [s[0]] + DeleteNonAscii(s[1..])
    else DeleteNonAscii(s[1..])
  }

  /** `clean_ocr_text`: drop OCR blocks and truncation markers, collapse whitespace, strip, drop non-ASCII. */
  function CleanOcrText(s: string): (r: string)
    ensures forall i :: 0 <= i < |r| ==> r[i] as int < 0x80
    ensures forall i :: 0 <= i < |r| ==> IsSpace(r[i]) ==> r[i] == ' '
  {
    var collapsed := CollapseSpaces(RemoveMarkers(RemoveOcrBlocks(s)));
    StripKeepsChars(collapsed);
    DeleteNonAscii(Strip(collapsed))
  }

  lemma StripKeepsChars(s: string)
    ensures forall i :: 0 <= i < |Strip(s)| ==> Strip(s)[i] in s
  {
    var t := TrimStart(s);
    var r := TrimEnd(t);
    TrimStartSplits(s);
    TrimEndSplits(t);
    forall i | 0 <= i < |r| ensures r[i] in s {
      assert r[i] == t[i];
      assert t[i] == s[|s| - |t| + i];
    }
  }

  /** A word followed by the rest: the word is copied, the rest collapsed. */
  lemma {:induction false} CollapseWord(s: string, n: nat)
    requires n <= |s| && forall i :: 0 <= i < n ==> !IsSpace(s[i])
    ensures CollapseSpaces(s) == s[..n] + CollapseSpaces(s[n..])
  {
    if n > 0 {
      assert s[1..][n - 1..] == s[n..];
      CollapseWord(s[1..], n - 1);
    }
  }

  /**
   * The shape of a collapsed string: at most one space in front (exactly
   * when `s` starts with whitespace), the words of `s` joined by single
   * spaces, and whitespace after.
   */
  lemma {:induction false} CollapseShape(s: string) returns (trail: string)
    ensures IsBlank(trail)
    ensures CollapseSpaces(s) == Lead(s) + JoinWith(Words(s), " ") + trail
    decreases |s|
  {
    if s == [] {
      trail := [];
    } else if IsSpace(s[0]) {
      var t := TrimStart(s);
      trail := CollapseShape(t);
      CollapseShapeSpace(s, t, trail);
    } else {
      var n := WordLength(s);
      var rest := s[n..];
      var tr := CollapseShape(rest);
      trail := CollapseShapeWord(s, n, tr);
    }
  }

  function Lead(s: string): string {
    if s != [] && IsSpace(s[0]) then " " else ""
  }

  lemma CollapseShapeSpace(s: string, t: string, trail: string)
    requires s != [] && IsSpace(s[0]) && t == TrimStart(s)
    requires CollapseSpaces(t) == Lead(t) + JoinWith(Words(t), " ") + trail
    ensures CollapseSpaces(s) == Lead(s) + JoinWith(Words(s), " ") + trail
  {
    assert CollapseSpaces(s) == [' '] + CollapseSpaces(t);
    assert TrimStart(t) == t;
    assert Words(s) == Words(t);
    assert Lead(t) == "" && Lead(s) == " ";
    GlueSpace(CollapseSpaces(s), CollapseSpaces(t), JoinWith(Words(t), " "), trail);
  }

  lemma GlueSpace(cs: string, ct: string, j: string, tr: string)
    requires cs == [' '] + ct && ct == "" + j + tr
    ensures cs == " " + j + tr
  {
  }

  lemma CollapseShapeWord(s: string, n: nat, tr: string) returns (trail: string)
    requires s != [] && !IsSpace(s[0]) && n == WordLength(s)
    requires IsBlank(tr)
    requires CollapseSpaces(s[n..]) == Lead(s[n..]) + JoinWith(Words(s[n..]), " ") + tr
    ensures IsBlank(trail)
    ensures CollapseSpaces(s) == Lead(s) + JoinWith(Words(s), " ") + trail
  {
    var rest := s[n..];
    var w := s[..n];
    CollapseWord(s, n);
    WordsAfterWord(s, n);
    var ws := Words(rest);
    JoinCons(w, ws);
    assert Lead(s) == "";
    var j := JoinWith(ws, " ");
    if ws == [] {
      trail := Lead(rest) + tr;
      GlueLastWord(CollapseSpaces(s), w, Lead(rest), j, tr);
    } else {
      trail := tr;
      assert Lead(rest) == " ";
      GlueWord(CollapseSpaces(s), w, j, tr);
    }
  }

  lemma GlueLastWord(cs: string, w: string, lead: string, j: string, tr: string)
    requires cs == w + (lead + j + tr) && j == []
    ensures cs == "" + w + (lead + tr)
  {
  }

  lemma GlueWord(cs: string, w: string, j: string, tr: string)
    requires cs == w + (" " + j + tr)
    ensures cs == "" + (w + " " + j) + tr
  {
  }

  lemma WordsAfterWord(s: string, n: nat)
    requires s != [] && !IsSpace(s[0]) && n == WordLength(s)
    ensures Words(s) == [s[..n]] + Words(s[n..])
  {
    assert TrimStart(s) == s;
  }

  lemma JoinCons(w: string, ws: seq<string>)
    ensures JoinWith([w] + ws, " ") == if ws == [] then w else w + " " + JoinWith(ws, " ")
  {
    if ws != [] {
      assert ([w] + ws)[1..] == ws;
    }
  }

  /** Words joined by single spaces have no whitespace at either end. */
  lemma {:induction false} JoinWordsNoOuterSpace(ws: seq<string>)
    requires forall k :: 0 <= k < |ws| ==> ws[k] != [] && forall i :: 0 <= i < |ws[k]| ==> !IsSpace(ws[k][i])
    ensures var j := JoinWith(ws, " "); j == [] || (!IsSpace(j[0]) && !IsSpace(j[|j| - 1]))
    ensures ws != [] ==> JoinWith(ws, " ") != []
  {
    if |ws| > 1 {
      JoinWordsNoOuterSpace(ws[1..]);
      var j := JoinWith(ws, " ");
      assert j == ws[0] + " " + JoinWith(ws[1..], " ");
      assert j[0] == ws[0][0];
    }
  }

  /**
   * Collapsing then stripping is `" ".join(s.split())`: the words of `s`,
   * in order, separated by single spaces.
   */
  lemma CollapseStripIsJoinedWords(s: string)
    ensures Strip(CollapseSpaces(s)) == JoinWith(Words(s), " ")
  {
    var trail := CollapseShape(s);
    var j := JoinWith(Words(s), " ");
    JoinWordsNoOuterSpace(Words(s));
    StripPadded(Lead(s), j, trail);
  }

  /** Words joined by single spaces never hold two whitespace characters in a row. */
  lemma {:induction false} JoinWordsSingleSpaced(ws: seq<string>)
    requires forall k :: 0 <= k < |ws| ==> ws[k] != [] && forall i :: 0 <= i < |ws[k]| ==> !IsSpace(ws[k][i])
    ensures var j := JoinWith(ws, " "); forall i :: 0 <= i < |j| - 1 ==> !(IsSpace(j[i]) && IsSpace(j[i + 1]))
  {
    if |ws| > 1 {
      JoinWordsSingleSpaced(ws[1..]);
      JoinWordsNoOuterSpace(ws[1..]);
      var tail := JoinWith(ws[1..], " ");
      var j := JoinWith(ws, " ");
      assert j == ws[0] + " " + tail;
      forall i | 0 <= i < |j| - 1 ensures !(IsSpace(j[i]) && IsSpace(j[i + 1])) {
        if i < |ws[0]| {
          assert !IsSpace(j[i]);
        } else if i == |ws[0]| {
          assert j[i + 1] == tail[0];
        } else {
          assert j[i] == tail[i - |ws[0]| - 1] && j[i + 1] == tail[i - |ws[0]|];
        }
      }
    }
  }

  /**
   * On an ASCII page the result is single-spaced and stripped: the words of
   * the page (after the two deletions) joined by single spaces.
   */
  lemma CleanOcrTextOnAscii(s: string)
    requires Ascii(s)
    ensures var m := RemoveMarkers(RemoveOcrBlocks(s)); CleanOcrText(s) == JoinWith(Words(m), " ")
    ensures var r := CleanOcrText(s); r == [] || (r[0] != ' ' && r[|r| - 1] != ' ')
    ensures var r := CleanOcrText(s); forall i :: 0 <= i < |r| - 1 ==> !(r[i] == ' ' && r[i + 1] == ' ')
  {
    CleanIsJoinedWords(s);
    JoinedWordsTidy(Words(RemoveMarkers(RemoveOcrBlocks(s))));
  }

  lemma CleanIsJoinedWords(s: string)
    requires Ascii(s)
    ensures CleanOcrText(s) == JoinWith(Words(RemoveMarkers(RemoveOcrBlocks(s))), " ")
  {
    AsciiSurvivesCleaning(s);
    CleanOcrTextSteps(s);
    CollapseStripIsJoinedWords(RemoveMarkers(RemoveOcrBlocks(s)));
  }

  /** Words joined by single spaces: no space at either end, no two spaces in a row. */
  lemma JoinedWordsTidy(ws: seq<string>)
    requires forall k :: 0 <= k < |ws| ==> ws[k] != [] && forall i :: 0 <= i < |ws[k]| ==> !IsSpace(ws[k][i])
    ensures var j := JoinWith(ws, " "); j == [] || (j[0] != ' ' && j[|j| - 1] != ' ')
    ensures var j := JoinWith(ws, " "); forall i :: 0 <= i < |j| - 1 ==> !(j[i] == ' ' && j[i + 1] == ' ')
  {
    JoinWordsNoOuterSpace(ws);
    JoinWordsSingleSpaced(ws);
  }

  lemma CleanOcrTextSteps(s: string)
    ensures CleanOcrText(s) == DeleteNonAscii(Strip(CollapseSpaces(RemoveMarkers(RemoveOcrBlocks(s)))))
  {
  }

  predicate Ascii(s: string) {
    forall i :: 0 <= i < |s| ==> s[i] as int < 0x80
  }

  lemma AsciiKept(s: string, r: string)
    requires Ascii(s) && forall i :: 0 <= i < |r| ==> r[i] in s
    ensures Ascii(r)
  {
  }

  lemma AsciiCollapsed(s: string)
    requires Ascii(s)
    ensures Ascii(CollapseSpaces(s))
  {
  }

  lemma AsciiStripped(s: string)
    requires Ascii(s)
    ensures Ascii(Strip(s))
  {
    StripKeepsChars(s);
    AsciiKept(s, Strip(s));
  }

  /** On ASCII input every step keeps the text ASCII, so the final deletion has nothing to do. */
  lemma AsciiSurvivesCleaning(s: string)
    requires Ascii(s)
    ensures var t := Strip(CollapseSpaces(RemoveMarkers(RemoveOcrBlocks(s))));
      DeleteNonAscii(t) == t
  {
    AsciiKept(s, RemoveOcrBlocks(s));
    AsciiKept(RemoveOcrBlocks(s), RemoveMarkers(RemoveOcrBlocks(s)));
    AsciiCollapsed(RemoveMarkers(RemoveOcrBlocks(s)));
    AsciiStripped(CollapseSpaces(RemoveMarkers(RemoveOcrBlocks(s))));
  }

  /** Text without a `<` holds no OCR block and is left alone. */
  lemma {:induction false} RemoveOcrBlocksNoTag(s: string)
    requires '<' !in s
    ensures RemoveOcrBlocks(s) == s
  {
    if s != [] {
      assert !(OcrOpen <= s) by { assert OcrOpen[0] == '<'; }
      RemoveOcrBlocksNoTag(s[1..]);
    }
  }

  /** Text without a `.` holds no truncation marker and is left alone. */
  lemma {:induction false} RemoveMarkersNoDot(s: string)
    requires '.' !in s
    ensures RemoveMarkers(s) == s
  {
    if s != [] {
      assert !(MarkerHead <= s) by { assert MarkerHead[0] == '.'; }
      RemoveMarkersNoDot(s[1..]);
    }
  }

  /** The first occurrence of a pattern starting with `<`, after text without `<`, is right after that text. */
  lemma {:induction false} FindFirstAfterPlain(m: string, pat: string, b: string)
    requires pat != [] && pat[0] == '<' && '<' !in m
    ensures FindFirst(m + pat + b, pat) == Some(|m|)
  {
    var s := m + pat + b;
    if m == [] {
      assert s == pat + b;
    } else {
      assert s[0] == m[0] != pat[0];
      assert s[1..] == m[1..] + pat + b;
      FindFirstAfterPlain(m[1..], pat, b);
    }
  }

  /** How `a + t` and `a + r` come apart at the first character of `a`. */
  lemma ConsSplit<T>(a: seq<T>, t: seq<T>, r: seq<T>)
    ensures a == [] ==> a + t == t && a + r == r
    ensures a != [] ==> (a + t)[0] == a[0] && (a + t)[1..] == a[1..] + t && [a[0]] + (a[1..] + r) == a + r
    ensures a != [] ==> forall x :: x in a[1..] ==> x in a
  {
  }

  /** A first character other than `<` is kept. */
  lemma OcrPlainStep(s: string)
    requires s != [] && s[0] != '<'
    ensures RemoveOcrBlocks(s) == [s[0]] + RemoveOcrBlocks(s[1..])
  {
    assert !(OcrOpen <= s) by { assert OcrOpen[0] == '<'; }
  }

  /** Text without `<` in front of `t` passes the OCR-block deletion unchanged. */
  lemma {:induction false} RemoveOcrBlocksPlainPrefix(a: string, t: string)
    requires '<' !in a
    ensures RemoveOcrBlocks(a + t) == a + RemoveOcrBlocks(t)
  {
    var r := RemoveOcrBlocks(t);
    ConsSplit(a, t, r);
    if a != [] {
      OcrPlainStep(a + t);
      RemoveOcrBlocksPlainPrefix(a[1..], t);
    }
  }

  /**
   * An OCR block is deleted with both its tags: text without `<` before it
   * is kept, and the text after it is cleaned in turn.
   */
  lemma RemoveOcrBlocksDeletesBlock(a: string, m: string, b: string)
    requires '<' !in a && '<' !in m
    ensures RemoveOcrBlocks(a + OcrOpen + m + OcrClose + b) == a + RemoveOcrBlocks(b)
  {
    var x := m + OcrClose + b;
    var t := OcrOpen + x;
    assert a + OcrOpen + m + OcrClose + b == a + t;
    RemoveOcrBlocksPlainPrefix(a, t);
    FindFirstAfterPlain(m, OcrClose, b);
    assert t[|OcrOpen|..] == x;
    assert x[|m| + |OcrClose|..] == b;
  }

  /** The digit run of a digit string followed by a non-digit is that string. */
  lemma {:induction false} DigitRunOfDigits(d: string, t: string)
    requires forall i :: 0 <= i < |d| ==> IsAsciiDigit(d[i])
    requires t != [] && !IsAsciiDigit(t[0])
    ensures DigitRun(d + t) == |d|
  {
    if d != [] {
      assert (d + t)[0] == d[0];
      assert (d + t)[1..] == d[1..] + t;
      DigitRunOfDigits(d[1..], t);
    }
  }

  /** A first character other than `.` is kept. */
  lemma MarkerPlainStep(s: string)
    requires s != [] && s[0] != '.'
    ensures RemoveMarkers(s) == [s[0]] + RemoveMarkers(s[1..])
  {
    assert !(MarkerHead <= s) by { assert MarkerHead[0] == '.'; }
  }

  /** Text without `.` in front of `t` passes the marker deletion unchanged. */
  lemma {:induction false} RemoveMarkersPlainPrefix(a: string, t: string)
    requires '.' !in a
    ensures RemoveMarkers(a + t) == a + RemoveMarkers(t)
  {
    var r := RemoveMarkers(t);
    ConsSplit(a, t, r);
    if a != [] {
      MarkerPlainStep(a + t);
      RemoveMarkersPlainPrefix(a[1..], t);
    }
  }

  /**
   * A `...(truncated N characters)...` marker is deleted whole: text
   * without `.` before it is kept, and the text after it is cleaned in turn.
   */
  lemma RemoveMarkersDeletesMarker(a: string, n: nat, b: string)
    requires '.' !in a
    ensures RemoveMarkers(a + MarkerHead + NatToString(n) + MarkerTail + b) == a + RemoveMarkers(b)
  {
    var digits := NatToString(n);
    var t := MarkerHead + (digits + (MarkerTail + b));
    assert a + MarkerHead + digits + MarkerTail + b == a + t;
    RemoveMarkersPlainPrefix(a, t);
    MarkerAtFront(digits, b);
  }

  /** A marker with digits `d` at the front of a text is found whole, and the rest is cleaned in turn. */
  lemma MarkerAtFront(d: string, b: string)
    requires d != [] && forall i :: 0 <= i < |d| ==> IsAsciiDigit(d[i])
    ensures RemoveMarkers(MarkerHead + (d + (MarkerTail + b))) == RemoveMarkers(b)
  {
    var y := MarkerTail + b;
    assert MarkerTail <= y && y[|MarkerTail|..] == b;
    assert y[0] == ' ' by { assert MarkerTail[0] == ' '; }
    MarkerThenTail(d, y);
  }

  /** A marker whose digits `d` are followed by the closing text in `y` is skipped whole. */
  lemma MarkerThenTail(d: string, y: string)
    requires d != [] && forall i :: 0 <= i < |d| ==> IsAsciiDigit(d[i])
    requires y != [] && !IsAsciiDigit(y[0]) && MarkerTail <= y
    ensures RemoveMarkers(MarkerHead + (d + y)) == RemoveMarkers(y[|MarkerTail|..])
  {
    var t := MarkerHead + (d + y);
    Pieces(MarkerHead, d, y);
    DigitRunOfDigits(d, y);
    MarkerStep(t, |d|);
  }

  /** Where the pieces of `h + (d + y)` start. */
  lemma Pieces(h: string, d: string, y: string)
    ensures var t := h + (d + y);
      h <= t && t[|h|..] == d + y && t[|h| + |d|..] == y
  {
  }

  /** A marker found at the front is skipped whole. */
  lemma MarkerStep(t: string, d: nat)
    requires MarkerHead <= t && 0 < d == DigitRun(t[|MarkerHead|..]) && MarkerTail <= t[|MarkerHead| + d..]
    ensures RemoveMarkers(t) == RemoveMarkers(t[|MarkerHead| + d + |MarkerTail|..])
  {
    assert MarkerLength(t) == Some(|MarkerHead| + d + |MarkerTail|);
  }

  /** Whitespace only as single spaces, never two in a row. */
  predicate SingleSpaced(s: string) {
    forall i :: 0 <= i < |s| && IsSpace(s[i]) ==> s[i] == ' ' && (i + 1 < |s| ==> !IsSpace(s[i + 1]))
  }

  /** Nothing for the first four cleaning steps to do: no tag, no marker, single spaces, nothing to strip. */
  predicate Tidy(s: string) {
    '<' !in s && '.' !in s && SingleSpaced(s) && (s == [] || (!IsSpace(s[0]) && !IsSpace(s[|s| - 1])))
  }

  /** Text whose whitespace is already single spaces is left alone by the collapse. */
  lemma {:induction false} CollapseSingleSpaced(s: string)
    requires SingleSpaced(s)
    ensures CollapseSpaces(s) == s
  {
    if s != [] {
      if IsSpace(s[0]) {
        assert TrimStart(s) == s[1..] by {
          assert s[1..] == [] || !IsSpace(s[1..][0]);
        }
      }
      CollapseSingleSpaced(s[1..]);
    }
  }

  /** On text with no tag, no marker and no whitespace to fix, only the non-ASCII deletion acts. */
  lemma CleanOcrTextOfTidyText(s: string)
    requires Tidy(s)
    ensures CleanOcrText(s) == DeleteNonAscii(s)
  {
    TidyTextIsFixed(s);
    CleanOcrTextFixpoint(s);
  }

  /** Tidy text is left alone by each of the first four steps. */
  lemma TidyTextIsFixed(s: string)
    requires Tidy(s)
    ensures RemoveOcrBlocks(s) == s && RemoveMarkers(s) == s && CollapseSpaces(s) == s && Strip(s) == s
  {
    RemoveOcrBlocksNoTag(s);
    RemoveMarkersNoDot(s);
    CollapseSingleSpaced(s);
    StripNoOuterSpace(s);
  }

  /** Text that each of the first four steps leaves alone comes out with only its non-ASCII characters deleted. */
  lemma CleanOcrTextFixpoint(s: string)
    requires RemoveOcrBlocks(s) == s && RemoveMarkers(s) == s && CollapseSpaces(s) == s && Strip(s) == s
    ensures CleanOcrText(s) == DeleteNonAscii(s)
  {
  }


  lemma {:induction false} DeleteNonAsciiConcat(a: string, b: string)
    ensures DeleteNonAscii(a + b) == DeleteNonAscii(a) + DeleteNonAscii(b)
  {
    if a == [] {
      assert a + b == b;
    } else {
      assert (a + b)[1..] == a[1..] + b;
      DeleteNonAsciiConcat(a[1..], b);
    }
  }

  /** A word fit to pass through the cleaning untouched: ASCII, no whitespace, no tag or marker character. */
  predicate PlainWord(w: string) {
    w != [] && forall i :: 0 <= i < |w| ==> w[i] as int < 0x80 && !IsSpace(w[i]) && w[i] != '<' && w[i] != '.'
  }

  /**
   * Deleting non-ASCII characters after the collapse can leave a double
   * space: a lone non-ASCII letter between two words disappears, and the
   * spaces on either side of it both stay.
   */
  lemma CleanOcrTextCanDoubleSpace(u: string, c: char, v: string)
    requires PlainWord(u) && PlainWord(v)
    requires c as int >= 0x80 && !IsSpace(c)
    ensures CleanOcrText(u + " " + [c] + " " + v) == u + "  " + v
  {
    SpacedLetterIsTidy(u, c, v);
    CleanOcrTextOfTidyText(u + " " + [c] + " " + v);
    DeleteSpacedLetter(u, c, v);
  }

  lemma SpacedLetterIsTidy(u: string, c: char, v: string)
    requires PlainWord(u) && PlainWord(v)
    requires c as int >= 0x80 && !IsSpace(c)
    ensures Tidy(u + " " + [c] + " " + v)
  {
    var s := u + " " + [c] + " " + v;
    var k := |u|;
    assert |s| == k + 3 + |v|;
    forall i | 0 <= i < |s|
      ensures (i < k ==> s[i] == u[i]) && (i == k ==> s[i] == ' ') && (i == k + 1 ==> s[i] == c)
      ensures (i == k + 2 ==> s[i] == ' ') && (i >= k + 3 ==> s[i] == v[i - k - 3])
    {
    }
    forall i | 0 <= i < |s| ensures s[i] != '<' && s[i] != '.' {
    }
    assert s[k + 3] == v[0];
  }

  lemma DeleteSpacedLetter(u: string, c: char, v: string)
    requires PlainWord(u) && PlainWord(v)
    requires c as int >= 0x80
    ensures DeleteNonAscii(u + " " + [c] + " " + v) == u + "  " + v
  {
    var left, mid, right := u + " ", [c], " " + v;
    assert u + " " + [c] + " " + v == left + mid + right;
    DeleteNonAsciiConcat(left, mid);
    DeleteNonAsciiConcat(left + mid, right);
    assert DeleteNonAscii(mid) == [] by {
      assert mid[1..] == [];
    }
    DeletePlain(u);
    DeletePlain(v);
    DeleteNonAsciiConcat(u, " ");
    DeleteNonAsciiConcat(" ", v);
    GlueSpaces(u, v);
  }

  lemma DeletePlain(w: string)
    requires PlainWord(w)
    ensures DeleteNonAscii(w) == w
  {
  }

  lemma GlueSpaces(u: string, v: string)
    ensures (u + " ") + [] + (" " + v) == u + "  " + v
  {
    assert "  " == " " + " ";
  }

  // ===================================================== heading patterns

  /** The three shapes of pattern in the heading table. */
  datatype Pattern =
    | Literal(text: string)   // \bTEXT\b
    | PartNumeral             // \bPART\s+(I|II|III|IV|V)\b
    | ChapterNumber           // \bCHAPTER\s+\d+\.?\s*

  /** The heading table, in the order it is tried. */
  const SectionTitles: seq<Pattern> := [
    Literal("PROLOGUE"),
    PartNumeral,
    ChapterNumber,
    Literal("EPILOGUE"),
    Literal("Acknowledgments"),
    Literal("Notes"),
    Literal("Index"),
    Literal("ABOUT THE AUTHOR")
  ]

  /** The alternatives of `(I|II|III|IV|V)`, in the order they are tried. */
  const Numerals: seq<string> := ["I", "II", "III", "IV", "V"]

  /** `\b` at position `j`: a word character on exactly one side. */
  predicate BoundaryAt(s: string, j: nat)
    requires j <= |s|
  {
    (0 < j && IsWordChar(s[j - 1])) != (j < |s| && IsWordChar(s[j]))
  }

  /** The length of the maximal run of whitespace at the front of `s` (what `\s+` or `\s*` consumes). */
  function SpaceRun(s: string): (n: nat)
    ensures n <= |s| && (n == |s| || !IsSpace(s[n]))
  {
    if s != [] && IsSpace(s[0]) then 1 + SpaceRun(s[1..]) else 0
  }

  /** The length of the first numeral alternative, from the `k`-th on, that matches at `j` and is followed by `\b`. */
  function NumeralAt(s: string, j: nat, k: nat): (r: Option<nat>)
    requires j <= |s|
    ensures r.Some? ==> 0 < r.value && j + r.value <= |s|
    decreases |Numerals| - k
  {
    if k >= |Numerals| then None
    else if Numerals[k] <= s[j..] && BoundaryAt(s, j + |Numerals[k]|) then Some(|Numerals[k]|)
    else NumeralAt(s, j, k + 1)
  }

  /**
   * The length of the match of `p` starting at `j`, if there is one. The
   * greedy runs never need to give characters back: what follows each of
   * them cannot start with the character they stop at.
   */
  function MatchAt(p: Pattern, s: string, j: nat): (r: Option<nat>)
    requires j <= |s|
    ensures r.Some? ==> 0 < r.value && j + r.value <= |s|
  {
    match p
    case Literal(t) =>
      if t != [] && BoundaryAt(s, j) && t <= s[j..] && BoundaryAt(s, j + |t|) then Some(|t|) else None
    case PartNumeral =>
      if BoundaryAt(s, j) && "PART" <= s[j..] then
        var sp := SpaceRun(s[j + 4..]);
        if sp == 0 then None
        else match NumeralAt(s, j + 4 + sp, 0)
          case Some(n) => Some(4 + sp + n)
          case None => None
      else None
    case ChapterNumber =>
      if BoundaryAt(s, j) && "CHAPTER" <= s[j..] then
        var sp := SpaceRun(s[j + 7..]);
        var d := DigitRun(s[j + 7 + sp..]);
        if sp == 0 || d == 0 then None
        else
          var m := j + 7 + sp + d;
          var dot := if m < |s| && s[m] == '.' then 1 else 0;
          Some(7 + sp + d + dot + SpaceRun(s[m + dot..]))
      else None
  }

  /** `re.search(p, s).group(0)` scanning from position `j`: the leftmost match. */
  function SearchFrom(p: Pattern, s: string, j: nat): (r: Option<string>)
    requires j <= |s|
    ensures r.Some? ==> r.value != []
    decreases |s| - j
  {
    match MatchAt(p, s, j)
    case Some(n) => Some(s[j..j + n])
    case None => if j == |s| then None else SearchFrom(p, s, j + 1)
  }

  /** Where the pattern matches, the search stops with that match. */
  lemma SearchFromFound(p: Pattern, s: string, j: nat, n: nat)
    requires j <= |s| && MatchAt(p, s, j) == Some(n)
    ensures SearchFrom(p, s, j) == Some(s[j..j + n])
  { }

  /** Where the pattern does not match, the search moves on to the next position. */
  lemma SearchFromStep(p: Pattern, s: string, j: nat)
    requires j < |s| && MatchAt(p, s, j).None?
    ensures SearchFrom(p, s, j) == SearchFrom(p, s, j + 1)
  { }

  /** `re.search` finds nothing exactly when the pattern matches at no position from `j` on. */
  lemma {:induction false} SearchFromNone(p: Pattern, s: string, j: nat)
    requires j <= |s|
    ensures SearchFrom(p, s, j).None? <==> forall i :: j <= i <= |s| ==> MatchAt(p, s, i).None?
    decreases |s| - j
  {
    if MatchAt(p, s, j).Some? {
      SearchFromFound(p, s, j, MatchAt(p, s, j).value);
    } else if j < |s| {
      SearchFromStep(p, s, j);
      SearchFromNone(p, s, j + 1);
      if SearchFrom(p, s, j).None? {
        forall i | j <= i <= |s| ensures MatchAt(p, s, i).None? {
          if i > j { assert j + 1 <= i <= |s|; }
        }
      }
    } else {
      forall i | j <= i <= |s| ensures MatchAt(p, s, i).None? {
        assert i == j;
      }
    }
  }

  /** The search passes over positions where the pattern does not match. */
  lemma {:induction false} SearchFromSkipsMisses(p: Pattern, s: string, j: nat, k: nat)
    requires j <= k <= |s| && forall i :: j <= i < k ==> MatchAt(p, s, i).None?
    ensures SearchFrom(p, s, j) == SearchFrom(p, s, k)
    decreases k - j
  {
    if j < k {
      SearchFromStep(p, s, j);
      SearchFromSkipsMisses(p, s, j + 1, k);
    }
  }

  /** The first position `k` from `j` on where the pattern matches, and the search from `j` gives what the search from `k` does. */
  lemma {:induction false} SearchFromReaches(p: Pattern, s: string, j: nat) returns (k: nat)
    requires j <= |s| && SearchFrom(p, s, j).Some?
    ensures j <= k <= |s| && MatchAt(p, s, k).Some?
    ensures SearchFrom(p, s, j) == SearchFrom(p, s, k)
    ensures forall i :: j <= i < k ==> MatchAt(p, s, i).None?
    decreases |s| - j
  {
    if MatchAt(p, s, j).Some? {
      k := j;
    } else {
      assert j < |s|;
      SearchFromStep(p, s, j);
      k := SearchFromReaches(p, s, j + 1);
      NoMatchBefore(p, s, j, k);
    }
  }

  /** A miss at `j` followed by misses up to `k` is a stretch of misses from `j`. */
  lemma NoMatchBefore(p: Pattern, s: string, j: nat, k: nat)
    requires j < k <= |s| && MatchAt(p, s, j).None?
    requires forall i :: j + 1 <= i < k ==> MatchAt(p, s, i).None?
    ensures forall i :: j <= i < k ==> MatchAt(p, s, i).None?
  {
    forall i | j <= i < k ensures MatchAt(p, s, i).None? {
      if i > j { assert j + 1 <= i < k; }
    }
  }

  /** Otherwise it finds the match at the first position `k` from `j` on where the pattern matches. */
  lemma SearchFromFirst(p: Pattern, s: string, j: nat) returns (k: nat, n: nat)
    requires j <= |s| && SearchFrom(p, s, j).Some?
    ensures j <= k && k + n <= |s| && MatchAt(p, s, k) == Some(n)
    ensures SearchFrom(p, s, j) == Some(s[k..k + n])
    ensures forall i :: j <= i < k ==> MatchAt(p, s, i).None?
  {
    k := SearchFromReaches(p, s, j);
    n := MatchAt(p, s, k).value;
    SearchFromFound(p, s, k, n);
  }

  function Search(p: Pattern, s: string): Option<string> {
    SearchFrom(p, s, 0)
  }

  /** The character every match of `p` starts with (an empty literal never matches). */
  function Initial(p: Pattern): char {
    match p
    case Literal(t) => if t == [] then ' ' else t[0]
    case PartNumeral => 'P'
    case ChapterNumber => 'C'
  }

  /** Every match starts at a word boundary, on the pattern's initial character. */
  lemma MatchStartsWithInitial(p: Pattern, s: string, i: nat)
    requires i <= |s|
    ensures MatchAt(p, s, i).Some? ==> i < |s| && s[i] == Initial(p) && BoundaryAt(s, i)
  {
    if MatchAt(p, s, i).Some? && !p.Literal? {
      assert s[i] == s[i..][0];
    }
  }

  /** The search passes over a stretch that holds no initial character of `p`. */
  lemma {:induction false} SearchFromSkips(p: Pattern, s: string, j: nat, k: nat)
    requires j <= k <= |s| && Initial(p) !in s[j..k]
    ensures SearchFrom(p, s, j) == SearchFrom(p, s, k)
    decreases k - j
  {
    if j < k {
      assert s[j] in s[j..k];
      MatchStartsWithInitial(p, s, j);
      assert s[j + 1..k] == s[j..k][1..];
      SearchFromSkips(p, s, j + 1, k);
    }
  }

  /** The search passes over a position inside a word. */
  lemma SearchFromSkipsInner(p: Pattern, s: string, j: nat)
    requires j < |s| && !BoundaryAt(s, j)
    ensures SearchFrom(p, s, j) == SearchFrom(p, s, j + 1)
  {
    MatchStartsWithInitial(p, s, j);
  }

  /** No match starts at the end of the text. */
  lemma SearchFromEnd(p: Pattern, s: string)
    ensures SearchFrom(p, s, |s|).None?
  {
    MatchStartsWithInitial(p, s, |s|);
  }

  /** What a heading page matched: the index of the pattern and the matched text. */
  datatype Heading = Heading(pattern: nat, text: string)

  /** The inner `for title_pattern in section_titles` loop: the first pattern of `titles`, from the `k`-th on, that matches. */
  function FirstMatchFrom(titles: seq<Pattern>, s: string, k: nat): (r: Option<Heading>)
    ensures r.Some? ==> k <= r.value.pattern < |titles| && r.value.text != []
    decreases |titles| - k
  {
    if k >= |titles| then None
    else match Search(titles[k], s)
      case Some(m) => Some(Heading(k, m))
      case None => FirstMatchFrom(titles, s, k + 1)
  }

  /** The heading a page opens, found by matching its upper-cased text. */
  function HeadingOf(page: string): (r: Option<Heading>)
    ensures r.Some? ==> r.value.pattern in {0, 1, 2, 3, 7} && r.value.text != []
  {
    var u := Upper(page);
    var r := FirstMatchFrom(SectionTitles, u, 0);
    LowerLiteralNeverMatches("Acknowledgments", u, 0);
    LowerLiteralNeverMatches("Notes", u, 0);
    LowerLiteralNeverMatches("Index", u, 0);
    if r.Some? then
      FirstMatchFromFound(SectionTitles, u, 0, r.value.pattern, r.value.text);
      r
    else r
  }

  /** The title a heading page gives its section: the matched text, title-cased. */
  function HeadingTitle(page: string): (t: string)
    requires HeadingOf(page).Some?
    ensures t != []
  {
    Title(HeadingOf(page).value.text)
  }

  /** A page that starts a new section. */
  predicate IsHeadingPage(page: string) {
    !IsBlank(page) && HeadingOf(page).Some?
  }

  /** First match wins: pattern `k` is chosen exactly when it matches and no earlier pattern does. */
  lemma {:induction false} FirstMatchFromIsFirst(titles: seq<Pattern>, s: string, i: nat, k: nat, m: string)
    ensures FirstMatchFrom(titles, s, i) == Some(Heading(k, m)) <==>
      i <= k < |titles| && Search(titles[k], s) == Some(m) &&
      forall j :: i <= j < k ==> Search(titles[j], s).None?
  {
    if FirstMatchFrom(titles, s, i) == Some(Heading(k, m)) {
      FirstMatchFromFound(titles, s, i, k, m);
    }
    if i <= k < |titles| && Search(titles[k], s) == Some(m) && forall j :: i <= j < k ==> Search(titles[j], s).None? {
      FirstMatchFromPicks(titles, s, i, k, m);
    }
  }

  lemma {:induction false} FirstMatchFromFound(titles: seq<Pattern>, s: string, i: nat, k: nat, m: string)
    requires FirstMatchFrom(titles, s, i) == Some(Heading(k, m))
    ensures i <= k < |titles| && Search(titles[k], s) == Some(m)
    ensures forall j :: i <= j < k ==> Search(titles[j], s).None?
    decreases |titles| - i
  {
    if Search(titles[i], s).None? {
      FirstMatchFromFound(titles, s, i + 1, k, m);
    }
  }

  lemma {:induction false} FirstMatchFromPicks(titles: seq<Pattern>, s: string, i: nat, k: nat, m: string)
    requires i <= k < |titles| && Search(titles[k], s) == Some(m)
    requires forall j :: i <= j < k ==> Search(titles[j], s).None?
    ensures FirstMatchFrom(titles, s, i) == Some(Heading(k, m))
    decreases k - i
  {
    if i < k {
      assert Search(titles[i], s).None?;
      FirstMatchFromPicks(titles, s, i + 1, k, m);
    }
  }

  lemma FirstMatchIsFirstPattern(page: string, k: nat, m: string)
    ensures HeadingOf(page) == Some(Heading(k, m)) <==>
      k < |SectionTitles| && Search(SectionTitles[k], Upper(page)) == Some(m) &&
      forall j :: 0 <= j < k ==> Search(SectionTitles[j], Upper(page)).None?
  {
    FirstMatchFromIsFirst(SectionTitles, Upper(page), 0, k, m);
  }

  /** A literal with a lower-case letter never matches upper-cased text. */
  lemma {:induction false} LowerLiteralNeverMatches(t: string, s: string, j: nat)
    requires |t| > 1 && IsAsciiLower(t[1])
    requires forall i :: 0 <= i < |s| ==> !IsAsciiLower(s[i])
    requires j <= |s|
    ensures SearchFrom(Literal(t), s, j).None?
    decreases |s| - j
  {
    if j < |s| { LowerLiteralNeverMatches(t, s, j + 1); }
  }

  /**
   * Because matching runs on `page.upper()`, the mixed-case patterns
   * `Acknowledgments`, `Notes` and `Index` never match: only PROLOGUE, PART,
   * CHAPTER, EPILOGUE and ABOUT THE AUTHOR open sections.
   */
  lemma MixedCasePatternsNeverMatch(page: string)
    ensures forall k :: 4 <= k <= 6 ==> Search(SectionTitles[k], Upper(page)).None?
    ensures HeadingOf(page).Some? ==> HeadingOf(page).value.pattern in {0, 1, 2, 3, 7}
  {
    var u := Upper(page);
    LowerLiteralNeverMatches("Acknowledgments", u, 0);
    LowerLiteralNeverMatches("Notes", u, 0);
    LowerLiteralNeverMatches("Index", u, 0);
    if HeadingOf(page).Some? {
      var h := HeadingOf(page).value;
      FirstMatchIsFirstPattern(page, h.pattern, h.text);
    }
  }

  /** A chapter page is a heading page titled by its chapter number, with the space after the dot. */
  /** The page opens with "CHAPTER 1. " followed by a character that is not whitespace. */
  predicate OpensChapterOne(s: string) {
    11 < |s| && s[..11] == "CHAPTER 1. " && !IsSpace(s[11])
  }

  /** `CHAPTER\s+\d+\.?\s*` matches the opening "CHAPTER 1. " of such a page. */
  lemma ChapterAtFront(s: string)
    requires OpensChapterOne(s)
    ensures Search(SectionTitles[2], s) == Some("CHAPTER 1. ")
  {
    assert SectionTitles[2] == ChapterNumber;
    assert "CHAPTER" <= s && s[7] == ' ' && s[8] == '1' && s[9] == '.' && s[10] == ' ' by {
      assert s[..7] == s[..11][..7];
      assert forall i :: 7 <= i < 11 ==> s[i] == s[..11][i];
    }
    assert SpaceRun(s[8..]) == 0 by { assert s[8..][0] == s[8]; }
    assert SpaceRun(s[7..]) == 1 by { assert s[7..][0] == ' ' && s[7..][1..] == s[8..]; }
    assert DigitRun(s[9..]) == 0 by { assert s[9..][0] == '.'; }
    assert DigitRun(s[8..]) == 1 by { assert s[8..][0] == s[8] && s[8..][1..] == s[9..]; }
    assert SpaceRun(s[11..]) == 0 by { assert s[11..][0] == s[11]; }
    assert SpaceRun(s[10..]) == 1 by { assert s[10..][0] == ' ' && s[10..][1..] == s[11..]; }
    assert BoundaryAt(s, 0) by { assert s[0] == 'C'; }
    assert MatchAt(ChapterNumber, s, 0) == Some(11);
    assert s[0..11] == "CHAPTER 1. ";
  }

  /** On such a page the `P` inside the word CHAPTER starts no match of a pattern beginning with `P`. */
  lemma SearchPastChapter(p: Pattern, u: string, k: nat)
    requires Initial(p) == 'P' && OpensChapterOne(u) && 3 < k <= |u| && 'P' !in u[4..k]
    ensures SearchFrom(p, u, 0) == SearchFrom(p, u, k)
  {
    assert u[0..3] == u[..11][0..3] == "CHA";
    SearchFromSkips(p, u, 0, 3);
    assert u[2] == u[..11][2] && u[3] == u[..11][3];
    SearchFromSkipsInner(p, u, 3);
    SearchFromSkips(p, u, 4, k);
  }

  /** A literal matches where it occurs between two word boundaries. */
  lemma LiteralAt(t: string, s: string, j: nat)
    requires t != [] && j + |t| <= |s| && s[j..j + |t|] == t && BoundaryAt(s, j) && BoundaryAt(s, j + |t|)
    ensures SearchFrom(Literal(t), s, j) == Some(t)
  {
    assert s[j..][..|t|] == t;
    SearchFromFound(Literal(t), s, j, |t|);
  }

  /** On the upper-cased page "CHAPTER 1. THE END" neither PROLOGUE nor PART matches, and CHAPTER does. */
  lemma ChapterPageMatches(u: string)
    requires u == "CHAPTER 1. THE END"
    ensures Search(SectionTitles[0], u).None? && Search(SectionTitles[1], u).None?
    ensures Search(SectionTitles[2], u) == Some("CHAPTER 1. ")
  {
    ChapterOnChapterPage(u);
    SearchPastChapter(SectionTitles[0], u, |u|);
    SearchPastChapter(SectionTitles[1], u, |u|);
    SearchFromEnd(SectionTitles[0], u);
    SearchFromEnd(SectionTitles[1], u);
    ChapterAtFront(u);
  }

  /** That page opens with "CHAPTER 1. " and has no other `P`. */
  lemma ChapterOnChapterPage(u: string)
    requires u == "CHAPTER 1. THE END"
    ensures OpensChapterOne(u) && 'P' !in u[4..]
  { }

  /** `.title()` on a chapter heading keeps the trailing space: "CHAPTER 1. " becomes "Chapter 1. ". */
  lemma ChapterTitleSample(m: string)
    requires m == "CHAPTER 1. "
    ensures Title(m) == "Chapter 1. "
  {
    TitleFromAt(m, false);
    var t := Title(m);
    assert t[0] == 'C';
    assert t[1] == 'h';
    assert t[2] == 'a';
    assert t[3] == 'p';
    assert t[4] == 't';
    assert t[5] == 'e';
    assert t[6] == 'r';
    assert t[7] == ' ';
    assert t[8] == '1';
    assert t[9] == '.';
    assert t[10] == ' ';
  }

  /** The page "CHAPTER 1. The end" opens a chapter; its title keeps the trailing space of the match. */
  lemma ChapterPageHeading()
    ensures HeadingOf("CHAPTER 1. The end") == Some(Heading(2, "CHAPTER 1. "))
    ensures HeadingTitle("CHAPTER 1. The end") == "Chapter 1. "
  {
    var page := "CHAPTER 1. The end";
    var u := Upper(page);
    assert u == "CHAPTER 1. THE END";
    ChapterPageMatches(u);
    FirstMatchIsFirstPattern(page, 2, "CHAPTER 1. ");
    ChapterTitleSample("CHAPTER 1. ");
  }

  /** On the upper-cased page "CHAPTER 1. THE PROLOGUE" both PROLOGUE and CHAPTER match. */
  lemma ProloguePageMatches(u: string)
    requires u == "CHAPTER 1. THE PROLOGUE"
    ensures Search(SectionTitles[0], u) == Some("PROLOGUE")
    ensures Search(SectionTitles[2], u) == Some("CHAPTER 1. ")
  {
    PrologueOnChapterPage(u);
    SearchPastChapter(SectionTitles[0], u, 15);
    LiteralAt("PROLOGUE", u, 15);
    ChapterAtFront(u);
  }

  /** Where CHAPTER and PROLOGUE sit on that page. */
  lemma PrologueOnChapterPage(u: string)
    requires u == "CHAPTER 1. THE PROLOGUE"
    ensures OpensChapterOne(u) && 'P' !in u[4..15]
    ensures u[15..23] == "PROLOGUE" && BoundaryAt(u, 15) && BoundaryAt(u, 23)
  {
    assert u[14] == ' ' && u[15] == 'P' && u[22] == 'E';
  }

  /** `.title()` on the PROLOGUE heading: "PROLOGUE" becomes "Prologue". */
  lemma PrologueTitleSample(m: string)
    requires m == "PROLOGUE"
    ensures Title(m) == "Prologue"
  {
    TitleFromAt(m, false);
    var t := Title(m);
    assert t[0] == 'P';
    assert t[1] == 'r';
    assert t[2] == 'o';
    assert t[3] == 'l';
    assert t[4] == 'o';
    assert t[5] == 'g';
    assert t[6] == 'u';
    assert t[7] == 'e';
  }

  /**
   * Table order beats position on the page: CHAPTER matches at the very start
   * of "CHAPTER 1. The prologue", yet the page opens a prologue, because
   * PROLOGUE comes first in the table and matches further on.
   */
  lemma TableOrderBeatsPosition()
    ensures Search(SectionTitles[2], Upper("CHAPTER 1. The prologue")) == Some("CHAPTER 1. ")
    ensures HeadingOf("CHAPTER 1. The prologue") == Some(Heading(0, "PROLOGUE"))
    ensures HeadingTitle("CHAPTER 1. The prologue") == "Prologue"
  {
    var page := "CHAPTER 1. The prologue";
    var u := Upper(page);
    assert u == "CHAPTER 1. THE PROLOGUE";
    ProloguePageMatches(u);
    FirstMatchIsFirstPattern(page, 0, "PROLOGUE");
    PrologueTitleSample("PROLOGUE");
  }

  /** `.title()` on a part heading: "PART II" becomes "Part Ii". */
  lemma TitleSample()
    ensures Title("PART II") == "Part Ii"
  {
    assert TitleFrom("I", true) == "i";
    assert TitleFrom(" II", true) == " Ii";
    assert TitleFrom("T II", true) == "t Ii";
    assert TitleFrom("RT II", true) == "rt Ii";
    assert TitleFrom("ART II", true) == "art Ii";
  }

  // ===================================================== splitting into sections

  /** The state of the page loop: the closed sections, the open section and the section counter. */
  datatype Acc = Acc(sections: seq<Section>, title: TitleField, content: string, counter: nat)

  const Start := Acc([], Null, "", 0)

  /** The title an open section gets when it is closed: its own, unless that is missing or empty. */
  function FallbackTitle(title: TitleField, counter: nat): TitleField {
    if title.Named? && title.name != [] then title else Named("Section " + NatToString(counter + 1))
  }

  /** Closing the open section, if it holds any content. */
  function Close(a: Acc): Acc {
    if a.content == [] then a
    else Acc(a.sections + [Section(FallbackTitle(a.title, a.counter), a.content)], Null, "", a.counter + 1)
  }

  /** One pass of the page loop. */
  function Step(a: Acc, page: string): Acc {
    if Strip(page) == [] then a
    else match HeadingOf(page)
      case Some(h) => Close(a).(title := Named(Title(h.text)), content := page)
      case None => a.(content := a.content + " " + page)
  }

  /** The page loop over `pages`, in order. */
  function Scan(pages: seq<string>): Acc {
    if pages == [] then Start else Step(Scan(pages[..|pages| - 1]), pages[|pages| - 1])
  }

  /** The final filter: sections whose content strips to nothing are dropped. */
  function KeepNonBlank(sections: seq<Section>): (r: seq<Section>)
    ensures |r| <= |sections|
    ensures forall i :: 0 <= i < |r| ==> Strip(r[i].content) != []
  {
    if sections == [] then []
    else if Strip(sections[0].content) != [] then [sections[0]] + KeepNonBlank(sections[1..])
    else KeepNonBlank(sections[1..])
  }

  /**
   * What `split_into_sections` returns: the reference sections, well formed.
   * The closing filter never drops a section, and the counter-based fallback
   * title is only ever taken by a first section of body pages, as "Section 1".
   */
  function Segment(pages: seq<string>): (r: seq<Section>)
    ensures r == Sectioned(pages)
    ensures forall i :: 0 <= i < |r| ==> r[i].title.Named? && r[i].title.name != [] && !IsBlank(r[i].content)
  {
    ScanIsSectioned(pages);
    KeepNonBlankKeepsAll(Close(Scan(pages)).sections);
    SectionedWellFormed(pages);
    KeepNonBlank(Close(Scan(pages)).sections)
  }

  /** The inner `for title_pattern in section_titles` loop, breaking at the first pattern that matches. */
  method FirstHeading(upper: string) returns (found: Option<Heading>)
    ensures found == FirstMatchFrom(SectionTitles, upper, 0)
  {
    found := None;
    var k := 0;
    while k < |SectionTitles|
      invariant 0 <= k <= |SectionTitles|
      invariant FirstMatchFrom(SectionTitles, upper, 0) == FirstMatchFrom(SectionTitles, upper, k)
    {
      var m := Search(SectionTitles[k], upper);
      if m.Some? {
        return Some(Heading(k, m.value));
      }
      k := k + 1;
    }
  }

  /** `split_into_sections`, loop for loop. */
  method SplitIntoSections(pages: seq<string>) returns (sections: seq<Section>)
    ensures sections == Segment(pages)
  {
    sections := [];
    var title: TitleField := Null;
    var content: string := "";
    var counter: nat := 0;
    for i := 0 to |pages|
      invariant Acc(sections, title, content, counter) == Scan(pages[..i])
    {
      var page := pages[i];
      assert pages[..i + 1][..i] == pages[..i];
      if Strip(page) == [] {
        continue;
      }
      var found := FirstHeading(Upper(page));
      if found.Some? {
        if content != [] {
          counter := counter + 1;
          if !(title.Named? && title.name != []) {
            title := Named("Section " + NatToString(counter));
          }
          sections := sections + [Section(title, content)];
          title, content := Null, "";
        }
        title := Named(Title(found.value.text));
        content := page;
      } else {
        content := content + " " + page;
      }
    }
    assert pages[..|pages|] == pages;
    if content != [] {
      counter := counter + 1;
      if !(title.Named? && title.name != []) {
        title := Named("Section " + NatToString(counter));
      }
      sections := sections + [Section(title, content)];
    }
    sections := KeepNonBlank(sections);
  }

  // ===================================================== what the sections are

  /**
   * The sections as a reader of a book would describe them, page by page:
   * a blank page is ignored, a heading page starts a section titled by its
   * heading, and any other page is appended, after a space, to the last
   * section, or starts "Section 1" when there is none yet.
   */
  function Sectioned(pages: seq<string>): seq<Section> {
    if pages == [] then [] else Extend(Sectioned(pages[..|pages| - 1]), pages[|pages| - 1])
  }

  /** The sections after one more page. */
  function Extend(prior: seq<Section>, p: string): seq<Section> {
    if IsBlank(p) then prior
    else if IsHeadingPage(p) then prior + [Section(Named(HeadingTitle(p)), p)]
    else if prior == [] then [Section(Named("Section 1"), " " + p)]
    else ExtendLast(prior, " " + p)
  }

  /** Appending text to the last section. */
  function ExtendLast(sections: seq<Section>, t: string): seq<Section>
    requires sections != []
  {
    var n := |sections| - 1;
    sections[..n] + [sections[n].(content := sections[n].content + t)]
  }

  /** What the page loop maintains. */
  ghost predicate AccInv(a: Acc) {
    && a.counter == |a.sections|
    && (a.content == [] ==> a.sections == [] && a.title == Null)
    && (a.title == Null ==> a.sections == [])
    && (a.title.Named? ==> a.title.name != [])
    && !a.title.Absent?
    && (a.content != [] ==> !IsBlank(a.content))
    && (forall i :: 0 <= i < |a.sections| ==> !IsBlank(a.sections[i].content))
  }

  lemma BlankAppend(a: string, b: string)
    requires !IsBlank(a) || !IsBlank(b)
    ensures !IsBlank(a + b)
  {
    if !IsBlank(a) {
      var i :| 0 <= i < |a| && !IsSpace(a[i]);
      assert (a + b)[i] == a[i];
    } else {
      var i :| 0 <= i < |b| && !IsSpace(b[i]);
      assert (a + b)[|a| + i] == b[i];
    }
  }

  lemma {:induction false} ScanIsSectioned(pages: seq<string>)
    ensures AccInv(Scan(pages))
    ensures Close(Scan(pages)).sections == Sectioned(pages)
  {
    if pages != [] {
      var init := pages[..|pages| - 1];
      ScanIsSectioned(init);
      StepIsExtend(Scan(init), pages[|pages| - 1]);
    }
  }

  /** One pass of the page loop extends the reference sections by that page. */
  lemma StepIsExtend(a: Acc, p: string)
    requires AccInv(a)
    ensures AccInv(Step(a, p))
    ensures Close(Step(a, p)).sections == Extend(Close(a).sections, p)
  {
    StripEmptyIffBlank(p);
    if IsBlank(p) {
      assert Step(a, p) == a;
    } else if HeadingOf(p).Some? {
      HeadingStep(a, p);
    } else if a.content == [] {
      FirstBodyStep(a, p);
    } else {
      BodyStep(a, p);
    }
  }

  /** A heading page closes the open section and opens its own. */
  lemma HeadingStep(a: Acc, p: string)
    requires AccInv(a)
    requires !IsBlank(p) && HeadingOf(p).Some?
    ensures AccInv(Step(a, p))
    ensures Close(Step(a, p)).sections == Extend(Close(a).sections, p)
  {
    StripEmptyIffBlank(p);
    assert IsHeadingPage(p);
    var c := Close(a);
    assert Step(a, p) == c.(title := Named(HeadingTitle(p)), content := p);
  }

  /** A body page after some content extends the open section. */
  lemma BodyStep(a: Acc, p: string)
    requires AccInv(a) && a.content != []
    requires !IsBlank(p) && HeadingOf(p).None?
    ensures AccInv(Step(a, p))
    ensures Close(Step(a, p)).sections == Extend(Close(a).sections, p)
  {
    StripEmptyIffBlank(p);
    assert !IsHeadingPage(p);
    BlankAppend(a.content + " ", p);
    var b := Step(a, p);
    assert b == a.(content := a.content + " " + p);
    assert a.content + " " + p == a.content + (" " + p);
    var sec := Section(FallbackTitle(a.title, a.counter), a.content);
    assert Close(a).sections == a.sections + [sec];
    assert Close(b).sections == a.sections + [sec.(content := sec.content + " " + p)];
    assert ExtendLast(a.sections + [sec], " " + p) == a.sections + [sec.(content := sec.content + " " + p)] by {
      assert (a.sections + [sec])[..|a.sections|] == a.sections;
    }
  }

  /** A body page before any content opens the leading section. */
  lemma FirstBodyStep(a: Acc, p: string)
    requires AccInv(a) && a.content == []
    requires !IsBlank(p) && HeadingOf(p).None?
    ensures AccInv(Step(a, p))
    ensures Close(Step(a, p)).sections == Extend(Close(a).sections, p)
  {
    StripEmptyIffBlank(p);
    BlankAppend(" ", p);
    assert Close(a).sections == [];
    assert !IsHeadingPage(p);
    assert Extend([], p) == [Section(Named("Section 1"), " " + p)];
    var b := Step(a, p);
    assert b == a.(content := " " + p);
    assert FallbackTitle(b.title, b.counter) == Named("Section 1") by {
      assert NatToString(1) == "1";
    }
  }

  lemma {:induction false} KeepNonBlankKeepsAll(sections: seq<Section>)
    requires forall i :: 0 <= i < |sections| ==> !IsBlank(sections[i].content)
    ensures KeepNonBlank(sections) == sections
  {
    if sections != [] {
      StripEmptyIffBlank(sections[0].content);
      KeepNonBlankKeepsAll(sections[1..]);
    }
  }

  /** Every section has a non-empty title and content that is not blank. */
  lemma {:induction false} SectionedWellFormed(pages: seq<string>)
    ensures forall i :: 0 <= i < |Sectioned(pages)| ==>
      Sectioned(pages)[i].title.Named? && Sectioned(pages)[i].title.name != [] &&
      !IsBlank(Sectioned(pages)[i].content)
  {
    if pages != [] {
      var p := pages[|pages| - 1];
      SectionedWellFormed(pages[..|pages| - 1]);
      var prior := Sectioned(pages[..|pages| - 1]);
      if !IsBlank(p) && !IsHeadingPage(p) {
        BlankAppend(" ", p);
        if prior != [] {
          var n := |prior| - 1;
          BlankAppend(prior[n].content + " ", p);
          assert prior[n].content + " " + p == prior[n].content + (" " + p);
          var now := ExtendLast(prior, " " + p);
          assert forall i :: 0 <= i < n ==> now[i] == prior[i];
        }
      }
    }
  }

  /** What a page contributes to the text of the sections. */
  function PageText(page: string): string {
    if IsBlank(page) then "" else if IsHeadingPage(page) then page else " " + page
  }

  function Glue(pages: seq<string>): string {
    if pages == [] then "" else Glue(pages[..|pages| - 1]) + PageText(pages[|pages| - 1])
  }

  /** The contents of the sections, one after the other. */
  function Contents(sections: seq<Section>): string {
    if sections == [] then "" else Contents(sections[..|sections| - 1]) + sections[|sections| - 1].content
  }

  /**
   * Nothing is lost and nothing is reordered: the sections' contents, read
   * in order, are the non-blank pages in order, each body page after a space.
   */
  lemma ContentsSnoc(xs: seq<Section>, x: Section)
    ensures Contents(xs + [x]) == Contents(xs) + x.content
  {
    assert (xs + [x])[..|xs|] == xs;
  }

  /** Appending text to the last section appends it to the contents. */
  lemma ContentsExtendLast(xs: seq<Section>, x: Section, t: string)
    ensures Contents(xs + [x.(content := x.content + t)]) == Contents(xs + [x]) + t
  {
    ContentsSnoc(xs, x.(content := x.content + t));
    ContentsSnoc(xs, x);
  }

  lemma {:induction false} ContentsPreservePages(pages: seq<string>)
    ensures Contents(Sectioned(pages)) == Glue(pages)
  {
    if pages != [] {
      var init := pages[..|pages| - 1];
      var p := pages[|pages| - 1];
      ContentsPreservePages(init);
      var prior := Sectioned(init);
      if IsBlank(p) {
      } else if IsHeadingPage(p) {
        ContentsSnoc(prior, Section(Named(HeadingTitle(p)), p));
      } else if prior == [] {
        ContentsSnoc([], Section(Named("Section 1"), " " + p));
      } else {
        var n := |prior| - 1;
        assert prior == prior[..n] + [prior[n]];
        ContentsExtendLast(prior[..n], prior[n], " " + p);
      }
    }
  }

  /** The number of heading pages. */
  function NumHeadings(pages: seq<string>): nat {
    if pages == [] then 0
    else NumHeadings(pages[..|pages| - 1]) + (if IsHeadingPage(pages[|pages| - 1]) then 1 else 0)
  }

  /** A body page (not blank, not a heading) comes before every heading page. */
  ghost predicate LeadsWithBody(pages: seq<string>) {
    exists i :: LeadingBodyAt(pages, i)
  }

  /** Page `i` is a body page and no heading page comes before it. */
  predicate LeadingBodyAt(pages: seq<string>, i: int) {
    0 <= i < |pages| && !IsBlank(pages[i]) && !IsHeadingPage(pages[i]) &&
      forall j :: 0 <= j < i ==> !IsHeadingPage(pages[j])
  }

  /** Whether page `i` leads with body depends only on the pages up to `i`. */
  lemma LeadingBodyPrefix(init: seq<string>, p: string, i: int)
    requires 0 <= i < |init|
    ensures LeadingBodyAt(init + [p], i) == LeadingBodyAt(init, i)
  {
    assert forall j :: 0 <= j <= i ==> (init + [p])[j] == init[j];
  }

  lemma {:induction false} NoHeadings(pages: seq<string>)
    requires NumHeadings(pages) == 0
    ensures forall j :: 0 <= j < |pages| ==> !IsHeadingPage(pages[j])
  {
    if pages != [] {
      var init := pages[..|pages| - 1];
      NoHeadings(init);
      assert forall j :: 0 <= j < |init| ==> pages[j] == init[j];
    }
  }

  lemma {:induction false} SomeHeading(pages: seq<string>) returns (j: nat)
    requires NumHeadings(pages) > 0
    ensures j < |pages| && IsHeadingPage(pages[j])
  {
    var init := pages[..|pages| - 1];
    if IsHeadingPage(pages[|pages| - 1]) {
      j := |pages| - 1;
    } else {
      j := SomeHeading(init);
      assert pages[j] == init[j];
    }
  }

  lemma LeadsWithBodyGrows(init: seq<string>, p: string)
    requires LeadsWithBody(init)
    ensures LeadsWithBody(init + [p])
  {
    var i :| LeadingBodyAt(init, i);
    LeadingBodyPrefix(init, p, i);
  }

  lemma LeadsWithBodyShrinks(init: seq<string>, p: string)
    requires IsBlank(p) || IsHeadingPage(p) || NumHeadings(init) > 0
    requires LeadsWithBody(init + [p])
    ensures LeadsWithBody(init)
  {
    var pages := init + [p];
    var i :| LeadingBodyAt(pages, i);
    if !(IsBlank(p) || IsHeadingPage(p)) {
      var h := SomeHeading(init);
      assert pages[h] == init[h];
      assert i <= h;
    }
    assert i < |init|;
    LeadingBodyPrefix(init, p, i);
  }

  /** A page that is blank or a heading, or that follows a heading, does not change `LeadsWithBody`. */
  lemma LeadsWithBodyKept(init: seq<string>, p: string)
    requires IsBlank(p) || IsHeadingPage(p) || NumHeadings(init) > 0
    ensures LeadsWithBody(init + [p]) == LeadsWithBody(init)
  {
    if LeadsWithBody(init) {
      LeadsWithBodyGrows(init, p);
    }
    if LeadsWithBody(init + [p]) {
      LeadsWithBodyShrinks(init, p);
    }
  }

  /** A body page before any heading starts the leading section. */
  lemma LeadsWithBodyStarted(init: seq<string>, p: string)
    requires !IsBlank(p) && !IsHeadingPage(p) && NumHeadings(init) == 0
    ensures LeadsWithBody(init + [p])
  {
    var pages := init + [p];
    NoHeadings(init);
    assert forall j :: 0 <= j < |init| ==> pages[j] == init[j];
    assert pages[|init|] == p;
    assert LeadingBodyAt(pages, |init|);
  }

  /** One section per heading page, plus a leading "Section 1" when body pages come first. */
  lemma {:induction false} SectionCount(pages: seq<string>)
    ensures |Sectioned(pages)| == NumHeadings(pages) + (if LeadsWithBody(pages) then 1 else 0)
  {
    if pages != [] {
      var init := pages[..|pages| - 1];
      var p := pages[|pages| - 1];
      assert pages == init + [p];
      SectionCount(init);
      if IsBlank(p) || IsHeadingPage(p) || NumHeadings(init) > 0 {
        LeadsWithBodyKept(init, p);
      } else {
        LeadsWithBodyStarted(init, p);
      }
    }
  }

  /** The leading section of body pages: titled "Section 1", its content starting with the space before the first page. */
  predicate LeadSection(sec: Section) {
    sec.title == Named("Section 1") && " " <= sec.content
  }

  /** A section opened by one of the heading pages: titled by its heading, its content starting with that page. */
  ghost predicate OpenedBy(pages: seq<string>, sec: Section) {
    exists j :: 0 <= j < |pages| && IsHeadingPage(pages[j]) &&
      sec.title == Named(HeadingTitle(pages[j])) && pages[j] <= sec.content
  }

  /** Where each section comes from: the first one may be the leading section, every other one is opened by a heading page. */
  ghost predicate Originated(pages: seq<string>, sections: seq<Section>) {
    forall i :: 0 <= i < |sections| ==>
      if i == 0 && LeadsWithBody(pages) then LeadSection(sections[i]) else OpenedBy(pages, sections[i])
  }

  lemma OpenedByGrows(init: seq<string>, p: string, sec: Section)
    requires OpenedBy(init, sec)
    ensures OpenedBy(init + [p], sec)
  {
    var j :| 0 <= j < |init| && IsHeadingPage(init[j]) &&
      sec.title == Named(HeadingTitle(init[j])) && init[j] <= sec.content;
    assert (init + [p])[j] == init[j];
  }

  lemma OpenedByExtended(pages: seq<string>, sec: Section, t: string)
    requires OpenedBy(pages, sec)
    ensures OpenedBy(pages, sec.(content := sec.content + t))
  {
    var j :| 0 <= j < |pages| && IsHeadingPage(pages[j]) &&
      sec.title == Named(HeadingTitle(pages[j])) && pages[j] <= sec.content;
    assert pages[j] <= sec.content + t;
  }

  /** Adding a blank or heading page, or any page once a heading was seen, keeps the sections so far originated. */
  lemma OriginatedGrows(init: seq<string>, p: string, sections: seq<Section>)
    requires Originated(init, sections)
    requires LeadsWithBody(init + [p]) == LeadsWithBody(init)
    ensures Originated(init + [p], sections)
  {
    forall i | 0 <= i < |sections| && !(i == 0 && LeadsWithBody(init))
      ensures OpenedBy(init + [p], sections[i])
    {
      OpenedByGrows(init, p, sections[i]);
    }
  }

  lemma OriginatedExtendLast(pages: seq<string>, sections: seq<Section>, t: string)
    requires Originated(pages, sections) && sections != []
    ensures Originated(pages, ExtendLast(sections, t))
  {
    var n := |sections| - 1;
    if !(n == 0 && LeadsWithBody(pages)) {
      OpenedByExtended(pages, sections[n], t);
    }
  }

  /**
   * Every section is either the leading "Section 1" of body pages, which
   * comes first and exists exactly when a body page precedes every heading,
   * or is opened by a heading page, whose title-cased heading it carries
   * and with whose text it starts.
   */
  lemma {:induction false} SectionedOrigin(pages: seq<string>)
    ensures Originated(pages, Sectioned(pages))
  {
    if pages != [] {
      var init := pages[..|pages| - 1];
      var p := pages[|pages| - 1];
      assert pages == init + [p];
      SectionedOrigin(init);
      SectionCount(init);
      OriginExtend(init, p, Sectioned(init));
    }
  }

  lemma OriginExtend(init: seq<string>, p: string, prior: seq<Section>)
    requires Originated(init, prior)
    requires prior == [] <==> NumHeadings(init) == 0 && !LeadsWithBody(init)
    ensures Originated(init + [p], Extend(prior, p))
  {
    if IsBlank(p) || IsHeadingPage(p) || NumHeadings(init) > 0 {
      LeadsWithBodyKept(init, p);
    } else {
      LeadsWithBodyStarted(init, p);
    }
    if IsBlank(p) {
      OriginatedGrows(init, p, prior);
    } else if IsHeadingPage(p) {
      OriginatedGrows(init, p, prior);
      OriginHeading(init, p, prior);
    } else if prior != [] {
      if NumHeadings(init) == 0 {
        LeadsWithBodyGrows(init, p);
      }
      OriginatedGrows(init, p, prior);
      OriginatedExtendLast(init + [p], prior, " " + p);
    }
  }

  lemma OriginHeading(init: seq<string>, p: string, prior: seq<Section>)
    requires IsHeadingPage(p)
    requires Originated(init + [p], prior)
    requires LeadsWithBody(init + [p]) == LeadsWithBody(init)
    requires prior == [] ==> !LeadsWithBody(init)
    ensures Originated(init + [p], prior + [Section(Named(HeadingTitle(p)), p)])
  {
    var pages := init + [p];
    assert pages[|init|] == p;
    assert OpenedBy(pages, Section(Named(HeadingTitle(p)), p));
  }

  lemma SectionedGrows(init: seq<string>, p: string)
    ensures |Sectioned(init + [p])| >= |Sectioned(init)|
  {
    assert (init + [p])[..|init|] == init;
  }

  lemma {:induction false} HeadingStartsNonEmpty(p: string, qs: seq<string>)
    requires IsHeadingPage(p)
    ensures Sectioned([p] + qs) != []
    decreases |qs|
  {
    if qs == [] {
      assert ([p] + qs)[..0] == [];
    } else {
      var init := qs[..|qs| - 1];
      HeadingStartsNonEmpty(p, init);
      assert [p] + qs == ([p] + init) + [qs[|qs| - 1]];
      SectionedGrows([p] + init, qs[|qs| - 1]);
    }
  }

  /** Extending the last of `a + b` extends the last of `b`, when `b` has one. */
  lemma ExtendLastOfConcat(a: seq<Section>, b: seq<Section>, t: string)
    requires b != []
    ensures ExtendLast(a + b, t) == a + ExtendLast(b, t)
  {
    var c := a + b;
    assert c[..|c| - 1] == a + b[..|b| - 1];
  }

  /** One more page after a non-empty tail of sections only touches that tail. */
  lemma ExtendOfConcat(a: seq<Section>, b: seq<Section>, q: string)
    requires b != []
    ensures Extend(a + b, q) == a + Extend(b, q)
  {
    if !IsBlank(q) && !IsHeadingPage(q) {
      ExtendLastOfConcat(a, b, " " + q);
    }
  }

  lemma SectionedSnoc(init: seq<string>, q: string)
    ensures Sectioned(init + [q]) == Extend(Sectioned(init), q)
  {
    assert (init + [q])[..|init|] == init;
  }

  /**
   * A heading page cuts the book in two: the sections of the pages before
   * it are followed by the sections of the pages from it on, untouched by
   * what came before.
   */
  lemma {:induction false} HeadingPageStartsSection(ps: seq<string>, p: string, qs: seq<string>)
    requires IsHeadingPage(p)
    ensures Sectioned(ps + [p] + qs) == Sectioned(ps) + Sectioned([p] + qs)
    decreases |qs|
  {
    if qs == [] {
      SectionedSnoc(ps, p);
      SectionedSnoc([], p);
      assert [] + [p] == [p];
      assert ps + [p] + qs == ps + [p];
    } else {
      var q := qs[|qs| - 1];
      var init := qs[..|qs| - 1];
      HeadingPageStartsSection(ps, p, init);
      assert ps + [p] + qs == (ps + [p] + init) + [q];
      assert [p] + qs == ([p] + init) + [q];
      SectionedSnoc(ps + [p] + init, q);
      SectionedSnoc([p] + init, q);
      HeadingStartsNonEmpty(p, init);
      ExtendOfConcat(Sectioned(ps), Sectioned([p] + init), q);
    }
  }
}
