/**
 * The text helpers and the size arithmetic of
 * internal/tui/components/logviewport.go: the one-line truncation, the word
 * wrapping and its break point, and the viewport's state.
 *
 * Byte positions are read as rune indices. The wrapping as written does
 * not always terminate; WrapStep and WrapStepStalls show the pass that
 * makes no progress, and the model's wrapping adds the guard panel.go
 * uses.
 */
module LogViewportComponent {
  import opened Text
  import Sessions

  const Ellipsis: string := "..."

  /** The text with newlines turned into spaces and carriage returns dropped (logviewport.go:321-322). */
  function SingleLine(text: string): (r: string)
    ensures '\n' !in r && '\r' !in r
  {
    ReplaceRune(ReplaceRune(text, '\n', " "), '\r', "")
  }

  /**
   * truncateText (logviewport.go:320-329): the text on one line, unchanged
   * when it fits into `maxWidth` columns, otherwise runewidth.Truncate of it
   * to `maxWidth - 3` columns with an ellipsis.
   */
  function TruncateText(rw: char -> nat, text: string, maxWidth: int): (r: string)
    ensures StringWidth(rw, SingleLine(text)) <= maxWidth ==> r == SingleLine(text)
    ensures StringWidth(rw, SingleLine(text)) > maxWidth ==>
      exists k :: 0 <= k <= |SingleLine(text)| && r == SingleLine(text)[..k] + Ellipsis
  {
    var s := SingleLine(text);
    if StringWidth(rw, s) > maxWidth then Truncate(rw, s, maxWidth - 3, Ellipsis) else s
  }

  /**
   * The truncated text is one line, and with one column per dot a text that
   * is too wide comes out at most `maxWidth - 3` columns wide: three columns
   * less than the ellipsis needs are left unused.
   */
  lemma TruncateTextOneLine(rw: char -> nat, text: string, maxWidth: int)
    ensures '\n' !in TruncateText(rw, text, maxWidth) && '\r' !in TruncateText(rw, text, maxWidth)
    ensures NarrowAscii(rw) && maxWidth >= 6 && StringWidth(rw, SingleLine(text)) > maxWidth ==>
      StringWidth(rw, TruncateText(rw, text, maxWidth)) <= maxWidth - 3
  {
    var s := SingleLine(text);
    var r := TruncateText(rw, text, maxWidth);
    if StringWidth(rw, s) > maxWidth {
      var k := FitLength(rw, s, maxWidth - 3 - StringWidth(rw, Ellipsis));
      assert r == s[..k] + Ellipsis;
      forall c | c in r ensures c != '\n' && c != '\r' {
        if c in s[..k] {
          assert c in s;
        }
      }
      if NarrowAscii(rw) && maxWidth >= 6 {
        assert Ellipsis[1..] == ".." && Ellipsis[1..][1..] == "." && Ellipsis[1..][1..][1..] == "";
        StringWidthAppend(rw, s[..k], Ellipsis);
      }
    }
  }

  /**
   * findBreakPoint (logviewport.go:360-381): with `bytePos` the end of the
   * longest prefix that fits, the last space after position 0 and at or
   * before `bytePos`, or else `bytePos` itself. The caller only asks when
   * the text is too wide; otherwise Go would read past its end.
   */
  function BreakPoint(rw: char -> nat, text: string, width: int): (r: nat)
    requires StringWidth(rw, text) > width
    ensures r <= |text|
  {
    var n := FitLength(rw, text, width);
    if n == |text| then n
    else
      var p := LastSpace(text, n);
      if p > 0 then p else n
  }

  /** The break point is at most the end of the longest fitting prefix, which ends before the text does. */
  lemma BreakPointBounds(rw: char -> nat, text: string, width: int)
    requires StringWidth(rw, text) > width
    ensures BreakPoint(rw, text, width) <= FitLength(rw, text, width)
    ensures text != [] ==> FitLength(rw, text, width) < |text|
  {
    assert text[..|text|] == text;
  }

  /**
   * The break point is 0 exactly when the first rune alone is wider than
   * `width`; otherwise the text before it fits.
   */
  lemma BreakPointZero(rw: char -> nat, text: string, width: int)
    requires width >= 0 && StringWidth(rw, text) > width
    ensures text != []
    ensures BreakPoint(rw, text, width) == 0 <==> rw(text[0]) > width
    ensures StringWidth(rw, text[..BreakPoint(rw, text, width)]) <= width
  {
    var n := FitLength(rw, text, width);
    BreakPointBounds(rw, text, width);
    PrefixWidthStep(rw, text, 0);
    assert text[..0] == [];
    if rw(text[0]) <= width {
      FitLengthIsLongest(rw, text, width, 1);
    }
    PrefixWidthMonotone(rw, text, BreakPoint(rw, text, width), n);
  }

  /** findBreakPoint as written: measure runes until one overflows, then search back for a space. */
  method FindBreakPoint(rw: char -> nat, text: string, width: int) returns (r: nat)
    requires StringWidth(rw, text) > width
    ensures r == BreakPoint(rw, text, width)
  {
    var currentWidth := 0;
    var bytePos := 0;
    var i := 0;
    while i < |text|
      invariant 0 <= i <= |text| && bytePos == i && currentWidth == StringWidth(rw, text[..i])
      invariant forall j :: 0 <= j < i ==> FitsThrough(rw, text, width, j)
    {
      PrefixWidthStep(rw, text, i);
      if currentWidth + rw(text[i]) > width {
        bytePos := i;
        break;
      }
      currentWidth := currentWidth + rw(text[i]);
      bytePos := i + 1;
      i := i + 1;
    }
    FirstOverflow(rw, text, width, i);
    BreakPointBounds(rw, text, width);
    var k := bytePos;
    while k > 0
      invariant 0 <= k <= bytePos
      invariant bytePos < |text| ==> LastSpace(text, k) == LastSpace(text, bytePos)
    {
      if text[k] == ' ' {
        return k;
      }
      k := k - 1;
    }
    r := bytePos;
  }

  /**
   * One pass of the inner loop of wrapText as written (logviewport.go:347-351):
   * the line cut off at the break point and the rest without leading spaces.
   */
  function WrapStep(rw: char -> nat, para: string, width: int): (string, string)
    requires StringWidth(rw, para) > width
  {
    var b := BreakPoint(rw, para, width);
    (para[..b], TrimLeftSpaces(para[b..]))
  }

  /**
   * When the first rune of a paragraph is wider than the wrap width (and is
   * not a space), a pass cuts off an empty line and leaves the paragraph as
   * it was, so wrapText as written appends empty lines forever.
   */
  lemma WrapStepStalls(rw: char -> nat, para: string, width: int)
    requires width >= 0 && para != [] && para[0] != ' ' && rw(para[0]) > width
    ensures StringWidth(rw, para) > width
    ensures WrapStep(rw, para, width) == ("", para)
  {
    assert para == [para[0]] + para[1..];
    StringWidthAppend(rw, [para[0]], para[1..]);
    assert [para[0]][1..] == [];
    BreakPointZero(rw, para, width);
    assert para[0..] == para;
  }

  /** The rune width of a terminal that shows '世' in two columns and everything else in one. */
  function WideHan(c: char): nat
  {
    if c == '世' then 2 else 1
  }

  /** The paragraph "世" wrapped to one column: the pass returns "" and "世" again. */
  lemma WrapStepStallsOnWideRune()
    ensures WrapStep(WideHan, "世", 1) == ("", "世")
  {
    WrapStepStalls(WideHan, "世", 1);
  }

  /** wrapText's break with the guard of panel.go: never less than 1. */
  function GuardedBreak(rw: char -> nat, para: string, width: int): (b: nat)
    requires StringWidth(rw, para) > width
    ensures 1 <= b && (para != [] ==> b <= |para|)
  {
    var p := BreakPoint(rw, para, width);
    if p <= 0 then 1 else p
  }

  /** The lines of one paragraph that is not empty, with the guarded break. */
  function WrapParagraph(rw: char -> nat, para: string, width: int): seq<string>
    requires width > 0
    decreases |para|
  {
    if StringWidth(rw, para) > width then
      var b := GuardedBreak(rw, para, width);
      [para[..b]] + WrapParagraph(rw, TrimLeftSpaces(para[b..]), width)
    else if para == [] then []
    else [para]
  }

  /** The lines of one paragraph: a single empty line for an empty paragraph. */
  function ParagraphLines(rw: char -> nat, para: string, width: int): seq<string>
    requires width > 0
  {
    if para == [] then [""] else WrapParagraph(rw, para, width)
  }

  /** What wrapText makes of each paragraph, at a positive width. */
  function ParagraphWrap(rw: char -> nat, width: int): string -> seq<string>
    requires width > 0
  {
    para => ParagraphLines(rw, para, width)
  }

  function Wrapped(rw: char -> nat, text: string, width: int): seq<string>
  {
    if width <= 0 then [text]
    else LinesOf(ParagraphWrap(rw, width), Paragraphs(text))
  }

  /**
   * With the guard, a line either fits or is one rune that is wider than
   * the wrap width on its own.
   */
  lemma {:induction false} WrapParagraphFits(rw: char -> nat, para: string, width: int)
    requires width > 0
    ensures forall line | line in WrapParagraph(rw, para, width) :: StringWidth(rw, line) <= width || |line| == 1
    decreases |para|
  {
    if StringWidth(rw, para) > width {
      var b := GuardedBreak(rw, para, width);
      var rest := TrimLeftSpaces(para[b..]);
      WrapParagraphFits(rw, rest, width);
      BreakPointZero(rw, para, width);
      assert WrapParagraph(rw, para, width) == [para[..b]] + WrapParagraph(rw, rest, width);
    }
  }

  /** Where the first rune fits, the guard changes nothing: the guarded pass is the pass as written. */
  lemma GuardedBreakAsWritten(rw: char -> nat, para: string, width: int)
    requires width >= 0 && StringWidth(rw, para) > width
    ensures para != []
    ensures rw(para[0]) <= width ==> GuardedBreak(rw, para, width) == BreakPoint(rw, para, width)
  {
    BreakPointZero(rw, para, width);
  }

  /** wrapText with the guarded break: a loop over the paragraphs. */
  method WrapText(rw: char -> nat, text: string, width: int) returns (lines: seq<string>)
    ensures lines == Wrapped(rw, text, width)
  {
    if width <= 0 {
      return [text];
    }
    lines := [];
    var s := ReplaceRune(text, '\r', "");
    var paragraphs := Split(s, '\n');
    for i := 0 to |paragraphs|
      invariant lines == LinesOf(ParagraphWrap(rw, width), paragraphs[..i])
    {
      assert paragraphs[..i + 1][..i] == paragraphs[..i];
      var para := paragraphs[i];
      if para == "" {
        lines := lines + [""];
        continue;
      }
      var paraLines := WrapParagraphLoop(rw, para, width);
      lines := lines + paraLines;
    }
    assert paragraphs[..|paragraphs|] == paragraphs;
  }

  /**
   * The inner loop of wrapText (logviewport.go:347-355) with the guarded
   * break, which makes every pass shorten the paragraph.
   */
  method WrapParagraphLoop(rw: char -> nat, para0: string, width: int) returns (out: seq<string>)
    requires width > 0
    ensures out == WrapParagraph(rw, para0, width)
  {
    out := [];
    var para := para0;
    while StringWidth(rw, para) > width
      invariant out + WrapParagraph(rw, para, width) == WrapParagraph(rw, para0, width)
      decreases |para|
    {
      var breakAt := FindBreakPoint(rw, para, width);
      if breakAt <= 0 {
        breakAt := 1;
      }
      Regroup(out, [para[..breakAt]], WrapParagraph(rw, TrimLeftSpaces(para[breakAt..]), width));
      out := out + [para[..breakAt]];
      para := TrimLeftSpaces(para[breakAt..]);
    }
    if para != "" {
      out := out + [para];
    } else {
      assert out + [] == out;
    }
  }

  /** The log pane: the session it shows, its outer size, the inner viewport size and focus. */
  class LogViewport {
    var session: Option<Sessions.Session>
    var width: int
    var height: int
    var viewportWidth: int
    var viewportHeight: int
    var focused: bool

    /** NewLogViewport (logviewport.go:57-65): no session, zero sizes, not focused. */
    constructor()
      ensures session.None? && width == 0 && height == 0 && viewportWidth == 0 && viewportHeight == 0 && !focused
    {
      session := None;
      width := 0;
      height := 0;
      viewportWidth := 0;
      viewportHeight := 0;
      focused := false;
    }

    /** SetSize (logviewport.go:68-75): the viewport loses the border and scrollbar columns and the border and header rows. */
    method SetSize(w: int, h: int)
      modifies this`width, this`height, this`viewportWidth, this`viewportHeight
      ensures width == w && height == h
      ensures viewportWidth == w - 3 && viewportHeight == h - 4
    {
      width := w;
      height := h;
      viewportWidth := w - 3;
      viewportHeight := h - 4;
    }

    /** SetSession (logviewport.go:78-81). */
    method SetSession(s: Option<Sessions.Session>)
      modifies this`session
      ensures session == s
    {
      session := s;
    }

    /** SetFocused (logviewport.go:84-86). */
    method SetFocused(f: bool)
      modifies this`focused
      ensures focused == f
    {
      focused := f;
    }
  }
}
