/**
 * The text arithmetic of internal/tui/panel.go: the window of body lines a
 * panel shows, the ANSI-aware truncation and padding of rendered lines,
 * the one-line truncation of a text, word wrapping and its break point,
 * and the assembly of a panel's lines.
 *
 * lipgloss.Width is modelled as the width of the runes outside ANSI
 * escape sequences, read with the same escape rule truncateWithANSI uses
 * (an ESC opens a sequence, a letter closes it).
 */
module Panel {
  import opened Text

  function Min(a: int, b: int): int { if a < b then a else b }
  function Max(a: int, b: int): int { if a < b then b else a }

  /** The body lines [start, end) a panel shows. */
  datatype Window = Window(start: int, end: int)

  /**
   * calculateVisibleWindow (panel.go:244-262): a negative scroll position
   * follows the end of the text, any other one is the first line shown;
   * either way the window is clamped into the text.
   */
  function CalculateVisibleWindow(totalLines: int, height: int, scrollPos: int): (w: Window)
    ensures totalLines >= 0 && height >= 0 ==>
      0 <= w.start <= w.end <= totalLines && w.end - w.start <= height
    ensures totalLines >= 0 && height >= 0 && scrollPos < 0 ==>
      w.end == totalLines && w.end - w.start == Min(height, totalLines)
    ensures height >= 0 && 0 <= scrollPos <= totalLines - height ==>
      w == Window(scrollPos, scrollPos + height)
  {
    var start0 := if scrollPos < 0 then totalLines - height else scrollPos;
    var end0 := if scrollPos < 0 then totalLines else scrollPos + height;
    var start := Max(0, Min(start0, totalLines - height));
    Window(start, Max(start, Min(end0, totalLines)))
  }

  // ---------------------------------------------------------------------
  // ANSI escape sequences
  // ---------------------------------------------------------------------

  const Esc: char := 27 as char

  /** The reset sequence truncateWithANSI appends. */
  const Reset: string := [Esc, '[', '0', 'm']

  /** A letter closes an escape sequence. */
  predicate ClosesEscape(c: char)
  {
    ('a' <= c <= 'z') || ('A' <= c <= 'Z')
  }

  /** The escape flag after one rune, starting with flag `e`. */
  function EscapeStep(e: bool, c: char): bool
  {
    if c == Esc then true else if e then !ClosesEscape(c) else false
  }

  /** Whether a rune read with escape flag `e` is shown (and takes width). */
  predicate Shown(e: bool, c: char)
  {
    c != Esc && !e
  }

  /** The escape flag after reading `s`, starting with flag `e`. */
  function EscapeAfter(e: bool, s: string): bool
  {
    if s == [] then e else EscapeStep(EscapeAfter(e, s[..|s| - 1]), s[|s| - 1])
  }

  /** The width of the shown runes of `s`, starting with escape flag `e`. */
  function ShownWidth(rw: char -> nat, e: bool, s: string): nat
  {
    if s == [] then 0
    else
      var init := s[..|s| - 1];
      ShownWidth(rw, e, init) + (if Shown(EscapeAfter(e, init), s[|s| - 1]) then rw(s[|s| - 1]) else 0)
  }

  /** lipgloss.Width of a one-line string: the width outside escape sequences. */
  function VisibleWidth(rw: char -> nat, s: string): nat
  {
    ShownWidth(rw, false, s)
  }

  lemma {:induction false} EscapeAppend(rw: char -> nat, e: bool, a: string, b: string)
    ensures EscapeAfter(e, a + b) == EscapeAfter(EscapeAfter(e, a), b)
    ensures ShownWidth(rw, e, a + b) == ShownWidth(rw, e, a) + ShownWidth(rw, EscapeAfter(e, a), b)
  {
    if b == [] {
      assert a + b == a;
    } else {
      var init := b[..|b| - 1];
      assert (a + b)[..|a + b| - 1] == a + init;
      assert (a + b)[|a + b| - 1] == b[|b| - 1];
      EscapeAppend(rw, e, a, init);
    }
  }

  /** The reset sequence is invisible and leaves the scan outside any escape sequence. */
  lemma ResetInvisible(rw: char -> nat, e: bool)
    ensures EscapeAfter(e, Reset) == false && ShownWidth(rw, e, Reset) == 0
  {
    var r1, r2, r3 := [Esc], [Esc, '['], [Esc, '[', '0'];
    assert r1[..0] == [] && r2[..1] == r1 && r3[..2] == r2 && Reset[..3] == r3;
    assert EscapeAfter(e, r1) && ShownWidth(rw, e, r1) == 0;
    assert EscapeAfter(e, r2) && ShownWidth(rw, e, r2) == 0;
    assert EscapeAfter(e, r3) && ShownWidth(rw, e, r3) == 0;
  }

  /** Spaces read outside an escape sequence are all shown. */
  lemma SpacesShown(rw: char -> nat, n: nat)
    ensures EscapeAfter(false, Repeat(' ', n)) == false
    ensures ShownWidth(rw, false, Repeat(' ', n)) == n * rw(' ')
  {
    assert Esc !in Repeat(' ', n);
    PlainShown(rw, Repeat(' ', n));
    RepeatWidth(rw, ' ', n);
  }

  /** Without an ESC rune the scan never enters an escape sequence and every rune is shown. */
  lemma {:induction false} PlainShown(rw: char -> nat, s: string)
    requires Esc !in s
    ensures EscapeAfter(false, s) == false
    ensures ShownWidth(rw, false, s) == StringWidth(rw, s)
  {
    if s != [] {
      var init := s[..|s| - 1];
      assert Esc !in init by {
        forall x | x in init ensures x in s { }
      }
      PlainShown(rw, init);
      assert s == init + [s[|s| - 1]];
      StringWidthAppend(rw, init, [s[|s| - 1]]);
      assert [s[|s| - 1]][1..] == [];
    }
  }

  /** Whether the scan of truncateWithANSI stops at rune `j`: a shown rune that would overflow. */
  predicate StopsAt(rw: char -> nat, s: string, width: int, j: nat)
    requires j < |s|
  {
    Shown(EscapeAfter(false, s[..j]), s[j]) && ShownWidth(rw, false, s[..j]) + rw(s[j]) > width
  }

  /**
   * `k` is where truncateWithANSI cuts `s`: at its end, or at the first
   * shown rune that would make the shown width exceed `width`.
   */
  ghost predicate AnsiCut(rw: char -> nat, s: string, width: int, k: nat)
  {
    k <= |s| && (k < |s| ==> StopsAt(rw, s, width, k)) &&
    forall j :: 0 <= j < k ==> !StopsAt(rw, s, width, j)
  }

  lemma StopStep(rw: char -> nat, s: string, i: nat)
    requires i < |s|
    ensures s[..i + 1][..i] == s[..i] && s[..i + 1][i] == s[i]
    ensures EscapeAfter(false, s[..i + 1]) == EscapeStep(EscapeAfter(false, s[..i]), s[i])
    ensures ShownWidth(rw, false, s[..i + 1]) ==
      ShownWidth(rw, false, s[..i]) + (if Shown(EscapeAfter(false, s[..i]), s[i]) then rw(s[i]) else 0)
  {
    assert s[..i + 1][..i] == s[..i];
  }

  /**
   * truncateWithANSI (panel.go:281-316): copy runes while the shown width
   * fits, copying escape sequences without counting them, then append the
   * reset sequence.
   */
  method TruncateWithAnsi(rw: char -> nat, s: string, width: int) returns (r: string)
    ensures r == AnsiTruncated(rw, s, width)
  {
    var result := [];
    var currentWidth := 0;
    var inEscape := false;
    var i := 0;
    while i < |s|
      invariant 0 <= i <= |s| && result == s[..i]
      invariant inEscape == EscapeAfter(false, s[..i]) && currentWidth == ShownWidth(rw, false, s[..i])
      invariant forall j :: 0 <= j < i ==> !StopsAt(rw, s, width, j)
    {
      var c := s[i];
      StopStep(rw, s, i);
      if c == Esc {
        inEscape := true;
        result := result + [c];
        i := i + 1;
        continue;
      }
      if inEscape {
        result := result + [c];
        if ClosesEscape(c) {
          inEscape := false;
        }
        i := i + 1;
        continue;
      }
      var w := rw(c);
      if currentWidth + w > width {
        break;
      }
      result := result + [c];
      currentWidth := currentWidth + w;
      i := i + 1;
    }
    r := result + Reset;
    AnsiCutUnique(rw, s, width, i, CutFrom(rw, s, width, 0));
  }

  /** The first index from `i` on where the scan of truncateWithANSI stops, or the end of `s`. */
  function CutFrom(rw: char -> nat, s: string, width: int, i: nat): (k: nat)
    requires i <= |s|
    ensures i <= k <= |s|
    ensures k < |s| ==> StopsAt(rw, s, width, k)
    ensures forall j :: i <= j < k ==> !StopsAt(rw, s, width, j)
    decreases |s| - i
  {
    if i == |s| then |s|
    else if StopsAt(rw, s, width, i) then i
    else CutFrom(rw, s, width, i + 1)
  }

  /** What truncateWithANSI returns: the runes before the cut, then the reset sequence. */
  function AnsiTruncated(rw: char -> nat, s: string, width: int): string
  {
    s[..CutFrom(rw, s, width, 0)] + Reset
  }

  /** There is only one place where the scan stops. */
  lemma AnsiCutUnique(rw: char -> nat, s: string, width: int, k1: nat, k2: nat)
    requires AnsiCut(rw, s, width, k1) && AnsiCut(rw, s, width, k2)
    ensures k1 == k2
  {
  }

  /** The truncation is a prefix of `s` followed by the reset sequence, and takes at most `width` columns. */
  lemma AnsiTruncatedFits(rw: char -> nat, s: string, width: int)
    requires width >= 0
    ensures exists k: nat :: k <= |s| && AnsiTruncated(rw, s, width) == s[..k] + Reset
    ensures VisibleWidth(rw, AnsiTruncated(rw, s, width)) <= width
    ensures EscapeAfter(false, AnsiTruncated(rw, s, width)) == false
  {
    var k := CutFrom(rw, s, width, 0);
    AnsiResultFits(rw, s, width, k);
  }

  /** Text that already fits loses nothing but gains the reset sequence. */
  lemma AnsiTruncatedWhole(rw: char -> nat, s: string, width: int)
    requires VisibleWidth(rw, s) <= width
    ensures AnsiTruncated(rw, s, width) == s + Reset
  {
    forall j | 0 <= j < |s| ensures !StopsAt(rw, s, width, j) {
      StopStep(rw, s, j);
      EscapeAppend(rw, false, s[..j + 1], s[j + 1..]);
      assert s[..j + 1] + s[j + 1..] == s;
    }
    assert CutFrom(rw, s, width, 0) == |s|;
    assert s[..|s|] == s;
  }

  /** On text without escape sequences, truncateWithANSI is runewidth.Truncate with an empty tail, then the reset sequence. */
  lemma AnsiTruncatedPlain(rw: char -> nat, s: string, width: int)
    requires Esc !in s && width >= 0
    ensures AnsiTruncated(rw, s, width) == (if StringWidth(rw, s) <= width then s else Truncate(rw, s, width, "")) + Reset
  {
    PlainAnsiCut(rw, s, width, CutFrom(rw, s, width, 0));
  }

  /** The runes truncateWithANSI keeps take at most `width` columns. */
  lemma {:induction false} AnsiCutFits(rw: char -> nat, s: string, width: int, k: nat)
    requires width >= 0 && k <= |s|
    requires forall j :: 0 <= j < k ==> !StopsAt(rw, s, width, j)
    ensures ShownWidth(rw, false, s[..k]) <= width
  {
    if k > 0 {
      var i := k - 1;
      AnsiCutFits(rw, s, width, i);
      StopStep(rw, s, i);
      assert i + 1 == k && !StopsAt(rw, s, width, i);
    }
  }

  /** The result of truncateWithANSI, reset sequence included, is at most `width` wide. */
  lemma AnsiResultFits(rw: char -> nat, s: string, width: int, k: nat)
    requires width >= 0 && AnsiCut(rw, s, width, k)
    ensures VisibleWidth(rw, s[..k] + Reset) <= width
    ensures EscapeAfter(false, s[..k] + Reset) == false
  {
    AnsiCutFits(rw, s, width, k);
    EscapeAppend(rw, false, s[..k], Reset);
    ResetInvisible(rw, EscapeAfter(false, s[..k]));
  }

  /**
   * On text without escape sequences truncateWithANSI keeps exactly what
   * runewidth.Truncate with an empty tail keeps: the longest prefix that
   * fits.
   */
  lemma PlainAnsiCut(rw: char -> nat, s: string, width: int, k: nat)
    requires Esc !in s && width >= 0 && AnsiCut(rw, s, width, k)
    ensures k == FitLength(rw, s, width)
    ensures s[..k] == (if StringWidth(rw, s) <= width then s else Truncate(rw, s, width, ""))
  {
    var n := FitLength(rw, s, width);
    PlainPrefixes(rw, s);
    AnsiCutFits(rw, s, width, k);
    if k < n {
      PrefixWidthMonotone(rw, s, k + 1, n);
      PrefixWidthStep(rw, s, k);
    } else if n < k {
      PrefixWidthMonotone(rw, s, n + 1, k);
    }
    assert s[..|s|] == s;
    if StringWidth(rw, s) <= width {
      FitLengthIsLongest(rw, s, width, |s|);
    } else {
      assert s[..n] + "" == s[..n];
    }
  }

  /** Every prefix of plain text is read outside escape sequences and shown whole. */
  lemma PlainPrefixes(rw: char -> nat, s: string)
    requires Esc !in s
    ensures forall j :: 0 <= j <= |s| ==> EscapeAfter(false, s[..j]) == false && ShownWidth(rw, false, s[..j]) == StringWidth(rw, s[..j])
  {
    forall j | 0 <= j <= |s|
      ensures EscapeAfter(false, s[..j]) == false && ShownWidth(rw, false, s[..j]) == StringWidth(rw, s[..j])
    {
      assert Esc !in s[..j] by {
        forall x | x in s[..j] ensures x in s { }
      }
      PlainShown(rw, s[..j]);
    }
  }

  /** A line followed by the spaces that bring its shown width up to `width`, if it is narrower. */
  function Padded(rw: char -> nat, line: string, width: int): string
  {
    var w := VisibleWidth(rw, line);
    if w < width then line + Repeat(' ', width - w) else line
  }

  /**
   * With one column per space, padding a line that fits and is not left
   * inside an escape sequence gives exactly `width` columns.
   */
  lemma PaddedWidth(rw: char -> nat, line: string, width: int)
    requires NarrowAscii(rw) && !EscapeAfter(false, line) && VisibleWidth(rw, line) <= width
    ensures VisibleWidth(rw, Padded(rw, line, width)) == width
    ensures EscapeAfter(false, Padded(rw, line, width)) == false
  {
    var w := VisibleWidth(rw, line);
    if w < width {
      EscapeAppend(rw, false, line, Repeat(' ', width - w));
      SpacesShown(rw, width - w);
    }
  }

  /**
   * padToWidth (panel.go:266-278): cut a line that is too wide with
   * truncateWithANSI, then pad with spaces up to `width`.
   */
  function PadToWidth(rw: char -> nat, s: string, width: int): (r: string)
    ensures VisibleWidth(rw, s) <= width ==> r == s + Repeat(' ', width - VisibleWidth(rw, s))
  {
    var line := if VisibleWidth(rw, s) > width then AnsiTruncated(rw, s, width) else s;
    Padded(rw, line, width)
  }

  /**
   * With one column per space, padToWidth gives exactly `width` columns for
   * a line too wide, and for a line that fits and closes its escape
   * sequences; the line it gives is never left inside an escape sequence.
   */
  lemma PadToWidthExact(rw: char -> nat, s: string, width: int)
    requires NarrowAscii(rw) && width >= 0
    requires VisibleWidth(rw, s) > width || !EscapeAfter(false, s)
    ensures VisibleWidth(rw, PadToWidth(rw, s, width)) == width
    ensures EscapeAfter(false, PadToWidth(rw, s, width)) == false
  {
    if VisibleWidth(rw, s) > width {
      AnsiTruncatedFits(rw, s, width);
      PaddedWidth(rw, AnsiTruncated(rw, s, width), width);
    } else {
      PaddedWidth(rw, s, width);
    }
  }

  // ---------------------------------------------------------------------
  // One-line truncation
  // ---------------------------------------------------------------------

  const Ellipsis: string := "..."

  /** The text with newlines and tabs turned into spaces and carriage returns dropped (panel.go:504-506). */
  function OneLine(text: string): (r: string)
    ensures '\n' !in r && '\r' !in r && '\t' !in r
  {
    ReplaceRune(ReplaceRune(ReplaceRune(text, '\n', " "), '\r', ""), '\t', " ")
  }

  /** Text that is already one line without tabs is left as it is. */
  lemma OneLinePlain(text: string)
    requires '\n' !in text && '\r' !in text && '\t' !in text
    ensures OneLine(text) == text
  {
    ReplaceAbsentRune(text, '\n', " ");
    ReplaceAbsentRune(text, '\r', "");
    ReplaceAbsentRune(text, '\t', " ");
  }

  /** A cut of a one-line text with the ellipsis after it is still one line. */
  lemma CutStaysOneLine(s: string, k: int)
    requires 0 <= k <= |s| && '\n' !in s && '\r' !in s && '\t' !in s
    ensures '\n' !in s[..k] + Ellipsis && '\r' !in s[..k] + Ellipsis && '\t' !in s[..k] + Ellipsis
  {
    var c := s[..k] + Ellipsis;
    forall i | 0 <= i < |c| ensures c[i] != '\n' && c[i] != '\r' && c[i] != '\t' {
      if i < k {
        assert c[i] == s[i];
      } else {
        assert c[i] == '.';
      }
    }
  }

  /** With one column per dot, the ellipsis takes three columns. */
  lemma EllipsisWidth(rw: char -> nat)
    requires NarrowAscii(rw)
    ensures StringWidth(rw, Ellipsis) == 3
  {
    assert Ellipsis[1..] == ".." && Ellipsis[1..][1..] == "." && Ellipsis[1..][1..][1..] == "";
  }

  /**
   * The loop of truncateText (panel.go:517-523): while the cut with its
   * ellipsis is too wide, drop one more rune before the ellipsis; a cut
   * of one rune or none gives the bare ellipsis.
   */
  method Shorten(rw: char -> nat, ghost s: string, ghost k0: int, truncated: string, mw: int) returns (r: string)
    requires 0 <= k0 < |s| && truncated == s[..k0] + Ellipsis
    ensures r == Ellipsis || StringWidth(rw, r) <= mw
    ensures exists k :: 0 <= k <= k0 && r == s[..k] + Ellipsis
  {
    r := truncated;
    ghost var k := k0;
    while StringWidth(rw, r) > mw
      invariant 0 <= k <= k0 && r == s[..k] + Ellipsis
      decreases |r|
    {
      var runes := TrimSuffix(r, Ellipsis);
      SuffixOfAppend(s[..k], Ellipsis);
      if |runes| <= 1 {
        assert Ellipsis == s[..0] + Ellipsis;
        return Ellipsis;
      }
      r := runes[..|runes| - 1] + Ellipsis;
      k := k - 1;
      assert s[..k + 1][..k] == s[..k];
    }
  }

  /**
   * truncateText (panel.go:499-526): the text on one line, unchanged when it
   * fits into max(maxWidth, 4) columns; otherwise runewidth.Truncate with
   * an ellipsis, shortened one rune at a time while it is still too wide,
   * down to the bare ellipsis.
   */
  method TruncateText(rw: char -> nat, text: string, maxWidth: int) returns (r: string)
    ensures '\n' !in r && '\r' !in r && '\t' !in r
    ensures StringWidth(rw, OneLine(text)) <= Max(maxWidth, 4) ==> r == OneLine(text)
    ensures StringWidth(rw, OneLine(text)) > Max(maxWidth, 4) ==>
      (r == Ellipsis || StringWidth(rw, r) <= Max(maxWidth, 4)) &&
      exists k :: 0 <= k < |OneLine(text)| && r == OneLine(text)[..k] + Ellipsis
    ensures NarrowAscii(rw) ==> StringWidth(rw, r) <= Max(maxWidth, 4)
  {
    var mw := maxWidth;
    if mw < 4 {
      mw := 4;
    }
    var s := ReplaceRune(text, '\n', " ");
    s := ReplaceRune(s, '\r', "");
    s := ReplaceRune(s, '\t', " ");
    assert s == OneLine(text);
    if NarrowAscii(rw) {
      EllipsisWidth(rw);
    }
    if StringWidth(rw, s) <= mw {
      return s;
    }
    var truncated := Truncate(rw, s, mw, Ellipsis);
    ghost var k := FitLength(rw, s, mw - StringWidth(rw, Ellipsis));
    assert truncated == s[..k] + Ellipsis;
    assert s[..|s|] == s;
    assert k < |s|;
    r := Shorten(rw, s, k, truncated, mw);
    ghost var cut :| 0 <= cut <= k && r == s[..cut] + Ellipsis;
    CutStaysOneLine(s, cut);
  }

  // ---------------------------------------------------------------------
  // Word wrapping
  // ---------------------------------------------------------------------

  /**
   * The last rune findBreakPoint lets on the line (panel.go:597-609): the
   * one before the first rune whose cumulative width exceeds `width`, the
   * first rune when even it overflows, the last rune when nothing does.
   */
  function LastFittingRune(rw: char -> nat, text: string, width: int): (b: nat)
    requires text != []
    ensures b < |text|
  {
    var n := FitLength(rw, text, width);
    if n == |text| then |text| - 1 else if n > 0 then n - 1 else 0
  }

  /**
   * The runes through the last fitting rune fit, unless the first rune alone
   * overflows; the rune after it overflows.
   */
  lemma LastFittingRuneFits(rw: char -> nat, text: string, width: int)
    requires text != []
    ensures width >= 0 && rw(text[0]) <= width ==> FitsThrough(rw, text, width, LastFittingRune(rw, text, width))
    ensures LastFittingRune(rw, text, width) + 1 < |text| ==> !FitsThrough(rw, text, width, LastFittingRune(rw, text, width) + 1)
  {
    var n := FitLength(rw, text, width);
    PrefixWidthStep(rw, text, 0);
    assert text[..0] == [];
    if width >= 0 && rw(text[0]) <= width {
      FitLengthIsLongest(rw, text, width, 1);
    }
  }

  /**
   * findBreakPoint (panel.go:572-627) with byte positions read as rune
   * indices: 0 for empty text; the position of the last space at or before
   * the last fitting rune; failing that, the position just after that rune.
   */
  function BreakPoint(rw: char -> nat, text: string, width: int): (r: nat)
    ensures r <= |text|
  {
    if text == [] then 0
    else
      var p := LastSpace(text, LastFittingRune(rw, text, width));
      if p >= 0 then p else LastFittingRune(rw, text, width) + 1
  }

  /**
   * The break point is the last space up to the last fitting rune, or the
   * position just after that rune when there is no such space.
   */
  lemma BreakPointAtSpace(rw: char -> nat, text: string, width: int)
    requires text != []
    ensures var r, b := BreakPoint(rw, text, width), LastFittingRune(rw, text, width);
      if r <= b then text[r] == ' ' && forall j :: r < j <= b ==> text[j] != ' '
      else r == b + 1 && forall j :: 0 <= j < r ==> text[j] != ' '
  {
  }

  /** When the first rune fits, the text before the break point fits too. */
  lemma BreakPointFits(rw: char -> nat, text: string, width: int)
    requires text != [] && width >= 0 && rw(text[0]) <= width
    ensures StringWidth(rw, text[..BreakPoint(rw, text, width)]) <= width
  {
    var b := LastFittingRune(rw, text, width);
    LastFittingRuneFits(rw, text, width);
    PrefixWidthMonotone(rw, text, BreakPoint(rw, text, width), b + 1);
  }

  /** What findBreakPoint records for one rune. */
  datatype RuneInfo = RuneInfo(bytePos: nat, endByte: nat, cumWidth: int, isSpace: bool)

  /** The rune table findBreakPoint builds (panel.go:581-593). */
  ghost predicate RuneTable(rw: char -> nat, text: string, runes: seq<RuneInfo>)
  {
    |runes| == |text| &&
    forall j :: 0 <= j < |runes| ==>
      runes[j] == RuneInfo(j, j + 1, StringWidth(rw, text[..j + 1]), text[j] == ' ')
  }

  /** findBreakPoint as written: record each rune, find the last one that fits, then search back for a space. */
  method FindBreakPoint(rw: char -> nat, text: string, width: int) returns (r: nat)
    ensures r == BreakPoint(rw, text, width)
  {
    var runes := RecordRunes(rw, text);
    if |runes| == 0 {
      return 0;
    }
    var breakRuneIdx := FindLastFittingRune(rw, text, width, runes);
    var k := breakRuneIdx;
    while k >= 0
      invariant -1 <= k <= breakRuneIdx
      invariant LastSpace(text, k) == LastSpace(text, breakRuneIdx)
    {
      if runes[k].isSpace {
        return runes[k].bytePos;
      }
      k := k - 1;
    }
    // breakRuneIdx always indexes runes, so the fallback to len(text) is never reached.
    r := runes[breakRuneIdx].endByte;
  }

  /** The first loop of findBreakPoint: each rune's position, end, cumulative width and whether it is a space. */
  method RecordRunes(rw: char -> nat, text: string) returns (runes: seq<RuneInfo>)
    ensures RuneTable(rw, text, runes)
  {
    runes := [];
    var currentWidth := 0;
    for i := 0 to |text|
      invariant |runes| == i && currentWidth == StringWidth(rw, text[..i])
      invariant forall j :: 0 <= j < i ==>
        runes[j] == RuneInfo(j, j + 1, StringWidth(rw, text[..j + 1]), text[j] == ' ')
    {
      PrefixWidthStep(rw, text, i);
      runes := runes + [RuneInfo(i, i + 1, currentWidth + rw(text[i]), text[i] == ' ')];
      currentWidth := currentWidth + rw(text[i]);
    }
  }

  /** The second loop of findBreakPoint: the last rune that fits. */
  method FindLastFittingRune(rw: char -> nat, text: string, width: int, runes: seq<RuneInfo>) returns (breakRuneIdx: nat)
    requires text != [] && RuneTable(rw, text, runes)
    ensures breakRuneIdx == LastFittingRune(rw, text, width)
  {
    breakRuneIdx := |runes| - 1;
    var i := 0;
    while i < |runes|
      invariant 0 <= i <= |runes|
      invariant forall j :: 0 <= j < i ==> FitsThrough(rw, text, width, j)
    {
      if runes[i].cumWidth > width {
        if i > 0 {
          breakRuneIdx := i - 1;
        } else {
          breakRuneIdx := 0;
        }
        FirstOverflow(rw, text, width, i);
        return;
      }
      i := i + 1;
    }
    FirstOverflow(rw, text, width, i);
  }

  /** How far wrapText cuts: findBreakPoint's answer, raised to 1 (panel.go:544-548). */
  function BreakAt(rw: char -> nat, para: string, width: int): (b: nat)
    ensures 1 <= b && (para != [] ==> b <= |para|)
  {
    var p := BreakPoint(rw, para, width);
    if p <= 0 then 1 else p
  }

  /** A line cut down to `width` by runewidth.Truncate with an empty tail when it is too wide. */
  function FitLine(rw: char -> nat, line: string, width: int): string
  {
    if StringWidth(rw, line) > width then Truncate(rw, line, width, "") else line
  }

  /** The lines wrapText makes of one paragraph that is not empty (panel.go:543-565). */
  function WrapParagraph(rw: char -> nat, para: string, width: int): seq<string>
    requires width > 0
    decreases |para|
  {
    if StringWidth(rw, para) > width then
      var b := BreakAt(rw, para, width);
      [FitLine(rw, para[..b], width)] + WrapParagraph(rw, TrimLeftSpaces(para[b..]), width)
    else if para == [] then []
    else [FitLine(rw, para, width)]
  }

  /** The lines of one paragraph: a single empty line for an empty paragraph. */
  function ParagraphLines(rw: char -> nat, para: string, width: int): seq<string>
    requires width > 0
  {
    if para == [] then [""] else WrapParagraph(rw, para, width)
  }

  /** What wrapText makes of each paragraph, at a positive width. */
  function ParagraphWrap(rw: char -> nat, width: int): string -> seq<string>
    requires width > 0
  {
    para => ParagraphLines(rw, para, width)
  }

  function Wrapped(rw: char -> nat, text: string, width: int): seq<string>
  {
    if width <= 0 then [text]
    else LinesOf(ParagraphWrap(rw, width), Paragraphs(text))
  }

  /** Every line of a wrapped paragraph fits. */
  lemma {:induction false} WrapParagraphFits(rw: char -> nat, para: string, width: int)
    requires width > 0
    ensures forall line | line in WrapParagraph(rw, para, width) :: StringWidth(rw, line) <= width
    decreases |para|
  {
    if StringWidth(rw, para) > width {
      var b := BreakAt(rw, para, width);
      var rest := TrimLeftSpaces(para[b..]);
      WrapParagraphFits(rw, rest, width);
      FitLineFits(rw, para[..b], width);
      assert WrapParagraph(rw, para, width) == [FitLine(rw, para[..b], width)] + WrapParagraph(rw, rest, width);
    } else if para != [] {
      FitLineFits(rw, para, width);
    }
  }

  /** Every line of a wrapped paragraph holds only runes of the paragraph. */
  lemma {:induction false} WrapParagraphRunes(rw: char -> nat, para: string, width: int)
    requires width > 0
    ensures forall line, c | line in WrapParagraph(rw, para, width) && c in line :: c in para
    decreases |para|
  {
    if StringWidth(rw, para) > width {
      var b := BreakAt(rw, para, width);
      var rest := TrimLeftSpaces(para[b..]);
      TrimLeftSpacesSuffix(para[b..]);
      WrapParagraphRunes(rw, rest, width);
      FitLineFits(rw, para[..b], width);
      forall c | c in rest ensures c in para {
        var j :| 0 <= j < |rest| && rest[j] == c;
        assert para[b..][|para[b..]| - |rest| + j] == c;
      }
      forall c | c in para[..b] ensures c in para { }
      assert WrapParagraph(rw, para, width) == [FitLine(rw, para[..b], width)] + WrapParagraph(rw, rest, width);
    } else if para != [] {
      FitLineFits(rw, para, width);
    }
  }

  /** A fitted line fits and holds only runes of the line it was cut from. */
  lemma FitLineFits(rw: char -> nat, line: string, width: int)
    requires width >= 0
    ensures StringWidth(rw, FitLine(rw, line, width)) <= width
    ensures forall c :: c in FitLine(rw, line, width) ==> c in line
  {
    TruncateEmptyTailFits(rw, line, width);
    var k :| 0 <= k <= |line| && Truncate(rw, line, width, "") == line[..k];
    forall c | c in line[..k] ensures c in line { }
  }

  /** Every line of a list of wrapped paragraphs fits and holds no newline. */
  lemma {:induction false} ParagraphLinesFit(rw: char -> nat, paras: seq<string>, width: int)
    requires width > 0
    requires forall k :: 0 <= k < |paras| ==> '\n' !in paras[k]
    ensures forall line | line in LinesOf(ParagraphWrap(rw, width), paras) :: StringWidth(rw, line) <= width && '\n' !in line
  {
    if paras != [] {
      var init := paras[..|paras| - 1];
      var last := paras[|paras| - 1];
      ParagraphLinesFit(rw, init, width);
      assert ParagraphWrap(rw, width)(last) == ParagraphLines(rw, last, width);
      if last != [] {
        WrapParagraphFits(rw, last, width);
        WrapParagraphRunes(rw, last, width);
      }
    }
  }

  /** With a positive width, every line wrapText gives fits into `width` columns and holds no newline. */
  lemma WrappedFits(rw: char -> nat, text: string, width: int)
    requires width > 0
    ensures forall line | line in Wrapped(rw, text, width) :: StringWidth(rw, line) <= width && '\n' !in line
  {
    ParagraphLinesFit(rw, Paragraphs(text), width);
  }

  /** A paragraph that fits is one line, unchanged. */
  lemma WrappedFitting(rw: char -> nat, text: string, width: int)
    requires width > 0 && text != [] && '\n' !in text && '\r' !in text && StringWidth(rw, text) <= width
    ensures Wrapped(rw, text, width) == [text]
  {
    SingleParagraph(text);
    LinesOfSingle(ParagraphWrap(rw, width), text);
    assert WrapParagraph(rw, text, width) == [text];
  }

  /** wrapText as written: a loop over the paragraphs. */
  method WrapText(rw: char -> nat, text: string, width: int) returns (lines: seq<string>)
    ensures lines == Wrapped(rw, text, width)
  {
    if width <= 0 {
      return [text];
    }
    lines := [];
    var s := ReplaceRune(text, '\r', "");
    var paragraphs := Split(s, '\n');
    for i := 0 to |paragraphs|
      invariant lines == LinesOf(ParagraphWrap(rw, width), paragraphs[..i])
    {
      assert paragraphs[..i + 1][..i] == paragraphs[..i];
      var para := paragraphs[i];
      if para == "" {
        lines := lines + [""];
        continue;
      }
      var paraLines := WrapParagraphLoop(rw, para, width);
      lines := lines + paraLines;
    }
    assert paragraphs[..|paragraphs|] == paragraphs;
  }

  /** The inner loop of wrapText (panel.go:543-565): cut lines off the front of the paragraph while it is too wide. */
  method WrapParagraphLoop(rw: char -> nat, para0: string, width: int) returns (out: seq<string>)
    requires width > 0
    ensures out == WrapParagraph(rw, para0, width)
  {
    out := [];
    var para := para0;
    while StringWidth(rw, para) > width
      invariant out + WrapParagraph(rw, para, width) == WrapParagraph(rw, para0, width)
      decreases |para|
    {
      var breakAt := FindBreakPoint(rw, para, width);
      if breakAt <= 0 {
        breakAt := 1;
      }
      var line := para[..breakAt];
      if StringWidth(rw, line) > width {
        line := Truncate(rw, line, width, "");
      }
      Regroup(out, [line], WrapParagraph(rw, TrimLeftSpaces(para[breakAt..]), width));
      out := out + [line];
      para := TrimLeftSpaces(para[breakAt..]);
    }
    if para != "" {
      if StringWidth(rw, para) > width {
        para := Truncate(rw, para, width, "");
      }
      out := out + [para];
    } else {
      assert out + [] == out;
    }
  }

  // ---------------------------------------------------------------------
  // Panel assembly
  // ---------------------------------------------------------------------

  /** Go's integer division, which truncates toward zero. */
  function Quot(a: int, b: int): (q: int)
    requires b > 0
    ensures a >= 0 ==> q == a / b
    ensures a < 0 ==> q == -((-a) / b)
  {
    if a >= 0 then a / b else -((-a) / b)
  }

  /** Line `i` of a list of lines, or the empty line past its end. */
  function RowOr(lines: seq<string>, i: int): string
  {
    if 0 <= i < |lines| then lines[i] else ""
  }

  /** Combined row `i` (panel.go:103-117): body row `i` padded to `bodyWidth`, then scrollbar row `i`. */
  function CombinedRow(rw: char -> nat, bodyLines: seq<string>, scrollLines: seq<string>, bodyWidth: int, i: int): string
  {
    PadToWidth(rw, RowOr(bodyLines, i), bodyWidth) + RowOr(scrollLines, i)
  }

  /** With one column per space, the scrollbar of every combined row starts in column `bodyWidth`. */
  lemma CombinedRowWidth(rw: char -> nat, bodyLines: seq<string>, scrollLines: seq<string>, bodyWidth: int, i: int)
    requires NarrowAscii(rw) && bodyWidth >= 0
    requires VisibleWidth(rw, RowOr(bodyLines, i)) > bodyWidth || !EscapeAfter(false, RowOr(bodyLines, i))
    ensures VisibleWidth(rw, CombinedRow(rw, bodyLines, scrollLines, bodyWidth, i)) ==
      bodyWidth + VisibleWidth(rw, RowOr(scrollLines, i))
  {
    var padded := PadToWidth(rw, RowOr(bodyLines, i), bodyWidth);
    PadToWidthExact(rw, RowOr(bodyLines, i), bodyWidth);
    EscapeAppend(rw, false, padded, RowOr(scrollLines, i));
  }

  /** The combining loop of RenderPanel (panel.go:102-118): as many rows as the longer of body and scrollbar. */
  method CombineLines(rw: char -> nat, bodyLines: seq<string>, scrollLines: seq<string>, bodyWidth: int)
    returns (combined: seq<string>)
    ensures |combined| == Max(|bodyLines|, |scrollLines|)
    ensures forall i :: 0 <= i < |combined| ==> combined[i] == CombinedRow(rw, bodyLines, scrollLines, bodyWidth, i)
  {
    combined := [];
    var i := 0;
    while i < |bodyLines| || i < |scrollLines|
      invariant 0 <= i <= Max(|bodyLines|, |scrollLines|) && |combined| == i
      decreases Max(|bodyLines|, |scrollLines|) - i
      invariant forall j :: 0 <= j < i ==> combined[j] == CombinedRow(rw, bodyLines, scrollLines, bodyWidth, j)
    {
      var bodyLine := "";
      var scrollLine := "";
      if i < |bodyLines| {
        bodyLine := bodyLines[i];
      }
      if i < |scrollLines| {
        scrollLine := scrollLines[i];
      }
      bodyLine := PadToWidth(rw, bodyLine, bodyWidth);
      combined := combined + [bodyLine + scrollLine];
      i := i + 1;
    }
  }

  /** Whether a panel of this outer size has room to draw into (panel.go:83-85, 140-142). */
  predicate TooSmall(width: int, height: int)
  {
    width - 2 < 10 || height - 2 < 3
  }

  /** Content row `i` of a panel showing a session: the header, the combined rows, then blank rows. */
  function PanelRow(rw: char -> nat, header: string, bodyLines: seq<string>, scrollLines: seq<string>, innerWidth: int, i: int): string
  {
    if i == 0 then header
    else if i - 1 < Max(|bodyLines|, |scrollLines|) then CombinedRow(rw, bodyLines, scrollLines, innerWidth - 1, i - 1)
    else Repeat(' ', innerWidth)
  }

  /**
   * The line assembly of RenderPanel (panel.go:73-133) for a session whose
   * header, body and scrollbar are already rendered: nothing when the panel
   * is too small, otherwise exactly innerHeight rows (the border is drawn
   * around them).
   */
  method RenderPanelLines(rw: char -> nat, width: int, height: int, header: string, body: string, scrollbar: string)
    returns (r: Option<seq<string>>)
    ensures r.None? <==> TooSmall(width, height)
    ensures r.Some? ==> (|r.value| == height - 2 &&
      forall i :: 0 <= i < |r.value| ==>
        r.value[i] == PanelRow(rw, header, Split(body, '\n'), Split(scrollbar, '\n'), width - 2, i))
  {
    var innerWidth := width - 2;
    var innerHeight := height - 2;
    if innerWidth < 10 || innerHeight < 3 {
      return None;
    }
    var bodyWidth := innerWidth - 1;
    var bodyLines := Split(body, '\n');
    var scrollbarLines := Split(scrollbar, '\n');
    var combinedLines := CombineLines(rw, bodyLines, scrollbarLines, bodyWidth);
    var allLines := [header] + combinedLines;
    while |allLines| < innerHeight
      invariant |allLines| >= 1 + Max(|bodyLines|, |scrollbarLines|)
      invariant forall i :: 0 <= i < |allLines| ==>
        allLines[i] == PanelRow(rw, header, bodyLines, scrollbarLines, innerWidth, i)
    {
      allLines := allLines + [Repeat(' ', innerWidth)];
    }
    if |allLines| > innerHeight {
      allLines := allLines[..innerHeight];
    }
    return Some(allLines);
  }

  /** The text of a panel without a session. */
  const WaitingText: string := "Waiting for session..."

  /** The blank rows above the waiting message (panel.go:159). */
  function TopPad(innerHeight: int): int
  {
    Quot(innerHeight - 1, 2)
  }

  /** The columns before the waiting message (panel.go:148-152). */
  function LeftPad(innerWidth: int, textWidth: int): int
  {
    Max(0, Quot(innerWidth - textWidth, 2))
  }

  /** Content row `i` of a panel without a session: the padded message on row TopPad, blank rows elsewhere. */
  function EmptyPanelRow(rw: char -> nat, text: string, styled: string, innerWidth: int, innerHeight: int, i: int): string
  {
    if i == TopPad(innerHeight) then CenteredLine(rw, text, styled, innerWidth) else Repeat(' ', innerWidth)
  }

  /** The waiting message moved right by LeftPad and padded to the inner width. */
  function CenteredLine(rw: char -> nat, text: string, styled: string, innerWidth: int): string
  {
    PadToWidth(rw, Repeat(' ', LeftPad(innerWidth, StringWidth(rw, text))) + styled, innerWidth)
  }

  /**
   * renderEmptyPanel (panel.go:136-176), with `text` the waiting text (the
   * one caller passes WaitingText) and `styled` that text as the empty style
   * renders it: nothing when the panel is too small, otherwise innerHeight
   * rows with the message centred.
   */
  method RenderEmptyPanel(rw: char -> nat, width: int, height: int, text: string, styled: string) returns (r: Option<seq<string>>)
    ensures r.None? <==> TooSmall(width, height)
    ensures r.Some? ==> (|r.value| == height - 2 &&
      forall i :: 0 <= i < |r.value| ==> r.value[i] == EmptyPanelRow(rw, text, styled, width - 2, height - 2, i))
  {
    var innerWidth := width - 2;
    var innerHeight := height - 2;
    if innerWidth < 10 || innerHeight < 3 {
      return None;
    }
    var textWidth := StringWidth(rw, text);
    var leftPad := Quot(innerWidth - textWidth, 2);
    if leftPad < 0 {
      leftPad := 0;
    }
    var emptyLine := Repeat(' ', innerWidth);
    var topPad := Quot(innerHeight - 1, 2);
    var lines := BlankRows(emptyLine, topPad);
    var centeredLine := Repeat(' ', leftPad) + styled;
    centeredLine := PadToWidth(rw, centeredLine, innerWidth);
    assert centeredLine == CenteredLine(rw, text, styled, innerWidth);
    lines := lines + [centeredLine];
    while |lines| < innerHeight
      invariant topPad < |lines| <= innerHeight
      invariant forall i :: 0 <= i < |lines| ==> lines[i] == if i == topPad then centeredLine else emptyLine
    {
      lines := lines + [emptyLine];
    }
    return Some(lines);
  }

  /** The loop that puts `count` blank rows above the waiting message. */
  method BlankRows(emptyLine: string, count: int) returns (lines: seq<string>)
    ensures |lines| == Max(count, 0) && forall i :: 0 <= i < |lines| ==> lines[i] == emptyLine
  {
    lines := [];
    for k := 0 to Max(count, 0)
      invariant |lines| == k && forall i :: 0 <= i < k ==> lines[i] == emptyLine
    {
      lines := lines + [emptyLine];
    }
  }

  /** The waiting message sits on a row of its own, with as many blank rows below it as above, or one more. */
  lemma EmptyPanelCentered(innerHeight: int)
    requires innerHeight >= 3
    ensures 1 <= TopPad(innerHeight) < innerHeight
    ensures var below := innerHeight - 1 - TopPad(innerHeight); below == TopPad(innerHeight) || below == TopPad(innerHeight) + 1
  {
  }

  /** What a panel's rendered parts are, for a session; None stands for a nil session. */
  datatype PanelParts = PanelParts(header: string, body: string, scrollbar: string)

  /** RenderPanel (panel.go:73-133): a nil session gets the empty panel. */
  method RenderPanel(rw: char -> nat, parts: Option<PanelParts>, styledWaiting: string, width: int, height: int)
    returns (r: Option<seq<string>>)
    ensures r.None? <==> TooSmall(width, height)
    ensures r.Some? ==> |r.value| == height - 2
    ensures r.Some? && parts.None? ==>
      forall i :: 0 <= i < |r.value| ==> r.value[i] == EmptyPanelRow(rw, WaitingText, styledWaiting, width - 2, height - 2, i)
    ensures r.Some? && parts.Some? ==>
      r.value[0] == parts.value.header &&
      forall i :: 0 <= i < |r.value| ==>
        r.value[i] == PanelRow(rw, parts.value.header, Split(parts.value.body, '\n'), Split(parts.value.scrollbar, '\n'), width - 2, i)
  {
    if parts.None? {
      r := RenderEmptyPanel(rw, width, height, WaitingText, styledWaiting);
    } else {
      r := RenderPanelLines(rw, width, height, parts.value.header, parts.value.body, parts.value.scrollbar);
    }
  }

  /** The body lines in the window, each padded to `width` (panel.go:231-237). */
  function PaddedWindow(rw: char -> nat, lines: seq<string>, width: int, height: int, scrollPos: int): (r: seq<string>)
    requires height >= 0
  {
    var w := CalculateVisibleWindow(|lines|, height, scrollPos);
    var shown := lines[w.start..w.end];
    seq(|shown|, k requires 0 <= k < |shown| => PadToWidth(rw, shown[k], width))
  }

  /**
   * The window never has more rows than the body height, and in follow mode
   * it shows the newest lines: the last min(height, total) of them.
   */
  lemma PaddedWindowFollows(rw: char -> nat, lines: seq<string>, width: int, height: int, scrollPos: int)
    requires height >= 0
    ensures |PaddedWindow(rw, lines, width, height, scrollPos)| <= height
    ensures scrollPos < 0 ==>
      var shown := lines[|lines| - Min(height, |lines|)..];
      |PaddedWindow(rw, lines, width, height, scrollPos)| == |shown| &&
      forall k :: 0 <= k < |shown| ==> PaddedWindow(rw, lines, width, height, scrollPos)[k] == PadToWidth(rw, shown[k], width)
  {
  }

  /**
   * renderBodyWithInfo (panel.go:207-240), with `messageLines` the lines the
   * messages render to, oldest first: a placeholder line when there are no
   * messages, otherwise the window of lines, each padded, joined by newlines.
   */
  method RenderBody(rw: char -> nat, hasMessages: bool, messageLines: seq<string>, placeholder: string,
                    width: int, height: int, scrollPos: int)
    returns (body: string, totalLines: int)
    requires height >= 0
    ensures !hasMessages ==> body == PadToWidth(rw, placeholder, width) && totalLines == 0
    ensures hasMessages ==> (totalLines == |messageLines| &&
      body == Join(PaddedWindow(rw, messageLines, width, height, scrollPos), '\n'))
  {
    if !hasMessages {
      return PadToWidth(rw, placeholder, width), 0;
    }
    totalLines := |messageLines|;
    var w := CalculateVisibleWindow(totalLines, height, scrollPos);
    var visibleLines := messageLines[w.start..w.end];
    var paddedLines: seq<string> := [];
    for i := 0 to |visibleLines|
      invariant |paddedLines| == i
      invariant forall k :: 0 <= k < i ==> paddedLines[k] == PadToWidth(rw, visibleLines[k], width)
    {
      paddedLines := paddedLines + [PadToWidth(rw, visibleLines[i], width)];
    }
    assert paddedLines == PaddedWindow(rw, messageLines, width, height, scrollPos);
    body := Join(paddedLines, '\n');
  }
}
