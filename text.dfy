/**
 * String helpers shared by the whole model: the parts of Go's `strings`
 * package the core calls, and the terminal-width measure of the runewidth
 * library. Strings are `seq<char>`; byte positions are rune indices.
 *
 * The width of a single rune is kept abstract: every member that measures
 * text takes it as a parameter `rw: char -> nat`, and the width of a string
 * is the sum of the widths of its runes.
 */
module Text {

  datatype Option<T> = None | Some(value: T)

  /** runewidth.StringWidth: the sum of the rune widths. */
  function StringWidth(rw: char -> nat, s: string): nat
  {
    if s == [] then 0 else rw(s[0]) + StringWidth(rw, s[1..])
  }

  /** The widths the rendering code relies on: a space and a dot take one column. */
  predicate NarrowAscii(rw: char -> nat)
  {
    rw(' ') == 1 && rw('.') == 1
  }

  lemma {:induction false} StringWidthAppend(rw: char -> nat, a: string, b: string)
    ensures StringWidth(rw, a + b) == StringWidth(rw, a) + StringWidth(rw, b)
  {
    if a != [] {
      assert (a + b)[1..] == a[1..] + b;
      StringWidthAppend(rw, a[1..], b);
    } else {
      assert a + b == b;
    }
  }

  /** A longer prefix is never narrower. */
  lemma PrefixWidthMonotone(rw: char -> nat, s: string, i: nat, j: nat)
    requires i <= j <= |s|
    ensures StringWidth(rw, s[..i]) <= StringWidth(rw, s[..j])
  {
    assert s[..j] == s[..i] + s[i..j];
    StringWidthAppend(rw, s[..i], s[i..j]);
  }

  lemma PrefixWidthStep(rw: char -> nat, s: string, i: nat)
    requires i < |s|
    ensures StringWidth(rw, s[..i + 1]) == StringWidth(rw, s[..i]) + rw(s[i])
  {
    assert s[..i + 1] == s[..i] + [s[i]];
    StringWidthAppend(rw, s[..i], [s[i]]);
    assert [s[i]][1..] == [];
  }

  /**
   * Number of leading runes that fit into `budget` columns: the scan stops
   * at the first rune that would overflow, as runewidth.Truncate does.
   */
  function FitLength(rw: char -> nat, s: string, budget: int): (n: nat)
    ensures n <= |s|
    ensures budget >= 0 ==> StringWidth(rw, s[..n]) <= budget
    ensures budget < 0 ==> n == 0
    ensures n < |s| ==> StringWidth(rw, s[..n + 1]) > budget
  {
    if s == [] || rw(s[0]) > budget then
      assert s != [] ==> s[..1] == [s[0]] && StringWidth(rw, s[..1]) == rw(s[0]);
      0
    else
      var n := 1 + FitLength(rw, s[1..], budget - rw(s[0]));
      assert s[..n] == [s[0]] + s[1..][..n - 1];
      assert n < |s| ==> s[..n + 1] == [s[0]] + s[1..][..n];
      n
  }

  /** FitLength is the longest prefix whose width fits. */
  lemma FitLengthIsLongest(rw: char -> nat, s: string, budget: int, k: nat)
    requires k <= |s| && StringWidth(rw, s[..k]) <= budget
    ensures k <= FitLength(rw, s, budget)
  {
    var n := FitLength(rw, s, budget);
    if k > n {
      PrefixWidthMonotone(rw, s, n + 1, k);
    }
  }

  /**
   * runewidth.Truncate(s, w, tail): `s` itself when it fits into `w`
   * columns, otherwise the longest prefix fitting into what the tail leaves,
   * followed by the tail.
   */
  function Truncate(rw: char -> nat, s: string, w: int, tail: string): (r: string)
    ensures StringWidth(rw, s) <= w ==> r == s
    ensures StringWidth(rw, s) > w ==>
      exists k :: 0 <= k <= |s| && r == s[..k] + tail &&
        (w - StringWidth(rw, tail) >= 0 ==> StringWidth(rw, s[..k]) <= w - StringWidth(rw, tail))
  {
    if StringWidth(rw, s) <= w then s
    else
      var k := FitLength(rw, s, w - StringWidth(rw, tail));
      s[..k] + tail
  }

  /** With an empty tail, Truncate keeps a prefix of width at most `w`. */
  lemma TruncateEmptyTailFits(rw: char -> nat, s: string, w: int)
    requires w >= 0
    ensures StringWidth(rw, Truncate(rw, s, w, "")) <= w
    ensures exists k :: 0 <= k <= |s| && Truncate(rw, s, w, "") == s[..k]
  {
    if StringWidth(rw, s) > w {
      var k := FitLength(rw, s, w);
      assert s[..k] + "" == s[..k];
    } else {
      assert s[..|s|] == s;
    }
  }

  /** Whether the runes up to and including rune `j` fit into `width` columns. */
  predicate FitsThrough(rw: char -> nat, text: string, width: int, j: nat)
    requires j < |text|
  {
    StringWidth(rw, text[..j + 1]) <= width
  }

  /** A scan that sees every rune before `i` fit and rune `i` (if any) overflow has found FitLength. */
  lemma FirstOverflow(rw: char -> nat, text: string, width: int, i: nat)
    requires i <= |text|
    requires forall j :: 0 <= j < i ==> FitsThrough(rw, text, width, j)
    requires i < |text| ==> !FitsThrough(rw, text, width, i)
    ensures FitLength(rw, text, width) == i
  {
    var n := FitLength(rw, text, width);
    if width >= 0 {
      if i > 0 {
        assert FitsThrough(rw, text, width, i - 1);
        assert text[..i - 1 + 1] == text[..i];
      } else {
        assert text[..0] == [];
      }
      FitLengthIsLongest(rw, text, width, i);
      if i < n {
        PrefixWidthMonotone(rw, text, i + 1, n);
      }
    } else {
      assert 0 < i ==> FitsThrough(rw, text, width, 0);
    }
  }

  /** strings.Repeat of a single rune. */
  function Repeat(c: char, n: int): (r: string)
    ensures |r| == (if n < 0 then 0 else n)
    ensures forall i :: 0 <= i < |r| ==> r[i] == c
  {
    if n <= 0 then [] else [c] + Repeat(c, n - 1)
  }

  lemma {:induction false} RepeatWidth(rw: char -> nat, c: char, n: nat)
    ensures StringWidth(rw, Repeat(c, n)) == n * rw(c)
  {
    if n > 0 {
      assert Repeat(c, n)[1..] == Repeat(c, n - 1);
      RepeatWidth(rw, c, n - 1);
    }
  }

  /** strings.ReplaceAll where the searched string is the single rune `c`. */
  function ReplaceRune(s: string, c: char, with: string): (r: string)
    ensures c !in with ==> c !in r
    ensures forall x :: x in r ==> x in s || x in with
  {
    if s == [] then []
    else (if s[0] == c then with else [s[0]]) + ReplaceRune(s[1..], c, with)
  }

  /** Replacing a rune by a single rune keeps the length and every other rune. */
  lemma {:induction false} ReplaceRuneByRune(s: string, c: char, d: char)
    ensures |ReplaceRune(s, c, [d])| == |s|
    ensures forall i :: 0 <= i < |s| ==>
      ReplaceRune(s, c, [d])[i] == (if s[i] == c then d else s[i])
  {
    if s != [] {
      ReplaceRuneByRune(s[1..], c, d);
    }
  }

  /** Replacing a rune that does not occur changes nothing. */
  lemma {:induction false} ReplaceAbsentRune(s: string, c: char, with: string)
    requires c !in s
    ensures ReplaceRune(s, c, with) == s
  {
    if s != [] {
      ReplaceAbsentRune(s[1..], c, with);
    }
  }

  /** strings.Split with a one-rune separator. */
  function Split(s: string, sep: char): (parts: seq<string>)
    ensures |parts| >= 1
    ensures forall i :: 0 <= i < |parts| ==> sep !in parts[i]
  {
    if s == [] then [""]
    else
      var rest := Split(s[1..], sep);
      if s[0] == sep then [""] + rest
      else [[s[0]] + rest[0]] + rest[1..]
  }

  /** strings.Join with a one-rune separator. */
  function Join(parts: seq<string>, sep: char): string
  {
    if parts == [] then ""
    else if |parts| == 1 then parts[0]
    else parts[0] + [sep] + Join(parts[1..], sep)
  }

  /** Splitting and joining again gives back the original string. */
  lemma {:induction false} SplitJoin(s: string, sep: char)
    ensures Join(Split(s, sep), sep) == s
  {
    if s != [] {
      var rest := Split(s[1..], sep);
      SplitJoin(s[1..], sep);
      if s[0] == sep {
        assert Split(s, sep)[1..] == rest;
      } else {
        var parts := Split(s, sep);
        assert parts[1..] == rest[1..];
        if |rest| == 1 {
          assert s == [s[0]] + s[1..];
        } else {
          assert rest[1..][1..] == rest[2..];
          assert Join(rest, sep) == rest[0] + [sep] + Join(rest[1..], sep);
        }
      }
    }
  }

  /** A string without the separator splits into itself alone. */
  lemma {:induction false} SplitWithoutSeparator(s: string, sep: char)
    requires sep !in s
    ensures Split(s, sep) == [s]
  {
    if s != [] {
      assert sep !in s[1..] by {
        forall x | x in s[1..] ensures x in s { }
      }
      SplitWithoutSeparator(s[1..], sep);
      assert s[0] != sep;
      assert [s[0]] + s[1..] == s;
    }
  }

  /** A part without the separator, then the separator, splits off as the first part. */
  lemma {:induction false} SplitPrefix(a: string, rest: string, sep: char)
    requires sep !in a
    ensures Split(a + [sep] + rest, sep) == [a] + Split(rest, sep)
  {
    if a == [] {
      assert a + [sep] + rest == [sep] + rest;
      assert ([sep] + rest)[1..] == rest;
    } else {
      assert (a + [sep] + rest)[1..] == a[1..] + [sep] + rest;
      assert sep !in a[1..] by {
        forall x | x in a[1..] ensures x in a { }
      }
      SplitPrefix(a[1..], rest, sep);
      assert [a[0]] + a[1..] == a;
    }
  }

  /** Joining parts that do not contain the separator and splitting again gives back the parts. */
  lemma {:induction false} JoinSplit(parts: seq<string>, sep: char)
    requires |parts| >= 1 && forall k :: 0 <= k < |parts| ==> sep !in parts[k]
    ensures Split(Join(parts, sep), sep) == parts
  {
    if |parts| == 1 {
      SplitWithoutSeparator(parts[0], sep);
    } else {
      JoinSplit(parts[1..], sep);
      SplitPrefix(parts[0], Join(parts[1..], sep), sep);
      assert [parts[0]] + parts[1..] == parts;
    }
  }

  predicate HasSuffix(s: string, suffix: string)
  {
    |suffix| <= |s| && s[|s| - |suffix|..] == suffix
  }

  lemma SuffixOfAppend(s: string, suffix: string)
    ensures HasSuffix(s + suffix, suffix) && TrimSuffix(s + suffix, suffix) == s
  {
    assert (s + suffix)[|s|..] == suffix;
    assert (s + suffix)[..|s|] == s;
  }

  /** strings.TrimSuffix. */
  function TrimSuffix(s: string, suffix: string): (r: string)
    ensures HasSuffix(s, suffix) ==> r + suffix == s
    ensures !HasSuffix(s, suffix) ==> r == s
  {
    if HasSuffix(s, suffix) then s[..|s| - |suffix|] else s
  }

  /** strings.TrimLeft(s, " "): drop every leading space. */
  function TrimLeftSpaces(s: string): (r: string)
    ensures |r| <= |s|
  {
    if s != [] && s[0] == ' ' then TrimLeftSpaces(s[1..]) else s
  }

  /** What TrimLeft keeps is a suffix that does not start with a space, and what it drops is all spaces. */
  lemma {:induction false} TrimLeftSpacesSuffix(s: string)
    ensures var r := TrimLeftSpaces(s);
      r == s[|s| - |r|..] && (r != [] ==> r[0] != ' ') && forall i :: 0 <= i < |s| - |r| ==> s[i] == ' '
  {
    if s != [] && s[0] == ' ' {
      TrimLeftSpacesSuffix(s[1..]);
      var r := TrimLeftSpaces(s);
      assert s[1..][|s[1..]| - |r|..] == s[|s| - |r|..];
      forall i | 0 <= i < |s| - |r| ensures s[i] == ' ' {
        if i > 0 {
          assert s[i] == s[1..][i - 1];
        }
      }
    } else {
      assert s[0..] == s;
    }
  }

  /** The last space at or before index `i`, or -1 when there is none. */
  function LastSpace(text: string, i: int): (p: int)
    requires -1 <= i < |text|
    ensures -1 <= p <= i
    ensures p >= 0 ==> text[p] == ' '
    ensures forall j :: p < j <= i ==> text[j] != ' '
    decreases i + 1
  {
    if i < 0 then -1 else if text[i] == ' ' then i else LastSpace(text, i - 1)
  }

  predicate OccursAt(s: string, sub: string, i: int)
  {
    0 <= i && i + |sub| <= |s| && s[i..i + |sub|] == sub
  }

  /** strings.Contains. */
  predicate Contains(s: string, sub: string)
  {
    exists i | 0 <= i <= |s| :: OccursAt(s, sub, i)
  }

  /** Concatenation regrouped, for loops that append what the rest of their input contributes. */
  lemma Regroup<T>(a: seq<T>, b: seq<T>, c: seq<T>)
    ensures a + (b + c) == a + b + c
  {
  }

  // ---------------------------------------------------------------------
  // Paragraphs, as both wrapText functions walk them
  // ---------------------------------------------------------------------

  /** The paragraphs of a text: carriage returns dropped, then strings.Split at newlines. */
  function Paragraphs(text: string): (paras: seq<string>)
    ensures |paras| >= 1 && forall k :: 0 <= k < |paras| ==> '\n' !in paras[k] && '\r' !in paras[k]
  {
    var paras := Split(ReplaceRune(text, '\r', ""), '\n');
    assert forall k :: 0 <= k < |paras| ==> '\r' !in paras[k] by {
      forall k | 0 <= k < |paras| ensures '\r' !in paras[k] {
        SplitRunes(ReplaceRune(text, '\r', ""), '\n', k);
      }
    }
    paras
  }

  /** Every rune of a part of a split string occurs in the string. */
  lemma {:induction false} SplitRunes(s: string, sep: char, k: int)
    requires 0 <= k < |Split(s, sep)|
    ensures forall c :: c in Split(s, sep)[k] ==> c in s
  {
    if s != [] {
      var rest := Split(s[1..], sep);
      if s[0] == sep {
        if k > 0 {
          SplitRunes(s[1..], sep, k - 1);
        }
      } else if k == 0 {
        SplitRunes(s[1..], sep, 0);
      } else {
        SplitRunes(s[1..], sep, k);
      }
    }
  }

  /** The lines of a list of paragraphs, each turned into lines by `lines`, in order. */
  function LinesOf(lines: string -> seq<string>, paras: seq<string>): seq<string>
    decreases |paras|
  {
    if paras == [] then []
    else LinesOf(lines, paras[..|paras| - 1]) + lines(paras[|paras| - 1])
  }

  /** One more paragraph adds its lines at the end. */
  lemma LinesOfSnoc(lines: string -> seq<string>, paras: seq<string>, para: string)
    ensures LinesOf(lines, paras + [para]) == LinesOf(lines, paras) + lines(para)
  {
    assert (paras + [para])[..|paras|] == paras;
  }

  /** The lines of two lists of paragraphs, one after the other. */
  lemma {:induction false} LinesOfAppend(lines: string -> seq<string>, a: seq<string>, b: seq<string>)
    ensures LinesOf(lines, a + b) == LinesOf(lines, a) + LinesOf(lines, b)
    decreases |b|
  {
    if b == [] {
      assert a + b == a;
    } else {
      var init, last := b[..|b| - 1], b[|b| - 1];
      assert b == init + [last];
      assert a + b == (a + init) + [last];
      LinesOfSnoc(lines, a + init, last);
      LinesOfSnoc(lines, init, last);
      LinesOfAppend(lines, a, init);
      Regroup(LinesOf(lines, a), LinesOf(lines, init), lines(last));
    }
  }

  /** One paragraph gives its own lines. */
  lemma LinesOfSingle(lines: string -> seq<string>, para: string)
    ensures LinesOf(lines, [para]) == lines(para)
  {
    assert [para][..0] == [];
  }

  /**
   * Paragraphs are wrapped one after another: the lines of a text whose
   * first paragraph is `a` are the lines of `a`, then the lines of the rest.
   */
  lemma ParagraphsInOrder(lines: string -> seq<string>, a: string, b: string)
    requires '\n' !in a && '\r' !in a && '\r' !in b
    ensures LinesOf(lines, Paragraphs(a + "\n" + b)) == lines(a) + LinesOf(lines, Paragraphs(b))
  {
    var s := a + "\n" + b;
    assert '\r' !in s;
    ReplaceAbsentRune(s, '\r', "");
    ReplaceAbsentRune(b, '\r', "");
    SplitPrefix(a, b, '\n');
    var rest := Paragraphs(b);
    assert Paragraphs(s) == [a] + rest;
    LinesOfAppend(lines, [a], rest);
    LinesOfSingle(lines, a);
  }

  /** A text without newlines or carriage returns is one paragraph. */
  lemma SingleParagraph(text: string)
    requires '\n' !in text && '\r' !in text
    ensures Paragraphs(text) == [text]
  {
    ReplaceAbsentRune(text, '\r', "");
    SplitWithoutSeparator(text, '\n');
  }
}
