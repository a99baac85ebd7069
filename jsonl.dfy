/**
 * The JSONL reader of internal/parser/jsonl.go: a file is a sequence of
 * bytes, split into lines the way bufio.Scanner with ScanLines does, with a
 * token cap of 1 MiB; every non-empty line is handed to a JSON decoder that
 * may fail. The decoder is a parameter (`decode`), and a message is an
 * opaque value.
 */
module Jsonl {
  import opened Text

  newtype byte = x: int | 0 <= x < 256

  /** parser.Message; its fields are filled by encoding/json and are not modelled. */
  type Message(==, !new)

  const NewLine: byte := 10
  const CarriageReturn: byte := 13

  /** The maximum token size given to scanner.Buffer (jsonl.go:99). */
  const MaxTokenSize: nat := 1024 * 1024

  /**
   * What opening a path yields: either nothing (os.Open fails), or the
   * file's bytes together with whether seeking to an offset, and asking for
   * the current position, fail.
   */
  datatype OpenFile = OpenFile(data: seq<byte>, seekFails: bool, tellFails: bool)

  /** The lines bufio.Scanner yields, and whether it stopped with ErrTooLong. */
  datatype Scan = Scan(tokens: seq<seq<byte>>, tooLong: bool)

  /** Position of the first newline at or after `pos`, or |data| when there is none. */
  function NextNewLine(data: seq<byte>, pos: nat): (n: nat)
    requires pos <= |data|
    ensures pos <= n <= |data|
    ensures forall k :: pos <= k < n ==> data[k] != NewLine
    ensures n < |data| ==> data[n] == NewLine
    decreases |data| - pos
  {
    if pos == |data| || data[pos] == NewLine then pos else NextNewLine(data, pos + 1)
  }

  /** ScanLines drops one carriage return at the end of a line. */
  function DropCR(line: seq<byte>): (r: seq<byte>)
    ensures |line| > 0 && line[|line| - 1] == CarriageReturn ==> r == line[..|line| - 1]
    ensures !(|line| > 0 && line[|line| - 1] == CarriageReturn) ==> r == line
  {
    if |line| > 0 && line[|line| - 1] == CarriageReturn then line[..|line| - 1] else line
  }

  /**
   * The scanner from byte `pos` to the end of the input: every newline ends
   * a line, a final line without a newline is still a line, and a line of
   * MaxTokenSize bytes or more (counted before the carriage return is
   * dropped) stops the scan with ErrTooLong, since the buffer fills up
   * before its end is seen.
   */
  function ScanFrom(data: seq<byte>, pos: nat): Scan
    requires pos <= |data|
    decreases |data| - pos
  {
    if pos == |data| then Scan([], false)
    else
      var n := NextNewLine(data, pos);
      if n - pos >= MaxTokenSize then Scan([], true)
      else if n == |data| then Scan([DropCR(data[pos..])], false)
      else
        var rest := ScanFrom(data, n + 1);
        Scan([DropCR(data[pos..n])] + rest.tokens, rest.tooLong)
  }

  /** The scanner over a whole input. */
  function ScanLines(data: seq<byte>): Scan
  {
    ScanFrom(data, 0)
  }

  /** The messages the line loop keeps: non-empty lines that decode, in line order. */
  function Decoded(tokens: seq<seq<byte>>, decode: seq<byte> -> Option<Message>): seq<Message>
  {
    if tokens == [] then []
    else
      var head := if tokens[0] != [] && decode(tokens[0]).Some? then [decode(tokens[0]).value] else [];
      head + Decoded(tokens[1..], decode)
  }

  lemma {:induction false} DecodedAppend(a: seq<seq<byte>>, b: seq<seq<byte>>, decode: seq<byte> -> Option<Message>)
    ensures Decoded(a + b, decode) == Decoded(a, decode) + Decoded(b, decode)
  {
    if a != [] {
      assert (a + b)[1..] == a[1..] + b;
      DecodedAppend(a[1..], b, decode);
    } else {
      assert a + b == b;
    }
  }

  /**
   * Every message kept comes from a non-empty line that decodes to it, and
   * every such line contributes its message.
   */
  lemma {:induction false} DecodedMembers(tokens: seq<seq<byte>>, decode: seq<byte> -> Option<Message>, m: Message)
    ensures m in Decoded(tokens, decode) <==>
      exists k :: 0 <= k < |tokens| && tokens[k] != [] && decode(tokens[k]) == Some(m)
  {
    if tokens != [] {
      DecodedMembers(tokens[1..], decode, m);
      if m in Decoded(tokens[1..], decode) {
        var k :| 0 <= k < |tokens[1..]| && tokens[1..][k] != [] && decode(tokens[1..][k]) == Some(m);
        assert tokens[k + 1] == tokens[1..][k];
      }
      if exists k :: 0 <= k < |tokens| && tokens[k] != [] && decode(tokens[k]) == Some(m) {
        var k :| 0 <= k < |tokens| && tokens[k] != [] && decode(tokens[k]) == Some(m);
        if k > 0 {
          assert tokens[1..][k - 1] == tokens[k];
        }
      }
    }
  }

  /** No line the scanner yields contains a newline. */
  lemma {:induction false} TokensHaveNoNewLine(data: seq<byte>, pos: nat)
    requires pos <= |data|
    ensures forall k :: 0 <= k < |ScanFrom(data, pos).tokens| ==> NewLine !in ScanFrom(data, pos).tokens[k]
    decreases |data| - pos
  {
    if pos < |data| {
      var n := NextNewLine(data, pos);
      if n - pos < MaxTokenSize && n < |data| {
        TokensHaveNoNewLine(data, n + 1);
      }
    }
  }

  /** What one line contributes: its message when it is non-empty and decodes, nothing otherwise. */
  function KeptOf(line: seq<byte>, decode: seq<byte> -> Option<Message>): (r: seq<Message>)
    ensures r == Decoded([line], decode)
  {
    assert [line][1..] == [];
    if line != [] && decode(line).Some? then [decode(line).value] else []
  }

  /** One turn of the line loop, in terms of the scanner specification. */
  lemma ParseStep(data: seq<byte>, pos: nat, end: nat, decode: seq<byte> -> Option<Message>)
    requires pos < |data| && NextNewLine(data, pos) == end && end - pos < MaxTokenSize
    ensures var next := if end < |data| then end + 1 else |data|;
      Decoded(ScanFrom(data, pos).tokens, decode) ==
        KeptOf(DropCR(data[pos..end]), decode) + Decoded(ScanFrom(data, next).tokens, decode) &&
      ScanFrom(data, pos).tooLong == ScanFrom(data, next).tooLong
  {
    var line := DropCR(data[pos..end]);
    if end == |data| {
      assert data[pos..] == data[pos..end];
      assert ScanFrom(data, pos) == Scan([line], false);
      assert ScanFrom(data, |data|) == Scan([], false);
      assert [line] + [] == [line];
    } else {
      var rest := ScanFrom(data, end + 1);
      assert ScanFrom(data, pos) == Scan([line] + rest.tokens, rest.tooLong);
      DecodedAppend([line], rest.tokens, decode);
    }
  }

  /**
   * Parse (jsonl.go:93-120): the `for scanner.Scan()` loop, skipping empty
   * lines and lines the decoder rejects. The scanner's search for the next
   * newline is NextNewLine; `err` is its ErrTooLong, and the messages read
   * before it are still returned.
   */
  method Parse(data: seq<byte>, decode: seq<byte> -> Option<Message>) returns (messages: seq<Message>, err: bool)
    ensures messages == Decoded(ScanLines(data).tokens, decode)
    ensures err == ScanLines(data).tooLong
  {
    messages := [];
    var pos := 0;
    while pos < |data|
      invariant 0 <= pos <= |data|
      invariant messages + Decoded(ScanFrom(data, pos).tokens, decode) == Decoded(ScanLines(data).tokens, decode)
      invariant ScanFrom(data, pos).tooLong == ScanLines(data).tooLong
      decreases |data| - pos
    {
      var end := NextNewLine(data, pos);
      if end - pos >= MaxTokenSize {
        err := true;
        return;
      }
      var line := DropCR(data[pos..end]);
      var next := if end < |data| then end + 1 else |data|;
      ParseStep(data, pos, end, decode);
      var kept: seq<Message> := [];
      if line != [] {
        match decode(line) {
          case Some(m) => kept := [m];
          case None =>
        }
      }
      assert kept == KeptOf(line, decode);
      ghost var later := Decoded(ScanFrom(data, next).tokens, decode);
      Regroup(messages, kept, later);
      messages := messages + kept;
      pos := next;
    }
    err := false;
  }

  /** The bytes the scanner sees after the optional seek: seeking past the end leaves nothing to read. */
  function Remaining(data: seq<byte>, offset: int): (r: seq<byte>)
    ensures offset <= 0 ==> r == data
    ensures 0 < offset <= |data| ==> r == data[offset..]
    ensures offset > |data| ==> r == []
  {
    if offset <= 0 then data else if offset <= |data| then data[offset..] else []
  }

  /** The read position once the scanner has reached the end of the file. */
  function EndPosition(data: seq<byte>, offset: int): (p: int)
    ensures p >= offset && p >= |data|
    ensures offset <= 0 ==> p == |data|
    ensures offset > 0 ==> p == offset + |Remaining(data, offset)|
  {
    if offset > 0 && offset > |data| then offset else |data|
  }

  /**
   * The messages, the next offset and the error flag ParseFromOffset
   * yields, as one value: the offset moves only on success, and never back.
   */
  function ParseOutcome(file: Option<OpenFile>, offset: int, decode: seq<byte> -> Option<Message>)
    : (r: (seq<Message>, int, bool))
    ensures r.1 >= offset
    ensures r.2 ==> r.1 == offset
    ensures file.None? ==> r == ([], offset, true)
  {
    if file.None? || (offset > 0 && file.value.seekFails) then ([], offset, true)
    else
      var scan := ScanLines(Remaining(file.value.data, offset));
      var err := scan.tooLong || file.value.tellFails;
      (Decoded(scan.tokens, decode), if err then offset else EndPosition(file.value.data, offset), err)
  }

  /**
   * ParseFromOffset (jsonl.go:123-148). `file` is None when the path cannot
   * be opened. Open and seek failures return no messages and the original
   * offset; a scanner failure returns what was read and the original offset;
   * otherwise the new offset is the position after reading to the end.
   */
  method ParseFromOffset(file: Option<OpenFile>, offset: int, decode: seq<byte> -> Option<Message>)
    returns (messages: seq<Message>, newOffset: int, err: bool)
    ensures file.None? ==> messages == [] && newOffset == offset && err
    ensures file.Some? && offset > 0 && file.value.seekFails ==> messages == [] && newOffset == offset && err
    ensures file.Some? && !(offset > 0 && file.value.seekFails) ==>
      var scan := ScanLines(Remaining(file.value.data, offset));
      messages == Decoded(scan.tokens, decode) &&
      err == (scan.tooLong || file.value.tellFails) &&
      newOffset == (if err then offset else EndPosition(file.value.data, offset))
    ensures newOffset >= offset
    ensures (messages, newOffset, err) == ParseOutcome(file, offset, decode)
  {
    if file.None? {
      return [], offset, true;
    }
    var f := file.value;
    var visible := f.data;
    if offset > 0 {
      if f.seekFails {
        return [], offset, true;
      }
      visible := Remaining(f.data, offset);
    }
    var scanErr;
    messages, scanErr := Parse(visible, decode);
    if scanErr {
      return messages, offset, true;
    }
    if f.tellFails {
      return messages, offset, true;
    }
    newOffset := EndPosition(f.data, offset);
    err := false;
  }
}
