/**
 * Line framing of `receive_new`: the request line is read one byte at a time
 * and ends at the first `\n` that directly follows a `\r`.
 */
module Framing {
  import opened Wrappers

  /** Byte `i` of `s` is a `\n` whose preceding byte is a `\r`. */
  predicate EndsLineAt(s: string, i: int) {
    0 < i < |s| && s[i] == '\n' && s[i - 1] == '\r'
  }

  /** No CR LF pair occurs anywhere in `s`. */
  predicate NoLineEnd(s: string) {
    forall i :: 0 < i < |s| ==> !EndsLineAt(s, i)
  }

  /** Index of the first line-ending `\n` of `input` at or after `from`. */
  function FindLineEnd(input: string, from: nat): (r: Option<nat>)
    ensures r.Some? ==> from <= r.value && EndsLineAt(input, r.value)
    ensures r.Some? ==> forall j :: from <= j < r.value ==> !EndsLineAt(input, j)
    ensures r.None? ==> forall j :: from <= j ==> !EndsLineAt(input, j)
    decreases |input| - from
  {
    if from >= |input| then None
    else if EndsLineAt(input, from) then Some(from)
    else FindLineEnd(input, from + 1)
  }

  /**
   * What the reader leaves behind: either a complete line (the bytes before
   * its `\r`, where the NUL is written) or, when the peer closes the
   * connection first, every byte read with no NUL written after them.
   */
  datatype Received = Line(content: string) | Eof(read: string)

  /** The reader's result for a connection that delivers `input` and then closes. */
  function Receive(input: string): (r: Received)
    ensures r.Eof? <==> NoLineEnd(input)
    ensures r.Eof? ==> r.read == input
    ensures r.Line? ==> EndsLineAt(input, |r.content| + 1) && r.content == input[..|r.content|]
    ensures r.Line? ==> forall j :: j <= |r.content| ==> !EndsLineAt(input, j)
  {
    match FindLineEnd(input, 0)
    case None => Eof(input)
    case Some(i) => Line(input[..i - 1])
  }

  /** The integer `receive_new` returns for a result. */
  function ReturnValue(r: Received): (ret: int) {
    match r
    case Line(content) => |content| - 1
    case Eof(_) => 0
  }

  /**
   * `receive_new` as written: append one byte, test for a CR LF ending at
   * index `i > 0`, and return `i - 2` when found; 0 if the input runs out.
   */
  method ReceiveNew(input: string) returns (r: Received, ret: int)
    ensures r == Receive(input)
    ensures ret == ReturnValue(r)
    ensures r.Line? ==> ret == |r.content| - 1
    ensures r.Eof? ==> ret == 0
  {
    var buffer: string := [];
    var i := 0;
    while i < |input|
      invariant 0 <= i <= |input|
      invariant buffer == input[..i]
      invariant forall j :: 0 <= j < i ==> !EndsLineAt(input, j)
    {
      buffer := buffer + [input[i]];
      if i > 0 && buffer[i] == '\n' && buffer[i - 1] == '\r' {
        assert EndsLineAt(input, i);
        r, ret := Line(buffer[..i - 1]), i - 2;
        return;
      }
      i := i + 1;
    }
    r, ret := Eof(buffer), 0;
  }

  /**
   * Reading stops at the first CR LF: for a line with no CR LF of its own,
   * the result is that line whatever bytes follow the terminator.
   */
  lemma StopsAtFirstLineEnd(line: string, rest: string)
    requires NoLineEnd(line + "\r")
    ensures Receive(line + "\r\n" + rest) == Line(line)
  {
    var input := line + "\r\n" + rest;
    var n := |line| + 1;
    assert EndsLineAt(input, n);
    forall j | 0 < j < n
      ensures !EndsLineAt(input, j)
    {
      assert !EndsLineAt(line + "\r", j);
      assert input[j] == (line + "\r")[j] && input[j - 1] == (line + "\r")[j - 1];
    }
    match FindLineEnd(input, 0)
    case None =>
    case Some(i) =>
      assert i == n;
      assert input[..i - 1] == line;
  }

  /**
   * A `\n` not preceded by `\r` (or at index 0) does not end the line: the
   * reader keeps going, so the line, if one is ever completed, contains it.
   */
  lemma {:induction false} BareLineFeedContinues(prefix: string, rest: string)
    requires NoLineEnd(prefix)
    requires |prefix| == 0 || prefix[|prefix| - 1] != '\r'
    ensures var r := Receive(prefix + "\n" + rest);
      r.Eof? || (|r.content| > |prefix| && r.content[..|prefix| + 1] == prefix + "\n")
  {
    var input := prefix + "\n" + rest;
    var r := Receive(input);
    forall j | 0 <= j <= |prefix|
      ensures !EndsLineAt(input, j)
    {
      if j < |prefix| && EndsLineAt(input, j) {
        assert EndsLineAt(prefix, j);
      }
    }
    if r.Line? {
      assert input[..|prefix| + 1] == prefix + "\n";
    }
  }

  /** A line without any CR, followed by the CR of its terminator, holds no CR LF. */
  lemma NoCarriageReturn(line: string)
    requires '\r' !in line
    ensures NoLineEnd(line + "\r")
  {
    forall i | 0 < i < |line| + 1
      ensures !EndsLineAt(line + "\r", i)
    {
      assert (line + "\r")[i - 1] == line[i - 1];
    }
  }

  /** A one-byte line such as `a\r\n` makes `receive_new` return 0, as EOF does. */
  lemma OneByteLineReturnsZero(c: char, rest: string)
    ensures Receive([c] + "\r\n" + rest) == Line([c])
    ensures ReturnValue(Receive([c] + "\r\n" + rest)) == 0
  {
    StopsAtFirstLineEnd([c], rest);
  }

  /** An empty line `\r\n` makes `receive_new` return -1. */
  lemma EmptyLineReturnsMinusOne(rest: string)
    ensures Receive("\r\n" + rest) == Line("")
    ensures ReturnValue(Receive("\r\n" + rest)) == -1
  {
    StopsAtFirstLineEnd("", rest);
    assert "" + "\r\n" + rest == "\r\n" + rest;
  }
}
