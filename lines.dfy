/** Stream-to-line framing: `docker_lines` in dominator/utils/__init__.py and
    dominator/utils.py, and `lines` in dominator/actions.py. Each received
    chunk of bytes is decoded on its own and appended to a buffer, and every
    newline-terminated line is cut off the front of the buffer and produced,
    without its newline. The three copies differ only in how a chunk is
    decoded: the first ignores bytes that are not UTF-8, the other two raise
    UnicodeDecodeError on them; the decoder is therefore a parameter. */
module Lines {
  import opened Wrappers
  import opened Text

  type Bytes = seq<bv8>

  /** The chunks decoded one by one and their texts concatenated, up to the
      first chunk that fails to decode, together with that failure. */
  function DecodeChunks(records: seq<Bytes>, decode: Bytes -> Result<string>): (string, Option<Exception>) {
    if |records| == 0 then ("", None)
    else match decode(records[0])
      case Err(e) => ("", Some(e))
      case Ok(t) =>
        var rest := DecodeChunks(records[1..], decode);
        (t + rest.0, rest.1)
  }

  /** The newline-terminated lines of `text`, in order, without their newlines. */
  function CompleteLines(text: string): seq<string> {
    var parts := Split(text, '\n');
    parts[..|parts| - 1]
  }

  /** What is left after the last newline. */
  function Tail(text: string): string {
    var parts := Split(text, '\n');
    parts[|parts| - 1]
  }

  /** The lines and the tail rebuild the text, and none of them holds a newline. */
  lemma LinesAndTail(text: string)
    ensures Join(CompleteLines(text) + [Tail(text)], "\n") == text
    ensures forall i :: 0 <= i < |CompleteLines(text)| ==> '\n' !in CompleteLines(text)[i]
    ensures '\n' !in Tail(text)
  {
    var parts := Split(text, '\n');
    assert CompleteLines(text) + [Tail(text)] == parts;
    JoinSplit(text, '\n');
  }

  /** A fragment without a newline, appended after complete lines, yields no
      further line: an unterminated tail is never produced. */
  lemma UnterminatedTailIsDropped(lines: seq<string>, fragment: string)
    requires forall i :: 0 <= i < |lines| ==> '\n' !in lines[i]
    requires '\n' !in fragment
    ensures CompleteLines(Join(lines + [fragment], "\n")) == lines
    ensures Tail(Join(lines + [fragment], "\n")) == fragment
  {
    SplitJoin(lines + [fragment], '\n');
  }

  lemma {:induction false} JoinExtendLast(xs: seq<string>, last: string, more: string)
    ensures Join(xs + [last + more], "\n") == Join(xs + [last], "\n") + more
  {
    if |xs| > 0 {
      JoinExtendLast(xs[1..], last, more);
      assert (xs + [last + more])[1..] == xs[1..] + [last + more];
      assert (xs + [last])[1..] == xs[1..] + [last];
    }
  }

  lemma {:induction false} JoinSplitLast(xs: seq<string>, a: string, b: string)
    ensures Join(xs + [a + "\n" + b], "\n") == Join(xs + [a, b], "\n")
  {
    if |xs| > 0 {
      JoinSplitLast(xs[1..], a, b);
      assert (xs + [a + "\n" + b])[1..] == xs[1..] + [a + "\n" + b];
      assert (xs + [a, b])[1..] == xs[1..] + [a, b];
    }
  }

  /** `docker_lines(records)`: the lines produced are exactly the complete
      lines of the text the chunks decode to, one chunk at a time; the
      unterminated tail stays in the buffer. A chunk that fails to decode
      ends the stream with its error, after the lines of the chunks before it. */
  method DockerLines(records: seq<Bytes>, decode: Bytes -> Result<string>) returns (lines: seq<string>, failure: Option<Exception>)
    ensures lines == CompleteLines(DecodeChunks(records, decode).0)
    ensures failure == DecodeChunks(records, decode).1
  {
    var buf := "";
    lines := [];
    failure := None;
    var i := 0;
    while i < |records|
      invariant 0 <= i <= |records|
      invariant DecodeChunks(records, decode).0 == Join(lines + [buf], "\n") + DecodeChunks(records[i..], decode).0
      invariant DecodeChunks(records, decode).1 == DecodeChunks(records[i..], decode).1
      invariant forall k :: 0 <= k < |lines| ==> '\n' !in lines[k]
      invariant '\n' !in buf
    {
      assert records[i..][1..] == records[i + 1..];
      var chunk := decode(records[i]);
      if chunk.Err? {
        failure := Some(chunk.error);
        break;
      }
      var rest := DecodeChunks(records[i + 1..], decode).0;
      JoinExtendLast(lines, buf, chunk.value);
      assert Join(lines + [buf], "\n") + (chunk.value + rest) == (Join(lines + [buf], "\n") + chunk.value) + rest;
      buf := buf + chunk.value;
      ghost var text := Join(lines + [buf], "\n");
      while '\n' in buf
        invariant Join(lines + [buf], "\n") == text
        invariant forall k :: 0 <= k < |lines| ==> '\n' !in lines[k]
        decreases |buf|
      {
        var parts := SplitOnce(buf, '\n');
        JoinSplitLast(lines, parts[0], parts[1]);
        assert lines + [parts[0], parts[1]] == (lines + [parts[0]]) + [parts[1]];
        lines, buf := lines + [parts[0]], parts[1];
      }
      i := i + 1;
    }
    assert DecodeChunks(records, decode).0 == Join(lines + [buf], "\n");
    UnterminatedTailIsDropped(lines, buf);
  }

  /** With a decoder that never fails, as `errors='ignore'` gives, the whole
      stream is read and no error is raised. */
  lemma {:induction false} IgnoringDecoderReadsAll(records: seq<Bytes>, decode: Bytes -> Result<string>)
    requires forall b :: decode(b).Ok?
    ensures DecodeChunks(records, decode).1 == None
  {
    if |records| > 0 {
      IgnoringDecoderReadsAll(records[1..], decode);
    }
  }

  /** A chunk that fails to decode hides every chunk after it: what follows
      it makes no difference to the lines produced or to the error. */
  lemma {:induction false} FailureHidesRest(records: seq<Bytes>, decode: Bytes -> Result<string>, n: nat, more: seq<Bytes>)
    requires n < |records| && decode(records[n]).Err?
    ensures DecodeChunks(records[..n + 1] + more, decode) == DecodeChunks(records[..n + 1], decode)
    ensures DecodeChunks(records, decode).1.Some?
  {
    if n > 0 {
      assert (records[..n + 1] + more)[1..] == records[1..][..n] + more;
      assert records[..n + 1][1..] == records[1..][..n];
      FailureHidesRest(records[1..], decode, n - 1, more);
    } else {
      assert (records[..1] + more)[0] == records[0];
    }
  }
}
