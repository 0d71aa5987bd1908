/**
 * The server-sent events parser: chunks of bytes in, frame payloads out. Lines end in LF, with one
 * CR before it dropped; a blank line dispatches the data lines before it (section 9.2.6 of the
 * WHATWG HTML Living Standard).
 */
module Sse {
  import opened Basics
  import opened JsonValues
  import opened Splits
  import opened CanonicalJson
  import Utf8

  const LF: Byte := 10
  const CR: Byte := 13
  const SPACE: Unit := 32
  const CARRIAGE_RETURN: Unit := 13
  const DATA: Text := [100, 97, 116, 97]

  /** Bytes of a line not yet complete, and the data lines of a frame not yet complete. */
  datatype Parser = Parser(buf: seq<Byte>, data: seq<Text>)

  /** What parsing some bytes came to. */
  datatype Fed = Fed(parser: Parser, out: seq<Text>)

  // ---------------------------------------------------------------------------------------------
  // The parser
  // ---------------------------------------------------------------------------------------------

  function FieldOf(line: Text): Text {
    var colon := IndexOf(line, COLON);
    if colon < 0 then line else line[..colon]
  }

  function ValueOf(line: Text): Text {
    var colon := IndexOf(line, COLON);
    if colon < 0 then []
    else if colon + 1 < |line| && line[colon + 1] == SPACE then line[colon + 2..]
    else line[colon + 1..]
  }

  datatype Lined = Lined(data: seq<Text>, out: seq<Text>)

  /** One complete line. */
  function Line(data: seq<Text>, line: Text): Lined {
    if line == [] then (if data == [] then Lined([], []) else Lined([], [Join(data, NEWLINE)]))
    else if line[0] == COLON || FieldOf(line) != DATA then Lined(data, [])
    else Lined(data + [ValueOf(line)], [])
  }

  /** The text of a line, its ending dropped. */
  function TextOf(line: seq<Byte>): Text {
    Utf8.Decode(if line != [] && line[|line| - 1] == CR then line[..|line| - 1] else line)
  }

  /** Every complete line of `bytes`, in order. */
  function Parse(data: seq<Text>, bytes: seq<Byte>): Fed
    decreases |bytes|
  {
    var pos := IndexOf(bytes, LF);
    if pos < 0 then Fed(Parser(bytes, data), [])
    else
      var lined := Line(data, TextOf(bytes[..pos]));
      Prepend(lined.out, Parse(lined.data, bytes[pos + 1..]))
  }

  function Prepend(out: seq<Text>, fed: Fed): Fed { Fed(fed.parser, out + fed.out) }

  lemma PrependTwice(a: seq<Text>, b: seq<Text>, fed: Fed)
    ensures Prepend(a, Prepend(b, fed)) == Prepend(a + b, fed) && Prepend([], fed) == fed
  {
    assert a + (b + fed.out) == a + b + fed.out && [] + fed.out == fed.out;
  }

  function FeedOne(p: Parser, chunk: seq<Byte>): Fed { Parse(p.data, p.buf + chunk) }

  /** `SseParser`: the same, with its two fields changed in place. */
  class SseParser {
    var buf: seq<Byte>
    var data: seq<Text>

    constructor ()
      ensures State() == Parser([], [])
    {
      buf, data := [], [];
    }

    function State(): Parser
      reads this
    {
      Parser(buf, data)
    }

    method Feed(chunk: seq<Byte>) returns (out: seq<Text>)
      modifies this
      ensures Fed(State(), out) == FeedOne(old(State()), chunk)
    {
      buf := buf + chunk;
      out := [];
      ghost var whole := Parse(data, buf);
      PrependTwice([], [], whole);
      var pos := IndexOf(buf, LF);
      while pos >= 0
        invariant pos == IndexOf(buf, LF)
        invariant whole == Prepend(out, Parse(data, buf))
        decreases |buf|
      {
        var more := TakeFirst(pos);
        PrependTwice(out, more, Parse(data, buf));
        out := out + more;
        pos := IndexOf(buf, LF);
      }
      assert out + [] == out;
    }

    /** Drain the first complete line. */
    method TakeFirst(pos: nat) returns (out: seq<Text>)
      requires pos == IndexOf(buf, LF)
      modifies this
      ensures Parse(old(data), old(buf)) == Prepend(out, Parse(data, buf))
      ensures buf == old(buf)[pos + 1..]
    {
      var line := buf[..pos];
      buf := buf[pos + 1..];
      if |line| > 0 && line[|line| - 1] == CR { line := line[..|line| - 1]; }
      out := TakeLine(Utf8.Decode(line));
    }

    method TakeLine(line: Text) returns (out: seq<Text>)
      modifies this`data
      ensures Lined(data, out) == Line(old(data), line)
    {
      out := [];
      if line == [] {
        if data != [] {
          out := [Join(data, NEWLINE)];
          data := [];
        }
        return;
      }
      if line[0] == COLON { return; }
      if FieldOf(line) == DATA { data := data + [ValueOf(line)]; }
    }
  }

  // ---------------------------------------------------------------------------------------------
  // Chunks do not matter
  // ---------------------------------------------------------------------------------------------

  lemma ParseOneLine(data: seq<Text>, bytes: seq<Byte>)
    requires IndexOf(bytes, LF) >= 0
    ensures var pos := IndexOf(bytes, LF);
            var lined := Line(data, TextOf(bytes[..pos]));
            Parse(data, bytes) == Prepend(lined.out, Parse(lined.data, bytes[pos + 1..]))
  {
  }

  /** Bytes parsed in two goes give what they give in one. */
  lemma {:induction false} ParseConcat(data: seq<Text>, a: seq<Byte>, b: seq<Byte>)
    ensures var first := Parse(data, a);
            Parse(data, a + b) == Prepend(first.out, FeedOne(first.parser, b))
    decreases |a|, 1
  {
    var pos := IndexOf(a, LF);
    if pos >= 0 {
      FirstFound(a, b, LF);
      assert (a + b)[..pos] == a[..pos] && (a + b)[pos + 1..] == a[pos + 1..] + b;
      ConcatStep(Line(data, TextOf(a[..pos])), data, a, b, pos);
    } else {
      PrependTwice([], [], FeedOne(Parser(a, data), b));
    }
  }

  lemma {:induction false} ConcatStep(lined: Lined, data: seq<Text>, a: seq<Byte>, b: seq<Byte>, pos: nat)
    requires pos == IndexOf(a, LF) == IndexOf(a + b, LF) && lined == Line(data, TextOf(a[..pos]))
    requires (a + b)[..pos] == a[..pos] && (a + b)[pos + 1..] == a[pos + 1..] + b
    ensures var first := Parse(data, a);
            Parse(data, a + b) == Prepend(first.out, FeedOne(first.parser, b))
    decreases |a|, 0
  {
    ParseConcat(lined.data, a[pos + 1..], b);
    ParseOneLine(data, a);
    ParseOneLine(data, a + b);
    var rest := Parse(lined.data, a[pos + 1..]);
    PrependTwice(lined.out, rest.out, FeedOne(rest.parser, b));
  }

  lemma FirstFound<T>(a: seq<T>, b: seq<T>, x: T)
    requires IndexOf(a, x) >= 0
    ensures IndexOf(a + b, x) == IndexOf(a, x)
  {
    var i, j := IndexOf(a, x), IndexOf(a + b, x);
    assert (a + b)[i] == x;
    assert forall k | 0 <= k < j :: (a + b)[k] in (a + b)[..j];
    assert forall k | 0 <= k < i :: a[k] in a[..i];
    assert forall k | 0 <= k < i :: (a + b)[k] == a[k];
  }

  function FeedAll(p: Parser, chunks: seq<seq<Byte>>): Fed
    decreases |chunks|
  {
    if chunks == [] then Fed(p, [])
    else
      var first := FeedOne(p, chunks[0]);
      Prepend(first.out, FeedAll(first.parser, chunks[1..]))
  }

  function Concat(chunks: seq<seq<Byte>>): seq<Byte> {
    if chunks == [] then [] else chunks[0] + Concat(chunks[1..])
  }

  /** A parser between chunks: its buffer holds no complete line. */
  predicate Waiting(p: Parser) { LF !in p.buf }

  lemma {:induction false} ParseLeavesWaiting(data: seq<Text>, bytes: seq<Byte>)
    ensures Waiting(Parse(data, bytes).parser)
    decreases |bytes|
  {
    var pos := IndexOf(bytes, LF);
    if pos >= 0 { ParseLeavesWaiting(Line(data, TextOf(bytes[..pos])).data, bytes[pos + 1..]); }
  }

  /** However a stream is cut into chunks, empty ones too, the frames and the final state are the same. */
  lemma {:induction false} ChunksDoNotMatter(p: Parser, chunks: seq<seq<Byte>>)
    requires Waiting(p)
    ensures FeedAll(p, chunks) == FeedOne(p, Concat(chunks))
    decreases |chunks|
  {
    if chunks == [] {
      assert p.buf + [] == p.buf;
      assert IndexOf(p.buf, LF) < 0;
    } else {
      var first := FeedOne(p, chunks[0]);
      ParseLeavesWaiting(p.data, p.buf + chunks[0]);
      ChunksDoNotMatter(first.parser, chunks[1..]);
      ParseConcat(p.data, p.buf + chunks[0], Concat(chunks[1..]));
      assert p.buf + chunks[0] + Concat(chunks[1..]) == p.buf + (chunks[0] + Concat(chunks[1..]));
    }
  }

  /** The frames of a whole stream of bytes. */
  function Frames(bytes: seq<Byte>): seq<Text> { Parse([], bytes).out }

  /** A stream cut anywhere, even inside a character, yields a prefix of its frames. */
  lemma CutYieldsPrefix(bytes: seq<Byte>, cut: nat)
    requires cut <= |bytes|
    ensures IsPrefix(Frames(bytes[..cut]), Frames(bytes))
  {
    assert bytes == bytes[..cut] + bytes[cut..];
    ParseConcat([], bytes[..cut], bytes[cut..]);
  }
}
