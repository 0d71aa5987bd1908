/** Rendering payloads as frames, and reading them back: exactly what the parser keeps and what it drops. */
module SseFrames {
  import opened Basics
  import opened JsonValues
  import opened Splits
  import opened Sse
  import opened CanonicalJson
  import Utf8

  /** The lines of a stream, each ended by LF. */
  function Wire(lines: seq<Text>): seq<Byte> {
    if lines == [] then [] else Utf8.Encode(lines[0]) + [LF] + Wire(lines[1..])
  }

  /** A line as the parser takes it: one CR at its end is part of the line ending. */
  function Chomp(line: Text): Text {
    if line != [] && line[|line| - 1] == CARRIAGE_RETURN then line[..|line| - 1] else line
  }

  /** A line of valid text without a line feed. */
  ghost predicate OneLine(line: Text) {
    WellFormed(line) && NEWLINE !in line
  }

  /** The lines, parsed one after another. */
  function Lines(data: seq<Text>, lines: seq<Text>): Lined
    decreases |lines|
  {
    if lines == [] then Lined(data, [])
    else
      var first := Line(data, Chomp(lines[0]));
      After(first.out, Lines(first.data, lines[1..]))
  }

  function After(out: seq<Text>, rest: Lined): Lined { Lined(rest.data, out + rest.out) }

  lemma {:induction false} LastByte(t: Text)
    requires t != []
    ensures var b := Utf8.Encode(t); b != [] && (b[|b| - 1] == CR <==> t[|t| - 1] == CARRIAGE_RETURN)
  {
    var rest := t[Utf8.Taken(t)..];
    if rest == [] {
      assert Utf8.Encode(t) == Utf8.Lead(t);
    } else {
      LastByte(rest);
    }
  }

  lemma PrefixIsWellFormed(t: Text)
    requires WellFormed(t) && t != [] && !IsHigh(t[|t| - 1]) && !IsLow(t[|t| - 1])
    ensures WellFormed(t[..|t| - 1])
  {
    var r := t[..|t| - 1];
    forall i | 0 <= i < |r| ensures PairedAt(r, i) {
      assert PairedAt(t, i);
      assert i + 1 == |r| ==> t[i + 1] == t[|t| - 1];
    }
  }

  /** A line and a CR is the line's bytes and a CR. */
  lemma LineAndCr(line: Text)
    requires OneLine(line)
    ensures TextOf(Utf8.Encode(line + [CARRIAGE_RETURN])) == line
  {
    Utf8.EncodeConcat(line, [CARRIAGE_RETURN]);
    Utf8.EncodeAscii(CARRIAGE_RETURN, []);
    assert [CARRIAGE_RETURN] + [] == [CARRIAGE_RETURN];
    CrDropped(Utf8.Encode(line));
    Utf8.RoundTrip(line);
  }

  lemma CrDropped(b: seq<Byte>)
    ensures TextOf(b + [CR]) == Utf8.Decode(b)
  {
    assert (b + [CR])[..|b|] == b;
  }

  lemma TextOfCrLine(line: Text)
    requires OneLine(line) && line != [] && line[|line| - 1] == CARRIAGE_RETURN
    ensures TextOf(Utf8.Encode(line)) == line[..|line| - 1]
  {
    PrefixIsWellFormed(line);
    LineAndCr(line[..|line| - 1]);
    assert line[..|line| - 1] + [CARRIAGE_RETURN] == line;
  }

  lemma TextOfOtherLine(line: Text)
    requires OneLine(line) && line != [] && line[|line| - 1] != CARRIAGE_RETURN
    ensures TextOf(Utf8.Encode(line)) == line
  {
    LastByte(line);
    Utf8.RoundTrip(line);
  }

  /** The parser reads a line back, less a CR at its end. */
  lemma TextOfLine(line: Text)
    requires OneLine(line)
    ensures TextOf(Utf8.Encode(line)) == Chomp(line)
  {
    if line == [] {
    } else if line[|line| - 1] == CARRIAGE_RETURN {
      TextOfCrLine(line);
    } else {
      TextOfOtherLine(line);
    }
  }

  lemma FirstLine(data: seq<Text>, line: Text, rest: seq<Byte>)
    requires OneLine(line)
    ensures var lined := Line(data, Chomp(line));
            Parse(data, Utf8.Encode(line) + [LF] + rest) == Prepend(lined.out, Parse(lined.data, rest))
  {
    Utf8.BytesWithoutNewline(line);
    FirstSeparator(Utf8.Encode(line), rest, LF);
    TextOfLine(line);
    ParseOneLine(data, Utf8.Encode(line) + [LF] + rest);
  }

  lemma {:induction false} WireParses(data: seq<Text>, lines: seq<Text>)
    requires forall i | 0 <= i < |lines| :: OneLine(lines[i])
    ensures Parse(data, Wire(lines)) == Fed(Parser([], Lines(data, lines).data), Lines(data, lines).out)
    decreases |lines|
  {
    if lines != [] {
      FirstLine(data, lines[0], Wire(lines[1..]));
      WireParses(Line(data, Chomp(lines[0])).data, lines[1..]);
    }
  }

  // ---------------------------------------------------------------------------------------------
  // Lines that say nothing
  // ---------------------------------------------------------------------------------------------

  /** Comments, keep-alives, and every field but `data`. */
  predicate IsIgnored(line: Text) {
    var l := Chomp(line);
    l != [] && (l[0] == COLON || FieldOf(l) != DATA)
  }

  function Telling(lines: seq<Text>): seq<Text> {
    if lines == [] then []
    else (if IsIgnored(lines[0]) then [] else [lines[0]]) + Telling(lines[1..])
  }

  lemma {:induction false} IgnoredSayNothing(data: seq<Text>, lines: seq<Text>)
    ensures Lines(data, lines) == Lines(data, Telling(lines))
    decreases |lines|
  {
    if lines != [] {
      var first := Line(data, Chomp(lines[0]));
      IgnoredSayNothing(first.data, lines[1..]);
      if IsIgnored(lines[0]) {
        assert first == Lined(data, []);
        assert [] + Lines(data, lines[1..]).out == Lines(data, lines[1..]).out;
        assert Telling(lines) == Telling(lines[1..]);
      } else {
        assert Telling(lines)[0] == lines[0] && Telling(lines)[1..] == Telling(lines[1..]);
      }
    }
  }

  // ---------------------------------------------------------------------------------------------
  // Payloads
  // ---------------------------------------------------------------------------------------------

  const DATA_PREFIX: Text := [100, 97, 116, 97, 58, 32]

  function DataLines(parts: seq<Text>): seq<Text> {
    if parts == [] then [] else [DATA_PREFIX + parts[0]] + DataLines(parts[1..])
  }

  /** A payload as a frame: its lines as `data: ` lines, then a blank line. */
  function Frame(payload: Text): seq<Text> { DataLines(Split(payload, NEWLINE)) + [[]] }

  function Render(payloads: seq<Text>): seq<Text> {
    if payloads == [] then [] else Frame(payloads[0]) + Render(payloads[1..])
  }

  function ChompAll(parts: seq<Text>): seq<Text> {
    if parts == [] then [] else [Chomp(parts[0])] + ChompAll(parts[1..])
  }

  /** What comes back of a payload: one CR lost at the end of each of its lines. */
  function Returned(payload: Text): Text { Join(ChompAll(Split(payload, NEWLINE)), NEWLINE) }

  function ReturnedAll(payloads: seq<Text>): seq<Text> {
    if payloads == [] then [] else [Returned(payloads[0])] + ReturnedAll(payloads[1..])
  }

  lemma {:induction false} LinesConcat(data: seq<Text>, a: seq<Text>, b: seq<Text>)
    ensures Lines(data, a + b) == After(Lines(data, a).out, Lines(Lines(data, a).data, b))
    decreases |a|
  {
    if a == [] {
      assert a + b == b;
      assert [] + Lines(data, b).out == Lines(data, b).out;
    } else {
      var first := Line(data, Chomp(a[0]));
      LinesConcat(first.data, a[1..], b);
      assert a == [a[0]] + a[1..] && a + b == [a[0]] + (a[1..] + b);
      LinesFirst(data, a[0], a[1..] + b, first);
      LinesFirst(data, a[0], a[1..], first);
      AfterTwice(first.out, Lines(first.data, a[1..]).out, Lines(Lines(first.data, a[1..]).data, b));
    }
  }

  lemma LinesFirst(data: seq<Text>, line: Text, rest: seq<Text>, first: Lined)
    requires first == Line(data, Chomp(line))
    ensures Lines(data, [line] + rest) == After(first.out, Lines(first.data, rest))
  {
    assert ([line] + rest)[1..] == rest;
  }

  lemma AfterTwice(a: seq<Text>, b: seq<Text>, rest: Lined)
    ensures After(a, After(b, rest)) == After(a + b, rest)
  {
    assert a + (b + rest.out) == a + b + rest.out;
  }

  lemma DataLineSays(data: seq<Text>, part: Text)
    ensures Line(data, Chomp(DATA_PREFIX + part)) == Lined(data + [Chomp(part)], [])
  {
    var line := DATA_PREFIX + part;
    assert Chomp(line) == DATA_PREFIX + Chomp(part);
    var l := DATA_PREFIX + Chomp(part);
    FirstSeparator(DATA, [SPACE] + Chomp(part), COLON);
    assert l == DATA + [COLON] + ([SPACE] + Chomp(part));
    assert l[6..] == Chomp(part);
  }

  lemma OneMoreLine(data: seq<Text>, line: Text, part: Text, rest: seq<Text>, parts: seq<Text>)
    requires Line(data, Chomp(line)) == Lined(data + [part], []) && Lines(data + [part], rest) == Lined(data + [part] + parts, [])
    ensures Lines(data, [line] + rest) == Lined(data + ([part] + parts), [])
  {
    assert ([line] + rest)[1..] == rest;
    assert data + [part] + parts == data + ([part] + parts);
  }

  lemma {:induction false} DataLinesSay(data: seq<Text>, parts: seq<Text>)
    ensures Lines(data, DataLines(parts)) == Lined(data + ChompAll(parts), [])
    decreases |parts|
  {
    if parts == [] {
      assert data + [] == data;
    } else {
      var part := Chomp(parts[0]);
      DataLineSays(data, parts[0]);
      DataLinesSay(data + [part], parts[1..]);
      OneMoreLine(data, DATA_PREFIX + parts[0], part, DataLines(parts[1..]), ChompAll(parts[1..]));
    }
  }

  lemma FrameSays(payload: Text)
    ensures Lines([], Frame(payload)) == Lined([], [Returned(payload)])
  {
    var parts := Split(payload, NEWLINE);
    DataLinesSay([], parts);
    assert [] + ChompAll(parts) == ChompAll(parts);
    LinesConcat([], DataLines(parts), [[]]);
    assert Lines(ChompAll(parts), [[]]) == Lined([], [Returned(payload)]);
  }

  lemma {:induction false} RenderSays(payloads: seq<Text>)
    ensures Lines([], Render(payloads)) == Lined([], ReturnedAll(payloads))
  {
    if payloads != [] {
      FrameSays(payloads[0]);
      RenderSays(payloads[1..]);
      LinesConcat([], Frame(payloads[0]), Render(payloads[1..]));
    }
  }

  /** A wire that carries the payloads, with any ignored lines anywhere between its lines. */
  ghost predicate Carries(lines: seq<Text>, payloads: seq<Text>) {
    (forall i | 0 <= i < |lines| :: OneLine(lines[i])) && Telling(lines) == Telling(Render(payloads))
  }

  /** No line of the payload ends in CR. */
  ghost predicate NoTrailingCr(payload: Text) {
    var parts := Split(payload, NEWLINE);
    forall i | 0 <= i < |parts| :: Chomp(parts[i]) == parts[i]
  }

  lemma {:induction false} ChompShortens(parts: seq<Text>)
    requires parts != []
    ensures |Join(ChompAll(parts), NEWLINE)| <= |Join(parts, NEWLINE)|
    ensures Join(ChompAll(parts), NEWLINE) == Join(parts, NEWLINE) <==> forall i | 0 <= i < |parts| :: Chomp(parts[i]) == parts[i]
  {
    var rest := ChompAll(parts[1..]);
    assert ChompAll(parts)[1..] == rest && ChompAll(parts)[0] == Chomp(parts[0]);
    assert forall i | 1 <= i < |parts| :: parts[i] == parts[1..][i - 1];
    if |parts| == 1 {
      assert rest == [];
    } else {
      ChompShortens(parts[1..]);
      assert |ChompAll(parts)| > 1;
      JoinOfTwo(parts[0], Join(parts[1..], NEWLINE), Chomp(parts[0]), Join(rest, NEWLINE));
    }
  }

  lemma JoinOfTwo(a: Text, b: Text, c: Text, d: Text)
    requires |c| <= |a| && |d| <= |b|
    ensures |c + [NEWLINE] + d| <= |a + [NEWLINE] + b|
    ensures c + [NEWLINE] + d == a + [NEWLINE] + b <==> c == a && d == b
  {
    var x, y := a + [NEWLINE] + b, c + [NEWLINE] + d;
    if x == y {
      assert |c| == |a| && |d| == |b|;
      assert x[..|a|] == a && y[..|c|] == c && x[|a| + 1..] == b && y[|c| + 1..] == d;
    }
  }

  lemma ReturnedExactly(payload: Text)
    ensures Returned(payload) == payload <==> NoTrailingCr(payload)
  {
    ChompShortens(Split(payload, NEWLINE));
    JoinOfSplit(payload, NEWLINE);
  }

  ghost predicate NoneEndsInCr(payloads: seq<Text>) {
    forall i | 0 <= i < |payloads| :: NoTrailingCr(payloads[i])
  }

  lemma NoneEndsInCrNext(payload: Text, rest: seq<Text>)
    ensures NoneEndsInCr([payload] + rest) <==> NoTrailingCr(payload) && NoneEndsInCr(rest)
  {
    var all := [payload] + rest;
    assert all[0] == payload && forall i | 0 <= i < |rest| :: all[i + 1] == rest[i];
  }

  lemma {:induction false} ReturnedAllExactly(payloads: seq<Text>)
    ensures |ReturnedAll(payloads)| == |payloads|
    ensures ReturnedAll(payloads) == payloads <==> NoneEndsInCr(payloads)
  {
    if payloads != [] {
      var p, rest := payloads[0], payloads[1..];
      ReturnedExactly(p);
      ReturnedAllExactly(rest);
      NoneEndsInCrNext(p, rest);
      assert payloads == [p] + rest;
      assert [Returned(p)] + ReturnedAll(rest) == [p] + rest <==> Returned(p) == p && ReturnedAll(rest) == rest by {
        SameCons(Returned(p), ReturnedAll(rest), p, rest);
      }
    }
  }

  lemma SameCons<T>(a: T, s: seq<T>, b: T, t: seq<T>)
    ensures [a] + s == [b] + t <==> a == b && s == t
  {
    assert ([a] + s)[0] == a && ([b] + t)[0] == b && ([a] + s)[1..] == s && ([b] + t)[1..] == t;
  }

  /**
   * A wire that carries some payloads parses back to exactly those payloads, whatever comments and
   * other fields stand between its lines, if and only if no payload line ends in CR; and the parser
   * is left with nothing pending.
   */
  lemma ReadsBackExactly(lines: seq<Text>, payloads: seq<Text>)
    requires Carries(lines, payloads)
    ensures Parse([], Wire(lines)).parser == Parser([], [])
    ensures Frames(Wire(lines)) == payloads <==> NoneEndsInCr(payloads)
  {
    WireParses([], lines);
    IgnoredSayNothing([], lines);
    IgnoredSayNothing([], Render(payloads));
    RenderSays(payloads);
    ReturnedAllExactly(payloads);
  }

  /** A connection cut anywhere yields a prefix of the payloads. */
  lemma CutWire(lines: seq<Text>, payloads: seq<Text>, cut: nat)
    requires Carries(lines, payloads) && cut <= |Wire(lines)|
    requires NoneEndsInCr(payloads)
    ensures IsPrefix(Frames(Wire(lines)[..cut]), payloads)
  {
    ReadsBackExactly(lines, payloads);
    CutYieldsPrefix(Wire(lines), cut);
  }
}
