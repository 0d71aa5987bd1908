/** What one line of an event stream says, by its characters. */
module SseFields {
  import opened Basics
  import opened JsonValues
  import opened Literals
  import opened CanonicalJson
  import opened Splits
  import opened Sse

  /** The line is a data field with this value: a space after the colon is not part of it. */
  predicate SaysData(line: Text, value: Text) {
    || line == Chars("data: ") + value
    || (line == Chars("data:") + value && (value != [] ==> value[0] != Chars(" ")[0]))
    || (line == Chars("data") && value == [])
  }

  lemma LettersOfData()
    ensures Chars("data") == DATA && Chars("data:") == DATA + [COLON] && Chars("data: ") == DATA + [COLON, SPACE]
  {
  }

  lemma FieldIsData(line: Text)
    requires line != [] && line[0] != COLON && FieldOf(line) == DATA
    ensures SaysData(line, ValueOf(line))
  {
    LettersOfData();
    var colon := IndexOf(line, COLON);
    if colon < 0 {
    } else {
      assert line == line[..colon] + [COLON] + line[colon + 1..];
      if colon + 1 < |line| && line[colon + 1] == SPACE {
        assert line[colon + 1..] == [SPACE] + line[colon + 2..];
        assert line == DATA + [COLON, SPACE] + ValueOf(line);
      } else {
        assert line == DATA + [COLON] + ValueOf(line);
      }
    }
  }

  lemma DataIsField(line: Text, value: Text)
    requires SaysData(line, value)
    ensures line != [] && line[0] != COLON && FieldOf(line) == DATA && ValueOf(line) == value
  {
    LettersOfData();
    if line == Chars("data") {
      assert COLON !in line;
    } else if line == Chars("data: ") + value {
      assert line == DATA + [COLON] + ([SPACE] + value);
      FirstSeparator(DATA, [SPACE] + value, COLON);
    } else {
      assert line == DATA + [COLON] + value;
      FirstSeparator(DATA, value, COLON);
    }
  }

  /** A line with something on it adds a data line exactly if it is a data field with that value, and is skipped otherwise. */
  lemma DataExactly(data: seq<Text>, line: Text)
    requires line != []
    ensures Line(data, line).out == []
    ensures forall value :: SaysData(line, value) <==> Line(data, line).data == data + [value]
    ensures (forall value :: !SaysData(line, value)) ==> Line(data, line).data == data
  {
    if line[0] != COLON && FieldOf(line) == DATA { FieldIsData(line); }
    forall value ensures SaysData(line, value) <==> Line(data, line).data == data + [value] {
      if SaysData(line, value) { DataIsField(line, value); }
      if Line(data, line).data == data + [value] { assert (data + [value])[|data|] == value; }
    }
  }

  /** A blank line hands out the data lines before it, with line feeds between them, if there are any. */
  lemma BlankExactly(data: seq<Text>)
    ensures Line(data, []).data == []
    ensures data == [] ==> Line(data, []).out == []
    ensures data != [] && Free(data, 10) ==> |Line(data, []).out| == 1 && Split(Line(data, []).out[0], 10) == data
  {
    if data != [] && Free(data, 10) { SplitOfJoin(data, 10); }
  }
}
