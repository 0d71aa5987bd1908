/**
 * A JSON reader, and the round trip that makes canonical JSON injective: reading what the printer
 * wrote gives back the value, whatever follows it. Signatures and hashes over canonical text
 * therefore bind the value itself.
 */
module JsonReader {
  import opened Basics
  import opened JsonValues
  import opened Splits
  import opened CanonicalJson

  datatype Parsed<+T> = Parsed(value: T, rest: Text)

  // ---------------------------------------------------------------------------------------------
  // The reader: JSON texts without whitespace, numbers that are integers
  // ---------------------------------------------------------------------------------------------

  function HexValue(u: Unit): Option<nat> {
    if 48 <= u <= 57 then Some(u - 48)
    else if 97 <= u <= 102 then Some(u - 87)
    else if 65 <= u <= 70 then Some(u - 55)
    else None
  }

  /** The unit that `\` and `letter` stand for, except `\u`. */
  function Unescape(letter: Unit): Option<Unit> {
    if letter == QUOTE || letter == BACKSLASH || letter == 47 then Some(letter)
    else if letter == 98 then Some(8)
    else if letter == 116 then Some(9)
    else if letter == 110 then Some(10)
    else if letter == 102 then Some(12)
    else if letter == 114 then Some(13)
    else None
  }

  /** The first code unit of a string's inside, and what follows it. */
  function ReadUnit(t: Text): (r: Option<Parsed<Unit>>)
    ensures r.Some? ==> |r.value.rest| < |t|
  {
    if t == [] || t[0] == QUOTE || t[0] < 32 then None
    else if t[0] != BACKSLASH then Some(Parsed(t[0], t[1..]))
    else if |t| >= 2 && t[1] != 117 then
      var u := Unescape(t[1]);
      if u.None? then None else Some(Parsed(u.value, t[2..]))
    else if |t| >= 6 then
      var a, b, c, d := HexValue(t[2]), HexValue(t[3]), HexValue(t[4]), HexValue(t[5]);
      if a.None? || b.None? || c.None? || d.None? then None
      else Some(Parsed(((a.value * 16 + b.value) * 16 + c.value) * 16 + d.value, t[6..]))
    else None
  }

  /** A string from after its opening quote. */
  function ReadString(t: Text): (r: Option<Parsed<Text>>)
    ensures r.Some? ==> |r.value.rest| < |t|
    decreases |t|
  {
    if t != [] && t[0] == QUOTE then Some(Parsed([], t[1..]))
    else
      var u := ReadUnit(t);
      if u.None? then None
      else
        var more := ReadString(u.value.rest);
        if more.None? then None else Some(Parsed([u.value.value] + more.value.value, more.value.rest))
  }

  predicate IsDigit(u: Unit) { 48 <= u <= 57 }

  /** The digits at the front of `t`, as many as there are, and the rest. */
  function ReadDigits(t: Text): (r: Parsed<Text>)
    ensures r.value + r.rest == t
  {
    if t == [] || !IsDigit(t[0]) then Parsed([], t)
    else
      var more := ReadDigits(t[1..]);
      Parsed([t[0]] + more.value, more.rest)
  }

  function DigitOf(u: Unit): nat
    requires IsDigit(u)
  {
    u - 48
  }

  function NumberOf(digits: Text): nat
    requires forall i | 0 <= i < |digits| :: IsDigit(digits[i])
  {
    if digits == [] then 0
    else 10 * NumberOf(digits[..|digits| - 1]) + DigitOf(digits[|digits| - 1])
  }

  lemma {:induction false} OnlyDigits(t: Text)
    ensures forall i | 0 <= i < |ReadDigits(t).value| :: IsDigit(ReadDigits(t).value[i])
  {
    if t != [] && IsDigit(t[0]) { OnlyDigits(t[1..]); }
  }

  function ReadNumber(t: Text): (r: Option<Parsed<Value>>)
    ensures r.Some? ==> |r.value.rest| < |t|
  {
    var negative := t != [] && t[0] == MINUS;
    var d := ReadDigits(if negative then t[1..] else t);
    OnlyDigits(if negative then t[1..] else t);
    var n: int := if negative then 0 - NumberOf(d.value) else NumberOf(d.value);
    if d.value == [] || n < -MAX_SAFE_INTEGER || n > MAX_SAFE_INTEGER then None else Some(Parsed(VNum(n), d.rest))
  }

  function ReadWord(t: Text, word: Text, value: Value): (r: Option<Parsed<Value>>)
    requires word != []
    ensures r.Some? ==> |r.value.rest| < |t|
  {
    if |word| <= |t| && t[..|word|] == word then Some(Parsed(value, t[|word|..])) else None
  }

  /** One JSON value at the front of `t`. */
  function Read(t: Text): (r: Option<Parsed<Value>>)
    ensures r.Some? ==> |r.value.rest| < |t|
    decreases |t|, 0
  {
    if t == [] then None
    else if t[0] == 110 then ReadWord(t, NULL, VNull)
    else if t[0] == 116 then ReadWord(t, TRUE, VBool(true))
    else if t[0] == 102 then ReadWord(t, FALSE, VBool(false))
    else if t[0] == QUOTE then
      var s := ReadString(t[1..]);
      if s.None? then None else Some(Parsed(VStr(s.value.value), s.value.rest))
    else if t[0] == OPEN_BRACKET then
      if |t| >= 2 && t[1] == CLOSE_BRACKET then Some(Parsed(VArr([]), t[2..]))
      else
        var items := ReadItems(t[1..]);
        if items.None? then None else Some(Parsed(VArr(items.value.value), items.value.rest))
    else if t[0] == OPEN_BRACE then
      if |t| >= 2 && t[1] == CLOSE_BRACE then Some(Parsed(VObj(map[]), t[2..]))
      else
        var members := ReadMembers(t[1..]);
        if members.None? then None else Some(Parsed(VObj(members.value.value), members.value.rest))
    else ReadNumber(t)
  }

  /** Items up to and including the closing bracket; at least one. */
  function ReadItems(t: Text): (r: Option<Parsed<seq<Value>>>)
    ensures r.Some? ==> |r.value.rest| < |t|
    decreases |t|, 1
  {
    var first := Read(t);
    if first.None? || first.value.rest == [] then None
    else
      var rest := first.value.rest;
      if rest[0] == CLOSE_BRACKET then Some(Parsed([first.value.value], rest[1..]))
      else if rest[0] == COMMA then
        var more := ReadItems(rest[1..]);
        if more.None? then None else Some(Parsed([first.value.value] + more.value.value, more.value.rest))
      else None
  }

  /** Members up to and including the closing brace; at least one. A repeated key keeps its last value. */
  function ReadMembers(t: Text): (r: Option<Parsed<map<Text, Value>>>)
    ensures r.Some? ==> |r.value.rest| < |t|
    decreases |t|, 1
  {
    if t == [] || t[0] != QUOTE then None
    else
      var key := ReadString(t[1..]);
      if key.None? || key.value.rest == [] || key.value.rest[0] != COLON then None
      else
        var value := Read(key.value.rest[1..]);
        if value.None? || value.value.rest == [] then None
        else
          var member, rest := map[key.value.value := value.value.value], value.value.rest;
          if rest[0] == CLOSE_BRACE then Some(Parsed(member, rest[1..]))
          else if rest[0] == COMMA then
            var more := ReadMembers(rest[1..]);
            if more.None? then None else Some(Parsed(member + more.value.value, more.value.rest))
          else None
  }

  /** A whole text that is one JSON value. */
  function ReadAll(t: Text): Option<Value> {
    var r := Read(t);
    if r.None? || r.value.rest != [] then None else Some(r.value.value)
  }

  // ---------------------------------------------------------------------------------------------
  // Reading back strings and numbers
  // ---------------------------------------------------------------------------------------------

  lemma UnitReadsBack(u: Unit, tail: Text)
    ensures ReadUnit(Escape(u) + tail) == Some(Parsed(u, tail))
    ensures Escape(u)[0] != QUOTE
  {
    var t := Escape(u) + tail;
    if u < 32 && |Escape(u)| == 6 {
      assert t[2] == 48 && t[3] == 48 && t[4] == Hex(u / 16) && t[5] == Hex(u % 16);
      assert HexValue(t[4]) == Some(u / 16) && HexValue(t[5]) == Some(u % 16);
      assert t[6..] == tail;
    } else {
      assert t[|Escape(u)|..] == tail;
    }
  }

  lemma {:induction false} StringReadsBack(s: Text, tail: Text)
    ensures ReadString(EscapeAll(s) + [QUOTE] + tail) == Some(Parsed(s, tail))
  {
    var t := EscapeAll(s) + [QUOTE] + tail;
    if s == [] {
      assert t[1..] == tail;
    } else {
      var rest := EscapeAll(s[1..]) + [QUOTE] + tail;
      assert t == Escape(s[0]) + rest;
      UnitReadsBack(s[0], rest);
      StringReadsBack(s[1..], tail);
      assert s == [s[0]] + s[1..];
    }
  }

  lemma {:induction false} DigitsReadBack(n: nat, tail: Text)
    requires tail != [] ==> !IsDigit(tail[0])
    ensures Digits(n) != [] && forall i | 0 <= i < |Digits(n)| :: IsDigit(Digits(n)[i])
    ensures NumberOf(Digits(n)) == n
    ensures ReadDigits(Digits(n) + tail) == Parsed(Digits(n), tail)
  {
    if n >= 10 {
      DigitsReadBack(n / 10, []);
      assert Digits(n)[..|Digits(n)| - 1] == Digits(n / 10);
    } else {
      assert Digits(n)[..0] == [];
    }
    RunReadsBack(Digits(n), tail);
  }

  lemma {:induction false} RunReadsBack(digits: Text, tail: Text)
    requires forall i | 0 <= i < |digits| :: IsDigit(digits[i])
    requires tail != [] ==> !IsDigit(tail[0])
    ensures ReadDigits(digits + tail) == Parsed(digits, tail)
  {
    if digits == [] {
      assert digits + tail == tail;
    } else {
      assert (digits + tail)[1..] == digits[1..] + tail;
      RunReadsBack(digits[1..], tail);
      assert digits == [digits[0]] + digits[1..];
    }
  }

  lemma NumberReadsBack(n: SafeInteger, tail: Text)
    requires tail != [] ==> !IsDigit(tail[0])
    ensures ReadNumber(PrintInteger(n) + tail) == Some(Parsed(VNum(n), tail))
    ensures var c := (PrintInteger(n) + tail)[0]; c == MINUS || IsDigit(c)
  {
    var digits := Digits(if n < 0 then -n else n);
    DigitsReadBack(if n < 0 then -n else n, tail);
    if n < 0 {
      assert PrintInteger(n) + tail == [MINUS] + (digits + tail);
      assert ([MINUS] + (digits + tail))[1..] == digits + tail;
    } else {
      assert IsDigit((digits + tail)[0]);
    }
  }

  // ---------------------------------------------------------------------------------------------
  // The round trip
  // ---------------------------------------------------------------------------------------------

  /** The first unit of a printed value: it ends no list, and only a number starts with a digit or a minus. */
  lemma EmitStarts(v: Js, depth: nat)
    requires Emit(v, depth).Some?
    ensures Emit(v, depth).value != []
    ensures Emit(v, depth).value[0] !in {CLOSE_BRACKET, CLOSE_BRACE, COMMA, COLON}
  {
    if v.Num? {
      var n := if v.n < 0 then -v.n else v.n;
      DigitsReadBack(n, []);
      assert Emit(v, depth).value[0] == MINUS || IsDigit(Emit(v, depth).value[0]);
    }
  }

  /** Reading the printed text of `v`, followed by anything but a digit, gives its meaning and that rest. */
  lemma {:induction false} RoundTrip(v: Js, depth: nat, tail: Text)
    requires Proper(v) && Emit(v, depth).Some? && (tail != [] ==> !IsDigit(tail[0]))
    ensures Read(Emit(v, depth).value + tail) == Some(Parsed(Meaning(v), tail))
    decreases v, 1, 0
  {
    match v {
      case Null => WordReadsBack(NULL, VNull, tail);
      case Bool(b) => BoolReadsBack(b, tail);
      case Num(n) => NumberReadsBack(n, tail);
      case Str(s) => TextReadsBack(s, tail);
      case Arr(items) =>
        if items != [] { ItemsRoundTrip(items, depth + 1, tail); }
        ArrayReadsBack(items, depth, tail);
      case Obj(props) =>
        SameElements(props);
        if EmitMembers(SortByKey(props), v, depth + 1).value != [] {
          MembersRoundTrip(SortByKey(props), v, depth + 1, tail);
        }
        ObjectReadsBack(v, depth, tail);
    }
  }

  lemma WordReadsBack(word: Text, value: Value, tail: Text)
    requires word != []
    ensures ReadWord(word + tail, word, value) == Some(Parsed(value, tail))
  {
    assert (word + tail)[..|word|] == word && (word + tail)[|word|..] == tail;
  }

  lemma BoolReadsBack(b: bool, tail: Text)
    ensures Read((if b then TRUE else FALSE) + tail) == Some(Parsed(VBool(b), tail))
  {
    WordReadsBack(if b then TRUE else FALSE, VBool(b), tail);
  }

  lemma TextReadsBack(s: Text, tail: Text)
    requires WellFormed(s)
    ensures Read(Quote(s).value + tail) == Some(Parsed(VStr(s), tail))
  {
    var t := Quote(s).value + tail;
    assert t[1..] == EscapeAll(s) + [QUOTE] + tail;
    StringReadsBack(s, tail);
  }

  lemma ArrayReadsBack(items: seq<Js>, depth: nat, tail: Text)
    requires Emit(Arr(items), depth).Some?
    requires items != [] ==>
               ReadItems(Join(EmitItems(items, depth + 1).value, COMMA) + [CLOSE_BRACKET] + tail) == Some(Parsed(Meanings(items), tail))
    ensures Read(Emit(Arr(items), depth).value + tail) == Some(Parsed(Meaning(Arr(items)), tail))
  {
    var parts := EmitItems(items, depth + 1).value;
    if items != [] {
      EmitStarts(items[0], depth + 1);
      JoinStarts(parts);
    }
    BracketedReads(Join(parts, COMMA), Meanings(items), tail);
  }

  lemma JoinStarts(parts: seq<Text>)
    requires parts != [] && parts[0] != []
    ensures Join(parts, COMMA) != [] && Join(parts, COMMA)[0] == parts[0][0]
  {
  }

  lemma BracketedReads(joined: Text, values: seq<Value>, tail: Text)
    requires if joined == [] then values == []
             else joined[0] != CLOSE_BRACKET && ReadItems(joined + [CLOSE_BRACKET] + tail) == Some(Parsed(values, tail))
    ensures Read([OPEN_BRACKET] + joined + [CLOSE_BRACKET] + tail) == Some(Parsed(VArr(values), tail))
  {
    var inside := joined + [CLOSE_BRACKET] + tail;
    var t := [OPEN_BRACKET] + inside;
    assert t[1..] == inside && t[1] == inside[0];
    assert joined == [] ==> t[2..] == tail;
    assert [OPEN_BRACKET] + joined + [CLOSE_BRACKET] + tail == t;
    ReadArray(t, values, tail);
  }

  lemma ReadArray(t: Text, values: seq<Value>, tail: Text)
    requires |t| >= 2 && t[0] == OPEN_BRACKET
    requires if t[1] == CLOSE_BRACKET then values == [] && t[2..] == tail else ReadItems(t[1..]) == Some(Parsed(values, tail))
    ensures Read(t) == Some(Parsed(VArr(values), tail))
  {
  }

  lemma ReadObject(t: Text, members: map<Text, Value>, tail: Text)
    requires |t| >= 2 && t[0] == OPEN_BRACE
    requires if t[1] == CLOSE_BRACE then members == map[] && t[2..] == tail else ReadMembers(t[1..]) == Some(Parsed(members, tail))
    ensures Read(t) == Some(Parsed(VObj(members), tail))
  {
  }

  /** The printed members of an object read back, whatever sorting did to them. */
  lemma ObjectReadsBack(v: Js, depth: nat, tail: Text)
    requires v.Obj? && DistinctKeys(v.props) && Emit(v, depth).Some?
    requires forall p | p in SortByKey(v.props) :: p in v.props
    requires var parts := EmitMembers(SortByKey(v.props), v, depth + 1).value;
             parts != [] ==>
               Join(parts, COMMA) != [] && Join(parts, COMMA)[0] == QUOTE &&
               ReadMembers(Join(parts, COMMA) + [CLOSE_BRACE] + tail) == Some(Parsed(MembersOf(SortByKey(v.props), v), tail))
    ensures Read(Emit(v, depth).value + tail) == Some(Parsed(Meaning(v), tail))
  {
    var sorted := SortByKey(v.props);
    var parts := EmitMembers(sorted, v, depth + 1).value;
    MembersOfSorted(v.props, v);
    if parts == [] { MembersEmpty(sorted, v, depth + 1); }
    BracedReads(Join(parts, COMMA), MembersOf(sorted, v), tail);
  }

  lemma BracedReads(joined: Text, members: map<Text, Value>, tail: Text)
    requires if joined == [] then members == map[]
             else joined[0] == QUOTE && ReadMembers(joined + [CLOSE_BRACE] + tail) == Some(Parsed(members, tail))
    ensures Read([OPEN_BRACE] + joined + [CLOSE_BRACE] + tail) == Some(Parsed(VObj(members), tail))
  {
    var inside := joined + [CLOSE_BRACE] + tail;
    var t := [OPEN_BRACE] + inside;
    assert t[1..] == inside && t[1] == inside[0];
    assert joined == [] ==> t[2..] == tail;
    ReadObject(t, members, tail);
    assert [OPEN_BRACE] + joined + [CLOSE_BRACE] + tail == t;
  }

  lemma {:induction false} ItemsRoundTrip(items: seq<Js>, depth: nat, tail: Text)
    requires items != [] && EmitItems(items, depth).Some? && forall i | 0 <= i < |items| :: Proper(items[i])
    ensures ReadItems(Join(EmitItems(items, depth).value, COMMA) + [CLOSE_BRACKET] + tail) == Some(Parsed(Meanings(items), tail))
    decreases items, 0, 0
  {
    var parts := EmitItems(items, depth).value;
    var t := Join(parts, COMMA) + [CLOSE_BRACKET] + tail;
    if |items| == 1 {
      var after := [CLOSE_BRACKET] + tail;
      assert t == parts[0] + after;
      RoundTrip(items[0], depth, after);
      assert after[1..] == tail;
      assert Meanings(items) == [Meaning(items[0])];
    } else {
      var rest := Join(parts[1..], COMMA) + [CLOSE_BRACKET] + tail;
      var after := [COMMA] + rest;
      assert t == parts[0] + after;
      RoundTrip(items[0], depth, after);
      assert after[1..] == rest;
      ItemsRoundTrip(items[1..], depth, tail);
    }
  }

  lemma {:induction false} MembersEmpty(props: seq<Prop>, parent: Js, depth: nat)
    requires parent.Obj? && (forall p | p in props :: p in parent.props)
    requires EmitMembers(props, parent, depth) == Some([])
    ensures MembersOf(props, parent) == map[]
  {
    if props != [] { MembersEmpty(props[1..], parent, depth); }
  }

  lemma {:induction false} MembersRoundTrip(props: seq<Prop>, parent: Js, depth: nat, tail: Text)
    requires parent.Obj? && (forall p | p in props :: p in parent.props) && (forall p | p in props :: Proper(p.value))
    requires EmitMembers(props, parent, depth).Some? && EmitMembers(props, parent, depth).value != []
    ensures Join(EmitMembers(props, parent, depth).value, COMMA) != [] && Join(EmitMembers(props, parent, depth).value, COMMA)[0] == QUOTE
    ensures ReadMembers(Join(EmitMembers(props, parent, depth).value, COMMA) + [CLOSE_BRACE] + tail) ==
            Some(Parsed(MembersOf(props, parent), tail))
    decreases parent, 0, |props|
  {
    var p := props[0];
    assert p in props;
    if p.value.Undefined? {
      MembersRoundTrip(props[1..], parent, depth, tail);
    } else {
      var more := EmitMembers(props[1..], parent, depth).value;
      if more == [] { MembersEmpty(props[1..], parent, depth); } else { MembersRoundTrip(props[1..], parent, depth, tail); }
      RoundTrip(p.value, depth, AfterMember(more, tail));
      MembersStep(p.key, Emit(p.value, depth).value, Meaning(p.value), more, MembersOf(props[1..], parent), tail);
    }
  }

  /** What follows a member whose object goes on with the members `more`. */
  function AfterMember(more: seq<Text>, tail: Text): Text {
    if more == [] then [CLOSE_BRACE] + tail else [COMMA] + (Join(more, COMMA) + ([CLOSE_BRACE] + tail))
  }

  lemma MembersStep(key: Text, text: Text, value: Value, more: seq<Text>, others: map<Text, Value>, tail: Text)
    requires WellFormed(key) && Read(text + AfterMember(more, tail)) == Some(Parsed(value, AfterMember(more, tail)))
    requires if more == [] then others == map[]
             else ReadMembers(Join(more, COMMA) + [CLOSE_BRACE] + tail) == Some(Parsed(others, tail))
    ensures var parts := [Quote(key).value + [COLON] + text] + more;
            && Join(parts, COMMA) != [] && Join(parts, COMMA)[0] == QUOTE
            && ReadMembers(Join(parts, COMMA) + [CLOSE_BRACE] + tail) == Some(Parsed(map[key := value] + others, tail))
  {
    MembersText(Quote(key).value + [COLON] + text, more, tail);
    MemberReadsBack(key, text, AfterMember(more, tail), value);
    if more == [] { assert map[key := value] + others == map[key := value]; }
  }

  lemma MembersText(first: Text, more: seq<Text>, tail: Text)
    requires first != []
    ensures Join([first] + more, COMMA) != [] && Join([first] + more, COMMA)[0] == first[0]
    ensures Join([first] + more, COMMA) + [CLOSE_BRACE] + tail == first + AfterMember(more, tail)
    ensures AfterMember(more, tail)[1..] == if more == [] then tail else Join(more, COMMA) + [CLOSE_BRACE] + tail
  {
    JoinFirst(first, more, [CLOSE_BRACE] + tail);
    assert Join([first] + more, COMMA) + [CLOSE_BRACE] + tail == Join([first] + more, COMMA) + ([CLOSE_BRACE] + tail);
    assert Join(more, COMMA) + [CLOSE_BRACE] + tail == Join(more, COMMA) + ([CLOSE_BRACE] + tail);
  }

  /** A joined list, then `after`: its first part, then the rest of the list, if any, after a comma. */
  lemma JoinFirst(first: Text, more: seq<Text>, after: Text)
    ensures Join([first] + more, COMMA) + after == first + if more == [] then after else [COMMA] + (Join(more, COMMA) + after)
    ensures first != [] ==> Join([first] + more, COMMA) != [] && Join([first] + more, COMMA)[0] == first[0]
  {
    if more != [] { assert ([first] + more)[1..] == more; }
  }

  /** One member at the front of a text: its key, its value, and what the reader does after it. */
  lemma ReadMember(t: Text, key: Text, rest: Text, value: Value, after: Text)
    requires t != [] && t[0] == QUOTE && ReadString(t[1..]) == Some(Parsed(key, rest))
    requires rest != [] && rest[0] == COLON && Read(rest[1..]) == Some(Parsed(value, after)) && after != []
    ensures after[0] == CLOSE_BRACE ==> ReadMembers(t) == Some(Parsed(map[key := value], after[1..]))
    ensures after[0] == COMMA && ReadMembers(after[1..]).Some? ==>
              var more := ReadMembers(after[1..]).value;
              ReadMembers(t) == Some(Parsed(map[key := value] + more.value, more.rest))
  {
  }

  lemma MemberReadsBack(key: Text, text: Text, after: Text, value: Value)
    requires WellFormed(key) && after != [] && Read(text + after) == Some(Parsed(value, after))
    ensures var t := Quote(key).value + [COLON] + text + after;
            && (after[0] == CLOSE_BRACE ==> ReadMembers(t) == Some(Parsed(map[key := value], after[1..])))
            && (after[0] == COMMA && ReadMembers(after[1..]).Some? ==>
                  var more := ReadMembers(after[1..]).value;
                  ReadMembers(t) == Some(Parsed(map[key := value] + more.value, more.rest)))
  {
    var rest := [COLON] + (text + after);
    KeyReadsBack(key, rest);
    assert rest[1..] == text + after;
    Regroup(Quote(key).value + [COLON], text, after);
    Regroup(Quote(key).value, [COLON], text + after);
    ReadMember(Quote(key).value + rest, key, rest, value, after);
  }

  lemma KeyReadsBack(key: Text, rest: Text)
    requires WellFormed(key)
    ensures var t := Quote(key).value + rest; t != [] && t[0] == QUOTE && ReadString(t[1..]) == Some(Parsed(key, rest))
  {
    StringReadsBack(key, rest);
    assert (Quote(key).value + rest)[1..] == EscapeAll(key) + [QUOTE] + rest;
  }

  /** Which keys an object means, and with which values. */
  lemma {:induction false} MembersOfExactly(props: seq<Prop>, parent: Js)
    requires parent.Obj? && (forall p | p in props :: p in parent.props) && DistinctKeys(props)
    ensures forall k :: k in MembersOf(props, parent) <==> exists p :: p in props && p.key == k && !p.value.Undefined?
    ensures forall p | p in props && !p.value.Undefined? :: MembersOf(props, parent)[p.key] == Meaning(p.value)
  {
    if props != [] {
      MembersOfExactly(props[1..], parent);
      assert props[0] in props;
      forall p | p in props[1..] ensures p.key != props[0].key {
        var i :| 0 <= i < |props[1..]| && props[1..][i] == p;
        assert p == props[i + 1];
      }
    }
  }

  /** Sorting the properties does not change what the object means. */
  lemma MembersOfSorted(props: seq<Prop>, parent: Js)
    requires parent == Obj(props) && DistinctKeys(props)
    ensures (SameElements(props); MembersOf(SortByKey(props), parent)) == MembersOf(props, parent)
  {
    SameElements(props);
    SortIsStrict(props);
    MembersOfExactly(props, parent);
    MembersOfExactly(SortByKey(props), parent);
  }
}
