/** What jsontree prints, jsonparse reads back token by token. */
module JsonRoundTrip {
  import opened JsonTree
  import P = JsonParser

  /** What one call of jsonparse_next reports, with the copied text of an atomic value. */
  datatype Token = Token(kind: char, text: string)

  function Tokens(v: Json): (t: seq<Token>)
    ensures t != []
    decreases v, Count(v) + 1
  {
    match v
    case String(text) => [Token('"', text)]
    case Uint(number) => [Token('0', Digits(number))]
    case Int(integer) => [Token('0', Number(integer))]
    case _ => [Token(Type(v), "")] + Members(v, 0)
  }

  /** The tokens of a container from child i on. */
  function Members(v: Json, i: nat): seq<Token>
    requires Container(v) && i <= Count(v)
    decreases v, Count(v) - i
  {
    if i == Count(v) then [Token(Closing(Type(v)), "")]
    else
      var child := if v.Object? then v.pairs[i].value else v.elements[i];
      (if i > 0 then [Token(',', "")] else []) + Name(v, i) + Tokens(child) + Members(v, i + 1)
  }

  function Name(v: Json, i: nat): seq<Token>
    requires i < Count(v)
  {
    if v.Object? then [Token('N', v.pairs[i].name)] else []
  }

  predicate Plain(s: string) {
    forall i :: 0 <= i < |s| ==> s[i] != '\\' && s[i] != P.NUL
  }

  /** No string and no name has a backslash, or a 0 inside. */
  predicate PlainTree(v: Json)
    decreases v, Count(v) + 1
  {
    && (v.String? ==> Plain(v.text))
    && (v.Object? ==> forall i :: 0 <= i < |v.pairs| ==> Plain(v.pairs[i].name) && PlainTree(v.pairs[i].value))
    && (v.Array? ==> forall i :: 0 <= i < |v.elements| ==> PlainTree(v.elements[i]))
  }

  predicate ChildPlain(v: Json, i: nat)
    requires i < Count(v)
  {
    (v.Object? ==> Plain(v.pairs[i].name)) && PlainTree(Child(v, i))
  }

  // ----- Reading tokens -----

  const START := P.State(0, "", P.NUL, P.Ok, 0, 0)

  /** The copied text of the value that the parser has just passed. */
  function Text(json: string, s: P.State): string {
    if P.IsAtomic(s.vtype) then P.Copied(json, s.vstart, s.vstart + s.vlen, s.vlen) else ""
  }

  /** From s, the parser reads these tokens one after the other, without an error, and then is in s'. */
  ghost predicate Reads(json: string, s: P.State, tokens: seq<Token>, s': P.State)
    decreases |tokens|
  {
    if tokens == [] then s' == s
    else
      var (s1, c) := P.Next(json, s);
      && s1.error == P.Ok && c == tokens[0].kind != P.NUL && |s1.stack| <= P.MAX_DEPTH
      && (if P.IsAtomic(c) then s1.vtype == c && tokens[0].text == Text(json, s1) else tokens[0].text == "")
      && Reads(json, s1, tokens[1..], s')
  }

  lemma {:induction false} ReadsConcat(json: string, s: P.State, a: seq<Token>, m: P.State, b: seq<Token>, s': P.State)
    requires Reads(json, s, a, m) && Reads(json, m, b, s')
    ensures Reads(json, s, a + b, s')
    decreases |a|
  {
    hide P.Next, Text;
    if a == [] {
      assert a + b == b;
    } else {
      ReadsConcat(json, P.Next(json, s).0, a[1..], m, b, s');
      assert (a + b)[1..] == a[1..] + b;
    }
  }

  lemma ReadsOne(json: string, s: P.State, t: Token)
    requires var (s1, c) := P.Next(json, s);
      && s1.error == P.Ok && c == t.kind != P.NUL && |s1.stack| <= P.MAX_DEPTH
      && (if P.IsAtomic(c) then s1.vtype == c && t.text == Text(json, s1) else t.text == "")
    ensures Reads(json, s, [t], P.Next(json, s).0)
  {
    hide P.Next, Text;
    assert [t][1..] == [];
  }

  predicate Occurs(json: string, pos: nat, text: string) {
    pos + |text| <= |json| && json[pos..pos + |text|] == text
  }

  lemma OccursParts(json: string, pos: nat, a: string, b: string)
    requires Occurs(json, pos, a + b)
    ensures Occurs(json, pos, a) && Occurs(json, pos + |a|, b)
  {
    assert json[pos..pos + |a|] == (a + b)[..|a|];
    assert json[pos + |a|..pos + |a| + |b|] == (a + b)[|a|..];
  }

  lemma OccursAt(json: string, pos: nat, text: string, i: nat)
    requires Occurs(json, pos, text) && i < |text|
    ensures P.At(json, pos + i) == text[i]
  {
    assert json[pos..pos + |text|][i] == json[pos + i];
  }

  // ----- Strings -----

  /** The first character of a string, as it is printed. */
  function Piece(c: char): string {
    if c == '"' then ['\\', '"'] else [c]
  }

  lemma EscapeParts(json: string, pos: nat, text: string)
    requires text != "" && Occurs(json, pos, Escape(text) + ['"'])
    ensures Escape(text) == Piece(text[0]) + Escape(text[1..])
    ensures P.At(json, pos) == (if text[0] == '"' then '\\' else text[0])
    ensures text[0] == '"' ==> P.At(json, pos + 1) == '"'
    ensures Occurs(json, pos + |Piece(text[0])|, Escape(text[1..]) + ['"'])
  {
    var piece, rest := Piece(text[0]), Escape(text[1..]) + ['"'];
    assert Escape(text) + ['"'] == piece + rest;
    OccursParts(json, pos, piece, rest);
    OccursAt(json, pos, piece, 0);
    if text[0] == '"' {
      OccursAt(json, pos, piece, 1);
    }
  }

  /** A string without backslashes ends where it was printed to end, and is copied as it was. */
  lemma {:induction false} StringReads(json: string, pos: nat, text: string, room: nat)
    requires Plain(text) && Occurs(json, pos, Escape(text) + ['"']) && room >= |text|
    ensures P.StringStop(json, pos) == pos + |Escape(text)| + 1 && |Escape(text)| >= |text|
    ensures P.At(json, pos + |Escape(text)|) == '"'
    ensures P.Copied(json, pos, pos + |Escape(text)|, room) == text
    decreases |text|
  {
    hide P.StringStop, P.Copied, Escape, Occurs, Plain;
    var end := pos + |Escape(text)|;
    if text == "" {
      NothingEscaped();
      OccursAt(json, pos, Escape(text) + ['"'], 0);
      StopStep(json, pos);
      P.CopiedEnd(json, pos, end, room);
    } else {
      EscapeParts(json, pos, text);
      PlainParts(text);
      StringReads(json, pos + |Piece(text[0])|, text[1..], room - 1);
      StopStep(json, pos);
      P.CopiedStep(json, pos, end, room, "");
      assert "" + P.Copied(json, pos, end, room) == P.Copied(json, pos, end, room);
      assert text == ("" + [text[0]]) + text[1..];
    }
  }

  lemma PlainParts(text: string)
    requires Plain(text) && text != ""
    ensures Plain(text[1..]) && text[0] != '\\' && text[0] != P.NUL
  {
  }

  /**
   A string with a backslash does not come back, whatever follows it: it ends somewhere else, or its copy is
   shorter.
   */
  lemma {:induction false} BackslashIsLost(json: string, pos: nat, text: string, room: nat)
    requires Occurs(json, pos, Escape(text) + ['"'])
    requires forall i :: 0 <= i < |text| ==> text[i] != P.NUL
    requires P.StringStop(json, pos) == pos + |Escape(text)| + 1
    ensures |P.Copied(json, pos, pos + |Escape(text)|, room)| <= |text|
    ensures '\\' in text ==> |P.Copied(json, pos, pos + |Escape(text)|, room)| < |text|
    decreases |text|
  {
    hide P.StringStop, P.Copied, Escape, Occurs;
    var end := pos + |Escape(text)|;
    if text == "" || room == 0 {
      NothingEscaped();
      P.CopiedEnd(json, pos, end, room);
    } else {
      EscapeParts(json, pos, text);
      StopStep(json, pos);
      P.CopiedStep(json, pos, end, room, "");
      if text[0] == '\\' {
        if |text| == 1 {
          NothingEscaped();
        } else {
          EscapeParts(json, pos + 1, text[1..]);
          StopStep(json, pos + 2);
          if text[1] != '"' {
            assert text[1..][1..] == text[2..];
            BackslashIsLost(json, pos + 2, text[2..], room - |P.Unescaped(text[1])|);
          }
        }
      } else {
        BackslashIsLost(json, pos + |Piece(text[0])|, text[1..], room - 1);
        assert '\\' in text ==> '\\' in text[1..];
      }
    }
  }

  lemma NothingEscaped()
    ensures Escape("") == ""
  {
  }

  lemma StopStep(json: string, pos: nat)
    ensures var c := P.At(json, pos);
      P.StringStop(json, pos) == if c == P.NUL || c == '"' then pos + 1
                                 else P.StringStop(json, if c == '\\' then pos + 2 else pos + 1)
  {
  }

  /** A printed string comes back, as far as it was printed and as it was, exactly when it has no backslash. */
  lemma StringSurvives(json: string, pos: nat, text: string)
    requires Occurs(json, pos, Escape(text) + ['"'])
    requires forall i :: 0 <= i < |text| ==> text[i] != P.NUL
    ensures
      (P.StringStop(json, pos) == pos + |Escape(text)| + 1 &&
       P.Copied(json, pos, pos + |Escape(text)|, |Escape(text)|) == text)
      <==> '\\' !in text
  {
    hide P.StringStop, P.Copied, Escape;
    if '\\' !in text {
      EscapeIsLonger(text);
      StringReads(json, pos, text, |Escape(text)|);
    } else if P.StringStop(json, pos) == pos + |Escape(text)| + 1 {
      BackslashIsLost(json, pos, text, |Escape(text)|);
    }
  }

  // ----- Numbers -----

  predicate IsDigit(c: char) {
    '0' <= c <= '9'
  }

  lemma {:induction false} DigitsAreDigits(n: nat)
    ensures forall i :: 0 <= i < |Digits(n)| ==> IsDigit(Digits(n)[i])
  {
    if n >= 10 {
      DigitsAreDigits(n / 10);
    }
  }

  lemma {:induction false} NumberStops(json: string, pos: nat, digits: string)
    requires Occurs(json, pos, digits) && forall i :: 0 <= i < |digits| ==> IsDigit(digits[i])
    requires !P.NumberChar(P.At(json, pos + |digits|))
    ensures P.NumberStop(json, pos) == pos + |digits|
    decreases |digits|
  {
    if digits != "" {
      OccursAt(json, pos, digits, 0);
      assert digits == [digits[0]] + digits[1..];
      OccursParts(json, pos, [digits[0]], digits[1..]);
      NumberStops(json, pos + 1, digits[1..]);
    }
  }

  lemma {:induction false} CopiedPlain(json: string, pos: nat, text: string, room: nat)
    requires Occurs(json, pos, text) && Plain(text) && room >= |text|
    ensures P.Copied(json, pos, pos + |text|, room) == text
    decreases |text|
  {
    if text != "" {
      OccursAt(json, pos, text, 0);
      assert text == [text[0]] + text[1..];
      OccursParts(json, pos, [text[0]], text[1..]);
      CopiedPlain(json, pos + 1, text[1..], room - 1);
    }
  }

  lemma DigitsReadBack(json: string, pos: nat, n: nat)
    requires Occurs(json, pos, Digits(n)) && !IsDigit(P.At(json, pos + |Digits(n)|))
    ensures P.DigitsValue(json, pos, 0) == n
  {
    DigitsPrefix(json, pos, n);
  }

  lemma {:induction false} DigitsPrefix(json: string, pos: nat, n: nat)
    requires Occurs(json, pos, Digits(n))
    ensures P.DigitsValue(json, pos, 0) == P.DigitsValue(json, pos + |Digits(n)|, n)
  {
    if n < 10 {
      OccursAt(json, pos, Digits(n), 0);
    } else {
      OccursParts(json, pos, Digits(n / 10), [Digit(n % 10)]);
      DigitsPrefix(json, pos, n / 10);
      OccursAt(json, pos + |Digits(n / 10)|, [Digit(n % 10)], 0);
    }
  }

  /** The value of a printed integer. */
  lemma NumberReadsBack(json: string, pos: nat, i: int)
    requires Occurs(json, pos, Number(i)) && !IsDigit(P.At(json, pos + |Number(i)|))
    ensures P.NumberValue(json, pos) == i
  {
    OccursAt(json, pos, Number(i), 0);
    if i < 0 {
      OccursParts(json, pos, ['-'], Digits(-i));
      DigitsReadBack(json, pos + 1, -i);
    } else {
      DigitsAreDigits(i);
      DigitsReadBack(json, pos, i);
    }
  }

  // ----- Values -----

  /** What the parser's value type is behind a value. */
  function Mark(v: Json): char {
    match v
    case String(_) => '"'
    case Uint(_) => '0'
    case Int(_) => '0'
    case Array(_) => '['
    case Object(pairs) => if pairs == [] then '{' else ':'
  }

  /** The parser is where a value may begin. */
  predicate BeforeValue(s: P.State) {
    var t := P.TypeOf(s.stack);
    && s.error == P.Ok
    && ((t == P.NUL && s.stack == "" && s.vtype == P.NUL) ||
        (t == '[' && (s.vtype == P.NUL || s.vtype == ',')) || (t == ':' && s.vtype == P.NUL))
  }

  /** The parser has passed the text of a value that began in s. */
  predicate Passed(s: P.State, s': P.State, length: nat, mark: char) {
    s'.pos == s.pos + length && s'.stack == s.stack && s'.vtype == mark && s'.error == P.Ok
  }

  /** The parser is in a container, in front of child i or of the closing character. */
  predicate Inside(s: P.State, v: Json, i: nat, base: string)
    requires Container(v)
  {
    && s.error == P.Ok
    && s.stack == base + [if v.Array? then '[' else if i == 0 then '{' else ':']
    && if i == 0 then s.vtype == P.NUL else s.vtype != P.NUL && s.vtype != ','
  }

  /** What follows a value in a printed text. */
  predicate Delimited(json: string, pos: nat) {
    P.At(json, pos) in {',', ']', '}', P.NUL}
  }

  /** The rendering of a container from child i on, without the opening character. */
  function Rest(v: Json, i: nat): string
    requires Container(v) && i <= Count(v)
  {
    if i == 0 then From(v, 0)[1..] else From(v, i)
  }

  lemma RestLast(v: Json)
    requires Container(v)
    ensures Rest(v, Count(v)) == [Closing(Type(v))] && Render(v) == [Type(v)] + Rest(v, 0)
  {
  }

  lemma RestStep(v: Json, i: nat)
    requires i < Count(v)
    ensures Rest(v, i) == Comma(i) + (Label(v, i) + (Render(Child(v, i)) + Rest(v, i + 1)))
  {
    hide Label;
    var a, b, c, d := Comma(i), Label(v, i), Render(Child(v, i)), From(v, i + 1);
    assert From(v, i) == (if i == 0 then [Type(v)] else "") + (a + b + c + d);
    assert a + b + c + d == a + (b + (c + d));
  }

  lemma RestBegins(v: Json, i: nat)
    requires Container(v) && 0 < i <= Count(v)
    ensures Rest(v, i) != "" && Rest(v, i)[0] in {',', ']', '}'}
  {
  }

  // ----- Single tokens -----

  lemma NoSpace(json: string, pos: nat)
    requires P.At(json, pos) != ' ' && P.At(json, pos) != '\n'
    ensures P.SkipSpace(json, pos) == pos
  {
  }

  lemma OpenStep(json: string, s: P.State, c: char)
    requires BeforeValue(s) && (c == '{' || c == '[') && P.At(json, s.pos) == c
    ensures P.Next(json, s) == (P.Push(s.(pos := s.pos + 1), c), c)
  {
    NoSpace(json, s.pos);
  }

  lemma CloseStep(json: string, s: P.State, v: Json, base: string)
    requires Container(v) && Inside(s, v, Count(v), base) && P.At(json, s.pos) == Closing(Type(v))
    ensures P.Next(json, s) == (s.(pos := s.pos + 1, stack := base, vtype := Mark(v)), Closing(Type(v)))
  {
    NoSpace(json, s.pos);
  }

  lemma CommaStep(json: string, s: P.State, v: Json, i: nat, base: string)
    requires Container(v) && i > 0 && Inside(s, v, i, base) && P.At(json, s.pos) == ','
    ensures P.Next(json, s) == (s.(pos := s.pos + 1, stack := base + [Type(v)], vtype := ','), ',')
  {
    NoSpace(json, s.pos);
    assert (base + [':'])[..|base|] == base;
  }

  lemma QuotedFacts(json: string, pos: nat, text: string)
    requires Occurs(json, pos, Quoted(text)) && Plain(text)
    ensures P.At(json, pos) == '"' && |Quoted(text)| >= 2
    ensures P.StringStop(json, pos + 1) == pos + |Quoted(text)| && P.At(json, pos + |Quoted(text)| - 1) == '"'
    ensures P.Copied(json, pos + 1, pos + |Quoted(text)| - 1, |Quoted(text)| - 2) == text
  {
    hide P.StringStop, P.Copied, Escape, Plain;
    assert Quoted(text) == ['"'] + (Escape(text) + ['"']);
    OccursAt(json, pos, Quoted(text), 0);
    OccursParts(json, pos, ['"'], Escape(text) + ['"']);
    EscapeIsLonger(text);
    StringReads(json, pos + 1, text, |Escape(text)|);
  }

  lemma NameStep(json: string, s: P.State, name: string, base: string)
    requires s.error == P.Ok && s.stack == base + ['{'] && Occurs(json, s.pos, Quoted(name)) && Plain(name)
    requires |s.stack| <= P.MAX_DEPTH
    ensures var s1 := P.Next(json, s).0;
      && Reads(json, s, [Token('N', name)], s1)
      && s1.pos == s.pos + |Quoted(name)| && s1.stack == s.stack && s1.vtype == 'N' && s1.error == P.Ok
  {
    hide Escape, Quoted, P.StringStop, P.Copied, Occurs, Plain;
    QuotedFacts(json, s.pos, name);
    NoSpace(json, s.pos);
    ReadsOne(json, s, Token('N', name));
  }

  lemma {:induction false} EscapeIsLonger(text: string)
    ensures |Escape(text)| >= |text|
  {
    if text != "" {
      EscapeIsLonger(text[1..]);
    }
  }

  lemma ColonStep(json: string, s: P.State, base: string)
    requires s.stack == base + ['{'] && s.vtype == 'N' && P.At(json, s.pos) == ':'
    ensures P.Next(json, s) == P.Next(json, s.(pos := s.pos + 1, stack := base + [':'], vtype := P.NUL))
  {
    NoSpace(json, s.pos);
    assert s.stack[..|base|] == base;
  }

  lemma StringStep(json: string, s: P.State, text: string)
    requires BeforeValue(s) && Occurs(json, s.pos, Quoted(text)) && Plain(text) && |s.stack| <= P.MAX_DEPTH
    ensures var s1 := P.Next(json, s).0;
      Reads(json, s, [Token('"', text)], s1) && Passed(s, s1, |Quoted(text)|, '"')
  {
    hide Escape, Quoted, P.StringStop, P.Copied, Occurs, Plain;
    QuotedFacts(json, s.pos, text);
    NoSpace(json, s.pos);
    ReadsOne(json, s, Token('"', text));
  }

  lemma NumberStep(json: string, s: P.State, i: int)
    requires BeforeValue(s) && Occurs(json, s.pos, Number(i)) && Delimited(json, s.pos + |Number(i)|)
    requires |s.stack| <= P.MAX_DEPTH
    ensures var s1 := P.Next(json, s).0;
      && Reads(json, s, [Token('0', Number(i))], s1) && Passed(s, s1, |Number(i)|, '0')
      && P.NumberValue(json, s1.vstart) == i
  {
    hide Number, P.NumberStop, P.Copied, P.NumberValue, Occurs, Delimited;
    NumberFacts(json, s.pos, i);
    NoSpace(json, s.pos);
    ReadsOne(json, s, Token('0', Number(i)));
  }

  lemma NumberFacts(json: string, pos: nat, i: int)
    requires Occurs(json, pos, Number(i)) && Delimited(json, pos + |Number(i)|)
    ensures P.At(json, pos) == '-' || IsDigit(P.At(json, pos))
    ensures |Number(i)| > 0 && P.NumberStop(json, pos + 1) == pos + |Number(i)|
    ensures P.Copied(json, pos, pos + |Number(i)|, |Number(i)|) == Number(i)
    ensures P.NumberValue(json, pos) == i
  {
    hide P.NumberStop, P.Copied, P.NumberValue;
    var text := Number(i);
    NumberShape(i);
    NumberReadsBack(json, pos, i);
    hide Number;
    OccursAt(json, pos, text, 0);
    CopiedPlain(json, pos, text, |text|);
    assert text == [text[0]] + text[1..];
    OccursParts(json, pos, [text[0]], text[1..]);
    NumberStops(json, pos + 1, text[1..]);
  }

  lemma NumberShape(i: int)
    ensures var text := Number(i);
      && text != "" && (text[0] == '-' || IsDigit(text[0])) && Plain(text)
      && forall k :: 0 <= k < |text[1..]| ==> IsDigit(text[1..][k])
  {
    DigitsAreDigits(if i < 0 then -i else i);
  }

  lemma MarksValue(v: Json)
    ensures Mark(v) != P.NUL && Mark(v) != ','
  {
  }

  lemma MembersStep(v: Json, i: nat)
    requires i < Count(v)
    ensures Members(v, i) == CommaToken(i) + (Name(v, i) + Tokens(Child(v, i))) + Members(v, i + 1)
  {
    var a, b, c, d := CommaToken(i), Name(v, i), Tokens(Child(v, i)), Members(v, i + 1);
    hide Name, Tokens;
    assert Members(v, i) == a + b + c + d;
    assert a + b + c + d == a + (b + c) + d;
  }

  /** The comma in front of every child but the first. */
  lemma ReadComma(json: string, s: P.State, v: Json, i: nat, base: string) returns (s1: P.State)
    requires i < Count(v) && Inside(s, v, i, base) && |base| < P.MAX_DEPTH
    requires Occurs(json, s.pos, Comma(i))
    ensures Reads(json, s, CommaToken(i), s1)
    ensures s1.pos == s.pos + |Comma(i)| && s1.stack == base + [Type(v)] && s1.error == P.Ok
    ensures s1.vtype == P.NUL || s1.vtype == ','
  {
    if i > 0 {
      OccursAt(json, s.pos, [','], 0);
      CommaStep(json, s, v, i, base);
      ReadsOne(json, s, Token(',', ""));
      s1 := P.Next(json, s).0;
    } else {
      s1 := s;
    }
  }

  /** In an object, name and colon are passed before the value begins. */
  function AfterLabel(json: string, s1: P.State, v: Json, base: string): P.State {
    if v.Object? then
      var s := P.Next(json, s1).0;
      s.(pos := s.pos + 1, stack := base + [':'], vtype := P.NUL)
    else s1
  }

  lemma LabelState(json: string, s1: P.State, v: Json, i: nat, base: string)
    requires i < Count(v) && (v.Object? ==> Plain(v.pairs[i].name))
    requires Occurs(json, s1.pos, Label(v, i)) && |base| < P.MAX_DEPTH
    requires s1.stack == base + [Type(v)] && s1.error == P.Ok && (s1.vtype == P.NUL || s1.vtype == ',')
    ensures var s2 := AfterLabel(json, s1, v, base);
      && BeforeValue(s2) && s2.pos == s1.pos + |Label(v, i)|
      && s2.stack == base + [if v.Array? then '[' else ':']
  {
    hide P.Next, Reads;
    if v.Object? {
      OccursParts(json, s1.pos, Quoted(v.pairs[i].name), [':']);
      NameStep(json, s1, v.pairs[i].name, base);
    }
  }

  /** The token of the value is the one that the call at the colon reports. */
  lemma ReadLabelled(json: string, s1: P.State, v: Json, i: nat, base: string, tokens: seq<Token>, s3: P.State)
    requires i < Count(v) && (v.Object? ==> Plain(v.pairs[i].name))
    requires Occurs(json, s1.pos, Label(v, i)) && |base| < P.MAX_DEPTH
    requires s1.stack == base + [Type(v)] && s1.error == P.Ok
    requires tokens != [] && Reads(json, AfterLabel(json, s1, v, base), tokens, s3)
    ensures Reads(json, s1, Name(v, i) + tokens, s3)
  {
    hide P.Next, Text, Plain, Quoted, Occurs;
    if v.Object? {
      OccursParts(json, s1.pos, Quoted(v.pairs[i].name), [':']);
      NameStep(json, s1, v.pairs[i].name, base);
      var s := P.Next(json, s1).0;
      OccursAt(json, s.pos, [':'], 0);
      ColonStep(json, s, base);
      assert Reads(json, s, tokens, s3);
      hide Reads;
      ReadsConcat(json, s1, Name(v, i), s, tokens, s3);
    } else {
      assert Name(v, i) + tokens == tokens;
    }
  }

  // ----- Whole values -----

  /**
   Wherever a value may begin, the parser reads the tokens of a printed value, and is back in the same
   container behind it.
   */
  lemma {:induction false} ReadValue(json: string, s: P.State, v: Json) returns (s': P.State)
    requires BeforeValue(s) && Occurs(json, s.pos, Render(v)) && Delimited(json, s.pos + |Render(v)|)
    requires PlainTree(v) && |s.stack| + Height(v) < P.MAX_DEPTH
    ensures Reads(json, s, Tokens(v), s') && Passed(s, s', |Render(v)|, Mark(v))
    decreases v, Count(v) + 1, 0
  {
    hide P.Next, Reads, Height, Render, Rest, Tokens, Occurs, PlainTree, Delimited, Members;
    if !Container(v) {
      ReadLeaf(json, s, v);
      s' := P.Next(json, s).0;
    } else {
      RestLast(v);
      TokensOpen(v);
      OccursParts(json, s.pos, [Type(v)], Rest(v, 0));
      OccursAt(json, s.pos, [Type(v)], 0);
      OpenStep(json, s, Type(v));
      ReadsOne(json, s, Token(Type(v), ""));
      var s1 := P.Next(json, s).0;
      s' := ReadMembers(json, s1, v, 0, s.stack);
      ReadsConcat(json, s, [Token(Type(v), "")], s1, Members(v, 0), s');
    }
  }

  lemma TokensOpen(v: Json)
    requires Container(v)
    ensures Tokens(v) == [Token(Type(v), "")] + Members(v, 0)
  {
  }

  lemma ReadLeaf(json: string, s: P.State, v: Json)
    requires BeforeValue(s) && Occurs(json, s.pos, Render(v)) && Delimited(json, s.pos + |Render(v)|)
    requires PlainTree(v) && |s.stack| <= P.MAX_DEPTH && !Container(v)
    ensures var s1 := P.Next(json, s).0; Reads(json, s, Tokens(v), s1) && Passed(s, s1, |Render(v)|, Mark(v))
  {
    hide P.Next, Reads, Occurs, Delimited, BeforeValue, Passed, Quoted, Digits;
    match v
    case String(text) => StringStep(json, s, text);
    case Uint(number) => NumberStep(json, s, number);
    case Int(integer) => NumberStep(json, s, integer);
  }

  lemma {:induction false} ReadMembers(json: string, s: P.State, v: Json, i: nat, base: string) returns (s': P.State)
    requires Container(v) && i <= Count(v) && Inside(s, v, i, base) && Occurs(json, s.pos, Rest(v, i))
    requires PlainTree(v) && |base| + Height(v) < P.MAX_DEPTH
    ensures Reads(json, s, Members(v, i), s')
    ensures s'.pos == s.pos + |Rest(v, i)| && s'.stack == base && s'.vtype == Mark(v) && s'.error == P.Ok
    decreases v, Count(v) - i, 1
  {
    hide P.Next, Reads, Height, Rest, Render, Name, Tokens;
    if i == Count(v) {
      assert Members(v, i) == [Token(Closing(Type(v)), "")];
      RestLast(v);
      OccursAt(json, s.pos, Rest(v, i), 0);
      CloseStep(json, s, v, base);
      ReadsOne(json, s, Token(Closing(Type(v)), ""));
      s' := P.Next(json, s).0;
    } else {
      assert ChildPlain(v, i);
      var s3 := ReadChild(json, s, v, i, base);
      s' := ReadMembers(json, s3, v, i + 1, base);
      ReadsConcat(json, s, CommaToken(i) + (Name(v, i) + Tokens(Child(v, i))), s3, Members(v, i + 1), s');
      MembersStep(v, i);
    }
  }

  function Comma(i: nat): string {
    if i > 0 then [','] else ""
  }

  function CommaToken(i: nat): seq<Token> {
    if i > 0 then [Token(',', "")] else []
  }

  /** Where the parts of a child stand in a printed text. */
  lemma ChildParts(json: string, pos: nat, v: Json, i: nat)
    requires i < Count(v) && Occurs(json, pos, Rest(v, i))
    ensures
      var named := pos + |Comma(i)|;
      var value := named + |Label(v, i)|;
      var next := value + |Render(Child(v, i))|;
      && Occurs(json, pos, Comma(i)) && Occurs(json, named, Label(v, i)) && Occurs(json, value, Render(Child(v, i)))
      && Occurs(json, next, Rest(v, i + 1)) && Delimited(json, next) && next + |Rest(v, i + 1)| == pos + |Rest(v, i)|
  {
    hide Occurs, Rest, Label, Render;
    RestStep(v, i);
    RestBegins(v, i + 1);
    var child := Child(v, i);
    OccursParts(json, pos, Comma(i), Label(v, i) + (Render(child) + Rest(v, i + 1)));
    OccursParts(json, pos + |Comma(i)|, Label(v, i), Render(child) + Rest(v, i + 1));
    OccursParts(json, pos + |Comma(i)| + |Label(v, i)|, Render(child), Rest(v, i + 1));
    OccursAt(json, pos + |Comma(i)| + |Label(v, i)| + |Render(child)|, Rest(v, i + 1), 0);
  }

  /** One child, with its comma and its name. */
  lemma {:induction false} ReadChild(json: string, s: P.State, v: Json, i: nat, base: string) returns (s3: P.State)
    requires i < Count(v) && Inside(s, v, i, base) && Occurs(json, s.pos, Rest(v, i))
    requires ChildPlain(v, i) && |base| + Height(v) < P.MAX_DEPTH
    ensures Reads(json, s, CommaToken(i) + (Name(v, i) + Tokens(Child(v, i))), s3)
    ensures Inside(s3, v, i + 1, base) && Occurs(json, s3.pos, Rest(v, i + 1))
    ensures s3.pos + |Rest(v, i + 1)| == s.pos + |Rest(v, i)|
    decreases v, Count(v) - i, 0
  {
    hide P.Next, Reads, Height, Rest, Render, Occurs, Tokens, Members, Name, Label, PlainTree, Plain, Delimited;
    var child := if v.Object? then v.pairs[i].value else v.elements[i];
    ChildIsLower(v, i);
    ChildParts(json, s.pos, v, i);
    var s1 := ReadComma(json, s, v, i, base);
    LabelState(json, s1, v, i, base);
    var s2 := AfterLabel(json, s1, v, base);
    s3 := ReadValue(json, s2, child);
    MarksValue(child);
    ReadLabelled(json, s1, v, i, base, Tokens(child), s3);
    ReadsConcat(json, s, CommaToken(i), s1, Name(v, i) + Tokens(child), s3);
  }

  // ----- Whole texts -----

  /** The parser reads exactly the tokens of a printed tree, and then reports the end without an error. */
  lemma PrintedParses(v: Json) returns (s': P.State)
    requires PlainTree(v) && Height(v) < P.MAX_DEPTH
    ensures Reads(Render(v), START, Tokens(v), s')
    ensures s'.stack == "" && s'.error == P.Ok
    ensures P.Next(Render(v), s') == (s'.(pos := s'.pos + 1), P.NUL)
  {
    var json := Render(v);
    hide Render, Height, Reads, Tokens;
    assert json[0..|json|] == json;
    s' := ReadValue(json, START, v);
    MarksValue(v);
    NoSpace(json, s'.pos);
  }

  /** Print a tree, parse the text: the tokens of the tree, no error, and every container closed again. */
  method PrintAndParse(root: Json) returns (tokens: seq<Token>, error: P.Error, depth: nat)
    requires Height(root) < MAX_DEPTH && Printable(root) && PlainTree(root)
    ensures tokens == Tokens(root) && error == P.Ok && depth == 0
  {
    hide Render, Height, Printable, PlainTree, Tokens, P.Next, P.Copied, Reads;
    var text, calls := PrintTree(root);
    ghost var end := PrintedParses(root);
    var parser := new P.Parser(text);
    tokens := [];
    ghost var left := Tokens(root);
    var more := true;
    while more
      invariant parser.Valid() && fresh(parser) && fresh(parser.stack) && parser.json == text == Render(root)
      invariant tokens + left == Tokens(root)
      invariant more ==> Reads(text, parser.Now(), left, end)
      invariant !more ==> left == [] && parser.error == P.Ok && parser.depth == 0
      decreases |left|, more
    {
      ReadsFirst(text, parser.Now(), left, end);
      var kind := parser.ReadNext();
      if kind == P.NUL {
        more := false;
      } else {
        var str, r := parser.CopyValue(parser.vlen + 1);
        tokens := tokens + [Token(kind, if P.IsAtomic(kind) then str else "")];
        assert left == [left[0]] + left[1..];
        left := left[1..];
      }
    }
    error, depth := parser.error, parser.depth;
  }

  lemma ReadsFirst(json: string, s: P.State, tokens: seq<Token>, s': P.State)
    requires Reads(json, s, tokens, s')
    ensures tokens == [] ==> s == s'
    ensures tokens != [] ==>
      var (s1, c) := P.Next(json, s);
      && s1.error == P.Ok && c == tokens[0].kind != P.NUL && |s1.stack| <= P.MAX_DEPTH
      && (if P.IsAtomic(c) then s1.vtype == c && tokens[0].text == Text(json, s1) else tokens[0].text == "")
      && Reads(json, s1, tokens[1..], s')
  {
    hide P.Next, Text;
  }

  /** Print an integer, parse the text, and ask for the value. */
  method NumberComesBack(i: int) returns (n: int)
    requires Printable(Int(i))
    ensures n == i
  {
    hide Render, P.Next, P.NumberValue, Digits;
    HeightOfLeaf(i);
    var text, calls := PrintTree(Int(i));
    var parser := new P.Parser(text);
    assert text[0..|text|] == text;
    NumberStep(text, parser.Now(), i);
    var kind := parser.ReadNext();
    n := parser.GetValueAsLong();
  }

  lemma HeightOfLeaf(i: int)
    ensures Height(Int(i)) == 0 && Render(Int(i)) == Number(i)
  {
  }
}
