/**
 What the JSON parser makes of texts that the printer never writes: blanks, words, escapes, and brackets in any
 order.  And what the printer writes, character by character.
 */
module JsonText {
  import opened JsonTree
  import opened RT = JsonRoundTrip
  import P = JsonParser

  // ----- Blanks -----

  predicate Blank(json: string, i: nat) {
    i < |json| && (json[i] == ' ' || json[i] == '\n')
  }

  /** Spaces and line ends are skipped, and nothing else. */
  lemma {:induction false} SkipSpaceIs(json: string, pos: nat)
    ensures
      var p := P.SkipSpace(json, pos);
      && pos <= p
      && (forall i: nat :: pos <= i < p ==> Blank(json, i)) && !Blank(json, p)
    decreases |json| - pos
  {
    if Blank(json, pos) {
      SkipSpaceIs(json, pos + 1);
    }
  }

  /** Blanks in front of a token make no difference, in any state. */
  lemma {:induction false} BlanksAreSkipped(json: string, s: P.State, n: nat)
    requires forall i: nat :: s.pos <= i < s.pos + n ==> Blank(json, i)
    ensures P.Next(json, s) == P.Next(json, s.(pos := s.pos + n))
  {
    SameSpace(json, s.pos, n);
  }

  lemma {:induction false} SameSpace(json: string, pos: nat, n: nat)
    requires forall i: nat :: pos <= i < pos + n ==> Blank(json, i)
    ensures P.SkipSpace(json, pos) == P.SkipSpace(json, pos + n)
    decreases n
  {
    if n > 0 {
      assert Blank(json, pos);
      SameSpace(json, pos + 1, n - 1);
    }
  }

  // ----- Words -----

  /** At the beginning, in an array, or behind the name of a member; and no value has just been passed. */
  predicate ExpectsValue(s: P.State) {
    if s.stack == "" then s.vtype == P.NUL
    else s.stack[|s.stack| - 1] in {'[', ':'} && s.vtype in {P.NUL, ','}
  }

  predicate Delimits(c: char) {
    c in {P.NUL, ' ', ',', ']', '}'}
  }

  lemma {:induction false} WordStopIs(json: string, pos: nat, end: nat)
    requires pos <= end <= |json| && Delimits(P.At(json, end))
    requires forall i :: pos <= i < end ==> !Delimits(json[i])
    ensures P.WordStop(json, pos) == end
    decreases end - pos
  {
    if pos < end {
      assert P.At(json, pos) == json[pos];
      WordStopIs(json, pos + 1, end);
    }
  }

  /** A word up to the next delimiter is a value iff it is null, true or false; any other one is a syntax error. */
  lemma WordIff(json: string, s: P.State, end: nat)
    requires ExpectsValue(s) && s.pos < end <= |json| && Delimits(P.At(json, end))
    requires forall i :: s.pos <= i < end ==> !Delimits(json[i])
    requires json[s.pos] in {'n', 't', 'f'}
    ensures
      var word := json[s.pos..end];
      P.Next(json, s) ==
        if word == "null" || word == "true" || word == "false"
        then (s.(pos := end, vstart := s.pos, vlen := |word|, vtype := word[0]), word[0])
        else (s.(pos := end, vstart := s.pos, vlen := |word|, error := P.Syntax), P.NUL)
  {
    hide P.WordStop;
    WordStopIs(json, s.pos + 1, end);
    assert P.SkipSpace(json, s.pos) == s.pos;
  }

  /** The text that is copied of a value without a backslash, as far as there is room. */
  lemma {:induction false} PlainCopy(json: string, from: nat, to: nat, room: nat)
    requires from <= to <= |json| && '\\' !in json[from..to]
    ensures P.Copied(json, from, to, room) == Upto(json[from..to], room)
    decreases |json| - from
  {
    hide P.Copied, P.Unescaped;
    if from == to || room == 0 {
      P.CopiedEnd(json, from, to, room);
    } else {
      var s := json[from..to];
      assert s[0] == P.At(json, from) != '\\' && s[1..] == json[from + 1..to];
      CopiedHead(json, from, to, room);
      PlainCopy(json, from + 1, to, room - 1);
    }
  }

  /** null, true and false can be copied like strings and numbers. */
  lemma WordIsCopied(json: string, from: nat, to: nat, room: nat)
    requires from <= to <= |json| && json[from..to] in {"null", "true", "false"}
    ensures P.IsAtomic(json[from]) && P.Copied(json, from, to, room) == Upto(json[from..to], room)
  {
    PlainCopy(json, from, to, room);
    assert json[from] == json[from..to][0];
  }

  // ----- Numbers -----

  predicate Numeric(c: char) {
    c in {'0', '1', '2', '3', '4', '5', '6', '7', '8', '9', '.'}
  }

  lemma {:induction false} NumberStopIs(json: string, pos: nat, end: nat)
    requires pos <= end <= |json| && !Numeric(P.At(json, end))
    requires forall i :: pos <= i < end ==> Numeric(json[i])
    ensures P.NumberStop(json, pos) == end
    decreases end - pos
  {
    if pos < end {
      assert P.At(json, pos) == json[pos];
      NumberStopIs(json, pos + 1, end);
    }
  }

  /** A number is a digit or a minus sign with all digits and points behind it. */
  lemma NumberIsRead(json: string, s: P.State, end: nat)
    requires ExpectsValue(s) && s.pos < end <= |json| && !Numeric(P.At(json, end))
    requires json[s.pos] == '-' || (Numeric(json[s.pos]) && json[s.pos] != '.')
    requires forall i :: s.pos < i < end ==> Numeric(json[i])
    ensures P.Next(json, s) == (s.(pos := end, vstart := s.pos, vlen := end - s.pos, vtype := '0'), '0')
  {
    hide P.NumberStop;
    NumberStopIs(json, s.pos + 1, end);
    assert P.SkipSpace(json, s.pos) == s.pos;
  }

  // ----- Strings with escapes -----

  /** What a backslash and the character behind it stand for. */
  predicate Escapes(raw: char, value: string) {
    || (raw == '"' && value == "\"") || (raw == '\\' && value == "\\") || (raw == '/' && value == "/")
    || (raw == 'b' && value == [8 as char]) || (raw == 'f' && value == [12 as char]) || (raw == 'n' && value == "\n")
    || (raw == 'r' && value == "\r") || (raw == 't' && value == "\t")
    || (raw !in {P.NUL, '"', '\\', '/', 'b', 'f', 'n', 'r', 't'} && value == "")
  }

  /** A piece of a string: a character as it is, or an escape. */
  datatype Piece = Char(c: char) | Escaped(raw: char, value: string)

  predicate WfPiece(p: Piece) {
    match p
    case Char(c) => c !in {P.NUL, '"', '\\'}
    case Escaped(raw, value) => Escapes(raw, value)
  }

  function Raw(p: Piece): string {
    match p
    case Char(c) => [c]
    case Escaped(raw, _) => ['\\', raw]
  }

  function Meaning(p: Piece): string {
    match p
    case Char(c) => [c]
    case Escaped(_, value) => value
  }

  function AllRaw(pieces: seq<Piece>): string {
    if pieces == [] then "" else Raw(pieces[0]) + AllRaw(pieces[1..])
  }

  function AllMeaning(pieces: seq<Piece>): string {
    if pieces == [] then "" else Meaning(pieces[0]) + AllMeaning(pieces[1..])
  }

  ghost predicate WfPieces(pieces: seq<Piece>) {
    forall i :: 0 <= i < |pieces| ==> WfPiece(pieces[i])
  }

  lemma {:induction false} StringStopIs(json: string, pos: nat, pieces: seq<Piece>)
    requires WfPieces(pieces) && Occurs(json, pos, AllRaw(pieces) + ['"'])
    ensures P.StringStop(json, pos) == pos + |AllRaw(pieces)| + 1
    decreases |pieces|
  {
    hide P.StringStop;
    OccursParts(json, pos, AllRaw(pieces), ['"']);
    StopStep(json, pos);
    if pieces == [] {
      OccursAt(json, pos, ['"'], 0);
    } else {
      var first, rest := Raw(pieces[0]), AllRaw(pieces[1..]);
      assert AllRaw(pieces) + ['"'] == first + (rest + ['"']);
      OccursParts(json, pos, first, rest + ['"']);
      OccursAt(json, pos, first, 0);
      StringStopIs(json, pos + |first|, pieces[1..]);
    }
  }

  lemma StopStep(json: string, pos: nat)
    ensures
      var c := P.At(json, pos);
      P.StringStop(json, pos) == if c == P.NUL || c == '"' then pos + 1
                                 else if c == '\\' then P.StringStop(json, pos + 2) else P.StringStop(json, pos + 1)
  {
  }

  function Upto(s: string, n: nat): string {
    if n <= |s| then s[..n] else s
  }

  /** The copy of a string is what its pieces mean, as far as there is room. */
  lemma {:induction false} CopyIsMeaning(json: string, pos: nat, pieces: seq<Piece>, room: nat)
    requires WfPieces(pieces) && Occurs(json, pos, AllRaw(pieces))
    ensures P.Copied(json, pos, pos + |AllRaw(pieces)|, room) == Upto(AllMeaning(pieces), room)
    decreases |pieces|
  {
    hide P.Copied, P.Unescaped, AllRaw, AllMeaning, Upto, Escapes;
    var to := pos + |AllRaw(pieces)|;
    if pieces == [] || room == 0 {
      NothingMeant(pieces, room);
      P.CopiedEnd(json, pos, to, room);
    } else {
      var first, rest, piece := Raw(pieces[0]), AllRaw(pieces[1..]), Meaning(pieces[0]);
      PieceIsCopied(json, pos, pieces, room);
      CopyIsMeaning(json, pos + |first|, pieces[1..], room - |piece|);
      MeaningStep(pieces, room);
    }
  }

  lemma NothingMeant(pieces: seq<Piece>, room: nat)
    ensures pieces == [] ==> AllRaw(pieces) == "" && Upto(AllMeaning(pieces), room) == ""
    ensures room == 0 ==> Upto(AllMeaning(pieces), room) == ""
  {
  }

  lemma PieceIsCopied(json: string, pos: nat, pieces: seq<Piece>, room: nat)
    requires WfPieces(pieces) && pieces != [] && Occurs(json, pos, AllRaw(pieces)) && room > 0
    ensures
      var first, rest, piece := Raw(pieces[0]), AllRaw(pieces[1..]), Meaning(pieces[0]);
      && Occurs(json, pos + |first|, rest) && |AllRaw(pieces)| == |first| + |rest| && |piece| <= 1
      && P.Copied(json, pos, pos + |AllRaw(pieces)|, room)
         == piece + P.Copied(json, pos + |first|, pos + |first| + |rest|, room - |piece|)
  {
    hide P.Copied, P.Unescaped, P.At, Occurs, Raw, Meaning, WfPiece;
    var first, rest := Raw(pieces[0]), AllRaw(pieces[1..]);
    OccursParts(json, pos, first, rest);
    FirstPiece(json, pos, pieces[0]);
    CopiedHead(json, pos, pos + |first| + |rest|, room);
  }

  lemma FirstPiece(json: string, pos: nat, p: Piece)
    requires WfPiece(p) && Occurs(json, pos, Raw(p))
    ensures |Meaning(p)| <= 1
    ensures if P.At(json, pos) == '\\' then |Raw(p)| == 2 && P.Unescaped(P.At(json, pos + 1)) == Meaning(p)
            else |Raw(p)| == 1 && Meaning(p) == [P.At(json, pos)]
  {
    OccursAt(json, pos, Raw(p), 0);
    if p.Escaped? {
      OccursAt(json, pos, Raw(p), 1);
    }
  }

  lemma CopiedHead(json: string, from: nat, to: nat, room: nat)
    requires from < to && room > 0
    ensures P.Copied(json, from, to, room) ==
      if P.At(json, from) == '\\' then
        var x := P.Unescaped(P.At(json, from + 1)); x + P.Copied(json, from + 2, to, room - |x|)
      else [P.At(json, from)] + P.Copied(json, from + 1, to, room - 1)
  {
  }

  lemma MeaningStep(pieces: seq<Piece>, room: nat)
    requires pieces != [] && |Meaning(pieces[0])| <= 1 && room > 0
    ensures Upto(AllMeaning(pieces), room)
            == Meaning(pieces[0]) + Upto(AllMeaning(pieces[1..]), room - |Meaning(pieces[0])|)
  {
  }

  /** Where a string may stand: as the name of a member, or as a value, behind another value as well. */
  predicate ExpectsString(s: P.State) {
    if s.stack == "" then s.vtype == P.NUL else s.stack[|s.stack| - 1] in {'[', ':', '{'}
  }

  /**
   A string of any characters and escapes is read up to its closing quote, as a name or as a value, and what is
   copied of it is what its pieces mean; an escape that is not known stands for nothing.
   */
  lemma StringIsRead(json: string, s: P.State, pieces: seq<Piece>, room: nat)
    requires ExpectsString(s) && WfPieces(pieces) && Occurs(json, s.pos, ['"'] + AllRaw(pieces) + ['"'])
    ensures
      var n := |AllRaw(pieces)|;
      var kind := if s.stack != "" && s.stack[|s.stack| - 1] == '{' then 'N' else '"';
      && P.Next(json, s) == (s.(pos := s.pos + n + 2, vstart := s.pos + 1, vlen := n, vtype := kind), kind)
      && P.Copied(json, s.pos + 1, s.pos + 1 + n, room) == Upto(AllMeaning(pieces), room)
  {
    hide P.StringStop, P.Copied, AllRaw, AllMeaning;
    var raw := AllRaw(pieces);
    assert ['"'] + raw + ['"'] == ['"'] + (raw + ['"']);
    OccursParts(json, s.pos, ['"'], raw + ['"']);
    OccursParts(json, s.pos + 1, raw, ['"']);
    OccursAt(json, s.pos, ['"'], 0);
    OccursAt(json, s.pos + 1 + |raw|, ['"'], 0);
    StringStopIs(json, s.pos + 1, pieces);
    CopyIsMeaning(json, s.pos + 1, pieces, room);
    assert P.SkipSpace(json, s.pos) == s.pos;
  }

  // ----- Brackets -----

  /** The brackets that are open, and whether every closing one so far had its partner. */
  datatype Brackets = Brackets(open: string, matched: bool)

  function Step(b: Brackets, kind: char): Brackets {
    if kind == '{' || kind == '[' then b.(open := b.open + [kind])
    else if kind == '}' || kind == ']' then
      if b.open != "" && b.open[|b.open| - 1] == (if kind == '}' then '{' else '[')
      then b.(open := b.open[..|b.open| - 1]) else b.(matched := false)
    else b
  }

  function Steps(b: Brackets, tokens: seq<Token>): Brackets
    decreases |tokens|
  {
    if tokens == [] then b else Steps(Step(b, tokens[0].kind), tokens[1..])
  }

  /** The stack of the parser holds the open brackets; ':' stands for a brace whose member has its name. */
  predicate Holds(stack: string, b: Brackets) {
    && b.matched && |stack| == |b.open|
    && forall i :: 0 <= i < |stack| ==> stack[i] in {'{', '[', ':'} && b.open[i] == if stack[i] == '[' then '[' else '{'
  }

  lemma {:induction false} NextKeepsBrackets(json: string, s: P.State, b: Brackets)
    requires Holds(s.stack, b) && P.Next(json, s).0.error == P.Ok
    ensures Holds(P.Next(json, s).0.stack, Step(b, P.Next(json, s).1))
    ensures P.Next(json, s).1 == P.NUL ==> s.stack == ""
    decreases |json| - s.pos
  {
    hide P.SkipSpace, P.StringStop, P.NumberStop, P.WordStop, P.Region, P.Word;
    var at := P.SkipSpace(json, s.pos);
    var s1 := s.(pos := at + 1);
    if P.At(json, at) == ':' && P.TypeOf(s.stack) == '{' && s.vtype == 'N' {
      NextKeepsBrackets(json, P.Modify(s1, ':').(vtype := P.NUL), b);
    }
  }

  /** In every run, every closing bracket closes the last open one of its kind, and the stack holds the open ones. */
  lemma {:induction false} BracketsMatch(json: string, s: P.State, b: Brackets, tokens: seq<Token>, s': P.State)
    requires Holds(s.stack, b) && Reads(json, s, tokens, s')
    ensures Holds(s'.stack, Steps(b, tokens))
    decreases |tokens|
  {
    hide P.Next, Holds, Text, Step;
    if tokens != [] {
      NextKeepsBrackets(json, s, b);
      BracketsMatch(json, P.Next(json, s).0, Step(b, tokens[0].kind), tokens[1..], s');
    }
  }

  /** A text that is read to its end without an error has all of its brackets closed, in the right order. */
  lemma AcceptedIsBalanced(json: string, tokens: seq<Token>, s': P.State)
    requires Reads(json, START, tokens, s')
    requires P.Next(json, s').1 == P.NUL && P.Next(json, s').0.error == P.Ok
    ensures Steps(Brackets("", true), tokens) == Brackets("", true)
  {
    hide P.Next;
    BracketsMatch(json, START, Brackets("", true), tokens, s');
    NextKeepsBrackets(json, s', Steps(Brackets("", true), tokens));
  }

  /** Behind a comma no bracket is closed, and in an object only a name is read. */
  lemma NothingClosesBehindComma(json: string, s: P.State)
    requires s.stack != "" && s.vtype == ',' && s.stack[|s.stack| - 1] in {'{', '['}
    ensures var (s1, c) := P.Next(json, s); s1.error == P.Ok ==>
      c != '}' && c != ']' && (s.stack[|s.stack| - 1] == '{' ==> c == 'N')
  {
    hide P.SkipSpace, P.StringStop, P.NumberStop, P.WordStop, P.Region, P.Word;
  }

  /** In an array, a comma is accepted behind anything, and a nested array without a comma in front of it. */
  lemma LooseCommas(json: string, s: P.State)
    requires s.stack != "" && s.stack[|s.stack| - 1] == '['
    ensures P.At(json, s.pos) == ',' ==> P.Next(json, s) == (s.(pos := s.pos + 1, vtype := ','), ',')
    ensures P.At(json, s.pos) == '[' ==>
      P.Next(json, s) == (s.(pos := s.pos + 1, stack := s.stack + "[", vtype := P.NUL), '[')
  {
  }

  // ----- What the printer writes -----

  lemma EmptyContainers()
    ensures Render(Object([])) == "{}" && Render(Array([])) == "[]"
  {
  }

  /** One child of a container, with what comes in front of it. */
  lemma FromStep(v: Json, i: nat)
    requires Container(v) && i <= Count(v)
    ensures From(v, i) ==
      if i == Count(v) then (if i == 0 then [Type(v)] else "") + [Closing(Type(v))]
      else (if i == 0 then [Type(v)] else "")
           + ((if i > 0 then [','] else "") + Label(v, i) + Render(Child(v, i)) + From(v, i + 1))
  {
  }

  lemma RenderFrom(v: Json)
    requires Container(v)
    ensures Render(v) == From(v, 0)
  {
  }

  /** An array of two elements. */
  lemma TwoElements(v: Json, w: Json)
    ensures Render(Array([v, w])) == "[" + Render(v) + "," + Render(w) + "]"
  {
    hide Render, From;
    var a := Array([v, w]);
    RenderFrom(a);
    FromStep(a, 0);
    FromStep(a, 1);
    FromStep(a, 2);
    Commas("[", "", Render(v), "", Render(w), "]");
  }

  lemma Commas(open: string, m: string, v: string, n: string, w: string, close: string)
    ensures open + ("" + m + v + ("" + ("," + n + w + ("" + close)))) == open + m + v + "," + n + w + close
  {
  }

  lemma Names(open: string, m: string, v: string, n: string, w: string, close: string)
    ensures open + (['"'] + m + ['"'] + [':']) + v + "," + (['"'] + n + ['"'] + [':']) + w + close
            == open + "\"" + m + "\":" + v + ",\"" + n + "\":" + w + close
  {
  }

  /** An object of two members. */
  lemma TwoMembers(m: string, v: Json, n: string, w: Json)
    ensures Render(Object([Pair(m, v), Pair(n, w)]))
            == "{" + "\"" + Escape(m) + "\":" + Render(v) + ",\"" + Escape(n) + "\":" + Render(w) + "}"
  {
    hide Render, From, Escape;
    var o := Object([Pair(m, v), Pair(n, w)]);
    RenderFrom(o);
    FromStep(o, 0);
    FromStep(o, 1);
    FromStep(o, 2);
    Commas("{", Label(o, 0), Render(v), Label(o, 1), Render(w), "}");
    Names("{", Escape(m), Render(v), Escape(n), Render(w), "}");
  }

  /** Numbers are written, and read, in decimal. */
  lemma Decimal()
    ensures Render(Uint(0)) == "0" && Render(Uint(42)) == "42" && Render(Int(-105)) == "-105"
    ensures P.NumberValue("42", 0) == 42 && P.NumberValue("-105", 0) == -105
  {
    assert Digits(10) == Digits(1) + ['0'] == "10";
    assert Digits(105) == Digits(10) + ['5'];
    assert P.DigitsValue("42", 2, 42) == 42;
    assert P.DigitsValue("42", 1, 4) == 42;
    assert P.DigitsValue("-105", 4, 105) == 105;
    assert P.DigitsValue("-105", 3, 10) == 105;
    assert P.DigitsValue("-105", 2, 1) == 105;
  }

  /** Quotes are escaped, and nothing else is. */
  lemma {:induction false} EscapeIs(s: string)
    ensures (forall i :: 0 <= i < |s| ==> s[i] != '"') ==> Escape(s) == s
    ensures s != "" && s[0] == '"' ==> Escape(s) == "\\\"" + Escape(s[1..])
    ensures s != "" && s[0] != '"' ==> Escape(s) == [s[0]] + Escape(s[1..])
  {
    if s != "" {
      EscapeIs(s[1..]);
    }
  }
}
