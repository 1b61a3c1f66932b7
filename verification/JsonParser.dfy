/** The pull parser of Contiki (apps/json/jsonparse.c): one token for each call, with a stack of open containers. */
module JsonParser {

  const MAX_DEPTH := 10
  const NUL := '\0'

  datatype Error = Ok | Syntax | UnexpectedArray | UnexpectedEndOfArray | UnexpectedObject
    | UnexpectedEndOfObject | UnexpectedString

  datatype State = State(pos: nat, stack: string, vtype: char, error: Error, vstart: nat, vlen: nat)

  /** A character of the text; what lies behind it is read as 0. */
  function At(json: string, i: nat): char {
    if i < |json| then json[i] else NUL
  }

  /** jsonparse_get_type: the container that is open, ':' for an object whose member has its name, 0 for none. */
  function TypeOf(stack: string): char {
    if stack == "" then NUL else stack[|stack| - 1]
  }

  function Push(s: State, c: char): State {
    s.(stack := s.stack + [c], vtype := NUL)
  }

  function Modify(s: State, c: char): State {
    if s.stack == "" then s else s.(stack := s.stack[..|s.stack| - 1] + [c])
  }

  function Pop(s: State): State {
    if s.stack == "" then s else s.(vtype := TypeOf(s.stack), stack := s.stack[..|s.stack| - 1])
  }

  function SkipSpace(json: string, pos: nat): (p: nat)
    ensures pos <= p
    decreases |json| - pos
  {
    if pos < |json| && (json[pos] == ' ' || json[pos] == '\n') then SkipSpace(json, pos + 1) else pos
  }

  // ----- Atomic values -----

  /** Where the loop over a string stops: behind its closing quote, or behind the end of the text. */
  function StringStop(json: string, pos: nat): (p: nat)
    ensures p > pos
    decreases |json| - pos
  {
    var c := At(json, pos);
    if c == NUL || c == '"' then pos + 1
    else if c == '\\' then StringStop(json, pos + 2)
    else StringStop(json, pos + 1)
  }

  predicate NumberChar(c: char) {
    ('0' <= c <= '9') || c == '.'
  }

  function NumberStop(json: string, pos: nat): (p: nat)
    ensures p >= pos
    decreases |json| - pos
  {
    if NumberChar(At(json, pos)) then NumberStop(json, pos + 1) else pos
  }

  predicate WordEnd(c: char) {
    c == NUL || c == ' ' || c == ',' || c == ']' || c == '}'
  }

  function WordStop(json: string, pos: nat): (p: nat)
    ensures p >= pos
    decreases |json| - pos
  {
    if WordEnd(At(json, pos)) then pos else WordStop(json, pos + 1)
  }

  function Word(kind: char): string {
    if kind == 'n' then "null" else if kind == 't' then "true" else if kind == 'f' then "false" else ""
  }

  function Region(json: string, from: nat, to: nat): string
    requires from <= to
  {
    if to <= |json| then json[from..to] else ""
  }

  function Failed(s: State, e: Error): (State, char) {
    (s.(error := e), NUL)
  }

  /** atomic: start and length of the value are noted, and it is passed by. */
  function Atomic(json: string, s: State, kind: char): (State, char)
    requires s.pos > 0
  {
    if kind == '"' || kind == 'N' then
      var stop := StringStop(json, s.pos);
      if At(json, stop - 1) != '"' then Failed(s.(pos := stop, vstart := s.pos), Syntax)
      else (s.(pos := stop, vstart := s.pos, vlen := stop - s.pos - 1, vtype := kind), kind)
    else if kind == '0' then
      var stop := NumberStop(json, s.pos);
      (s.(pos := stop, vstart := s.pos - 1, vlen := stop - s.pos + 1, vtype := kind), kind)
    else
      var stop := WordStop(json, s.pos);
      var s' := s.(pos := stop, vstart := s.pos - 1, vlen := stop - s.pos + 1);
      if Region(json, s.pos - 1, stop) != Word(kind) then Failed(s', Syntax) else (s'.(vtype := kind), kind)
  }

  // ----- The next token -----

  predicate ValueExpected(type_: char, vtype: char) {
    (type_ == NUL && vtype == NUL) || type_ == '[' || type_ == ':'
  }

  /** jsonparse_next: the state behind the next token, and its kind. */
  function Next(json: string, s0: State): (State, char)
    decreases |json| - s0.pos
  {
    var at := SkipSpace(json, s0.pos);
    var c, t, v := At(json, at), TypeOf(s0.stack), s0.vtype;
    var s := s0.(pos := at + 1);
    if c == '{' then
      if ValueExpected(t, v) then (Push(s, c), c) else Failed(s, UnexpectedObject)
    else if c == '}' then
      if (t == ':' && v != ',' && v != NUL) || (t == '{' && v == NUL) then (Pop(s), c)
      else Failed(s, UnexpectedEndOfObject)
    else if c == ']' then
      if t == '[' && v != ',' then (Pop(s), c) else Failed(s, UnexpectedEndOfArray)
    else if c == ':' then
      if t == '{' && v == 'N' then Next(json, Modify(s, ':').(vtype := NUL)) else Failed(s, Syntax)
    else if c == ',' then
      if t == ':' && v != NUL then (Modify(s, '{').(vtype := c), c)
      else if t == '[' then (s.(vtype := c), c)
      else Failed(s, Syntax)
    else if c == '"' then
      if ValueExpected(t, v) || t == '{' then Atomic(json, s, if t == '{' then 'N' else c)
      else Failed(s, UnexpectedString)
    else if c == '[' then
      if ValueExpected(t, v) then (Push(s, c), c) else Failed(s, UnexpectedArray)
    else if c == NUL then
      if v == NUL || s.stack != "" then Failed(s, Syntax) else (s, NUL)
    else if t == NUL || t == ':' || t == '[' then
      if v != NUL && v != ',' then Failed(s, Syntax)
      else if c == '-' || ('0' <= c <= '9') then Atomic(json, s, '0')
      else if c == 'n' || c == 't' || c == 'f' then Atomic(json, s, c)
      else Failed(s, Syntax)
    else if t == '{' then Failed(s, Syntax)
    else (s, NUL)
  }

  // ----- Copying a value -----

  predicate IsAtomic(vtype: char) {
    vtype in {'N', '"', '0', 'n', 't', 'f'}
  }

  /** What a backslash and the character behind it stand for; nothing, if that is not known. */
  function Unescaped(c: char): (s: string)
    ensures |s| <= 1
  {
    if c == '"' || c == '\\' || c == '/' then [c]
    else if c == 'b' then [8 as char]
    else if c == 'f' then [12 as char]
    else if c == 'n' then ['\n']
    else if c == 'r' then ['\r']
    else if c == 't' then ['\t']
    else ""
  }

  function Copied(json: string, from: nat, to: nat, room: nat): (r: string)
    ensures |r| <= room
    decreases if from <= to then to - from else 0
  {
    if from >= to || room == 0 then ""
    else if At(json, from) == '\\' then
      var x := Unescaped(At(json, from + 1));
      x + Copied(json, from + 2, to, room - |x|)
    else [At(json, from)] + Copied(json, from + 1, to, room - 1)
  }

  lemma CopiedStep(json: string, from: nat, to: nat, room: nat, before: string)
    requires from < to && room > 0
    ensures var piece := if At(json, from) == '\\' then Unescaped(At(json, from + 1)) else [At(json, from)];
      var next := if At(json, from) == '\\' then from + 2 else from + 1;
      |piece| <= 1 && before + Copied(json, from, to, room) == (before + piece) + Copied(json, next, to, room - |piece|)
  {
  }

  lemma CopiedEnd(json: string, from: nat, to: nat, room: nat)
    requires from >= to || room == 0
    ensures Copied(json, from, to, room) == ""
  {
  }

  /** atol on a text that begins with a number. */
  function DigitsValue(json: string, pos: nat, acc: nat): int
    decreases |json| - pos
  {
    if '0' <= At(json, pos) <= '9' then DigitsValue(json, pos + 1, 10 * acc + (At(json, pos) as int - '0' as int))
    else acc
  }

  function NumberValue(json: string, pos: nat): int {
    if At(json, pos) == '-' then -DigitsValue(json, pos + 1, 0) else DigitsValue(json, pos, 0)
  }

  // ----- The parser -----

  class Parser {
    const json: string
    const stack: array<char>
    var pos: nat
    var depth: nat
    var vtype: char
    var error: Error
    var vstart: nat
    var vlen: nat

    /** jsonparse_setup */
    constructor (json: string)
      ensures Valid() && fresh(stack) && this.json == json
      ensures Now() == State(0, "", NUL, Ok, 0, 0)
    {
      this.json := json;
      stack := new char[MAX_DEPTH](_ => NUL);
      pos, depth, vtype, error, vstart, vlen := 0, 0, NUL, Ok, 0, 0;
    }

    ghost predicate Valid()
      reads this
    {
      stack.Length == MAX_DEPTH && depth <= MAX_DEPTH
    }

    ghost function Now(): State
      reads this, stack
      requires Valid()
    {
      State(pos, stack[..depth], vtype, error, vstart, vlen)
    }

    method PushType(c: char)
      requires Valid() && depth < MAX_DEPTH
      modifies this, stack
      ensures Valid() && Now() == Push(old(Now()), c)
    {
      stack[depth] := c;
      depth := depth + 1;
      vtype := NUL;
    }

    method ModifyType(c: char)
      requires Valid()
      modifies stack
      ensures Valid() && Now() == Modify(old(Now()), c)
    {
      if depth > 0 {
        stack[depth - 1] := c;
      }
    }

    method PopType()
      requires Valid()
      modifies this
      ensures Valid() && Now() == Pop(old(Now()))
    {
      if depth > 0 {
        depth := depth - 1;
        vtype := stack[depth];
      }
    }

    method SkipWhite()
      requires Valid()
      modifies `pos
      ensures pos == SkipSpace(json, old(pos))
    {
      while pos < |json| && (json[pos] == ' ' || json[pos] == '\n')
        invariant SkipSpace(json, pos) == SkipSpace(json, old(pos))
        decreases |json| - pos
      {
        pos := pos + 1;
      }
    }

    /** The loop over a string; c is the last character it has seen. */
    method PassString() returns (c: char)
      requires Valid()
      modifies `pos
      ensures pos == StringStop(json, old(pos)) && c == At(json, pos - 1)
    {
      c := At(json, pos);
      pos := pos + 1;
      while c != NUL && c != '"'
        invariant pos > 0 && c == At(json, pos - 1)
        invariant StringStop(json, pos - 1) == StringStop(json, old(pos))
        decreases |json| + 1 - pos
      {
        if c == '\\' {
          pos := pos + 1;
        }
        c := At(json, pos);
        pos := pos + 1;
      }
    }

    method PassNumber()
      requires Valid()
      modifies `pos
      ensures pos == NumberStop(json, old(pos))
    {
      while NumberChar(At(json, pos))
        invariant NumberStop(json, pos) == NumberStop(json, old(pos))
        decreases |json| - pos
      {
        pos := pos + 1;
      }
    }

    method PassWord()
      requires Valid()
      modifies `pos
      ensures pos == WordStop(json, old(pos))
    {
      while !WordEnd(At(json, pos))
        invariant WordStop(json, pos) == WordStop(json, old(pos))
        decreases |json| - pos
      {
        pos := pos + 1;
      }
    }

    method ReadAtomic(kind: char) returns (r: char)
      requires Valid() && pos > 0
      modifies this
      ensures Valid() && (Now(), r) == Atomic(json, old(Now()), kind)
    {
      hide StringStop, NumberStop, WordStop, Region, Word, At;
      vstart := pos;
      if kind == '"' || kind == 'N' {
        var c := PassString();
        if c != '"' {
          error := Syntax;
          return NUL;
        }
        vlen := pos - vstart - 1;
      } else if kind == '0' {
        PassNumber();
        vstart := vstart - 1;
        vlen := pos - vstart;
      } else {
        PassWord();
        vstart := vstart - 1;
        vlen := pos - vstart;
        if Region(json, vstart, pos) != Word(kind) {
          error := Syntax;
          return NUL;
        }
      }
      vtype := kind;
      return vtype;
    }

    method Fail(e: Error) returns (r: char)
      requires Valid()
      modifies `error
      ensures Valid() && (Now(), r) == Failed(old(Now()), e)
    {
      error := e;
      return NUL;
    }

    /** jsonparse_next; the stack has no room for more than MAX_DEPTH open containers. */
    method ReadNext() returns (r: char)
      requires Valid() && |Next(json, Now()).0.stack| <= MAX_DEPTH
      modifies this, stack
      ensures Valid() && (Now(), r) == Next(json, old(Now()))
      decreases |json| - pos
    {
      hide Atomic;
      ghost var s0 := Now();
      SkipWhite();
      assert stack[..depth] == s0.stack;
      var c := At(json, pos);
      var t := if depth == 0 then NUL else stack[depth - 1];
      var v := vtype;
      pos := pos + 1;
      if c == '{' {
        if ValueExpected(t, v) {
          PushType(c);
        } else {
          r := Fail(UnexpectedObject);
          return;
        }
        return c;
      } else if c == '}' {
        if (t == ':' && v != ',' && v != NUL) || (t == '{' && v == NUL) {
          PopType();
        } else {
          r := Fail(UnexpectedEndOfObject);
          return;
        }
        return c;
      } else if c == ']' {
        if t == '[' && v != ',' {
          PopType();
        } else {
          r := Fail(UnexpectedEndOfArray);
          return;
        }
        return c;
      } else if c == ':' {
        if t == '{' && v == 'N' {
          ModifyType(':');
          vtype := NUL;
        } else {
          r := Fail(Syntax);
          return;
        }
        r := ReadNext();
      } else if c == ',' {
        if t == ':' && v != NUL {
          ModifyType('{');
          vtype := c;
        } else if t == '[' {
          vtype := c;
        } else {
          r := Fail(Syntax);
          return;
        }
        return c;
      } else if c == '"' {
        if ValueExpected(t, v) || t == '{' {
          r := ReadAtomic(if t == '{' then 'N' else c);
        } else {
          r := Fail(UnexpectedString);
        }
      } else if c == '[' {
        if ValueExpected(t, v) {
          PushType(c);
        } else {
          r := Fail(UnexpectedArray);
          return;
        }
        return c;
      } else if c == NUL {
        if v == NUL || depth > 0 {
          error := Syntax;
        }
        return NUL;
      } else if t == NUL || t == ':' || t == '[' {
        if v != NUL && v != ',' {
          r := Fail(Syntax);
        } else if c == '-' || ('0' <= c && c <= '9') {
          r := ReadAtomic('0');
        } else if c == 'n' || c == 't' || c == 'f' {
          r := ReadAtomic(c);
        } else {
          r := Fail(Syntax);
        }
      } else if t == '{' {
        r := Fail(Syntax);
      } else {
        return NUL;
      }
    }

    /** jsonparse_copy_value, into a buffer of the given size. */
    method CopyValue(size: nat) returns (str: string, r: char)
      requires Valid() && size > 0
      ensures if IsAtomic(vtype) then str == Copied(json, vstart, vstart + vlen, size - 1) && r == vtype
              else str == "" && r == NUL
    {
      hide Copied, Unescaped, At;
      str := "";
      if !IsAtomic(vtype) {
        return "", NUL;
      }
      var i := 0;
      while i < vlen && |str| < size - 1
        invariant |str| <= size - 1 && 0 <= i
        invariant str + Copied(json, vstart + i, vstart + vlen, size - 1 - |str|) ==
          Copied(json, vstart, vstart + vlen, size - 1)
        decreases vlen - i
      {
        var c := At(json, vstart + i);
        CopiedStep(json, vstart + i, vstart + vlen, size - 1 - |str|, str);
        if c == '\\' {
          i := i + 1;
          str := str + Unescaped(At(json, vstart + i));
        } else {
          str := str + [c];
        }
        i := i + 1;
      }
      CopiedEnd(json, vstart + i, vstart + vlen, size - 1 - |str|);
      return str, vtype;
    }

    /** jsonparse_get_value_as_long */
    method GetValueAsLong() returns (n: int)
      requires Valid()
      ensures n == if vtype == '0' then NumberValue(json, vstart) else 0
    {
      if vtype != '0' {
        return 0;
      }
      return NumberValue(json, vstart);
    }
  }
}
