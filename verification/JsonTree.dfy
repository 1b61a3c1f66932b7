/** The JSON printer of Contiki (apps/json/jsontree.c): an explicit stack instead of recursion. */
module JsonTree {

  const MAX_DEPTH := 10

  /** Trees without callbacks; integers behind pointers are those that the pointers lead to. */
  datatype Json =
    | Object(pairs: seq<Pair>)
    | Array(elements: seq<Json>)
    | String(text: string)
    | Uint(number: nat)
    | Int(integer: int)

  datatype Pair = Pair(name: string, value: Json)

  predicate Container(v: Json) {
    v.Object? || v.Array?
  }

  function Count(v: Json): (n: nat)
    ensures n > 0 ==> Container(v)
  {
    match v
    case Object(pairs) => |pairs|
    case Array(elements) => |elements|
    case _ => 0
  }

  function Child(v: Json, i: nat): Json
    requires i < Count(v)
  {
    if v.Object? then v.pairs[i].value else v.elements[i]
  }

  /** The type of a container is the character that opens it; the one that closes it comes two places later. */
  function Type(v: Json): char
    requires Container(v)
  {
    if v.Object? then '{' else '['
  }

  function Closing(c: char): char
    requires c == '{' || c == '['
  {
    (c as int + 2) as char
  }

  function Height(v: Json): nat
    decreases v, Count(v) + 1
  {
    if Container(v) then HeightFrom(v, 0) else 0
  }

  /** More than the height of every child from i on. */
  function HeightFrom(v: Json, i: nat): (h: nat)
    requires Container(v) && i <= Count(v)
    ensures forall k :: i <= k < Count(v) ==> Height(Child(v, k)) < h
    decreases v, Count(v) - i
  {
    if i == Count(v) then 0
    else
      var child := if v.Object? then v.pairs[i].value else v.elements[i];
      var h, rest := Height(child) + 1, HeightFrom(v, i + 1);
      if h > rest then h else rest
  }

  // ----- What is printed -----

  /** The escaping of jsontree_write_string. */
  function Escape(s: string): string {
    if s == "" then "" else (if s[0] == '"' then ['\\', '"'] else [s[0]]) + Escape(s[1..])
  }

  function Quoted(s: string): string {
    ['"'] + Escape(s) + ['"']
  }

  function Digit(d: nat): char
    requires d < 10
  {
    ('0' as int + d) as char
  }

  function Digits(n: nat): (s: string)
    ensures |s| > 0
  {
    if n < 10 then [Digit(n)] else Digits(n / 10) + [Digit(n % 10)]
  }

  function Number(i: int): string {
    if i < 0 then ['-'] + Digits(-i) else Digits(i)
  }

  function Leaf(v: Json): string
    requires !Container(v)
  {
    match v
    case String(text) => Quoted(text)
    case Uint(number) => Digits(number)
    case Int(integer) => Number(integer)
  }

  /** Name and colon in front of a member of an object. */
  function Label(v: Json, i: nat): string
    requires i < Count(v)
  {
    if v.Object? then Quoted(v.pairs[i].name) + [':'] else ""
  }

  /** The recursive rendering. */
  function Render(v: Json): string
    decreases v, Count(v) + 1
  {
    if Container(v) then From(v, 0) else Leaf(v)
  }

  /** The rendering of a container from its child number i on. */
  function From(v: Json, i: nat): string
    requires Container(v) && i <= Count(v)
    decreases v, Count(v) - i
  {
    (if i == 0 then [Type(v)] else "")
    + if i == Count(v) then [Closing(Type(v))]
      else
        var child := if v.Object? then v.pairs[i].value else v.elements[i];
        (if i > 0 then [','] else "") + Label(v, i) + Render(child) + From(v, i + 1)
  }

  /** Calls of jsontree_print_next that a value takes. */
  function Calls(v: Json): nat
    decreases v, Count(v) + 1
  {
    if Container(v) then CallsFrom(v, 0) else 1
  }

  function CallsFrom(v: Json, i: nat): (n: nat)
    requires Container(v) && i <= Count(v)
    ensures n >= 1
    decreases v, Count(v) - i
  {
    if i == Count(v) then 1
    else
      var child := if v.Object? then v.pairs[i].value else v.elements[i];
      1 + Calls(child) + CallsFrom(v, i + 1)
  }

  /** The numbers of a tree fit their C types, and the children of each container its 8-bit count. */
  predicate Printable(v: Json)
    decreases v, Count(v) + 1
  {
    && (v.Uint? ==> v.number < 0x1_0000_0000)
    && (v.Int? ==> -0x8000_0000 <= v.integer < 0x8000_0000)
    && Count(v) < 256
    && (v.Object? ==> forall i :: 0 <= i < |v.pairs| ==> Printable(v.pairs[i].value))
    && (v.Array? ==> forall i :: 0 <= i < |v.elements| ==> Printable(v.elements[i]))
  }

  // ----- The stack -----

  /** Every value on the stack is the child at the index of the one below it. */
  predicate Stacked(values: seq<Json>, index: seq<nat>) {
    && 0 < |values| == |index| <= MAX_DEPTH
    && (forall k :: 0 <= k < |values| ==> k + Height(values[k]) < MAX_DEPTH && Printable(values[k]))
    && (forall k :: 0 <= k < |values| - 1 ==>
        index[k] < Count(values[k]) && values[k + 1] == Child(values[k], index[k]))
    && index[|index| - 1] <= Count(values[|values| - 1])
  }

  /** What is still to be printed at the top of the stack. */
  function Top(v: Json, i: nat): string
    requires i <= Count(v)
  {
    if Container(v) then From(v, i) else Leaf(v)
  }

  /** What is still to be printed below: each container behind the child that is being printed. */
  function Below(values: seq<Json>, index: seq<nat>): string
    requires |values| == |index| && forall k :: 0 <= k < |values| ==> index[k] < Count(values[k])
  {
    if values == [] then ""
    else
      var n := |values| - 1;
      assert index[n] < Count(values[n]);
      From(values[n], index[n] + 1) + Below(values[..n], index[..n])
  }

  function CallsBelow(values: seq<Json>, index: seq<nat>): nat
    requires |values| == |index| && forall k :: 0 <= k < |values| ==> index[k] < Count(values[k])
  {
    if values == [] then 0
    else
      var n := |values| - 1;
      assert index[n] < Count(values[n]);
      CallsFrom(values[n], index[n] + 1) + CallsBelow(values[..n], index[..n])
  }

  function Pending(values: seq<Json>, index: seq<nat>): string
    requires Stacked(values, index)
  {
    var n := |values| - 1;
    Top(values[n], index[n]) + Below(values[..n], index[..n])
  }

  function CallsPending(values: seq<Json>, index: seq<nat>): nat
    requires Stacked(values, index)
  {
    var n := |values| - 1;
    (if Container(values[n]) then CallsFrom(values[n], index[n]) else 1) + CallsBelow(values[..n], index[..n])
  }

  /** Going down to a child. */
  lemma StepDown(values: seq<Json>, index: seq<nat>)
    requires Stacked(values, index)
    requires var n := |values| - 1; Container(values[n]) && index[n] < Count(values[n])
    ensures var n := |values| - 1;
      var v, i := values[n], index[n];
      var values', index' := values + [Child(v, i)], index + [0];
      && Stacked(values', index')
      && Pending(values, index) == Prefix(v, i) + Pending(values', index')
      && CallsPending(values, index) == 1 + CallsPending(values', index')
  {
    hide Height, Printable, From, CallsFrom, Render, Calls, Label, Prefix, Below, CallsBelow;
    var n := |values| - 1;
    var v, i := values[n], index[n];
    var values', index' := values + [Child(v, i)], index + [0];
    ChildIsLower(v, i);
    ChildRendering(v, i);
    BelowStep(values, index);
    assert values'[..n + 1] == values && index'[..n + 1] == index;
    Associate(Prefix(v, i), Render(Child(v, i)), From(v, i + 1), Below(values[..n], index[..n]));
  }

  /** What is printed before going down. */
  function Prefix(v: Json, i: nat): string
    requires i < Count(v)
  {
    (if i == 0 then [Type(v)] else "") + (if i > 0 then [','] else "") + Label(v, i)
  }

  lemma Associate(a: string, b: string, c: string, d: string)
    ensures (a + b + c) + d == a + (b + (c + d))
  {
  }

  lemma ChildIsLower(v: Json, i: nat)
    requires i < Count(v)
    ensures Height(Child(v, i)) < Height(v) && (Printable(v) ==> Printable(Child(v, i)))
  {
  }

  lemma ChildRendering(v: Json, i: nat)
    requires i < Count(v)
    ensures From(v, i) == Prefix(v, i) + Render(Child(v, i)) + From(v, i + 1)
    ensures CallsFrom(v, i) == 1 + Calls(Child(v, i)) + CallsFrom(v, i + 1)
    ensures Top(Child(v, i), 0) == Render(Child(v, i))
    ensures (if Container(Child(v, i)) then CallsFrom(Child(v, i), 0) else 1) == Calls(Child(v, i))
  {
    hide Render, From, Calls, CallsFrom, Prefix;
    FromStep(v, i);
    CallsStep(v, i);
    Starts(Child(v, i));
  }

  lemma FromStep(v: Json, i: nat)
    requires i < Count(v)
    ensures From(v, i) == Prefix(v, i) + Render(Child(v, i)) + From(v, i + 1)
  {
    hide Render, Label;
  }

  lemma CallsStep(v: Json, i: nat)
    requires i < Count(v)
    ensures CallsFrom(v, i) == 1 + Calls(Child(v, i)) + CallsFrom(v, i + 1)
  {
    hide Calls;
  }

  /** A value is printed from its beginning. */
  lemma Starts(v: Json)
    ensures Top(v, 0) == Render(v)
    ensures (if Container(v) then CallsFrom(v, 0) else 1) == Calls(v)
  {
    hide From, CallsFrom, Leaf;
  }

  lemma BelowStep(values: seq<Json>, index: seq<nat>)
    requires |values| == |index| > 0 && forall k :: 0 <= k < |values| ==> index[k] < Count(values[k])
    ensures var n := |values| - 1;
      && Below(values, index) == From(values[n], index[n] + 1) + Below(values[..n], index[..n])
      && CallsBelow(values, index) == CallsFrom(values[n], index[n] + 1) + CallsBelow(values[..n], index[..n])
  {
  }

  /** Backing up one level. */
  lemma StepUp(values: seq<Json>, index: seq<nat>)
    requires Stacked(values, index) && |values| > 1
    ensures var n := |values| - 1;
      var values', index' := values[..n], index[..n][n - 1 := index[n - 1] + 1];
      && Stacked(values', index')
      && Below(values[..n], index[..n]) == Pending(values', index')
      && CallsBelow(values[..n], index[..n]) == CallsPending(values', index')
  {
    hide Height, Printable, From, CallsFrom, Render, Calls, Below, CallsBelow, Stacked;
    StackedUp(values, index);
    var n := |values| - 1;
    var values', index' := values[..n], index[..n][n - 1 := index[n - 1] + 1];
    BelowStep(values[..n], index[..n]);
    SameButLast(index[..n], n - 1, index[n - 1] + 1);
  }

  lemma StackedUp(values: seq<Json>, index: seq<nat>)
    requires Stacked(values, index) && |values| > 1
    ensures var n := |values| - 1;
      && |index| == |values| && Stacked(values[..n], index[..n][n - 1 := index[n - 1] + 1]) && Container(values[n - 1])
      && forall k :: 0 <= k < n ==> index[..n][k] < Count(values[..n][k])
  {
    hide Height, Printable;
    var n := |values| - 1;
    var values', index' := values[..n], index[..n][n - 1 := index[n - 1] + 1];
    assert forall k :: 0 <= k < n ==> values'[k] == values[k] && (k < n - 1 ==> index'[k] == index[k]);
  }

  lemma SameButLast(s: seq<nat>, k: nat, x: nat)
    requires k + 1 == |s|
    ensures s[k := x][..k] == s[..k]
  {
  }

  // ----- The printer -----

  class Printer {
    const values: array<Json>
    const index: array<nat>
    var depth: nat
    /** What putchar has been given. */
    var out: string

    /** jsontree_setup */
    constructor (root: Json)
      requires Height(root) < MAX_DEPTH && Printable(root)
      ensures Valid() && out == "" && depth == 0 && fresh(values) && fresh(index)
      ensures Pending(values[..1], index[..1]) == Render(root) && CallsPending(values[..1], index[..1]) == Calls(root)
    {
      values := new Json[MAX_DEPTH](_ => root);
      index := new nat[MAX_DEPTH](_ => 0);
      depth, out := 0, "";
      new;
      assert values[..1] == [root] && index[..1] == [0];
      Single(root);
    }

    /** The stack stays within its bounds. */
    ghost predicate Valid()
      reads this, values, index
    {
      && values.Length == index.Length == MAX_DEPTH && depth < MAX_DEPTH
      && Stacked(values[..depth + 1], index[..depth + 1])
    }

    /** Everything: what has been printed, and what still has to be. */
    ghost function Whole(): string
      reads this, values, index
      requires Valid()
    {
      out + Pending(values[..depth + 1], index[..depth + 1])
    }

    ghost function Left(): nat
      reads this, values, index
      requires Valid()
    {
      CallsPending(values[..depth + 1], index[..depth + 1])
    }

    /** What is still to be printed below the top of the stack, and with how many calls. */
    ghost function Behind(): (string, nat)
      reads this, values, index
      requires Valid()
    {
      ghost var vs, is_ := values[..depth + 1], index[..depth + 1];
      TopOfStack(vs, is_);
      (Below(vs[..depth], is_[..depth]), CallsBelow(vs[..depth], is_[..depth]))
    }

    method PutChar(c: char)
      modifies `out
      ensures out == old(out) + [c]
    {
      out := out + [c];
    }

    /** jsontree_write_string */
    method WriteString(text: string)
      modifies `out
      ensures out == old(out) + Quoted(text)
    {
      PutChar('"');
      var i := 0;
      assert text[..0] == "";
      while i < |text|
        invariant 0 <= i <= |text| && out == old(out) + ['"'] + Escape(text[..i])
      {
        EscapeNext(text, i);
        if text[i] == '"' {
          PutChar('\\');
        }
        PutChar(text[i]);
        i := i + 1;
      }
      assert text[..i] == text;
      PutChar('"');
    }

    /** jsontree_write_uint: the digits are put into a buffer of ten characters from the end. */
    method WriteUint(value: nat)
      requires value < 0x1_0000_0000
      modifies `out
      ensures out == old(out) + Digits(value)
    {
      hide Digits, Digit;
      var buf := new char[10](_ => '0');
      var l, v := 9, value;
      DigitsShort(value);
      ghost var rest := Digits(value);
      DigitsStep(v);
      buf[l] := Digit(v % 10);
      l, v := l - 1, v / 10;
      assert buf[9..] == [buf[9]];
      while v > 0 && l >= 0
        invariant -1 <= l <= 8 && v >= 0 && out == old(out)
        invariant rest == (if v > 0 then Digits(v) else "") + buf[l + 1..]
        decreases v
      {
        ghost var before := buf[l + 1..];
        DigitsStep(v);
        buf[l] := Digit(v % 10);
        assert buf[l..] == [buf[l]] + before;
        l, v := l - 1, v / 10;
      }
      assert v == 0 && rest == buf[l + 1..];
      PutFrom(buf, l + 1);
    }

    /** The loop that prints the buffer. */
    method PutFrom(buf: array<char>, first: nat)
      requires first <= buf.Length
      modifies `out
      ensures out == old(out) + buf[first..]
    {
      var l := first;
      while l < buf.Length
        invariant first <= l <= buf.Length && out == old(out) + buf[first..l]
      {
        PutChar(buf[l]);
        l := l + 1;
        assert buf[first..l] == buf[first..l - 1] + [buf[l - 1]];
      }
      assert buf[first..l] == buf[first..];
    }

    /** jsontree_write_int */
    method WriteInt(value: int)
      requires -0x1_0000_0000 < value < 0x1_0000_0000
      modifies `out
      ensures out == old(out) + Number(value)
    {
      var v := value;
      if v < 0 {
        PutChar('-');
        v := -v;
      }
      WriteUint(v);
    }

    /** jsontree_print_next: the characters of one step move from what is pending to what has been printed. */
    method PrintNext() returns (more: bool)
      requires Valid()
      modifies this`depth, this`out, values, index
      ensures Valid()
      ensures more ==> Whole() == old(Whole()) && Left() == old(Left()) - 1
      ensures !more ==> depth == 0 && out == old(Whole()) && old(Left()) == 1
    {
      hide Stacked, Height, Printable, From, CallsFrom, Render, Calls, Label, Below, CallsBelow, Leaf, Prefix, Pending,
        CallsPending;
      ghost var vs, is_ := values[..depth + 1], index[..depth + 1];
      TopOfStack(vs, is_);
      assert vs[depth] == values[depth] && is_[depth] == index[depth];
      var v := values[depth];
      if Container(v) {
        var i := index[depth];
        PutOpening(v, i);
        if i >= Count(v) {
          PutChar(Closing(Type(v)));
          LastRendering(v, i);
        } else {
          PutLabel(v, i);
          PrefixIs(v, i);
          assert out == old(out) + Prefix(v, i);
          GoDown(v, i);
          Associate3(old(out), Prefix(v, i), Pending(values[..depth + 1], index[..depth + 1]));
          return true;
        }
      } else {
        PrintLeaf(v);
      }
      assert out == old(out) + Top(v, index[depth]);
      Associate3(old(out), Top(v, index[depth]), Behind().0);
      if depth > 0 {
        BackUp();
        return true;
      }
      return false;
    }

    method PutOpening(v: Json, i: nat)
      requires Container(v)
      modifies `out
      ensures out == old(out) + if i == 0 then [Type(v)] else ""
    {
      if i == 0 {
        PutChar(Type(v));
      }
    }

    /** The comma in front of a child, and its name. */
    method PutLabel(v: Json, i: nat)
      requires i < Count(v)
      modifies `out
      ensures out == old(out) + (if i > 0 then [','] else "")
        + (if v.Object? then Quoted(v.pairs[i].name) + [':'] else "")
    {
      if i > 0 {
        PutChar(',');
      }
      if v.Object? {
        WriteString(v.pairs[i].name);
        PutChar(':');
      }
    }

    /** Down to child i, which the printer continues with. */
    method GoDown(v: Json, i: nat)
      requires Valid() && v == values[depth] && i == index[depth] < Count(v)
      modifies this`depth, values, index
      ensures Valid()
      ensures old(Pending(values[..depth + 1], index[..depth + 1])) ==
        Prefix(v, i) + Pending(values[..depth + 1], index[..depth + 1])
      ensures old(Left()) == 1 + Left()
    {
      hide Height, Printable, From, CallsFrom, Render, Calls, Label, Below, CallsBelow, Prefix, Pending, CallsPending;
      ghost var vs, is_ := values[..depth + 1], index[..depth + 1];
      StepDown(vs, is_);
      Deeper(vs, is_);
      depth := depth + 1;
      index[depth] := 0;
      values[depth] := if v.Object? then v.pairs[i].value else v.elements[i];
      assert values[..depth + 1] == vs + [Child(v, i)];
      assert index[..depth + 1] == is_ + [0];
    }

    /** Up to the container, behind the child that is done. */
    method BackUp()
      requires Valid() && depth > 0
      modifies this`depth, index
      ensures Valid()
      ensures old(Behind()) == (Pending(values[..depth + 1], index[..depth + 1]), Left())
    {
      hide Height, Printable, From, CallsFrom, Render, Calls, Label, Below, CallsBelow, Pending, CallsPending;
      ghost var vs, is_ := values[..depth + 1], index[..depth + 1];
      StepUp(vs, is_);
      depth := depth - 1;
      index[depth] := index[depth] + 1;
      assert values[..depth + 1] == vs[..|vs| - 1];
      assert index[..depth + 1] == is_[..|vs| - 1][depth := is_[depth] + 1];
    }

    method PrintLeaf(v: Json)
      requires !Container(v) && Printable(v)
      modifies `out
      ensures out == old(out) + Leaf(v)
    {
      match v
      case String(text) => WriteString(text);
      case Uint(number) => WriteUint(number);
      case Int(integer) => WriteInt(integer);
    }
  }

  lemma LastRendering(v: Json, i: nat)
    requires Container(v) && i == Count(v)
    ensures From(v, i) == (if i == 0 then [Type(v)] else "") + [Closing(Type(v))] && CallsFrom(v, i) == 1
  {
  }

  lemma PrefixIs(v: Json, i: nat)
    requires i < Count(v)
    ensures Prefix(v, i) == (if i == 0 then [Type(v)] else "") + (if i > 0 then [','] else "")
                            + (if v.Object? then Quoted(v.pairs[i].name) + [':'] else "")
  {
  }

  lemma TopOfStack(values: seq<Json>, index: seq<nat>)
    requires Stacked(values, index)
    ensures var n := |values| - 1;
      && index[n] <= Count(values[n]) && Printable(values[n])
      && (forall k :: 0 <= k < n ==> index[..n][k] < Count(values[..n][k]))
      && Pending(values, index) == Top(values[n], index[n]) + Below(values[..n], index[..n])
      && CallsPending(values, index) == (if Container(values[n]) then CallsFrom(values[n], index[n]) else 1)
           + CallsBelow(values[..n], index[..n])
      && (n == 0 ==> Below(values[..n], index[..n]) == "" && CallsBelow(values[..n], index[..n]) == 0)
  {
  }

  lemma Deeper(values: seq<Json>, index: seq<nat>)
    requires Stacked(values, index) && Count(values[|values| - 1]) > 0
    ensures |values| < MAX_DEPTH
  {
    ChildIsLower(values[|values| - 1], 0);
  }

  lemma Associate3(a: string, b: string, c: string)
    ensures (a + b) + c == a + (b + c)
  {
  }

  lemma Single(root: Json)
    requires Height(root) < MAX_DEPTH && Printable(root)
    ensures Stacked([root], [0]) && Pending([root], [0]) == Render(root) && CallsPending([root], [0]) == Calls(root)
  {
    assert [root][..0] == [] && [0][..0] == [];
    assert Render(root) + "" == Render(root);
  }

  lemma {:induction false} EscapeConcat(a: string, b: string)
    ensures Escape(a + b) == Escape(a) + Escape(b)
  {
    if a == "" {
      assert a + b == b;
    } else {
      assert (a + b)[1..] == a[1..] + b;
      EscapeConcat(a[1..], b);
    }
  }

  lemma EscapeNext(text: string, i: nat)
    requires i < |text|
    ensures Escape(text[..i + 1]) == Escape(text[..i]) + if text[i] == '"' then ['\\', '"'] else [text[i]]
  {
    assert text[..i + 1] == text[..i] + [text[i]];
    EscapeConcat(text[..i], [text[i]]);
    assert [text[i]][1..] == "";
  }

  lemma DigitsStep(n: nat)
    ensures Digits(n) == (if n / 10 > 0 then Digits(n / 10) else "") + [Digit(n % 10)]
  {
  }

  lemma DigitsShort(value: nat)
    requires value < 0x1_0000_0000
    ensures |Digits(value)| <= 10
  {
    DigitsBound(value, 10, 10000000000);
  }

  lemma {:induction false} DigitsBound(value: nat, n: nat, bound: nat)
    requires n >= 1 && value < bound && bound == Tens(n)
    ensures |Digits(value)| <= n
  {
    if value >= 10 {
      DigitsBound(value / 10, n - 1, Tens(n - 1));
    }
  }

  function Tens(n: nat): nat {
    if n == 0 then 1 else 10 * Tens(n - 1)
  }

  /**
   Calling jsontree_print_next until it returns 0, for a tree that is not too deep: it ends, after one call for
   every value and every child, and has printed the recursive rendering.
   */
  method PrintTree(root: Json) returns (text: string, calls: nat)
    requires Height(root) < MAX_DEPTH && Printable(root)
    ensures text == Render(root) && calls == Calls(root)
  {
    hide Height, Printable, From, CallsFrom, Render, Calls, Pending, CallsPending, Stacked;
    var printer := new Printer(root);
    calls := 0;
    var more := true;
    assert printer.out + Render(root) == Render(root);
    while more
      invariant fresh(printer) && fresh(printer.values) && fresh(printer.index) && printer.Valid()
      invariant more ==> printer.Whole() == Render(root) && calls + printer.Left() == Calls(root)
      invariant !more ==> printer.out == Render(root) && calls == Calls(root)
      decreases more, if more then printer.Left() else 0
    {
      more := printer.PrintNext();
      calls := calls + 1;
    }
    text := printer.out;
  }
}
