/**
 When a printed tree reads as itself: the printer writes backslashes as they are, and the parser takes them for
 escapes, so that a tree comes back exactly when none of its strings and names has one.
 */
module JsonBackslash {
  import opened JsonTree
  import opened JsonRoundTrip
  import P = JsonParser

  predicate NulFree(s: string) {
    forall i :: 0 <= i < |s| ==> s[i] != P.NUL
  }

  /** No string and no name has a 0 inside; C strings end there. */
  predicate NulFreeTree(v: Json)
    decreases v, Count(v) + 1
  {
    && (v.String? ==> NulFree(v.text))
    && (v.Object? ==> forall i :: 0 <= i < |v.pairs| ==> NulFree(v.pairs[i].name) && NulFreeTree(v.pairs[i].value))
    && (v.Array? ==> forall i :: 0 <= i < |v.elements| ==> NulFreeTree(v.elements[i]))
  }

  // ----- One string -----

  /** No backslash before the next quote, or before the end of the text. */
  predicate Clean(json: string, pos: nat)
    decreases |json| - pos
  {
    var c := P.At(json, pos);
    c == P.NUL || c == '"' || (c != '\\' && Clean(json, pos + 1))
  }

  /** The copy is too short; or it goes on behind the string, which ends with a backslash as the copy does not. */
  predicate Lost(copy: string, text: string) {
    || |copy| < |text|
    || (text != "" && text[|text| - 1] == '\\' && copy != "" && copy[|copy| - 1] != '\\')
  }

  lemma {:induction false} CleanCopy(json: string, pos: nat, room: nat)
    requires Clean(json, pos) && room + pos >= P.StringStop(json, pos) - 1
    ensures '\\' !in P.Copied(json, pos, P.StringStop(json, pos) - 1, room)
    decreases |json| - pos
  {
    hide P.StringStop, P.Copied;
    var to := P.StringStop(json, pos) - 1;
    StopStep(json, pos);
    if pos >= to || room == 0 {
      P.CopiedEnd(json, pos, to, room);
    } else {
      CleanCopy(json, pos + 1, room - 1);
      P.CopiedStep(json, pos, to, room, "");
      assert "" + P.Copied(json, pos, to, room) == P.Copied(json, pos, to, room);
    }
  }

  lemma LostBehind(copy: string, text: string, x: string, y: string)
    requires |x| <= |y|
    ensures Lost(copy, text) ==> Lost(x + copy, y + text)
    ensures |x| < |y| && |copy| <= |text| ==> Lost(x + copy, y + text)
  {
  }

  /** What the parser copies from a printed string with a backslash is something else, wherever the copy ends. */
  lemma {:induction false} CopyIsLost(json: string, pos: nat, text: string, room: nat)
    requires Occurs(json, pos, Escape(text) + ['"']) && NulFree(text) && Clean(json, pos + |Escape(text)| + 1)
    requires room + pos >= P.StringStop(json, pos) - 1
    ensures var copy := P.Copied(json, pos, P.StringStop(json, pos) - 1, room);
      (|copy| <= |text| || Lost(copy, text)) && ('\\' in text ==> Lost(copy, text))
    decreases |text|, 2
  {
    hide P.StringStop, P.Copied, Escape, Occurs, Lost, Clean;
    var to := P.StringStop(json, pos) - 1;
    StopStep(json, pos);
    if text == "" {
      NothingEscaped();
      OccursAt(json, pos, Escape(text) + ['"'], 0);
      P.CopiedEnd(json, pos, to, room);
    } else {
      EscapeParts(json, pos, text);
      P.CopiedStep(json, pos, to, room, "");
      var copy := P.Copied(json, pos, to, room);
      assert "" + copy == copy;
      if text[0] == '\\' {
        BackslashFirst(json, pos, text, room);
      } else {
        var next := pos + |Piece(text[0])|;
        CopyIsLost(json, next, text[1..], room - 1);
        var rest := P.Copied(json, next, to, room - 1);
        assert copy == [text[0]] + rest && text == [text[0]] + text[1..];
        LostBehind(rest, text[1..], [text[0]], [text[0]]);
      }
    }
  }

  lemma {:induction false} BackslashFirst(json: string, pos: nat, text: string, room: nat)
    requires Occurs(json, pos, Escape(text) + ['"']) && NulFree(text) && Clean(json, pos + |Escape(text)| + 1)
    requires room + pos >= P.StringStop(json, pos) - 1 && text != "" && text[0] == '\\'
    ensures Lost(P.Copied(json, pos, P.StringStop(json, pos) - 1, room), text)
    decreases |text|, 1
  {
    hide P.StringStop, P.Copied, P.Unescaped, Escape, Occurs, Clean, Lost, NulFree, Piece;
    var to := P.StringStop(json, pos) - 1;
    EscapeParts(json, pos, text);
    FirstPair(json, pos, room);
    var x := P.Unescaped(P.At(json, pos + 1));
    if |text| == 1 {
      LastBackslash(json, pos, text);
      CleanCopy(json, pos + 2, room - |x|);
      QuoteStands();
      LostAtEnd(P.Copied(json, pos + 2, to, room - |x|), text);
    } else {
      SecondCharacter(json, pos, text, room);
    }
  }

  /** A backslash and the character behind it. */
  lemma FirstPair(json: string, pos: nat, room: nat)
    requires P.At(json, pos) == '\\' && room + pos >= P.StringStop(json, pos) - 1
    ensures P.StringStop(json, pos) == P.StringStop(json, pos + 2) && room > 0
    ensures var to, x := P.StringStop(json, pos) - 1, P.Unescaped(P.At(json, pos + 1));
      P.Copied(json, pos, to, room) == x + P.Copied(json, pos + 2, to, room - |x|)
  {
    hide P.StringStop, P.Copied, P.Unescaped;
    StopStep(json, pos);
    var to, x := P.StringStop(json, pos) - 1, P.Unescaped(P.At(json, pos + 1));
    P.CopiedStep(json, pos, to, room, "");
    assert "" + P.Copied(json, pos, to, room) == P.Copied(json, pos, to, room) && "" + x == x;
  }

  lemma QuoteStands()
    ensures P.Unescaped('"') == ['"'] && P.Unescaped('\\') == ['\\']
  {
  }

  lemma {:induction false} SecondCharacter(json: string, pos: nat, text: string, room: nat)
    requires Occurs(json, pos, Escape(text) + ['"']) && NulFree(text) && Clean(json, pos + |Escape(text)| + 1)
    requires room + pos >= P.StringStop(json, pos) - 1 && |text| >= 2 && text[0] == '\\'
    ensures Lost(P.Copied(json, pos, P.StringStop(json, pos) - 1, room), text)
    decreases |text|, 0
  {
    hide P.StringStop, P.Copied, P.Unescaped, Escape, Occurs, Clean, Lost, NulFree;
    var to := P.StringStop(json, pos) - 1;
    EscapeParts(json, pos, text);
    FirstPair(json, pos, room);
    var x := P.Unescaped(P.At(json, pos + 1));
    EscapeParts(json, pos + 1, text[1..]);
    if text[1] == '"' {
      StopStep(json, pos + 2);
      P.CopiedEnd(json, pos + 2, to, room - |x|);
      LostShort(P.Copied(json, pos, to, room), text);
    } else {
      assert text[1..][1..] == text[2..] && text == text[..2] + text[2..];
      TailIsNulFree(text);
      CopyIsLost(json, pos + 2, text[2..], room - |x|);
      LostBehind(P.Copied(json, pos + 2, to, room - |x|), text[2..], x, text[..2]);
    }
  }

  lemma TailIsNulFree(text: string)
    requires NulFree(text) && |text| >= 2
    ensures NulFree(text[2..])
  {
  }

  lemma LostShort(copy: string, text: string)
    requires |copy| < |text|
    ensures Lost(copy, text)
  {
  }

  lemma LostAtEnd(rest: string, text: string)
    requires '\\' !in rest && |text| == 1 && text[0] == '\\'
    ensures Lost(['"'] + rest, text)
  {
  }

  lemma LastBackslash(json: string, pos: nat, text: string)
    requires Occurs(json, pos, Escape(text) + ['"']) && |text| == 1 && text[0] == '\\'
    ensures P.At(json, pos + 1) == '"' && |Escape(text)| == 1
  {
    hide Occurs, Escape;
    assert text[1..] == "";
    EscapeParts(json, pos, text);
    NothingEscaped();
    OccursAt(json, pos + 1, Escape(text[1..]) + ['"'], 0);
  }

  // ----- Nothing but quotes brings a string to its end -----

  lemma CleanBefore(json: string, pos: nat, text: string)
    requires Occurs(json, pos, text) && Clean(json, pos + |text|) && '\\' !in text
    ensures Clean(json, pos)
    decreases |text|
  {
    if text != "" {
      OccursAt(json, pos, text, 0);
      assert text == [text[0]] + text[1..];
      OccursParts(json, pos, [text[0]], text[1..]);
      CleanBefore(json, pos + 1, text[1..]);
    }
  }

  lemma CleanQuote(json: string, pos: nat, text: string)
    requires text != "" && text[0] == '"' && Occurs(json, pos, text)
    ensures Clean(json, pos)
  {
    OccursAt(json, pos, text, 0);
  }

  lemma NoBackslash(i: int)
    ensures '\\' !in Number(i)
  {
    NumberShape(i);
  }

  lemma {:induction false} CleanValue(json: string, pos: nat, v: Json)
    requires Occurs(json, pos, Render(v)) && Clean(json, pos + |Render(v)|)
    ensures Clean(json, pos)
    decreases v, Count(v) + 1
  {
    hide Occurs, Clean, Escape, Digits;
    match v
    case String(text) => CleanQuote(json, pos, Render(v));
    case Uint(number) => NoBackslash(number); CleanBefore(json, pos, Render(v));
    case Int(integer) => NoBackslash(integer); CleanBefore(json, pos, Render(v));
    case _ =>
      RestLast(v);
      hide Render, Rest;
      OccursParts(json, pos, [Type(v)], Rest(v, 0));
      CleanRest(json, pos + 1, v, 0);
      CleanBefore(json, pos, [Type(v)]);
  }

  lemma {:induction false} CleanRest(json: string, pos: nat, v: Json, i: nat)
    requires Container(v) && i <= Count(v) && Occurs(json, pos, Rest(v, i)) && Clean(json, pos + |Rest(v, i)|)
    ensures Clean(json, pos)
    decreases v, Count(v) - i
  {
    hide Occurs, Clean, Render, Rest, Label;
    if i == Count(v) {
      RestLast(v);
      CleanBefore(json, pos, Rest(v, i));
    } else {
      ChildParts(json, pos, v, i);
      var named := pos + |Comma(i)|;
      var value := named + |Label(v, i)|;
      var child := if v.Object? then v.pairs[i].value else v.elements[i];
      if v.Object? {
        CleanLabel(json, named, v, i);
      } else {
        CleanRest(json, value + |Render(child)|, v, i + 1);
        CleanValue(json, value, child);
        NoLabel(v, i);
      }
      CleanBefore(json, pos, Comma(i));
    }
  }

  lemma CleanLabel(json: string, pos: nat, v: Json, i: nat)
    requires v.Object? && i < Count(v) && Occurs(json, pos, Label(v, i))
    ensures Clean(json, pos)
  {
    CleanQuote(json, pos, Label(v, i));
  }

  lemma NoLabel(v: Json, i: nat)
    requires v.Array? && i < Count(v)
    ensures Label(v, i) == ""
  {
  }

  // ----- What a text that reads as its tree is like -----

  lemma {:induction false} ReadsSplit(json: string, s: P.State, a: seq<Token>, m: P.State, b: seq<Token>, s': P.State)
    requires Reads(json, s, a + b, s') && Reads(json, s, a, m)
    ensures Reads(json, m, b, s')
    decreases |a|
  {
    hide P.Next, Text;
    if a == [] {
      assert a + b == b;
    } else {
      assert (a + b)[1..] == a[1..] + b;
      ReadsSplit(json, P.Next(json, s).0, a[1..], m, b, s');
    }
  }

  lemma FirstToken(json: string, s: P.State, t: Token, more: seq<Token>, s': P.State)
    requires Reads(json, s, [t] + more, s')
    ensures var (s1, c) := P.Next(json, s);
      && s1.error == P.Ok && c == t.kind != P.NUL && |s1.stack| <= P.MAX_DEPTH
      && (if P.IsAtomic(c) then s1.vtype == c && t.text == Text(json, s1) else t.text == "")
      && Reads(json, s1, more, s')
  {
    hide P.Next, Text;
    assert ([t] + more)[1..] == more;
  }

  /** The text of a string token is what the parser copies up to where it stops. */
  lemma StringToken(json: string, s: P.State)
    requires P.At(json, s.pos) == '"' && s.error == P.Ok
    ensures var (s1, c) := P.Next(json, s);
      s1.error == P.Ok && (c == '"' || c == 'N') ==>
        && P.StringStop(json, s.pos + 1) - 1 >= s.pos + 1
        && Text(json, s1) == P.Copied(json, s.pos + 1, P.StringStop(json, s.pos + 1) - 1,
                                      P.StringStop(json, s.pos + 1) - 1 - (s.pos + 1))
  {
    hide P.StringStop, P.Copied;
    NoSpace(json, s.pos);
  }

  lemma StringMustBePlain(json: string, s: P.State, kind: char, text: string, more: seq<Token>, s': P.State)
    requires Occurs(json, s.pos, Quoted(text)) && NulFree(text)
    requires Clean(json, s.pos + |Quoted(text)|) && s.error == P.Ok
    requires (kind == '"' || kind == 'N') && Reads(json, s, [Token(kind, text)] + more, s')
    ensures Plain(text)
  {
    hide P.StringStop, P.Copied, P.Next, Escape, Clean, Reads, Text, Occurs;
    assert Quoted(text) == ['"'] + (Escape(text) + ['"']);
    OccursAt(json, s.pos, Quoted(text), 0);
    OccursParts(json, s.pos, ['"'], Escape(text) + ['"']);
    FirstToken(json, s, Token(kind, text), more, s');
    StringToken(json, s);
    CopyIsLost(json, s.pos + 1, text, P.StringStop(json, s.pos + 1) - 1 - (s.pos + 1));
  }

  /** If a printed value reads as its tokens, its strings and names have no backslash. */
  lemma {:induction false} MustBePlain(json: string, s: P.State, v: Json, more: seq<Token>, s': P.State)
    requires BeforeValue(s) && Occurs(json, s.pos, Render(v)) && Clean(json, s.pos + |Render(v)|)
    requires NulFreeTree(v) && |s.stack| + Height(v) < P.MAX_DEPTH && Reads(json, s, Tokens(v) + more, s')
    ensures PlainTree(v)
    decreases v, Count(v) + 1, 0
  {
    hide P.Next, Reads, Height, Render, Rest, Tokens, Occurs, Members, Clean, Plain, NulFree;
    if !Container(v) {
      LeafMustBePlain(json, s, v, more, s');
    } else {
      RestLast(v);
      TokensOpen(v);
      OccursParts(json, s.pos, [Type(v)], Rest(v, 0));
      OccursAt(json, s.pos, [Type(v)], 0);
      OpenStep(json, s, Type(v));
      assert Tokens(v) + more == [Token(Type(v), "")] + (Members(v, 0) + more);
      FirstToken(json, s, Token(Type(v), ""), Members(v, 0) + more, s');
      MembersMustBePlain(json, P.Next(json, s).0, v, 0, s.stack, more, s');
      AllPlain(v);
    }
  }

  lemma AllPlain(v: Json)
    requires Container(v) && forall k :: 0 <= k < Count(v) ==> ChildPlain(v, k)
    ensures PlainTree(v)
  {
    hide Plain;
    match v
    case Object(pairs) =>
      forall i | 0 <= i < |pairs|
        ensures Plain(pairs[i].name) && PlainTree(pairs[i].value)
      {
        assert ChildPlain(v, i) && Child(v, i) == pairs[i].value;
      }
    case Array(elements) =>
      forall i | 0 <= i < |elements|
        ensures PlainTree(elements[i])
      {
        assert ChildPlain(v, i) && Child(v, i) == elements[i];
      }
  }

  lemma LeafMustBePlain(json: string, s: P.State, v: Json, more: seq<Token>, s': P.State)
    requires BeforeValue(s) && Occurs(json, s.pos, Render(v)) && Clean(json, s.pos + |Render(v)|)
    requires NulFreeTree(v) && Reads(json, s, Tokens(v) + more, s') && !Container(v)
    ensures PlainTree(v)
  {
    hide P.Next, Reads, Occurs, Clean, Plain, NulFree;
    if v.String? {
      StringMustBePlain(json, s, '"', v.text, more, s');
    }
  }

  lemma {:induction false} MembersMustBePlain(json: string, s: P.State, v: Json, i: nat, base: string,
                                              more: seq<Token>, s': P.State)
    requires Container(v) && i <= Count(v) && Inside(s, v, i, base) && Occurs(json, s.pos, Rest(v, i))
    requires Clean(json, s.pos + |Rest(v, i)|) && NulFreeTree(v) && |base| + Height(v) < P.MAX_DEPTH
    requires Reads(json, s, Members(v, i) + more, s')
    ensures forall k :: i <= k < Count(v) ==> ChildPlain(v, k)
    decreases v, Count(v) - i, 1
  {
    hide P.Next, Reads, Height, Rest, Render, Name, Tokens, Occurs, Members, Clean, ChildPlain, Inside, NulFreeTree;
    if i < Count(v) {
      MembersStep(v, i);
      var child := CommaToken(i) + (Name(v, i) + Tokens(Child(v, i)));
      assert Members(v, i) + more == child + (Members(v, i + 1) + more);
      ChildMustBePlain(json, s, v, i, base, Members(v, i + 1) + more, s');
      var s3 := ReadChild(json, s, v, i, base);
      ReadsSplit(json, s, child, s3, Members(v, i + 1) + more, s');
      MembersMustBePlain(json, s3, v, i + 1, base, more, s');
    }
  }

  lemma {:induction false} ChildMustBePlain(json: string, s: P.State, v: Json, i: nat, base: string, more: seq<Token>,
                                            s': P.State)
    requires i < Count(v) && Inside(s, v, i, base) && Occurs(json, s.pos, Rest(v, i))
    requires Clean(json, s.pos + |Rest(v, i)|) && NulFreeTree(v) && |base| + Height(v) < P.MAX_DEPTH
    requires Reads(json, s, CommaToken(i) + (Name(v, i) + Tokens(Child(v, i))) + more, s')
    ensures ChildPlain(v, i)
    decreases v, Count(v) - i, 0
  {
    hide P.Next, Reads, Height, Rest, Render, Name, Tokens, Occurs, Clean, Label, PlainTree, NulFreeTree, Plain;
    var child := if v.Object? then v.pairs[i].value else v.elements[i];
    ChildIsLower(v, i);
    ChildParts(json, s.pos, v, i);
    ChildIsNulFree(v, i);
    var s1 := ReadComma(json, s, v, i, base);
    var tokens := Name(v, i) + Tokens(child) + more;
    assert CommaToken(i) + (Name(v, i) + Tokens(child)) + more == CommaToken(i) + tokens;
    ReadsSplit(json, s, CommaToken(i), s1, tokens, s');
    var value := s1.pos + |Label(v, i)|;
    CleanRest(json, value + |Render(child)|, v, i + 1);
    CleanValue(json, value, child);
    assert tokens == Name(v, i) + (Tokens(child) + more);
    NameMustBePlain(json, s1, v, i, Tokens(child) + more, s');
    LabelState(json, s1, v, i, base);
    LabelledReads(json, s1, v, i, base, Tokens(child) + more, s');
    MustBePlain(json, AfterLabel(json, s1, v, base), child, more, s');
  }

  lemma ChildIsNulFree(v: Json, i: nat)
    requires i < Count(v) && NulFreeTree(v)
    ensures NulFreeTree(Child(v, i)) && (v.Object? ==> NulFree(v.pairs[i].name))
  {
    hide NulFree;
  }

  lemma NameMustBePlain(json: string, s: P.State, v: Json, i: nat, more: seq<Token>, s': P.State)
    requires i < Count(v) && Occurs(json, s.pos, Label(v, i)) && Clean(json, s.pos + |Label(v, i)|) && s.error == P.Ok
    requires (v.Object? ==> NulFree(v.pairs[i].name)) && Reads(json, s, Name(v, i) + more, s')
    ensures v.Object? ==> Plain(v.pairs[i].name)
  {
    hide Reads, Occurs, Clean, NulFree, Plain, Quoted;
    if v.Object? {
      var name := v.pairs[i].name;
      OccursParts(json, s.pos, Quoted(name), [':']);
      CleanBefore(json, s.pos + |Quoted(name)|, [':']);
      StringMustBePlain(json, s, 'N', name, more, s');
    }
  }

  /** The state in which the value of a member begins. */
  lemma LabelledReads(json: string, s: P.State, v: Json, i: nat, base: string, tokens: seq<Token>, s': P.State)
    requires i < Count(v) && (v.Object? ==> Plain(v.pairs[i].name))
    requires Occurs(json, s.pos, Label(v, i)) && |base| < P.MAX_DEPTH
    requires s.stack == base + [Type(v)] && s.error == P.Ok
    requires tokens != [] && Reads(json, s, Name(v, i) + tokens, s')
    ensures Reads(json, AfterLabel(json, s, v, base), tokens, s')
  {
    hide P.Next, Text, Occurs, Quoted, Plain;
    if v.Object? {
      OccursParts(json, s.pos, Quoted(v.pairs[i].name), [':']);
      NameStep(json, s, v.pairs[i].name, base);
      var s1 := P.Next(json, s).0;
      OccursAt(json, s1.pos, [':'], 0);
      ColonStep(json, s1, base);
      ReadsSplit(json, s, Name(v, i), s1, tokens, s');
    } else {
      assert Name(v, i) + tokens == tokens;
    }
  }

  // ----- Whole texts -----

  lemma {:induction false} PlainIsNulFree(v: Json)
    requires PlainTree(v)
    ensures NulFreeTree(v)
    decreases v, Count(v) + 1
  {
    match v
    case Object(pairs) =>
      forall i | 0 <= i < |pairs|
        ensures NulFree(pairs[i].name) && NulFreeTree(pairs[i].value)
      {
        PlainIsNulFree(pairs[i].value);
      }
    case Array(elements) =>
      forall i | 0 <= i < |elements|
        ensures NulFreeTree(elements[i])
      {
        PlainIsNulFree(elements[i]);
      }
    case _ =>
  }

  /**
   A printed tree reads as its own tokens, and has no NUL that would end one of its strings, iff none of its strings
   and names has a backslash or a NUL.
   */
  lemma PrintedParsesIff(v: Json)
    requires Height(v) < P.MAX_DEPTH
    ensures PlainTree(v) <==> NulFreeTree(v) && exists s' :: Reads(Render(v), START, Tokens(v), s')
  {
    hide Render, Height, Reads, Tokens, Plain, NulFree, PlainTree, NulFreeTree;
    var json := Render(v);
    if PlainTree(v) {
      PlainIsNulFree(v);
      var end := PrintedParses(v);
    } else if NulFreeTree(v) {
      if s' :| Reads(json, START, Tokens(v), s') {
        assert json[0..|json|] == json && Tokens(v) + [] == Tokens(v);
        MustBePlain(json, START, v, [], s');
      }
    }
  }

  /** A tree of one string that is printed and read as something else. */
  lemma OneBackslash()
    ensures NulFreeTree(String("\\n")) && forall s' :: !Reads(Render(String("\\n")), START, Tokens(String("\\n")), s')
  {
    var v := String("\\n");
    assert v.text[0] == '\\';
    PrintedParsesIff(v);
  }
}
