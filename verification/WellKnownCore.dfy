/**
 The generator of /.well-known/core (apps/er-coap/er-coap-res-well-known-core.c): it walks over all resources
 and writes the part of their link-format description that falls into a window.
 */
module WellKnownCore {
  import opened Common

  datatype Resource = Resource(url: string, attributes: string)

  // ----- The whole description -----

  function Link(r: Resource): string {
    "</" + r.url + ">" + if r.attributes != "" then ";" + r.attributes else ""
  }

  /** The links of all resources, separated by commas. */
  function Render(resources: seq<Resource>): string {
    if resources == [] then ""
    else
      var before := Render(resources[..|resources| - 1]);
      before + (if |resources| > 1 then "," else "") + Link(resources[|resources| - 1])
  }

  /** The description of two resources, in their order; a resource without attributes has no semicolon. */
  lemma TwoLinks(r: Resource, t: Resource)
    ensures Render([]) == ""
    ensures t.attributes == "" ==> Render([t]) == "</" + t.url + ">"
    ensures t.attributes != "" ==> Render([t]) == "</" + t.url + ">;" + t.attributes
    ensures Render([r, t]) == Render([r]) + "," + Render([t])
  {
    assert [t][..0] == [] && [r][..0] == [] && [r, t][..1] == [r];
    assert Render([t]) == Link(t) && Render([r]) == Link(r);
    var path := "</" + t.url + ">";
    assert path + (";" + t.attributes) == "</" + t.url + ">;" + t.attributes;
    assert path + "" == path;
  }

  /** The part of a text that falls into [offset, offset + size). */
  function Window(text: string, offset: nat, size: nat): (w: string)
    ensures |w| == Min(size, Max(0, |text| - offset))
    ensures forall k :: 0 <= k < |w| ==> w[k] == text[offset + k]
  {
    text[Min(offset, |text|)..Min(offset + size, |text|)]
  }

  lemma WindowOfPrefix(text: string, more: string, offset: nat, size: nat)
    requires |text| >= offset + size
    ensures Window(text + more, offset, size) == Window(text, offset, size)
  {
  }

  lemma {:induction false} RenderGrows(resources: seq<Resource>, i: nat)
    requires i <= |resources|
    ensures Render(resources[..i]) <= Render(resources)
  {
    if i < |resources| {
      RenderGrows(resources[..|resources| - 1], i);
      assert resources[..|resources| - 1][..i] == resources[..i];
    } else {
      assert resources[..i] == resources;
    }
  }

  // ----- The handler -----

  /**
   After the text so far has been offered, the buffer holds its window; bufpos says how much that is, unless a
   string has run over the end of the window.
   */
  ghost predicate Holds(buffer: seq<char>, bufpos: nat, text: string, offset: nat, size: nat) {
    && size < |buffer|
    && Min(bufpos, size) == |Window(text, offset, size)|
    && buffer[..Min(bufpos, size)] == Window(text, offset, size)
  }

  /** ADD_CHAR_IF_POSSIBLE */
  method AddChar(buffer: array<char>, c: char, strpos: nat, bufpos: nat, size: nat, offset: nat, ghost text: string)
      returns (strpos': nat, bufpos': nat)
    requires Holds(buffer[..], bufpos, text, offset, size) && strpos == |text| && bufpos <= size
    modifies buffer
    ensures Holds(buffer[..], bufpos', text + [c], offset, size) && strpos' == |text + [c]| && bufpos' <= size
  {
    strpos', bufpos' := strpos, bufpos;
    if strpos >= offset && bufpos < size {
      buffer[bufpos] := c;
      bufpos' := bufpos + 1;
      assert Window(text + [c], offset, size) == Window(text, offset, size) + [c];
    } else {
      assert Window(text + [c], offset, size) == Window(text, offset, size);
    }
    strpos' := strpos + 1;
  }

  /** snprintf with "%s": as much of s as fits in front of the terminating 0; the result is the length of s. */
  method Snprintf(buffer: array<char>, at: nat, room: nat, s: string) returns (n: nat)
    requires room > 0 && at + room <= buffer.Length
    modifies buffer
    ensures n == |s|
    ensures var k := Min(|s|, room - 1);
      buffer[..] == old(buffer[..])[..at] + s[..k] + ['\0'] + old(buffer[..])[at + k + 1..]
  {
    var k := Min(|s|, room - 1);
    forall i | 0 <= i < k {
      buffer[at + i] := s[i];
    }
    buffer[at + k] := '\0';
    return |s|;
  }

  /** ADD_STRING_IF_POSSIBLE without its break; `written` says that the position in the buffer is to be compared. */
  method AddString(buffer: array<char>, s: string, strpos: nat, bufpos: nat, size: nat, offset: nat, ghost text: string)
      returns (bufpos': nat, written: bool)
    requires Holds(buffer[..], bufpos, text, offset, size) && strpos == |text| && bufpos <= size
    modifies buffer
    ensures Holds(buffer[..], bufpos', text + s, offset, size)
    ensures written <==> |text| + |s| > offset
    ensures !written ==> bufpos' == bufpos == 0
    ensures bufpos' == if |text| <= offset + size then Max(0, |text| + |s| - offset) else size + |s|
  {
    bufpos', written := bufpos, strpos + |s| > offset;
    if written {
      var skip := Max(0, offset - strpos);
      ghost var before := buffer[..];
      var n := Snprintf(buffer, bufpos, size - bufpos + 1, s[skip..]);
      bufpos' := bufpos + n;
      StringFits(before, buffer[..], bufpos, text, s, offset, size);
    } else {
      assert Window(text + s, offset, size) == Window(text, offset, size);
    }
  }

  lemma StringFits(before: seq<char>, after: seq<char>, bufpos: nat, text: string, s: string, offset: nat, size: nat)
    requires Holds(before, bufpos, text, offset, size) && bufpos <= size && |text| + |s| > offset
    requires
      var skip := Max(0, offset - |text|);
      var k := Min(|s| - skip, size - bufpos);
      after == before[..bufpos] + s[skip..][..k] + ['\0'] + before[bufpos + k + 1..]
    ensures Holds(after, bufpos + |s| - Max(0, offset - |text|), text + s, offset, size)
  {
    var skip := Max(0, offset - |text|);
    var k := Min(|s| - skip, size - bufpos);
    var piece := s[skip..skip + k];
    assert s[skip..][..k] == piece;
    assert |before[..bufpos] + piece| == bufpos + k;
    assert after == (before[..bufpos] + piece) + (['\0'] + before[bufpos + k + 1..]);
    assert after[..bufpos + k] == before[..bufpos] + piece;
    WindowAppend(text, s, offset, size);
  }

  lemma WindowAppend(text: string, s: string, offset: nat, size: nat)
    requires |text| + |s| > offset
    ensures
      var skip := Max(0, offset - |text|);
      var k := Min(|s| - skip, size - |Window(text, offset, size)|);
      Window(text + s, offset, size) == Window(text, offset, size) + s[skip..skip + k]
  {
    var skip := Max(0, offset - |text|);
    var w := Window(text, offset, size);
    var k := Min(|s| - skip, size - |w|);
    var all := text + s;
    if offset >= |text| {
      assert w == "" && Window(all, offset, size) == all[offset..offset + k];
      assert all[offset..offset + k] == s[skip..skip + k];
    } else if offset + size <= |text| {
      assert s[skip..skip + k] == "";
      assert Window(all, offset, size) == all[offset..offset + size] == w;
    } else {
      assert Window(all, offset, size) == all[offset..|text| + k];
      assert all[offset..|text| + k] == all[offset..|text|] + all[|text|..|text| + k];
      assert all[offset..|text|] == w && all[|text|..|text| + k] == s[..k];
    }
  }

  datatype Result = Payload(length: nat) | BlockOutOfScope | Nothing

  /** The comma between two links, and the characters in front of the url. */
  method AddStart(buffer: array<char>, strpos: nat, bufpos: nat, size: nat, offset: nat, ghost text: string)
      returns (strpos': nat, bufpos': nat)
    requires Holds(buffer[..], bufpos, text, offset, size) && strpos == |text| && bufpos <= size
    modifies buffer
    ensures
      var all := text + (if text != "" then "," else "") + "</";
      Holds(buffer[..], bufpos', all, offset, size) && strpos' == |all| && bufpos' <= size
  {
    hide Holds;
    strpos', bufpos' := strpos, bufpos;
    ghost var t := text;
    if strpos > 0 {
      strpos', bufpos' := AddChar(buffer, ',', strpos', bufpos', size, offset, t);
      t := t + ",";
    }
    strpos', bufpos' := AddChar(buffer, '<', strpos', bufpos', size, offset, t);
    strpos', bufpos' := AddChar(buffer, '/', strpos', bufpos', size, offset, t + "<");
    assert t + "<" + "/" == text + (if text != "" then "," else "") + "</";
  }

  /** What follows the url. */
  method AddEnd(buffer: array<char>, attributes: string, strpos: nat, bufpos: nat, size: nat, offset: nat,
                ghost text: string)
      returns (strpos': nat, bufpos': nat, stop: bool)
    requires Holds(buffer[..], bufpos, text, offset, size) && strpos == |text| < offset + size && bufpos <= size
    modifies buffer
    ensures
      var all := text + ">" + if attributes != "" then ";" + attributes else "";
      && (stop <==> |all| > offset + size)
      && Holds(buffer[..], bufpos', all, offset, size)
      && (!stop ==> strpos' == |all| && bufpos' <= size)
      && (stop ==> bufpos' > 0)
    ensures strpos' > 0
  {
    hide Holds;
    strpos', bufpos' := AddChar(buffer, '>', strpos, bufpos, size, offset, text);
    stop := false;
    if attributes != "" {
      strpos', bufpos' := AddChar(buffer, ';', strpos', bufpos', size, offset, text + ">");
      var written;
      bufpos', written := AddString(buffer, attributes, strpos', bufpos', size, offset, text + ">" + ";");
      assert text + ">" + ";" + attributes == text + ">" + (";" + attributes);
      if written && bufpos' > size {
        return strpos', bufpos', true;
      }
      strpos' := strpos' + |attributes|;
    } else {
      assert text + ">" + "" == text + ">";
    }
  }

  /** One round of the loop.  `stop`: the window is full before the link is complete. */
  method AddLink(buffer: array<char>, r: Resource, strpos: nat, bufpos: nat, size: nat, offset: nat, ghost text: string)
      returns (strpos': nat, bufpos': nat, stop: bool)
    requires Holds(buffer[..], bufpos, text, offset, size)
    requires strpos == |text| <= offset + size && size > 0 && bufpos <= size
    modifies buffer
    ensures
      var all := text + (if text != "" then "," else "") + Link(r);
      && (stop <==> |all| > offset + size)
      && Holds(buffer[..], bufpos', all, offset, size)
      && (!stop ==> strpos' == |all| && bufpos' <= size)
      && (stop ==> bufpos' > 0)
    ensures strpos' > 0
  {
    hide Holds;
    ghost var rest := ">" + if r.attributes != "" then ";" + r.attributes else "";
    ghost var start := text + (if text != "" then "," else "") + "</";
    ghost var t := start + r.url;
    assert text + (if text != "" then "," else "") + Link(r) == t + rest;
    assert t + rest == t + ">" + if r.attributes != "" then ";" + r.attributes else "";
    strpos', bufpos' := AddStart(buffer, strpos, bufpos, size, offset, text);
    var written;
    bufpos', written := AddString(buffer, r.url, strpos', bufpos', size, offset, start);
    Tight(buffer[..], bufpos', t, offset, size);
    if written && bufpos' >= size {
      HoldsMore(buffer[..], bufpos', t, rest, offset, size);
      return strpos', bufpos', true;
    }
    strpos' := strpos' + |r.url|;
    strpos', bufpos', stop := AddEnd(buffer, r.attributes, strpos', bufpos', size, offset, t);
  }

  /** bufpos in terms of the length of the text. */
  lemma Tight(buffer: seq<char>, bufpos: nat, text: string, offset: nat, size: nat)
    requires Holds(buffer, bufpos, text, offset, size)
    ensures Min(bufpos, size) == Min(size, Max(0, |text| - offset))
  {
  }

  lemma HoldsMore(buffer: seq<char>, bufpos: nat, text: string, more: string, offset: nat, size: nat)
    requires Holds(buffer, bufpos, text, offset, size) && |text| >= offset + size
    ensures Holds(buffer, bufpos, text + more, offset, size)
  {
    WindowOfPrefix(text, more, offset, size);
  }

  /**
   well_known_core_get_handler: the buffer holds the window of the whole description that begins at the
   offset, and the new offset is -1 exactly when that window reaches its end.
   */
  method GetHandler(resources: seq<Resource>, buffer: array<char>, size: nat, offset: nat)
      returns (result: Result, newOffset: int)
    requires 0 < size < buffer.Length
    modifies buffer
    ensures
      var full := Render(resources);
      && newOffset == (if |full| <= offset + size then -1 else offset + size)
      && buffer[..|Window(full, offset, size)|] == Window(full, offset, size)
      && (result.Payload? <==> |full| > offset)
      && (result.Payload? ==> Min(result.length, size) == |Window(full, offset, size)|)
      && (result.Payload? && newOffset == -1 ==> result.length <= size)
      && (result.Nothing? <==> full == "")
  {
    hide Holds, Link, Window;
    var strpos, bufpos, i := 0, 0, 0;
    NothingHeld(buffer[..], offset, size);
    ghost var full := Render(resources);
    var stop := false;
    while i < |resources| && !stop
      invariant 0 <= i <= |resources| && 0 <= bufpos && 0 <= strpos
      invariant !stop ==> strpos == |Render(resources[..i])| <= offset + size
      invariant !stop ==> Holds(buffer[..], bufpos, Render(resources[..i]), offset, size)
      invariant !stop ==> bufpos <= size && (strpos > 0 <==> i > 0)
      invariant stop ==>
        && |full| > offset + size && Holds(buffer[..], bufpos, full, offset, size) && bufpos > 0
        && strpos > 0 && i < |resources|
      decreases |resources| - i, !stop
    {
      ghost var text := Render(resources[..i]);
      OneMoreLink(resources, i);
      strpos, bufpos, stop := AddLink(buffer, resources[i], strpos, bufpos, size, offset, text);
      if stop {
        RenderGrows(resources, i + 1);
        ghost var next := Render(resources[..i + 1]);
        assert full == next + full[|next|..];
        HoldsMore(buffer[..], bufpos, next, full[|next|..], offset, size);
      } else {
        i := i + 1;
      }
    }
    assert resources[..|resources|] == resources;
    Held(buffer[..], bufpos, full, offset, size);
    if bufpos > 0 {
      result := Payload(bufpos);
    } else if strpos > 0 {
      result := BlockOutOfScope;
    } else {
      result := Nothing;
    }
    newOffset := if stop then offset + size else -1;
  }

  lemma NothingHeld(buffer: seq<char>, offset: nat, size: nat)
    requires size < |buffer|
    ensures Holds(buffer, 0, "", offset, size)
  {
  }

  lemma Held(buffer: seq<char>, bufpos: nat, text: string, offset: nat, size: nat)
    requires Holds(buffer, bufpos, text, offset, size)
    ensures buffer[..|Window(text, offset, size)|] == Window(text, offset, size)
    ensures Min(bufpos, size) == |Window(text, offset, size)|
  {
  }

  lemma OneMoreLink(resources: seq<Resource>, i: nat)
    requires i < |resources|
    ensures var text := Render(resources[..i]);
      Render(resources[..i + 1]) == text + (if text != "" then "," else "") + Link(resources[i])
  {
    assert resources[..i + 1][..i] == resources[..i];
    if i > 0 {
      assert |Link(resources[..i][i - 1])| > 0;
    }
  }
}
