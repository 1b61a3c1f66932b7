/** Serialized packets are read back: from a packet to its options and bytes, and again to a packet. */
module CoapRoundTrip {
  import opened Common
  import opened CoapOptions
  import opened CoapMessage

  // ----- From a packet to its options -----

  /** The value with which an option that is not a string is sent, when its bit is set. */
  function FieldValue(f: Fields, number: nat): Option<seq<Byte>> {
    if number == IF_MATCH then f.ifMatch
    else if number == ETAG then f.etag
    else if number == IF_NONE_MATCH then if f.ifNoneMatch then Some([]) else None
    else if number == OBSERVE then Shortest(f.observe)
    else if number == URI_PORT then Shortest(f.uriPort)
    else if number == CONTENT_FORMAT then Shortest(f.contentFormat)
    else if number == MAX_AGE then Shortest(f.maxAge)
    else if number == ACCEPT then Shortest(f.accept)
    else if number == BLOCK2 then if f.block2.Some? then Some(IntBytes(EncodeBlock(f.block2.value))) else None
    else if number == BLOCK1 then if f.block1.Some? then Some(IntBytes(EncodeBlock(f.block1.value))) else None
    else if number == SIZE2 then Shortest(f.size2)
    else if number == SIZE1 then Shortest(f.size1)
    else None
  }

  function Shortest(o: Option<nat>): Option<seq<Byte>> {
    if o.Some? then Some(IntBytes(o.value)) else None
  }

  function SameNumber(number: nat, parts: seq<seq<Byte>>): (r: seq<Opt>)
    ensures |r| == |parts| && forall i :: 0 <= i < |r| ==> r[i] == Opt(number, parts[i])
  {
    if parts == [] then [] else [Opt(number, parts[0])] + SameNumber(number, parts[1..])
  }

  function OptionsAt(m: Packet<Text>, number: nat): seq<Opt> {
    if IsString(number) then
      if m.strings.At(number).Some? then SameNumber(number, ArrayParts(m.strings.At(number).value, Separator(number)))
      else []
    else if FieldValue(m.fields, number).Some? then [Opt(number, FieldValue(m.fields, number).value)]
    else []
  }

  /** All options of the packet with this number or a higher one, in order. */
  function OptionsFrom(m: Packet<Text>, number: nat): seq<Opt>
    decreases OPTION_LIMIT - number
  {
    if number >= OPTION_LIMIT then [] else OptionsAt(m, number) + OptionsFrom(m, number + 1)
  }

  function HeaderBytes(f: Fields): (r: seq<Byte>)
    requires f.kind < 4 && |f.token| <= TOKEN_LEN && f.mid < 65536
    ensures |r| == HEADER_LEN
  {
    [64 + f.kind * 16 + |f.token|, f.code, f.mid / 256, f.mid % 256]
  }

  predicate ShortText(o: Option<Text>) {
    o.Some? ==> |o.value.chars| < 65536
  }

  predicate Is16(o: Option<nat>) {
    o.Some? ==> o.value < 65536
  }

  predicate Is32(o: Option<nat>) {
    o.Some? ==> o.value < 0x1_0000_0000
  }

  predicate IsTag(o: Option<seq<Byte>>) {
    o.Some? ==> |o.value| <= ETAG_LEN
  }

  predicate IsBlock(o: Option<Block>) {
    o.Some? ==> BlockInBounds(o.value)
  }

  /** Every field has a value that its C type and its setter allow. */
  ghost predicate WellTyped(m: Packet<Text>) {
    var f := m.fields;
    && f.kind < 4 && f.mid < 65536 && |f.token| <= TOKEN_LEN
    && IsTag(f.ifMatch) && IsTag(f.etag) && Is32(f.observe) && Is16(f.uriPort) && Is16(f.contentFormat)
    && Is32(f.maxAge) && Is16(f.accept) && IsBlock(f.block2) && IsBlock(f.block1) && Is32(f.size2) && Is32(f.size1)
    && forall n: nat :: ShortText(m.strings.At(n))
  }

  lemma {:induction false} OrderedSame(prev: nat, number: nat, parts: seq<seq<Byte>>)
    requires prev <= number < OPTION_LIMIT && forall i :: 0 <= i < |parts| ==> |parts[i]| <= MAX_EXTENDED
    ensures Ordered(prev, SameNumber(number, parts))
    ensures parts != [] ==> LastNumber(prev, SameNumber(number, parts)) == number
    decreases |parts|
  {
    if parts != [] {
      OrderedSame(number, number, parts[1..]);
      assert SameNumber(number, parts)[1..] == SameNumber(number, parts[1..]);
    }
  }

  /** Encoding the parts of a string one by one is encoding them as options of the same number. */
  lemma {:induction false} EncodeSame(prev: nat, number: nat, parts: seq<seq<Byte>>)
    requires prev <= number < OPTION_LIMIT && forall i :: 0 <= i < |parts| ==> |parts[i]| <= MAX_EXTENDED
    requires Ordered(prev, SameNumber(number, parts))
    ensures EncodeOptions(prev, SameNumber(number, parts)) == EncodeParts(number - prev, parts)
    decreases |parts|
  {
    if parts != [] {
      OrderedSame(number, number, parts[1..]);
      assert SameNumber(number, parts)[1..] == SameNumber(number, parts[1..]);
      EncodeSame(number, number, parts[1..]);
    }
  }

  lemma IntBytesShort(value: nat)
    requires value < 0x1_0000_0000
    ensures |IntBytes(value)| <= 4
  {
    IntBytesCases(value);
  }

  lemma FieldValueShort(m: Packet<Text>, number: nat)
    requires WellTyped(m) && FieldValue(m.fields, number).Some?
    ensures |FieldValue(m.fields, number).value| <= MAX_EXTENDED
  {
    var f := m.fields;
    hide IntBytes, EncodeBlock;
    forall v: nat | v < 0x1_0000_0000
      ensures |IntBytes(v)| <= 4
    {
      IntBytesShort(v);
    }
    if f.block2.Some? {
      BlockRoundTrip(f.block2.value);
    }
    if f.block1.Some? {
      BlockRoundTrip(f.block1.value);
    }
  }

  lemma OptionsAtOrdered(m: Packet<Text>, prev: nat, number: nat)
    requires WellTyped(m) && prev <= number < OPTION_LIMIT
    ensures Ordered(prev, OptionsAt(m, number)) && LastNumber(prev, OptionsAt(m, number)) <= number
    ensures forall i :: 0 <= i < |OptionsAt(m, number)| ==> OptionsAt(m, number)[i].number == number
  {
    if IsString(number) {
      if m.strings.At(number).Some? {
        assert ShortText(m.strings.At(number));
        OrderedSame(prev, number, ArrayParts(m.strings.At(number).value, Separator(number)));
      }
    } else if FieldValue(m.fields, number).Some? {
      FieldValueShort(m, number);
      hide FieldValue;
      assert [Opt(number, FieldValue(m.fields, number).value)][1..] == [];
    }
  }

  lemma {:induction false} OptionsOrdered(m: Packet<Text>, prev: nat, number: nat)
    requires WellTyped(m) && prev <= number
    ensures Ordered(prev, OptionsFrom(m, number))
    decreases OPTION_LIMIT - number
  {
    hide OptionsAt, WellTyped, EncodeOptions;
    if number < OPTION_LIMIT {
      OptionsAtOrdered(m, prev, number);
      var last := LastNumber(prev, OptionsAt(m, number));
      OptionsOrdered(m, last, number + 1);
      OrderedConcat(prev, OptionsAt(m, number), OptionsFrom(m, number + 1));
    }
  }

  // ----- And back -----

  ghost predicate NoProxy(m: Packet<Text>) {
    WellTyped(m) && m.strings.proxyUri.None? && m.strings.proxyScheme.None?
  }

  /** The string that is read back: the parts, merged again. */
  function Carried(o: Option<Text>, sep: Byte): Option<seq<Byte>> {
    if o.Some? then Some(MergeAll([], ArrayParts(o.value, sep), sep)) else None
  }

  function CarriedBlock(o: Option<Block>): Option<Block> {
    if o.Some? then Some(DecodeBlock(EncodeBlock(o.value))) else None
  }

  function Chars(o: Option<Text>): Option<seq<Byte>> {
    if o.Some? then Some(o.value.chars) else None
  }

  /** What is read back of the options with numbers below n. */
  function Upto(m: Packet<Text>, n: nat): Packet<seq<Byte>> {
    var f, s := m.fields, m.strings;
    Packet(
      Fields(f.kind, f.code, f.mid, f.token,
             if IF_MATCH < n then f.ifMatch else None,
             if ETAG < n then f.etag else None,
             IF_NONE_MATCH < n && f.ifNoneMatch,
             if OBSERVE < n then f.observe else None,
             if URI_PORT < n then f.uriPort else None,
             if CONTENT_FORMAT < n then f.contentFormat else None,
             if MAX_AGE < n then f.maxAge else None,
             if ACCEPT < n then f.accept else None,
             if BLOCK2 < n then CarriedBlock(f.block2) else None,
             if BLOCK1 < n then CarriedBlock(f.block1) else None,
             if SIZE2 < n then f.size2 else None,
             if SIZE1 < n then f.size1 else None),
      Strings(
        if URI_HOST < n then Carried(s.uriHost, Separator(URI_HOST)) else None,
        if LOCATION_PATH < n then Carried(s.locationPath, Separator(LOCATION_PATH)) else None,
        if URI_PATH < n then Carried(s.uriPath, Separator(URI_PATH)) else None,
        if URI_QUERY < n then Carried(s.uriQuery, Separator(URI_QUERY)) else None,
        if LOCATION_QUERY < n then Carried(s.locationQuery, Separator(LOCATION_QUERY)) else None,
        if PROXY_URI < n then Carried(s.proxyUri, Separator(PROXY_URI)) else None,
        if PROXY_SCHEME < n then Carried(s.proxyScheme, Separator(PROXY_SCHEME)) else None))
  }

  /** The packet with plain strings. */
  function Received(m: Packet<Text>): Packet<seq<Byte>> {
    var s := m.strings;
    Packet(m.fields,
           Strings(Chars(s.uriHost), Chars(s.locationPath), Chars(s.uriPath), Chars(s.uriQuery), Chars(s.locationQuery),
                   Chars(s.proxyUri), Chars(s.proxyScheme)))
  }

  /** A field option puts its value back. */
  lemma FieldRoundTrip(m: Packet<Text>, number: nat)
    requires NoProxy(m) && !IsString(number) && number < OPTION_LIMIT
    ensures var v := FieldValue(m.fields, number);
      (if v.Some? then AbsorbField(Upto(m, number).fields, number, v.value) else Upto(m, number).fields)
      == Upto(m, number + 1).fields
    ensures FieldValue(m.fields, number).Some? ==> OptionStatus(number) == NoError
    ensures Upto(m, number).strings == Upto(m, number + 1).strings
  {
    hide FieldValue, AbsorbField, Upto, OptionStatus;
    if number <= CONTENT_FORMAT {
      LowFieldRoundTrip(m, number);
    } else {
      HighFieldRoundTrip(m, number);
    }
  }

  lemma LowFieldRoundTrip(m: Packet<Text>, number: nat)
    requires NoProxy(m) && !IsString(number) && number <= CONTENT_FORMAT
    ensures var v := FieldValue(m.fields, number);
      (if v.Some? then AbsorbField(Upto(m, number).fields, number, v.value) else Upto(m, number).fields)
      == Upto(m, number + 1).fields
    ensures FieldValue(m.fields, number).Some? ==> OptionStatus(number) == NoError
    ensures Upto(m, number).strings == Upto(m, number + 1).strings
  {
    hide IntBytes, IntValue, EncodeBlock, DecodeBlock, Restorable, Separator, Pow2, Log2;
    IntsComeBack();
  }

  lemma HighFieldRoundTrip(m: Packet<Text>, number: nat)
    requires NoProxy(m) && !IsString(number) && CONTENT_FORMAT < number < OPTION_LIMIT
    ensures var v := FieldValue(m.fields, number);
      (if v.Some? then AbsorbField(Upto(m, number).fields, number, v.value) else Upto(m, number).fields)
      == Upto(m, number + 1).fields
    ensures FieldValue(m.fields, number).Some? ==> OptionStatus(number) == NoError
    ensures Upto(m, number).strings == Upto(m, number + 1).strings
  {
    var f := m.fields;
    hide IntBytes, IntValue, EncodeBlock, DecodeBlock, Restorable, Separator, Pow2, Log2;
    IntsComeBack();
    if f.block2.Some? {
      BlockRoundTrip(f.block2.value);
    }
    if f.block1.Some? {
      BlockRoundTrip(f.block1.value);
    }
  }

  lemma IntsComeBack()
    ensures forall v: nat :: v < 0x1_0000_0000 ==> IntValue(IntBytes(v)) == v
  {
    forall v: nat | v < 0x1_0000_0000
      ensures IntValue(IntBytes(v)) == v
    {
      IntRoundTrip(v);
    }
  }

  lemma {:induction false} AbsorbParts(p: Packet<seq<Byte>>, number: nat, parts: seq<seq<Byte>>)
    requires Separator(number) != 0
    ensures AbsorbAll(p, SameNumber(number, parts)) ==
      (NoError, if parts == [] then p
                else p.(strings := p.strings.Put(number,
                                                 MergeAll(Content(p.strings.At(number)), parts, Separator(number)))))
    decreases |parts|
  {
    if parts != [] {
      var q := Absorb(p, Opt(number, parts[0]));
      assert SameNumber(number, parts)[1..] == SameNumber(number, parts[1..]);
      AbsorbParts(q, number, parts[1..]);
    }
  }

  lemma StringRoundTrip(m: Packet<Text>, number: nat)
    requires NoProxy(m) && IsString(number)
    ensures AbsorbAll(Upto(m, number), OptionsAt(m, number)) == (NoError, Upto(m, number + 1))
  {
    hide MergeAll, WellTyped, ArrayParts;
    if m.strings.At(number).Some? {
      var t := m.strings.At(number).value;
      var sep := Separator(number);
      var p := Upto(m, number);
      assert p.strings.At(number) == None;
      PartsNotEmpty(t, sep);
      if sep != 0 {
        AbsorbParts(p, number, ArrayParts(t, sep));
      } else {
        assert number == URI_HOST;
        WholeString(t);
        assert SameNumber(number, [t.chars]) == [Opt(number, t.chars)];
        assert [Opt(number, t.chars)][1..] == [];
      }
      assert p.strings.Put(number, MergeAll([], ArrayParts(t, sep), sep)) == Upto(m, number + 1).strings;
    }
  }

  lemma WholeString(t: Text)
    ensures ArrayParts(t, 0) == [t.chars] && MergeAll([], [t.chars], 0) == t.chars
  {
    assert [t.chars][1..] == [];
  }

  lemma {:induction false} PartsNotEmpty(t: Text, sep: Byte)
    ensures ArrayParts(t, sep) != []
  {
    PartsReachEnd(t, sep, 0, 0);
  }

  lemma {:induction false} PartsReachEnd(t: Text, sep: Byte, start: nat, j: nat)
    requires start <= j <= |t.chars|
    ensures Parts(t, sep, start, j) != []
    decreases |t.chars| - j
  {
    if j < |t.chars| && Memory(t)[j] != sep {
      PartsReachEnd(t, sep, start, j + 1);
    }
  }

  lemma NumberRoundTrip(m: Packet<Text>, number: nat)
    requires NoProxy(m) && number < OPTION_LIMIT
    ensures AbsorbAll(Upto(m, number), OptionsAt(m, number)) == (NoError, Upto(m, number + 1))
  {
    if IsString(number) {
      StringRoundTrip(m, number);
    } else {
      FieldRoundTrip(m, number);
      hide FieldValue, AbsorbField, Upto;
      if FieldValue(m.fields, number).Some? {
        assert [Opt(number, FieldValue(m.fields, number).value)][1..] == [];
      }
    }
  }

  lemma {:induction false} OptionsRoundTrip(m: Packet<Text>, number: nat)
    requires NoProxy(m) && number <= OPTION_LIMIT
    ensures AbsorbAll(Upto(m, number), OptionsFrom(m, number)) == (NoError, Upto(m, OPTION_LIMIT))
    decreases OPTION_LIMIT - number
  {
    hide OptionsAt, Upto, NoProxy;
    if number < OPTION_LIMIT {
      NumberRoundTrip(m, number);
      OptionsRoundTrip(m, number + 1);
      AbsorbConcat(Upto(m, number), OptionsAt(m, number), OptionsFrom(m, number + 1));
    }
  }

  /** The options of a packet, absorbed one by one. */
  lemma PacketIsCarried(m: Packet<Text>)
    requires NoProxy(m)
    ensures AbsorbAll(Packet(NoFields(m.fields.kind, m.fields.code, m.fields.mid, m.fields.token), NoStrings()),
                      OptionsFrom(m, 0))
            == (NoError, Upto(m, OPTION_LIMIT))
  {
    OptionsRoundTrip(m, 0);
    hide OptionsFrom, AbsorbAll;
    assert Upto(m, 0) == Packet(NoFields(m.fields.kind, m.fields.code, m.fields.mid, m.fields.token), NoStrings());
  }

  predicate RestorableText(o: Option<Text>, sep: Byte) {
    o.Some? && sep != 0 ==> Restorable(o.value.chars, sep)
  }

  predicate PowerOfTwoBlock(o: Option<Block>) {
    o.Some? ==> o.value.size == 16 * Pow2(Log2(o.value.size / 16))
  }

  /** Splitting strings without separators at their ends, and block sizes that are powers of two. */
  predicate Transparent(m: Packet<Text>) {
    && PowerOfTwoBlock(m.fields.block2) && PowerOfTwoBlock(m.fields.block1)
    && forall n :: 0 <= n < OPTION_LIMIT ==> RestorableText(m.strings.At(n), Separator(n))
  }

  /** The byte behind a string is not its separator (it is 0, or the '?' in front of a query). */
  predicate Terminated(o: Option<Text>, sep: Byte) {
    o.Some? && sep != 0 ==> o.value.next != sep
  }

  predicate ConsistentBlock(o: Option<Block>) {
    o.Some? ==> o.value.offset == o.value.num * o.value.size
  }

  /** What the setters leave: terminated strings, and block offsets that go with number and size. */
  predicate Regular(m: Packet<Text>) {
    && ConsistentBlock(m.fields.block2) && ConsistentBlock(m.fields.block1)
    && forall n :: 0 <= n < OPTION_LIMIT ==> Terminated(m.strings.At(n), Separator(n))
  }

  lemma CarriedIsChars(o: Option<Text>, sep: Byte)
    requires Terminated(o, sep)
    ensures Carried(o, sep) == Chars(o) <==> RestorableText(o, sep)
  {
    if o.Some? {
      if sep == 0 {
        WholeString(o.value);
      } else {
        SplitThenMerge(o.value, sep);
      }
    }
  }

  lemma CarriedBlockIsBlock(o: Option<Block>)
    requires IsBlock(o) && ConsistentBlock(o)
    ensures CarriedBlock(o) == o <==> PowerOfTwoBlock(o)
  {
    hide EncodeBlock, DecodeBlock;
    if o.Some? {
      BlockRoundTrip(o.value);
    }
  }

  /**
   Of the packets without proxy options, exactly these are read back as they were: the strings that are split
   neither begin with a separator nor end in an odd number of them, and block sizes are powers of two.
   */
  lemma PacketRoundTrip(m: Packet<Text>)
    requires NoProxy(m) && Regular(m)
    ensures Upto(m, OPTION_LIMIT) == Received(m) <==> Transparent(m)
  {
    hide Carried, CarriedBlock, RestorableText, PowerOfTwoBlock, IsBlock;
    var s := m.strings;
    CarriedBlockIsBlock(m.fields.block2);
    CarriedBlockIsBlock(m.fields.block1);
    forall n | 0 <= n < OPTION_LIMIT
      ensures Carried(s.At(n), Separator(n)) == Chars(s.At(n)) <==> RestorableText(s.At(n), Separator(n))
    {
      assert Terminated(s.At(n), Separator(n));
      CarriedIsChars(s.At(n), Separator(n));
    }
    assert s.At(URI_HOST) == s.uriHost && s.At(LOCATION_PATH) == s.locationPath && s.At(URI_PATH) == s.uriPath;
    assert s.At(URI_QUERY) == s.uriQuery && s.At(LOCATION_QUERY) == s.locationQuery;
    assert s.At(PROXY_URI) == s.proxyUri && s.At(PROXY_SCHEME) == s.proxyScheme;
    NothingIsRestorable();
  }

  lemma NothingIsRestorable()
    ensures forall sep: Byte :: RestorableText(None, sep)
  {
  }
}
