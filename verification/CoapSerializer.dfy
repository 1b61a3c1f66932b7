/** coap_serialize_message (apps/er-coap/er-coap.c): header, token, options in the order of their numbers, payload. */
module CoapSerializer {
  import opened Common
  import opened CoapOptions
  import opened CoapMessage
  import opened CoapRoundTrip

  /** The options of the packet with numbers below `number`. */
  function OptionsBelow(m: Packet<Text>, number: nat): seq<Opt> {
    if number == 0 then [] else OptionsBelow(m, number - 1) + OptionsAt(m, number - 1)
  }

  lemma {:induction false} BelowIsFrom(m: Packet<Text>, number: nat)
    requires number <= OPTION_LIMIT
    ensures OptionsBelow(m, number) + OptionsFrom(m, number) == OptionsFrom(m, 0)
  {
    hide OptionsAt;
    if number > 0 {
      BelowIsFrom(m, number - 1);
      AssociateOptions(OptionsBelow(m, number - 1), OptionsAt(m, number - 1), OptionsFrom(m, number));
    } else {
      assert OptionsBelow(m, 0) + OptionsFrom(m, 0) == OptionsFrom(m, 0);
    }
  }

  lemma AssociateOptions(a: seq<Opt>, b: seq<Opt>, c: seq<Opt>)
    ensures (a + b) + c == a + (b + c)
  {
  }

  lemma {:induction false} BelowOrdered(m: Packet<Text>, number: nat)
    requires WellTyped(m) && number <= OPTION_LIMIT
    ensures Ordered(0, OptionsBelow(m, number))
    ensures number > 0 ==> LastNumber(0, OptionsBelow(m, number)) < number
    ensures number == 0 ==> LastNumber(0, OptionsBelow(m, number)) == 0
  {
    hide OptionsAt, WellTyped;
    if number > 0 {
      BelowOrdered(m, number - 1);
      var last := LastNumber(0, OptionsBelow(m, number - 1));
      OptionsAtOrdered(m, last, number - 1);
      EncodeConcat(0, OptionsBelow(m, number - 1), OptionsAt(m, number - 1));
    }
  }

  /** The bytes of the options below `number`. */
  function BytesBelow(m: Packet<Text>, number: nat): seq<Byte>
    requires Ordered(0, OptionsBelow(m, number))
  {
    EncodeOptions(0, OptionsBelow(m, number))
  }

  lemma OneMore(m: Packet<Text>, number: nat)
    requires WellTyped(m) && number < OPTION_LIMIT
    requires Ordered(0, OptionsBelow(m, number))
    ensures var last := LastNumber(0, OptionsBelow(m, number));
      && last <= number && Ordered(last, OptionsAt(m, number)) && Ordered(0, OptionsBelow(m, number + 1))
      && BytesBelow(m, number + 1) == BytesBelow(m, number) + EncodeOptions(last, OptionsAt(m, number))
      && LastNumber(0, OptionsBelow(m, number + 1)) == if OptionsAt(m, number) == [] then last else number
  {
    hide OptionsAt, WellTyped;
    BelowOrdered(m, number);
    OptionsAtOrdered(m, LastNumber(0, OptionsBelow(m, number)), number);
    EncodeConcat(0, OptionsBelow(m, number), OptionsAt(m, number));
  }

  predicate Unknown(from: nat, number: nat) {
    forall n :: from <= n < number ==> !Known(n)
  }

  lemma {:induction false} SkipUnknown(m: Packet<Text>, from: nat, number: nat)
    requires from <= number && Unknown(from, number)
    ensures OptionsBelow(m, number) == OptionsBelow(m, from)
    decreases number
  {
    if from < number {
      assert !Known(number - 1);
      SkipUnknown(m, from, number - 1);
      assert OptionsAt(m, number - 1) == [];
    }
  }

  lemma {:induction false} BytesGrow(m: Packet<Text>, number: nat, limit: nat)
    requires WellTyped(m) && number <= limit <= OPTION_LIMIT
    ensures Ordered(0, OptionsBelow(m, number)) && Ordered(0, OptionsBelow(m, limit))
    ensures |BytesBelow(m, number)| <= |BytesBelow(m, limit)|
    decreases limit
  {
    hide WellTyped, OptionsBelow, OptionsAt;
    BelowOrdered(m, number);
    BelowOrdered(m, limit);
    if number < limit {
      BytesGrow(m, number, limit - 1);
      OneMore(m, limit - 1);
    }
  }

  /** The options below `number` have been written at `start`; `at` is behind them, `current` the last number. */
  ghost predicate Written(m: Packet<Text>, before: seq<Byte>, now: seq<Byte>, start: nat, at: nat, current: nat,
                          number: nat) {
    && WellTyped(m) && number <= OPTION_LIMIT
    && Ordered(0, OptionsBelow(m, number)) && Ordered(0, OptionsBelow(m, OPTION_LIMIT))
    && start + |BytesBelow(m, OPTION_LIMIT)| <= |before|
    && start + |BytesBelow(m, number)| <= |before|
    && now == Splice(before, start, BytesBelow(m, number))
    && at == start + |BytesBelow(m, number)| && current == LastNumber(0, OptionsBelow(m, number))
  }

  /** One macro: the bytes of the options with this number are written at `at`, if there are any. */
  lemma WrittenStep(m: Packet<Text>, before: seq<Byte>, now: seq<Byte>, start: nat, at: nat, current: nat, from: nat,
                    number: nat)
    requires Written(m, before, now, start, at, current, from)
    requires from <= number < OPTION_LIMIT && Unknown(from, number)
    ensures current <= number && Ordered(current, OptionsAt(m, number))
    ensures var bytes := EncodeOptions(current, OptionsAt(m, number));
      && at + |bytes| <= |now| == |before|
      && Written(m, before, Splice(now, at, bytes), start, at + |bytes|,
                 if OptionsAt(m, number) == [] then current else number, number + 1)
  {
    hide OptionsBelow, OptionsAt, WellTyped, EncodeOptions, Splice, Unknown, Ordered;
    SkipUnknown(m, from, number);
    OneMore(m, number);
    BytesGrow(m, number + 1, OPTION_LIMIT);
    SpliceTwice(before, start, BytesBelow(m, number), EncodeOptions(current, OptionsAt(m, number)));
  }

  lemma SingleOption(current: nat, number: nat, value: seq<Byte>)
    requires current <= number < OPTION_LIMIT && |value| <= MAX_EXTENDED
    ensures Ordered(current, [Opt(number, value)])
    ensures EncodeOptions(current, [Opt(number, value)]) == EncodeOption(number - current, value)
  {
    assert [Opt(number, value)][1..] == [];
  }

  /** Nothing to write: the bit is not set. */
  lemma WrittenSame(m: Packet<Text>, before: seq<Byte>, now: seq<Byte>, start: nat, at: nat, current: nat, from: nat,
                    number: nat)
    requires Written(m, before, now, start, at, current, from)
    requires from <= number < OPTION_LIMIT && Unknown(from, number) && OptionsAt(m, number) == []
    ensures Written(m, before, now, start, at, current, number + 1)
  {
    hide Written, OptionsBelow, OptionsAt, Unknown, WellTyped, Splice;
    WrittenStep(m, before, now, start, at, current, from, number);
    EncodeNone(current);
    SpliceNothing(now, at);
  }

  predicate IntKind(m: Packet<Text>, number: nat, field: Option<nat>) {
    number < OPTION_LIMIT && !IsString(number) && FieldValue(m.fields, number) == Shortest(field) && Is32(field)
  }

  predicate ByteKind(m: Packet<Text>, number: nat, field: Option<seq<Byte>>) {
    number < OPTION_LIMIT && !IsString(number) && FieldValue(m.fields, number) == field && IsTag(field)
  }

  predicate StringKind(m: Packet<Text>, number: nat, field: Option<Text>) {
    number < OPTION_LIMIT && IsString(number) && m.strings.At(number) == field && ShortText(field)
  }

  predicate BlockKind(m: Packet<Text>, number: nat, field: Option<Block>) {
    && number < OPTION_LIMIT && !IsString(number) && IsBlock(field)
    && FieldValue(m.fields, number) == if field.Some? then Some(IntBytes(EncodeBlock(field.value))) else None
  }

  /** COAP_SERIALIZE_INT_OPTION */
  method IntOption(m: Packet<Text>, number: nat, field: Option<nat>, buffer: array<Byte>, at: nat, current: nat,
                   ghost before: seq<Byte>, ghost start: nat, ghost from: nat) returns (at': nat, current': nat)
    requires Written(m, before, buffer[..], start, at, current, from)
    requires from <= number && Unknown(from, number) && IntKind(m, number, field)
    modifies buffer
    ensures Written(m, before, buffer[..], start, at', current', number + 1)
  {
    hide Written, OptionsBelow, WellTyped, FieldValue, IntBytes, EncodeOption, Splice, Unknown;
    at', current' := at, current;
    if field.Some? {
      IntBytesShort(field.value);
      WrittenStep(m, before, buffer[..], start, at, current, from, number);
      SingleOption(current, number, IntBytes(field.value));
      var n := SerializeIntOption(number, current, buffer, at, field.value);
      at', current' := at + n, number;
    } else {
      WrittenSame(m, before, buffer[..], start, at, current, from, number);
    }
  }

  /** COAP_SERIALIZE_BYTE_OPTION */
  method ByteOption(m: Packet<Text>, number: nat, field: Option<seq<Byte>>, buffer: array<Byte>, at: nat, current: nat,
                    ghost before: seq<Byte>, ghost start: nat, ghost from: nat) returns (at': nat, current': nat)
    requires Written(m, before, buffer[..], start, at, current, from)
    requires from <= number && Unknown(from, number) && ByteKind(m, number, field)
    modifies buffer
    ensures Written(m, before, buffer[..], start, at', current', number + 1)
  {
    hide Written, OptionsBelow, WellTyped, FieldValue, EncodeOption, Splice, Unknown;
    at', current' := at, current;
    if field.Some? {
      var t := Text(field.value, 0, 0);
      WrittenStep(m, before, buffer[..], start, at, current, from, number);
      SingleOption(current, number, field.value);
      WholeArray(number - current, t);
      var n := SerializeArrayOption(number, current, buffer, at, t, 0);
      at', current' := at + n, number;
    } else {
      WrittenSame(m, before, buffer[..], start, at, current, from, number);
    }
  }

  lemma WholeArray(delta: nat, t: Text)
    requires delta < 65536 && |t.chars| < 65536
    ensures ArrayOption(delta, t, 0) == EncodeOption(delta, t.chars)
  {
    hide EncodeOption;
    assert ArrayParts(t, 0) == [t.chars] && [t.chars][1..] == [];
    assert EncodeParts(0, []) == [];
    assert EncodeParts(delta, [t.chars]) == EncodeOption(delta, t.chars) + [];
  }

  /** COAP_SERIALIZE_STRING_OPTION */
  method StringOption(m: Packet<Text>, number: nat, field: Option<Text>, buffer: array<Byte>, at: nat, current: nat,
                      ghost before: seq<Byte>, ghost start: nat, ghost from: nat) returns (at': nat, current': nat)
    requires Written(m, before, buffer[..], start, at, current, from)
    requires from <= number && Unknown(from, number) && StringKind(m, number, field)
    modifies buffer
    ensures Written(m, before, buffer[..], start, at', current', number + 1)
  {
    hide Written, OptionsBelow, WellTyped, EncodeOption, Splice, Unknown, IsString, Parts, EncodeParts;
    at', current' := at, current;
    if field.Some? {
      ghost var parts := ArrayParts(field.value, Separator(number));
      WrittenStep(m, before, buffer[..], start, at, current, from, number);
      EncodeSame(current, number, parts);
      PartsNotEmpty(field.value, Separator(number));
      var n := SerializeArrayOption(number, current, buffer, at, field.value, Separator(number));
      at', current' := at + n, number;
    } else {
      WrittenSame(m, before, buffer[..], start, at, current, from, number);
    }
  }

  /** COAP_SERIALIZE_BLOCK_OPTION */
  method BlockOption(m: Packet<Text>, number: nat, field: Option<Block>, buffer: array<Byte>, at: nat, current: nat,
                     ghost before: seq<Byte>, ghost start: nat, ghost from: nat) returns (at': nat, current': nat)
    requires Written(m, before, buffer[..], start, at, current, from)
    requires from <= number && Unknown(from, number) && BlockKind(m, number, field)
    modifies buffer
    ensures Written(m, before, buffer[..], start, at', current', number + 1)
  {
    at', current' := at, current;
    if field.Some? {
      BlockRoundTrip(field.value);
      hide Written, Unknown, IntBytes, DecodeBlock, FieldValue;
      var log := ComputeLog2(field.value.size / 16);
      var block := field.value.num * 16;
      if field.value.more {
        block := block + 8;
      }
      block := block + log;
      assert block == EncodeBlock(field.value);
      at', current' := IntOption(m, number, Some(block), buffer, at, current, before, start, from);
    } else {
      hide Written, Unknown;
      at', current' := IntOption(m, number, None, buffer, at, current, before, start, from);
    }
  }

  lemma WrittenNothing(m: Packet<Text>, before: seq<Byte>, start: nat)
    requires WellTyped(m) && Ordered(0, OptionsBelow(m, OPTION_LIMIT))
    requires start + |BytesBelow(m, OPTION_LIMIT)| <= |before|
    ensures Written(m, before, before, start, start, 0, 0)
  {
  }

  lemma IsTyped(m: Packet<Text>, before: seq<Byte>, now: seq<Byte>, start: nat, at: nat, current: nat, number: nat)
    requires Written(m, before, now, start, at, current, number)
    ensures WellTyped(m)
  {
  }

  lemma LowKinds(m: Packet<Text>)
    requires WellTyped(m)
    ensures Unknown(0, IF_MATCH) && ByteKind(m, IF_MATCH, m.fields.ifMatch)
    ensures Unknown(IF_MATCH + 1, URI_HOST) && StringKind(m, URI_HOST, m.strings.uriHost)
    ensures Unknown(URI_HOST + 1, ETAG) && ByteKind(m, ETAG, m.fields.etag)
    ensures Unknown(ETAG + 1, IF_NONE_MATCH)
    ensures IntKind(m, IF_NONE_MATCH, if m.fields.ifNoneMatch then Some(0) else None)
    ensures Unknown(IF_NONE_MATCH + 1, OBSERVE) && IntKind(m, OBSERVE, m.fields.observe)
  {
    assert ShortText(m.strings.At(URI_HOST));
  }

  lemma MiddleKinds(m: Packet<Text>)
    requires WellTyped(m)
    ensures Unknown(OBSERVE + 1, URI_PORT) && IntKind(m, URI_PORT, m.fields.uriPort)
    ensures Unknown(URI_PORT + 1, LOCATION_PATH) && StringKind(m, LOCATION_PATH, m.strings.locationPath)
    ensures Unknown(LOCATION_PATH + 1, URI_PATH) && StringKind(m, URI_PATH, m.strings.uriPath)
    ensures Unknown(URI_PATH + 1, CONTENT_FORMAT) && IntKind(m, CONTENT_FORMAT, m.fields.contentFormat)
    ensures Unknown(CONTENT_FORMAT + 1, MAX_AGE) && IntKind(m, MAX_AGE, m.fields.maxAge)
    ensures Unknown(MAX_AGE + 1, URI_QUERY) && StringKind(m, URI_QUERY, m.strings.uriQuery)
  {
    assert ShortText(m.strings.At(LOCATION_PATH)) && ShortText(m.strings.At(URI_PATH)) &&
           ShortText(m.strings.At(URI_QUERY));
  }

  lemma HighKinds(m: Packet<Text>)
    requires WellTyped(m)
    ensures Unknown(URI_QUERY + 1, ACCEPT) && IntKind(m, ACCEPT, m.fields.accept)
    ensures Unknown(ACCEPT + 1, LOCATION_QUERY) && StringKind(m, LOCATION_QUERY, m.strings.locationQuery)
    ensures Unknown(LOCATION_QUERY + 1, BLOCK2) && BlockKind(m, BLOCK2, m.fields.block2)
    ensures Unknown(BLOCK2 + 1, BLOCK1) && BlockKind(m, BLOCK1, m.fields.block1)
  {
    assert ShortText(m.strings.At(LOCATION_QUERY));
  }

  lemma HighestKinds(m: Packet<Text>)
    requires WellTyped(m)
    ensures Unknown(BLOCK1 + 1, SIZE2) && IntKind(m, SIZE2, m.fields.size2)
    ensures Unknown(SIZE2 + 1, PROXY_URI) && StringKind(m, PROXY_URI, m.strings.proxyUri)
    ensures Unknown(PROXY_URI + 1, PROXY_SCHEME) && StringKind(m, PROXY_SCHEME, m.strings.proxyScheme)
    ensures Unknown(PROXY_SCHEME + 1, SIZE1) && IntKind(m, SIZE1, m.fields.size1)
    ensures Unknown(SIZE1 + 1, OPTION_LIMIT)
  {
    assert ShortText(m.strings.At(PROXY_URI)) && ShortText(m.strings.At(PROXY_SCHEME));
  }

  /** All options, in the order of their numbers. */
  method SerializeOptions(m: Packet<Text>, buffer: array<Byte>, start: nat) returns (at: nat)
    requires WellTyped(m) && Ordered(0, OptionsBelow(m, OPTION_LIMIT))
    requires start + |BytesBelow(m, OPTION_LIMIT)| <= buffer.Length
    modifies buffer
    ensures at == start + |BytesBelow(m, OPTION_LIMIT)|
    ensures buffer[..] == Splice(old(buffer[..]), start, BytesBelow(m, OPTION_LIMIT))
  {
    ghost var before := buffer[..];
    HighestKinds(m);
    WrittenNothing(m, before, start);
    var current;
    at, current := SerializeLowOptions(m, buffer, start, before);
    at, current := SerializeMiddleOptions(m, buffer, at, current, before, start);
    at, current := SerializeHighOptions(m, buffer, at, current, before, start);
    SkipUnknown(m, SIZE1 + 1, OPTION_LIMIT);
  }

  method SerializeLowOptions(m: Packet<Text>, buffer: array<Byte>, start: nat, ghost before: seq<Byte>)
      returns (at: nat, current: nat)
    requires Written(m, before, buffer[..], start, start, 0, 0)
    modifies buffer
    ensures Written(m, before, buffer[..], start, at, current, OBSERVE + 1)
  {
    hide OptionsBelow, IntKind, ByteKind, StringKind, BlockKind, Unknown, WellTyped, Written;
    IsTyped(m, before, buffer[..], start, start, 0, 0);
    LowKinds(m);
    var f, s := m.fields, m.strings;
    at, current := ByteOption(m, IF_MATCH, f.ifMatch, buffer, start, 0, before, start, 0);
    at, current := StringOption(m, URI_HOST, s.uriHost, buffer, at, current, before, start, IF_MATCH + 1);
    at, current := ByteOption(m, ETAG, f.etag, buffer, at, current, before, start, URI_HOST + 1);
    // The value of If-None-Match is always 0.
    at, current := IntOption(m, IF_NONE_MATCH, if f.ifNoneMatch then Some(0) else None, buffer, at, current, before,
                             start, ETAG + 1);
    at, current := IntOption(m, OBSERVE, f.observe, buffer, at, current, before, start, IF_NONE_MATCH + 1);
  }

  method SerializeMiddleOptions(m: Packet<Text>, buffer: array<Byte>, at0: nat, current0: nat,
                                ghost before: seq<Byte>, ghost start: nat)
      returns (at: nat, current: nat)
    requires Written(m, before, buffer[..], start, at0, current0, OBSERVE + 1)
    modifies buffer
    ensures Written(m, before, buffer[..], start, at, current, URI_QUERY + 1)
  {
    hide OptionsBelow, IntKind, ByteKind, StringKind, BlockKind, Unknown, WellTyped, Written;
    IsTyped(m, before, buffer[..], start, at0, current0, OBSERVE + 1);
    MiddleKinds(m);
    var f, s := m.fields, m.strings;
    at, current := IntOption(m, URI_PORT, f.uriPort, buffer, at0, current0, before, start, OBSERVE + 1);
    at, current := StringOption(m, LOCATION_PATH, s.locationPath, buffer, at, current, before, start, URI_PORT + 1);
    at, current := StringOption(m, URI_PATH, s.uriPath, buffer, at, current, before, start, LOCATION_PATH + 1);
    at, current := IntOption(m, CONTENT_FORMAT, f.contentFormat, buffer, at, current, before, start, URI_PATH + 1);
    at, current := IntOption(m, MAX_AGE, f.maxAge, buffer, at, current, before, start, CONTENT_FORMAT + 1);
    at, current := StringOption(m, URI_QUERY, s.uriQuery, buffer, at, current, before, start, MAX_AGE + 1);
  }

  method SerializeHighOptions(m: Packet<Text>, buffer: array<Byte>, at0: nat, current0: nat, ghost before: seq<Byte>,
                              ghost start: nat)
      returns (at: nat, current: nat)
    requires Written(m, before, buffer[..], start, at0, current0, URI_QUERY + 1)
    modifies buffer
    ensures Written(m, before, buffer[..], start, at, current, SIZE1 + 1)
  {
    hide OptionsBelow, IntKind, ByteKind, StringKind, BlockKind, Unknown, WellTyped, Written;
    IsTyped(m, before, buffer[..], start, at0, current0, URI_QUERY + 1);
    HighKinds(m);
    HighestKinds(m);
    var f, s := m.fields, m.strings;
    at, current := IntOption(m, ACCEPT, f.accept, buffer, at0, current0, before, start, URI_QUERY + 1);
    at, current := StringOption(m, LOCATION_QUERY, s.locationQuery, buffer, at, current, before, start, ACCEPT + 1);
    at, current := BlockOption(m, BLOCK2, f.block2, buffer, at, current, before, start, LOCATION_QUERY + 1);
    at, current := BlockOption(m, BLOCK1, f.block1, buffer, at, current, before, start, BLOCK2 + 1);
    at, current := IntOption(m, SIZE2, f.size2, buffer, at, current, before, start, BLOCK1 + 1);
    at, current := StringOption(m, PROXY_URI, s.proxyUri, buffer, at, current, before, start, SIZE2 + 1);
    at, current := StringOption(m, PROXY_SCHEME, s.proxyScheme, buffer, at, current, before, start, PROXY_URI + 1);
    at, current := IntOption(m, SIZE1, f.size1, buffer, at, current, before, start, PROXY_SCHEME + 1);
  }

  // ----- The message -----

  /** Header, token and options. */
  function HeadBytes(m: Packet<Text>): seq<Byte>
    requires m.fields.kind < 4 && |m.fields.token| <= TOKEN_LEN && m.fields.mid < 65536
    requires Ordered(0, OptionsFrom(m, 0))
  {
    HeaderBytes(m.fields) + m.fields.token + EncodeOptions(0, OptionsFrom(m, 0))
  }

  function Marker(payloadLen: nat): seq<Byte> {
    if payloadLen > 0 then [255] else []
  }

  /** The buffer with head and marker. */
  function Marked(m: Packet<Text>, before: seq<Byte>, payloadLen: nat): (r: seq<Byte>)
    requires m.fields.kind < 4 && |m.fields.token| <= TOKEN_LEN && m.fields.mid < 65536
    requires Ordered(0, OptionsFrom(m, 0)) && |HeadBytes(m)| + 1 <= |before|
    ensures |r| == |before|
  {
    Splice(before, 0, HeadBytes(m) + Marker(payloadLen))
  }

  /** The buffer has room for what is written: always the header, and the payload only behind a head that fits. */
  predicate Room(m: Packet<Text>, payloadLen: nat, size: nat)
    requires m.fields.kind < 4 && |m.fields.token| <= TOKEN_LEN && m.fields.mid < 65536
    requires Ordered(0, OptionsFrom(m, 0))
  {
    && HEADER_LEN <= size
    && (m.fields.code != 0 ==> |HeadBytes(m)| <= size)
    && (m.fields.code != 0 && |HeadBytes(m)| <= MAX_HEADER_SIZE ==> |HeadBytes(m)| + 1 + payloadLen <= size)
  }

  lemma BelowAll(m: Packet<Text>)
    requires WellTyped(m)
    ensures OptionsBelow(m, OPTION_LIMIT) == OptionsFrom(m, 0) && Ordered(0, OptionsFrom(m, 0))
  {
    BelowIsFrom(m, OPTION_LIMIT);
    assert OptionsFrom(m, OPTION_LIMIT) == [];
    assert OptionsBelow(m, OPTION_LIMIT) + [] == OptionsBelow(m, OPTION_LIMIT);
    OptionsOrdered(m, 0, 0);
  }

  /** The four bytes of the header. */
  method SerializeHeader(f: Fields, buffer: array<Byte>)
    requires f.kind < 4 && |f.token| <= TOKEN_LEN && f.mid < 65536 && buffer.Length >= HEADER_LEN
    modifies buffer
    ensures buffer[..] == Splice(old(buffer[..]), 0, HeaderBytes(f))
  {
    buffer[0] := 64 + f.kind * 16 + |f.token|;
    buffer[1] := f.code;
    buffer[2] := f.mid / 256;
    buffer[3] := f.mid % 256;
  }

  /** memmove: the bytes are taken from the source as it is now, even when both places overlap. */
  method Move(buffer: array<Byte>, to: nat, source: array<Byte>, from: nat, n: nat)
    requires to + n <= buffer.Length && from + n <= source.Length
    modifies buffer
    ensures buffer[..] == Splice(old(buffer[..]), to, old(source[..])[from..from + n])
  {
    forall k | 0 <= k < n {
      buffer[to + k] := source[from + k];
    }
  }

  /**
   coap_serialize_message.  The options are written before their size is checked, so the buffer has to have
   room for them.  The payload may lie in the same buffer: it is moved after the marker has been written.
   */
  method SerializeMessage(m: Packet<Text>, buffer: array<Byte>, payload: array<Byte>, from: nat, payloadLen: nat)
      returns (length: nat)
    requires WellTyped(m) && Ordered(0, OptionsFrom(m, 0))
    requires payloadLen < 65536 && from + payloadLen <= payload.Length
    requires Room(m, payloadLen, buffer.Length)
    modifies buffer
    ensures
      var before, head := old(buffer[..]), |HeadBytes(m)|;
      if m.fields.code == 0 then length == HEADER_LEN && buffer[..] == Splice(before, 0, HeaderBytes(m.fields))
      else if head > MAX_HEADER_SIZE then length == 0 && buffer[..] == Splice(before, 0, HeadBytes(m))
      else
        var at, marked := head + |Marker(payloadLen)|, Marked(m, before, payloadLen);
        && length == at + payloadLen
        && buffer[..] == Splice(marked, at, (if payload == buffer then marked
                                             else old(payload[..]))[from..from + payloadLen])
  {
    hide HeaderBytes, EncodeOptions, OptionsFrom, Splice;
    ghost var before := buffer[..];
    BelowAll(m);
    SerializeHeader(m.fields, buffer);
    if m.fields.code == 0 {
      return HEADER_LEN;
    }
    CopyTo(buffer, HEADER_LEN, m.fields.token);
    SpliceTwice(before, 0, HeaderBytes(m.fields), m.fields.token);
    var option := SerializeOptions(m, buffer, HEADER_LEN + |m.fields.token|);
    SpliceTwice(before, 0, HeaderBytes(m.fields) + m.fields.token, EncodeOptions(0, OptionsFrom(m, 0)));
    if option <= MAX_HEADER_SIZE {
      var at := option;
      if payloadLen > 0 {
        CopyTo(buffer, at, [255]);
        at := at + 1;
        SpliceTwice(before, 0, HeadBytes(m), [255]);
      } else {
        assert HeadBytes(m) + [] == HeadBytes(m);
      }
      Move(buffer, at, payload, from, payloadLen);
      return at + payloadLen;
    } else {
      return 0;
    }
  }
}
