/** The wire format of CoAP (RFC 7252, sections 3 and 5.10), byte by byte and number by number. */
module CoapWire {
  import opened Common
  import opened CoapOptions
  import opened CoapMessage
  import opened CoapRoundTrip
  import opened CoapSerializer

  // ----- Paths and queries -----

  /** The segments of a path, or the arguments of a query, with a separator between them. */
  function Joined(segments: seq<seq<Byte>>, sep: Byte): seq<Byte> {
    if segments == [] then []
    else if |segments| == 1 then segments[0]
    else segments[0] + [sep] + Joined(segments[1..], sep)
  }

  predicate AreSegments(segments: seq<seq<Byte>>, sep: Byte) {
    segments != [] && forall i :: 0 <= i < |segments| ==> segments[i] != [] && sep !in segments[i]
  }

  /** The loop that splits finds the next separator, or the end. */
  lemma {:induction false} OnePart(t: Text, sep: Byte, start: nat, j: nat, end: nat)
    requires start <= j <= end <= |t.chars| && forall k :: j <= k < end ==> t.chars[k] != sep
    requires end == |t.chars| || t.chars[end] == sep
    ensures Parts(t, sep, start, j) == [t.chars[start..end]] + Parts(t, sep, end + 1, end + 2)
    decreases end - j
  {
    hide Parts;
    PartsStep(t, sep, start, j);
    assert j < |t.chars| ==> Memory(t)[j] == t.chars[j];
    assert Memory(t)[start..j] == t.chars[start..j];
    if j < end {
      OnePart(t, sep, start, j + 1, end);
    }
  }

  lemma {:induction false} PartsAreSegments(t: Text, sep: Byte, segments: seq<seq<Byte>>, start: nat, j: nat)
    requires AreSegments(segments, sep) && start <= j <= start + 1 && start <= |t.chars|
    requires t.chars[start..] == Joined(segments, sep)
    ensures Parts(t, sep, start, j) == segments
    decreases |segments|
  {
    hide Parts;
    var first, end := segments[0], start + |segments[0]|;
    FirstSegment(segments, sep);
    assert forall k :: 0 <= k < |first| ==> t.chars[start..][k] == first[k] && first[k] in first;
    assert t.chars[start..end] == t.chars[start..][..|first|];
    if |segments| == 1 {
      OnePart(t, sep, start, j, end);
      PartsStep(t, sep, end, end);
    } else {
      assert t.chars[start..][|first|] == sep && t.chars[end + 1..] == t.chars[start..][|first| + 1..];
      OnePart(t, sep, start, j, end);
      PartsAreSegments(t, sep, segments[1..], end + 1, end + 2);
    }
  }

  lemma FirstSegment(segments: seq<seq<Byte>>, sep: Byte)
    requires segments != []
    ensures
      var s, n := Joined(segments, sep), |segments[0]|;
      && |s| >= n && s[..n] == segments[0]
      && (|segments| == 1 ==> |s| == n)
      && (|segments| > 1 ==> |s| > n && s[n] == sep && s[n + 1..] == Joined(segments[1..], sep))
  {
  }

  lemma {:induction false} MergedIsJoined(acc: seq<Byte>, segments: seq<seq<Byte>>, sep: Byte)
    requires acc != []
    ensures MergeAll(acc, segments, sep) == if segments == [] then acc else acc + [sep] + Joined(segments, sep)
    decreases |segments|
  {
    if segments != [] {
      MergedIsJoined(Merge(acc, segments[0], sep), segments[1..], sep);
    }
  }

  /** The options of a list that have the given number, in order. */
  function Numbered(opts: seq<Opt>, number: nat): seq<Opt> {
    if opts == [] then []
    else (if opts[0].number == number then [opts[0]] else []) + Numbered(opts[1..], number)
  }

  lemma {:induction false} NumberedConcat(a: seq<Opt>, b: seq<Opt>, number: nat)
    ensures Numbered(a + b, number) == Numbered(a, number) + Numbered(b, number)
    decreases |a|
  {
    hide Numbered;
    if a == [] {
      assert a + b == b;
      NothingNumbered(number);
    } else {
      assert (a + b)[1..] == a[1..] + b && (a + b)[0] == a[0];
      NumberedConcat(a[1..], b, number);
      NumberedStep(a, number);
      NumberedStep(a + b, number);
    }
  }

  lemma NumberedStep(opts: seq<Opt>, number: nat)
    requires opts != []
    ensures Numbered(opts, number)
            == (if opts[0].number == number then [opts[0]] else []) + Numbered(opts[1..], number)
  {
  }

  lemma {:induction false} NumberedSame(opts: seq<Opt>, n: nat, number: nat)
    requires forall i :: 0 <= i < |opts| ==> opts[i].number == n
    ensures Numbered(opts, number) == if n == number then opts else []
    decreases |opts|
  {
    if opts != [] {
      NumberedSame(opts[1..], n, number);
    }
  }

  /** The options of a packet with one number are those of its string or field with that number. */
  lemma {:induction false} NumberedFrom(m: Packet<Text>, from: nat, number: nat)
    requires from <= OPTION_LIMIT && number < OPTION_LIMIT
    ensures Numbered(OptionsFrom(m, from), number) == if from <= number then OptionsAt(m, number) else []
    decreases OPTION_LIMIT - from
  {
    hide OptionsAt, Numbered;
    NothingNumbered(number);
    if from < OPTION_LIMIT {
      assert OptionsFrom(m, from) == OptionsAt(m, from) + OptionsFrom(m, from + 1);
      hide OptionsFrom;
      NumberedFrom(m, from + 1, number);
      NumberedConcat(OptionsAt(m, from), OptionsFrom(m, from + 1), number);
      NumberIsKept(m, from);
      NumberedSame(OptionsAt(m, from), from, number);
    }
  }

  lemma NothingNumbered(number: nat)
    ensures Numbered([], number) == []
  {
  }

  lemma NumberIsKept(m: Packet<Text>, number: nat)
    ensures forall i :: 0 <= i < |OptionsAt(m, number)| ==> OptionsAt(m, number)[i].number == number
  {
  }

  /** The options 8 and 11 carry paths, which are split at '/'; the options 15 and 20 carry queries, split at '&'. */
  predicate IsSplitAt(number: nat, sep: char) {
    || (number == 8 && sep == '/') || (number == 11 && sep == '/')
    || (number == 15 && sep == '&') || (number == 20 && sep == '&')
  }

  /** The string that is sent under one of these numbers. */
  predicate HasString<S(==)>(s: Strings<S>, number: nat, value: Option<S>) {
    && (number == 8 ==> s.locationPath == value)
    && (number == 11 ==> s.uriPath == value)
    && (number == 15 ==> s.uriQuery == value)
    && (number == 20 ==> s.locationQuery == value)
  }

  /** The options of these segments: one for each, in order. */
  predicate OnePerSegment(opts: seq<Opt>, number: nat, segments: seq<seq<Byte>>) {
    |opts| == |segments| && forall i :: 0 <= i < |opts| ==> opts[i] == Opt(number, segments[i])
  }

  /** A path or query of segments without separators is sent as one option for each segment, in order. */
  lemma SegmentsAreSent(m: Packet<Text>, number: nat, sep: char, t: Text, segments: seq<seq<Byte>>)
    requires IsSplitAt(number, sep) && HasString(m.strings, number, Some(t))
    requires AreSegments(segments, sep as int) && t.chars == Joined(segments, sep as int)
    ensures OnePerSegment(Numbered(OptionsFrom(m, 0), number), number, segments)
  {
    hide Parts, OptionsFrom;
    assert t.chars[0..] == t.chars;
    PartsAreSegments(t, sep as int, segments, 0, 0);
    NumberedFrom(m, 0, number);
  }

  /** These options, absorbed one by one, give the joined string back and change nothing else. */
  lemma SegmentsArrive(p: Packet<seq<Byte>>, number: nat, sep: char, opts: seq<Opt>, segments: seq<seq<Byte>>)
    requires IsSplitAt(number, sep) && HasString(p.strings, number, None)
    requires AreSegments(segments, sep as int) && OnePerSegment(opts, number, segments)
    ensures
      var (status, q) := AbsorbAll(p, opts);
      var joined := Some(Joined(segments, sep as int));
      && status == NoError && q.fields == p.fields
      && (number == 8 ==> q.strings == p.strings.(locationPath := joined))
      && (number == 11 ==> q.strings == p.strings.(uriPath := joined))
      && (number == 15 ==> q.strings == p.strings.(uriQuery := joined))
      && (number == 20 ==> q.strings == p.strings.(locationQuery := joined))
  {
    hide Absorb, MergeAll, Joined;
    assert SameNumber(number, segments) == opts;
    AbsorbParts(p, number, segments);
    AllJoined(segments, sep as int);
  }

  lemma AllJoined(segments: seq<seq<Byte>>, sep: Byte)
    requires AreSegments(segments, sep)
    ensures MergeAll([], segments, sep) == Joined(segments, sep)
  {
    MergedIsJoined(segments[0], segments[1..], sep);
  }

  /** What makes a packet arrive as it was sent, string by string. */
  lemma TransparentMeans(m: Packet<Text>)
    ensures Transparent(m) <==>
      && PowerOfTwoBlock(m.fields.block2) && PowerOfTwoBlock(m.fields.block1)
      && (m.strings.locationPath.Some? ==> Restorable(m.strings.locationPath.value.chars, '/' as int))
      && (m.strings.uriPath.Some? ==> Restorable(m.strings.uriPath.value.chars, '/' as int))
      && (m.strings.uriQuery.Some? ==> Restorable(m.strings.uriQuery.value.chars, '&' as int))
      && (m.strings.locationQuery.Some? ==> Restorable(m.strings.locationQuery.value.chars, '&' as int))
  {
    hide Restorable, PowerOfTwoBlock;
    var s := m.strings;
    if Transparent(m) {
      assert RestorableText(s.At(8), Separator(8)) && RestorableText(s.At(11), Separator(11));
      assert RestorableText(s.At(15), Separator(15)) && RestorableText(s.At(20), Separator(20));
    }
  }

  // ----- Options that are refused -----

  predicate IsAssigned(number: nat) {
    number in {1, 3, 4, 5, 6, 7, 8, 11, 12, 14, 15, 17, 20, 23, 27, 28, 35, 39, 60}
  }

  /**
   An option with a number that the parser does not know is refused exactly when the number is odd; otherwise it
   leaves the packet as it is.  Of the numbers that it knows, those of the proxy options are refused.
   */
  lemma UnknownOption(p: Packet<seq<Byte>>, o: Opt)
    ensures !IsAssigned(o.number) && o.number % 2 == 1 ==> AbsorbAll(p, [o]).0 == BadOption
    ensures !IsAssigned(o.number) && o.number % 2 == 0 ==> AbsorbAll(p, [o]) == (NoError, p)
    ensures o.number == 35 || o.number == 39 ==> AbsorbAll(p, [o]).0 == ProxyingNotSupported
    ensures IsAssigned(o.number) && o.number != 35 && o.number != 39 ==> AbsorbAll(p, [o]).0 == NoError
  {
    assert [o][1..] == [];
  }

  // ----- Other options -----

  /** An option with an integer value: its bytes, without leading zeros, in network order. */
  predicate IsInteger(opts: seq<Opt>, number: nat, v: Option<nat>) {
    opts == if v.Some? then [Opt(number, IntBytes(v.value))] else []
  }

  predicate IsOpaque(opts: seq<Opt>, number: nat, v: Option<seq<Byte>>) {
    opts == if v.Some? then [Opt(number, v.value)] else []
  }

  /** Number, flag and size exponent of a block, in 20, 1 and 3 bits. */
  predicate IsBlockOption(opts: seq<Opt>, number: nat, b: Option<Block>) {
    if b.None? then opts == []
    else
      |opts| == 1 && opts[0].number == number &&
      var x := IntValue(opts[0].value);
      && opts[0].value == IntBytes(x) && x / 16 == b.value.num && (x / 8 % 2 == 1 <==> b.value.more)
      && 16 * Pow2(x % 8) <= b.value.size < 32 * Pow2(x % 8)
  }

  /** Every field that is not a string is sent under its number. */
  lemma FieldsAreSent(m: Packet<Text>)
    requires WellTyped(m)
    ensures
      var f := m.fields;
      && IsOpaque(Numbered(OptionsFrom(m, 0), 1), 1, f.ifMatch)
      && IsOpaque(Numbered(OptionsFrom(m, 0), 4), 4, f.etag)
      && IsOpaque(Numbered(OptionsFrom(m, 0), 5), 5, if f.ifNoneMatch then Some([]) else None)
      && IsInteger(Numbered(OptionsFrom(m, 0), 6), 6, f.observe)
      && IsInteger(Numbered(OptionsFrom(m, 0), 7), 7, f.uriPort)
      && IsInteger(Numbered(OptionsFrom(m, 0), 12), 12, f.contentFormat)
      && IsInteger(Numbered(OptionsFrom(m, 0), 14), 14, f.maxAge)
      && IsInteger(Numbered(OptionsFrom(m, 0), 17), 17, f.accept)
      && IsBlockOption(Numbered(OptionsFrom(m, 0), 23), 23, f.block2)
      && IsBlockOption(Numbered(OptionsFrom(m, 0), 27), 27, f.block1)
      && IsInteger(Numbered(OptionsFrom(m, 0), 28), 28, f.size2)
      && IsInteger(Numbered(OptionsFrom(m, 0), 60), 60, f.size1)
  {
    hide OptionsFrom, OptionsAt, Numbered, WellTyped, IsInteger, IsOpaque, IsBlockOption;
    forall n: nat | n < OPTION_LIMIT
      ensures Numbered(OptionsFrom(m, 0), n) == OptionsAt(m, n)
    {
      NumberedFrom(m, 0, n);
    }
    LowFieldsAt(m);
    HighFieldsAt(m);
    BlocksAt(m);
  }

  lemma LowFieldsAt(m: Packet<Text>)
    ensures
      var f := m.fields;
      && IsOpaque(OptionsAt(m, 1), 1, f.ifMatch)
      && IsOpaque(OptionsAt(m, 4), 4, f.etag)
      && IsOpaque(OptionsAt(m, 5), 5, if f.ifNoneMatch then Some([]) else None)
      && IsInteger(OptionsAt(m, 6), 6, f.observe)
      && IsInteger(OptionsAt(m, 7), 7, f.uriPort)
  {
    hide EncodeBlock, IntBytes;
  }

  lemma HighFieldsAt(m: Packet<Text>)
    ensures
      var f := m.fields;
      && IsInteger(OptionsAt(m, 12), 12, f.contentFormat)
      && IsInteger(OptionsAt(m, 14), 14, f.maxAge)
      && IsInteger(OptionsAt(m, 17), 17, f.accept)
      && IsInteger(OptionsAt(m, 28), 28, f.size2)
      && IsInteger(OptionsAt(m, 60), 60, f.size1)
  {
    hide EncodeBlock, IntBytes;
  }

  lemma BlocksAt(m: Packet<Text>)
    requires WellTyped(m)
    ensures IsBlockOption(OptionsAt(m, 23), 23, m.fields.block2)
    ensures IsBlockOption(OptionsAt(m, 27), 27, m.fields.block1)
  {
    hide EncodeBlock, IntBytes, IntValue, Pow2;
    if m.fields.block2.Some? {
      BlockOnTheWire(m.fields.block2.value);
    }
    if m.fields.block1.Some? {
      BlockOnTheWire(m.fields.block1.value);
    }
  }

  lemma BlockOnTheWire(b: Block)
    requires BlockInBounds(b)
    ensures IsBlockOption([Opt(23, IntBytes(EncodeBlock(b)))], 23, Some(b))
    ensures IsBlockOption([Opt(27, IntBytes(EncodeBlock(b)))], 27, Some(b))
  {
    hide IntBytes, IntValue, Log2, Pow2;
    BlockRoundTrip(b);
    IntRoundTrip(EncodeBlock(b));
    SizeExponent(b.size);
    BlockDigits(b.num, if b.more then 1 else 0, Log2(b.size / 16));
  }

  /** What the parser makes of each option that is not a string, for any value. */
  lemma FieldsArrive(p: Packet<seq<Byte>>, v: seq<Byte>)
    ensures
      var f, x := p.fields, IntValue(v);
      var tag := if |v| <= 8 then v else v[..8];
      var block := Block(x / 16, x / 8 % 2 == 1, 16 * Pow2(x % 8), x / 16 * 16 * Pow2(x % 8) % 0x1_0000_0000);
      && AbsorbAll(p, [Opt(1, v)]) == (NoError, p.(fields := f.(ifMatch := Some(tag))))
      && AbsorbAll(p, [Opt(4, v)]) == (NoError, p.(fields := f.(etag := Some(tag))))
      && AbsorbAll(p, [Opt(5, v)]) == (NoError, p.(fields := f.(ifNoneMatch := true)))
      && AbsorbAll(p, [Opt(6, v)]) == (NoError, p.(fields := f.(observe := Some(x))))
      && AbsorbAll(p, [Opt(7, v)]) == (NoError, p.(fields := f.(uriPort := Some(x % 65536))))
      && AbsorbAll(p, [Opt(12, v)]) == (NoError, p.(fields := f.(contentFormat := Some(x % 65536))))
      && AbsorbAll(p, [Opt(14, v)]) == (NoError, p.(fields := f.(maxAge := Some(x))))
      && AbsorbAll(p, [Opt(17, v)]) == (NoError, p.(fields := f.(accept := Some(x % 65536))))
      && AbsorbAll(p, [Opt(23, v)]) == (NoError, p.(fields := f.(block2 := Some(block))))
      && AbsorbAll(p, [Opt(27, v)]) == (NoError, p.(fields := f.(block1 := Some(block))))
      && AbsorbAll(p, [Opt(28, v)]) == (NoError, p.(fields := f.(size2 := Some(x))))
      && AbsorbAll(p, [Opt(60, v)]) == (NoError, p.(fields := f.(size1 := Some(x))))
  {
    hide IntValue, AbsorbAll, AbsorbField, Pow2, DecodeBlock;
    forall n: nat | n in {1, 4, 5, 6, 7, 12, 14, 17, 23, 27, 28, 60}
      ensures AbsorbAll(p, [Opt(n, v)]) == (NoError, p.(fields := AbsorbField(p.fields, n, v)))
    {
      AbsorbOne(p, n, v);
    }
    TagFields(p.fields, v);
    IntegerFields(p.fields, v);
    BlockFields(p.fields, v);
  }

  lemma TagFields(f: Fields, v: seq<Byte>)
    ensures
      var tag := if |v| <= 8 then v else v[..8];
      && AbsorbField(f, 1, v) == f.(ifMatch := Some(tag)) && AbsorbField(f, 4, v) == f.(etag := Some(tag))
      && AbsorbField(f, 5, v) == f.(ifNoneMatch := true)
  {
    hide IntValue;
  }

  lemma IntegerFields(f: Fields, v: seq<Byte>)
    ensures
      var x := IntValue(v);
      && AbsorbField(f, 6, v) == f.(observe := Some(x)) && AbsorbField(f, 14, v) == f.(maxAge := Some(x))
      && AbsorbField(f, 28, v) == f.(size2 := Some(x)) && AbsorbField(f, 60, v) == f.(size1 := Some(x))
      && AbsorbField(f, 7, v) == f.(uriPort := Some(x % 65536))
      && AbsorbField(f, 12, v) == f.(contentFormat := Some(x % 65536))
      && AbsorbField(f, 17, v) == f.(accept := Some(x % 65536))
  {
    hide IntValue;
  }

  lemma BlockFields(f: Fields, v: seq<Byte>)
    ensures
      var x := IntValue(v);
      var block := Block(x / 16, x / 8 % 2 == 1, 16 * Pow2(x % 8), x / 16 * 16 * Pow2(x % 8) % 0x1_0000_0000);
      AbsorbField(f, 23, v) == f.(block2 := Some(block)) && AbsorbField(f, 27, v) == f.(block1 := Some(block))
  {
    hide IntValue, Pow2;
  }

  lemma AbsorbOne(p: Packet<seq<Byte>>, n: nat, v: seq<Byte>)
    requires n in {1, 4, 5, 6, 7, 12, 14, 17, 23, 27, 28, 60}
    ensures AbsorbAll(p, [Opt(n, v)]) == (NoError, p.(fields := AbsorbField(p.fields, n, v)))
  {
    hide AbsorbField;
    assert [Opt(n, v)][1..] == [];
  }

  /** An integer option of at most four bytes, in network order. */
  lemma {:induction false} IntegerArrives(v: seq<Byte>)
    ensures |v| == 0 ==> IntValue(v) == 0
    ensures |v| == 1 ==> IntValue(v) == v[0]
    ensures |v| == 2 ==> IntValue(v) == 0x100 * (v[0] as int) + v[1]
    ensures |v| == 3 ==> IntValue(v) == 0x1_0000 * (v[0] as int) + 0x100 * (v[1] as int) + v[2]
    ensures |v| == 4 ==>
      IntValue(v) == 0x100_0000 * (v[0] as int) + 0x1_0000 * (v[1] as int) + 0x100 * (v[2] as int) + v[3]
  {
    hide IntValue;
    if v == [] {
      NoInteger();
    } else {
      IntegerStep(v);
      IntegerArrives(v[..|v| - 1]);
    }
  }

  lemma NoInteger()
    ensures IntValue([]) == 0
  {
  }

  lemma IntegerStep(v: seq<Byte>)
    requires v != []
    ensures IntValue(v) == (IntValue(v[..|v| - 1]) * 256 + v[|v| - 1]) % 0x1_0000_0000
  {
  }

  /** The value of a delta or a length nibble, and the bytes behind it. */
  predicate IsExtended(value: nat, nibble: nat, bytes: seq<Byte>) {
    || (value < 13 && nibble == value && bytes == [])
    || (13 <= value < 269 && nibble == 13 && bytes == [value - 13])
    || (269 <= value < 65536 + 269 && nibble == 14 && bytes == [(value - 269) / 256, (value - 269) % 256])
  }

  /** An option on the wire: delta and length in one byte, the extended delta, the extended length, and the value. */
  lemma OptionOnTheWire(delta: nat, value: seq<Byte>)
      returns (d: nat, l: nat, deltaBytes: seq<Byte>, lengthBytes: seq<Byte>)
    requires delta <= MAX_EXTENDED && |value| <= MAX_EXTENDED
    ensures IsExtended(delta, d, deltaBytes) && IsExtended(|value|, l, lengthBytes) && d < 15 && l < 15
    ensures EncodeOption(delta, value) == [16 * d + l] + deltaBytes + lengthBytes + value
  {
    d, l, deltaBytes, lengthBytes := Nibble(delta), Nibble(|value|), Extension(delta), Extension(|value|);
  }

  // ----- A whole message -----

  /** A packet with nothing but a path. */
  predicate OnlyPath(m: Packet<Text>, t: Text) {
    && m.fields == NoFields(m.fields.kind, m.fields.code, m.fields.mid, m.fields.token)
    && m.strings == NoStrings().(uriPath := Some(t))
  }

  /** The bytes of a message with the path a/b: version and type, code, message id, token, and two options. */
  lemma TwoSegmentMessage(m: Packet<Text>, t: Text, a: seq<Byte>, b: seq<Byte>)
    requires WellTyped(m) && OnlyPath(m, t) && t.chars == a + ['/' as int] + b
    requires 0 < |a| < 13 && 0 < |b| < 13 && '/' as int !in a && '/' as int !in b
    ensures Ordered(0, OptionsFrom(m, 0))
    ensures HeadBytes(m) ==
      [1 * 64 + m.fields.kind * 16 + |m.fields.token|, m.fields.code, m.fields.mid / 256, m.fields.mid % 256]
      + m.fields.token + ([11 * 16 + |a|] + a) + ([0 * 16 + |b|] + b)
  {
    hide OptionsFrom, EncodeOption;
    OptionsOrdered(m, 0, 0);
    OnlyPathOptions(m, t, a, b, 0);
    var second := [Opt(11, b)];
    var opts := [Opt(11, a)] + second;
    assert opts[1..] == second && second[1..] == [];
    EncodeNone(11);
    assert EncodeOptions(11, second) == EncodeOption(0, b) + [];
    assert EncodeOptions(0, opts) == EncodeOption(11, a) + EncodeOptions(11, second);
    ShortOption(11, a);
    ShortOption(0, b);
  }

  lemma ShortOption(delta: nat, value: seq<Byte>)
    requires delta < 13 && |value| < 13
    ensures EncodeOption(delta, value) == [delta * 16 + |value|] + value
  {
  }

  lemma {:induction false} OnlyPathOptions(m: Packet<Text>, t: Text, a: seq<Byte>, b: seq<Byte>, number: nat)
    requires WellTyped(m) && OnlyPath(m, t) && t.chars == a + ['/' as int] + b
    requires 0 < |a| && 0 < |b| && '/' as int !in a && '/' as int !in b
    ensures OptionsFrom(m, number) == if number <= 11 then [Opt(11, a), Opt(11, b)] else []
    decreases OPTION_LIMIT - number
  {
    hide Parts;
    if number < OPTION_LIMIT {
      OnlyPathOptions(m, t, a, b, number + 1);
      if number == 11 {
        assert [a, b][1..] == [b];
        assert t.chars[0..] == t.chars == Joined([a, b], '/' as int);
        PartsAreSegments(t, '/' as int, [a, b], 0, 0);
        assert SameNumber(11, [a, b]) == [Opt(11, a), Opt(11, b)];
      }
    }
  }
}
