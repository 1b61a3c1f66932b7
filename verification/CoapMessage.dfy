/**
 CoAP messages as values (apps/er-coap/er-coap.h, apps/er-coap/er-coap.c): the options of a packet in the order
 in which they are serialized, the bytes of a message, what the parser makes of bytes, and the round trip.
 */
module CoapMessage {
  import opened Common
  import opened CoapOptions

  const IF_MATCH := 1
  const URI_HOST := 3
  const ETAG := 4
  const IF_NONE_MATCH := 5
  const OBSERVE := 6
  const URI_PORT := 7
  const LOCATION_PATH := 8
  const URI_PATH := 11
  const CONTENT_FORMAT := 12
  const MAX_AGE := 14
  const URI_QUERY := 15
  const ACCEPT := 17
  const LOCATION_QUERY := 20
  const BLOCK2 := 23
  const BLOCK1 := 27
  const SIZE2 := 28
  const PROXY_URI := 35
  const PROXY_SCHEME := 39
  const SIZE1 := 60

  const HEADER_LEN := 4
  const TOKEN_LEN := 8
  const ETAG_LEN := 8
  const MAX_HEADER_SIZE := 4 + TOKEN_LEN + 3 + 1 + ETAG_LEN + 4 + 4 + 30
  /** The bitmap of options has room for the numbers below. */
  const OPTION_LIMIT := 64

  // ----- Packets -----

  datatype Block = Block(num: nat, more: bool, size: nat, offset: nat)

  /** The fields that are stored as values.  None: the bit of the option is not set. */
  datatype Fields = Fields(
    kind: nat, code: Byte, mid: nat, token: seq<Byte>,
    ifMatch: Option<seq<Byte>>, etag: Option<seq<Byte>>, ifNoneMatch: bool, observe: Option<nat>,
    uriPort: Option<nat>, contentFormat: Option<nat>, maxAge: Option<nat>, accept: Option<nat>,
    block2: Option<Block>, block1: Option<Block>, size2: Option<nat>, size1: Option<nat>)

  /** The string options; S is a string, or a place in a buffer that holds one. */
  datatype Strings<S> = Strings(
    uriHost: Option<S>, locationPath: Option<S>, uriPath: Option<S>, uriQuery: Option<S>, locationQuery: Option<S>,
    proxyUri: Option<S>, proxyScheme: Option<S>)
  {
    function At(number: nat): Option<S> {
      if number == URI_HOST then uriHost
      else if number == LOCATION_PATH then locationPath
      else if number == URI_PATH then uriPath
      else if number == URI_QUERY then uriQuery
      else if number == LOCATION_QUERY then locationQuery
      else if number == PROXY_URI then proxyUri
      else if number == PROXY_SCHEME then proxyScheme
      else None
    }

    function Put(number: nat, s: S): (r: Strings<S>)
      requires IsString(number)
      ensures forall n: nat :: r.At(n) == if n == number then Some(s) else At(n)
    {
      if number == URI_HOST then this.(uriHost := Some(s))
      else if number == LOCATION_PATH then this.(locationPath := Some(s))
      else if number == URI_PATH then this.(uriPath := Some(s))
      else if number == URI_QUERY then this.(uriQuery := Some(s))
      else if number == LOCATION_QUERY then this.(locationQuery := Some(s))
      else if number == PROXY_URI then this.(proxyUri := Some(s))
      else this.(proxyScheme := Some(s))
    }
  }

  datatype Packet<S> = Packet(fields: Fields, strings: Strings<S>)

  predicate IsString(number: nat) {
    number in {URI_HOST, LOCATION_PATH, URI_PATH, URI_QUERY, LOCATION_QUERY, PROXY_URI, PROXY_SCHEME}
  }

  /** The separator of a string that is sent as several options; 0 when it is not. */
  function Separator(number: nat): Byte {
    if number == LOCATION_PATH || number == URI_PATH then '/' as int
    else if number == URI_QUERY || number == LOCATION_QUERY then '&' as int
    else 0
  }

  function NoFields(kind: nat, code: Byte, mid: nat, token: seq<Byte>): Fields {
    Fields(kind, code, mid, token, None, None, false, None, None, None, None, None, None, None, None, None)
  }

  function NoStrings<S>(): (r: Strings<S>)
    ensures forall n: nat :: r.At(n) == None
  {
    Strings(None, None, None, None, None, None, None)
  }

  // ----- Blocks -----

  /** coap_log_2 */
  function Log2(value: nat): (r: nat)
    ensures value > 0 ==> Pow2(r) <= value < Pow2(r + 1)
  {
    if value < 2 then 0 else 1 + Log2(value / 2)
  }

  method ComputeLog2(value: nat) returns (r: nat)
    ensures r == Log2(value)
  {
    var v := value;
    r := 0;
    v := v / 2;
    r := r + 1;
    while v != 0
      invariant r >= 1 && r - 1 + (if v == 0 then 0 else 1 + Log2(v)) == Log2(value)
    {
      v := v / 2;
      r := r + 1;
    }
    return r - 1;
  }

  /** The bounds that coap_set_header_block2 and coap_set_header_block1 enforce. */
  predicate BlockInBounds(b: Block) {
    16 <= b.size <= 2048 && b.num <= 0xF_FFFF
  }

  /** The number that COAP_SERIALIZE_BLOCK_OPTION builds. */
  function EncodeBlock(b: Block): nat {
    b.num * 16 + (if b.more then 8 else 0) + Log2(b.size / 16)
  }

  function DecodeBlock(x: nat): Block {
    Block(x / 16, x / 8 % 2 == 1, 16 * Pow2(x % 8), x / 16 * 16 * Pow2(x % 8) % 0x1_0000_0000)
  }

  /**
   Decoding an encoded block gives back its number and its flag, the largest power of two that is not above
   its size, and the offset that goes with these.
   */
  lemma BlockRoundTrip(b: Block)
    requires BlockInBounds(b)
    ensures EncodeBlock(b) < 0x100_0000
    ensures var d := DecodeBlock(EncodeBlock(b));
      && d.num == b.num && d.more == b.more && d.size <= b.size < 2 * d.size && d.offset == d.num * d.size
      && (d.size == b.size <==> b.size == 16 * Pow2(Log2(b.size / 16)))
  {
    SizeExponent(b.size);
    var szx := Log2(b.size / 16);
    BlockDigits(b.num, if b.more then 1 else 0, szx);
    OffsetFits(b.num, Pow2(szx));
    hide Pow2, Log2;
  }

  lemma BlockDigits(num: nat, more: nat, szx: nat)
    requires more <= 1 && szx <= 7
    ensures var x := num * 16 + more * 8 + szx;
      x % 8 == szx && x / 16 == num && x / 8 % 2 == more
  {
    var x := num * 16 + more * 8 + szx;
    assert x / 8 == 2 * num + more;
  }

  lemma SizeExponent(size: nat)
    requires 16 <= size <= 2048
    ensures var szx := Log2(size / 16);
      szx <= 7 && Pow2(szx) <= 128 && 16 * Pow2(szx) <= size < 32 * Pow2(szx)
  {
    var szx := Log2(size / 16);
    hide Log2;
    assert Pow2(4) == 16;
    assert Pow2(8) == 256 && Pow2(7) == 128;
    if szx >= 8 {
      Pow2Grows(8, szx);
    }
    Pow2Grows(szx, 7);
  }

  lemma OffsetFits(num: nat, p: nat)
    requires num <= 0xF_FFFF && 1 <= p <= 128
    ensures num * 16 * p % 0x1_0000_0000 == num * (16 * p)
  {
    var y := num * p;
    assert num * 16 * p == 16 * y && num * (16 * p) == 16 * y;
    Monotone(num, p, 128);
  }

  lemma Monotone(a: nat, b: nat, c: nat)
    requires b <= c
    ensures a * b <= a * c
  {
  }

  lemma {:induction false} Pow2Grows(m: nat, n: nat)
    requires m <= n
    ensures Pow2(m) <= Pow2(n)
  {
    if m < n {
      Pow2Grows(m, n - 1);
    }
  }

  // ----- Option lists and their bytes -----

  datatype Opt = Opt(number: nat, value: seq<Byte>)

  /** Numbers that do not decrease, from prev on, and values of a length that can be written. */
  predicate Ordered(prev: nat, opts: seq<Opt>)
    decreases |opts|
  {
    opts == [] || (prev <= opts[0].number < OPTION_LIMIT && |opts[0].value| <= MAX_EXTENDED &&
                   Ordered(opts[0].number, opts[1..]))
  }

  function EncodeOptions(prev: nat, opts: seq<Opt>): seq<Byte>
    requires Ordered(prev, opts)
    decreases |opts|
  {
    if opts == [] then []
    else EncodeOption(opts[0].number - prev, opts[0].value) + EncodeOptions(opts[0].number, opts[1..])
  }

  function LastNumber(prev: nat, opts: seq<Opt>): nat {
    if opts == [] then prev else opts[|opts| - 1].number
  }

  lemma {:induction false} OrderedConcat(prev: nat, a: seq<Opt>, b: seq<Opt>)
    requires Ordered(prev, a) && Ordered(LastNumber(prev, a), b)
    ensures Ordered(prev, a + b)
    decreases |a|
  {
    if a == [] {
      assert a + b == b;
    } else {
      OrderedConcat(a[0].number, a[1..], b);
      assert (a + b)[1..] == a[1..] + b;
    }
  }

  lemma EncodeStep(prev: nat, opts: seq<Opt>)
    requires Ordered(prev, opts) && opts != []
    ensures prev <= opts[0].number < OPTION_LIMIT
    ensures |opts[0].value| <= MAX_EXTENDED && Ordered(opts[0].number, opts[1..])
    ensures EncodeOptions(prev, opts)
            == EncodeOption(opts[0].number - prev, opts[0].value) + EncodeOptions(opts[0].number, opts[1..])
  {
    hide EncodeOption;
  }

  lemma {:induction false} EncodeConcat(prev: nat, a: seq<Opt>, b: seq<Opt>)
    requires Ordered(prev, a) && Ordered(LastNumber(prev, a), b)
    ensures Ordered(prev, a + b)
    ensures EncodeOptions(prev, a + b) == EncodeOptions(prev, a) + EncodeOptions(LastNumber(prev, a), b)
    decreases |a|
  {
    hide EncodeOption, EncodeOptions, Ordered;
    OrderedConcat(prev, a, b);
    if a == [] {
      assert a + b == b;
      EncodeNone(prev);
    } else {
      EncodeStep(prev, a);
      EncodeStep(prev, a + b);
      assert (a + b)[1..] == a[1..] + b && (a + b)[0] == a[0];
      EncodeConcat(a[0].number, a[1..], b);
    }
  }

  lemma EncodeNone(prev: nat)
    ensures Ordered(prev, []) && EncodeOptions(prev, []) == []
  {
  }

  // ----- Reading options -----

  datatype Status = NoError | BadRequest | BadOption | ProxyingNotSupported

  predicate Known(number: nat) {
    IsString(number)
    || number in {IF_MATCH, ETAG, IF_NONE_MATCH, OBSERVE, URI_PORT, CONTENT_FORMAT, MAX_AGE, ACCEPT, BLOCK2,
                  BLOCK1, SIZE2, SIZE1}
  }

  /** The parser gives up at these: proxy options, and unknown options with an odd number. */
  function OptionStatus(number: nat): Status {
    if number == PROXY_URI || number == PROXY_SCHEME then ProxyingNotSupported
    else if !Known(number) && number % 2 == 1 then BadOption
    else NoError
  }

  /** Every option that the loop reads lies in the buffer, and has a number that the bitmap can hold. */
  predicate Readable(rest: seq<Byte>, n: int, number: nat)
    decreases |rest|
  {
    n <= 0 ||
    (rest != [] &&
     (rest[0] / 16 == 15 ||
      (|rest| >= HeaderSize(rest[0]) && HeaderSize(rest[0]) + HeaderLength(rest) <= |rest|
       && number + HeaderDelta(rest) < OPTION_LIMIT
       && (OptionStatus(number + HeaderDelta(rest)) != NoError
           || Readable(rest[HeaderSize(rest[0]) + HeaderLength(rest)..],
                       n - HeaderSize(rest[0]) - HeaderLength(rest), number + HeaderDelta(rest))))))
  }

  datatype Scanned = Scanned(opts: seq<Opt>, payload: seq<Byte>)

  /** The options that n bytes at the front of `rest` hold, up to a fatal one, and the payload behind them. */
  function Scan(rest: seq<Byte>, n: int, number: nat): Scanned
    requires n < |rest| && Readable(rest, n, number)
    decreases |rest|
  {
    if n <= 0 then Scanned([], [])
    else if rest[0] / 16 == 15 then Scanned([], rest[1..n])
    else
      var header, length := HeaderSize(rest[0]), HeaderLength(rest);
      var opt := Opt(number + HeaderDelta(rest), rest[header..header + length]);
      if OptionStatus(opt.number) != NoError then Scanned([opt], [])
      else
        var more := Scan(rest[header + length..], n - header - length, opt.number);
        Scanned([opt] + more.opts, more.payload)
  }

  /** The payload behind its marker. */
  function Tail(payload: seq<Byte>): seq<Byte> {
    if payload == [] then [] else [255] + payload
  }

  predicate NoneFatal(opts: seq<Opt>) {
    forall i :: 0 <= i < |opts| ==> OptionStatus(opts[i].number) == NoError
  }

  /** Encoded options are read back one by one, whatever lies behind the message in the buffer. */
  lemma {:induction false} ScanEncoded(prev: nat, opts: seq<Opt>, payload: seq<Byte>, behind: seq<Byte>)
    requires Ordered(prev, opts) && NoneFatal(opts) && behind != []
    ensures var bytes := EncodeOptions(prev, opts) + Tail(payload);
      Readable(bytes + behind, |bytes|, prev) && Scan(bytes + behind, |bytes|, prev) == Scanned(opts, payload)
    decreases |opts|
  {
    hide EncodeOption, OptionStatus, Readable, Scan;
    var bytes := EncodeOptions(prev, opts) + Tail(payload);
    if opts == [] {
      assert bytes == Tail(payload);
      ScanTail(prev, payload, behind);
    } else {
      var o := opts[0];
      var bytes' := EncodeOptions(o.number, opts[1..]) + Tail(payload);
      assert EncodeOptions(prev, opts) == EncodeOption(o.number - prev, o.value) + EncodeOptions(o.number, opts[1..]);
      assert OptionStatus(o.number) == NoError;
      ScanEncoded(o.number, opts[1..], payload, behind);
      hide EncodeOptions, Tail, Ordered, NoneFatal;
      Associate(EncodeOption(o.number - prev, o.value), EncodeOptions(o.number, opts[1..]), Tail(payload), behind);
      ScanFirst(prev, o, bytes' + behind, |bytes'|, Scanned(opts[1..], payload));
      assert opts == [o] + opts[1..];
    }
  }

  lemma Associate(a: seq<Byte>, b: seq<Byte>, c: seq<Byte>, d: seq<Byte>)
    ensures ((a + b) + c) + d == a + ((b + c) + d)
  {
  }

  lemma ScanTail(prev: nat, payload: seq<Byte>, behind: seq<Byte>)
    requires behind != []
    ensures var n := |Tail(payload)|; var rest := Tail(payload) + behind;
      Readable(rest, n, prev) && Scan(rest, n, prev) == Scanned([], payload)
  {
    var n, rest := |Tail(payload)|, Tail(payload) + behind;
    if payload != [] {
      assert rest[0] == 255 && rest[1..n] == payload;
    }
  }

  /** The options and the payload that are read from n bytes. */
  predicate ScansTo(rest: seq<Byte>, n: nat, number: nat, result: Scanned) {
    n < |rest| && Readable(rest, n, number) && Scan(rest, n, number) == result
  }

  lemma ScanFirst(prev: nat, o: Opt, rest: seq<Byte>, n: nat, result: Scanned)
    requires prev <= o.number < OPTION_LIMIT && |o.value| <= MAX_EXTENDED && OptionStatus(o.number) == NoError
    requires ScansTo(rest, n, o.number, result)
    ensures var option := EncodeOption(o.number - prev, o.value);
      ScansTo(option + rest, |option| + n, prev, Scanned([o] + result.opts, result.payload))
  {
    hide EncodeOption, HeaderSize, HeaderLength, HeaderDelta, OptionStatus;
    FirstOption(o.number - prev, o.value, rest);
    var option := EncodeOption(o.number - prev, o.value);
    var s := option + rest;
    assert HeaderSize(s[0]) + HeaderLength(s) == |option|;
    assert s[HeaderSize(s[0]) + HeaderLength(s)..] == rest;
  }

  lemma FirstOption(delta: nat, value: seq<Byte>, rest: seq<Byte>)
    requires delta <= MAX_EXTENDED && |value| <= MAX_EXTENDED
    ensures var s := EncodeOption(delta, value) + rest;
      var n := |EncodeOption(delta, value)|;
      && s[0] / 16 != 15 && HeaderSize(s[0]) <= n && HeaderDelta(s) == delta && HeaderLength(s) == |value|
      && HeaderSize(s[0]) + HeaderLength(s) == n && s[HeaderSize(s[0])..n] == value && s[n..] == rest
  {
    HeaderRoundTrip(delta, |value|, value + rest);
    hide OptionHeader, HeaderSize, HeaderDelta, HeaderLength;
    assert EncodeOption(delta, value) + rest == OptionHeader(delta, |value|) + (value + rest);
  }

  // ----- What a packet becomes -----

  function Content(s: Option<seq<Byte>>): seq<Byte> {
    if s.Some? then s.value else []
  }

  function Prefix(s: seq<Byte>, n: nat): seq<Byte> {
    if |s| <= n then s else s[..n]
  }

  /** The packet after one more option; a repeated string option is merged, any other one replaces. */
  function Absorb(p: Packet<seq<Byte>>, o: Opt): Packet<seq<Byte>> {
    if IsString(o.number) then
      if OptionStatus(o.number) != NoError then p
      else if Separator(o.number) == 0 then p.(strings := p.strings.Put(o.number, o.value))
      else p.(strings := p.strings.Put(o.number, Merge(Content(p.strings.At(o.number)), o.value, Separator(o.number))))
    else p.(fields := AbsorbField(p.fields, o.number, o.value))
  }

  function AbsorbField(f: Fields, number: nat, value: seq<Byte>): Fields {
    if number == CONTENT_FORMAT then f.(contentFormat := Some(IntValue(value) % 65536))
    else if number == MAX_AGE then f.(maxAge := Some(IntValue(value)))
    else if number == ETAG then f.(etag := Some(Prefix(value, ETAG_LEN)))
    else if number == ACCEPT then f.(accept := Some(IntValue(value) % 65536))
    else if number == IF_MATCH then f.(ifMatch := Some(Prefix(value, ETAG_LEN)))
    else if number == IF_NONE_MATCH then f.(ifNoneMatch := true)
    else if number == URI_PORT then f.(uriPort := Some(IntValue(value) % 65536))
    else if number == OBSERVE then f.(observe := Some(IntValue(value)))
    else if number == BLOCK2 then f.(block2 := Some(DecodeBlock(IntValue(value))))
    else if number == BLOCK1 then f.(block1 := Some(DecodeBlock(IntValue(value))))
    else if number == SIZE2 then f.(size2 := Some(IntValue(value)))
    else if number == SIZE1 then f.(size1 := Some(IntValue(value)))
    else f
  }

  /** The packet after all options, or the status of the first fatal one. */
  function AbsorbAll(p: Packet<seq<Byte>>, opts: seq<Opt>): (Status, Packet<seq<Byte>>)
    decreases |opts|
  {
    if opts == [] then (NoError, p)
    else if OptionStatus(opts[0].number) != NoError then (OptionStatus(opts[0].number), Absorb(p, opts[0]))
    else AbsorbAll(Absorb(p, opts[0]), opts[1..])
  }

  lemma {:induction false} AbsorbConcat(p: Packet<seq<Byte>>, a: seq<Opt>, b: seq<Opt>)
    requires AbsorbAll(p, a).0 == NoError
    ensures AbsorbAll(p, a + b) == AbsorbAll(AbsorbAll(p, a).1, b)
    decreases |a|
  {
    if a == [] {
      assert a + b == b;
    } else {
      AbsorbConcat(Absorb(p, a[0]), a[1..], b);
      assert (a + b)[1..] == a[1..] + b;
    }
  }
}
