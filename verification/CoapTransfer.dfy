/** Serializing a packet and parsing the result: the whole way of a message through both buffers. */
module CoapTransfer {
  import opened Common
  import opened CoapOptions
  import opened CoapMessage
  import opened CoapRoundTrip
  import opened CoapSerializer
  import opened CoapParser

  lemma {:induction false} AbsorbedIsHarmless(p: Packet<seq<Byte>>, opts: seq<Opt>)
    requires AbsorbAll(p, opts).0 == NoError
    ensures NoneFatal(opts)
    decreases |opts|
  {
    hide Absorb, OptionStatus;
    if opts != [] {
      AbsorbedIsHarmless(Absorb(p, opts[0]), opts[1..]);
      forall i | 0 <= i < |opts|
        ensures OptionStatus(opts[i].number) == NoError
      {
        assert i > 0 ==> opts[i] == opts[1..][i - 1];
      }
    }
  }

  lemma FirstByte(kind: nat, tokenLen: nat)
    requires kind < 4 && tokenLen <= TOKEN_LEN
    ensures var b := 64 + kind * 16 + tokenLen;
      b / 64 == 1 && b / 16 % 4 == kind && b % 16 == tokenLen
  {
    var b := 64 + kind * 16 + tokenLen;
    assert b / 16 == 4 + kind;
  }

  /** The bytes of a message are parsed into its options and its payload, whatever lies behind them in the buffer. */
  lemma MessageIsScanned(m: Packet<Text>, payload: seq<Byte>, behind: seq<Byte>)
    requires NoProxy(m) && Ordered(0, OptionsFrom(m, 0))
    requires behind != [] && |HeadBytes(m) + Tail(payload)| + |behind| >= 19
    ensures
      var bytes := HeadBytes(m) + Tail(payload);
      var s := bytes + behind;
      && Parsable(s, |bytes|) && s[0] / 64 == 1 && TokenLength(s) == |m.fields.token|
      && Start(s) == Packet(NoFields(m.fields.kind, m.fields.code, m.fields.mid, m.fields.token), NoStrings())
      && ScanMessage(s, |bytes|) == Scanned(OptionsFrom(m, 0), payload)
  {
    hide OptionsFrom, EncodeOptions, Readable, Scan, AbsorbAll, NoneFatal, Ordered, Tail, HeaderBytes;
    var f, opts := m.fields, OptionsFrom(m, 0);
    PacketIsCarried(m);
    AbsorbedIsHarmless(Packet(NoFields(f.kind, f.code, f.mid, f.token), NoStrings()), opts);
    ScanEncoded(0, opts, payload, behind);
    var rest := EncodeOptions(0, opts) + Tail(payload) + behind;
    var s := HeadBytes(m) + Tail(payload) + behind;
    assert s == HeaderBytes(f) + f.token + rest;
    HeaderSizeIs(f);
    HeaderIsRead(f, rest);
  }

  lemma HeaderSizeIs(f: Fields)
    requires f.kind < 4 && |f.token| <= TOKEN_LEN && f.mid < 65536
    ensures |HeaderBytes(f)| == HEADER_LEN
  {
  }

  lemma HeaderIsRead(f: Fields, rest: seq<Byte>)
    requires f.kind < 4 && |f.token| <= TOKEN_LEN && f.mid < 65536 && HEADER_LEN + |f.token| + |rest| >= 19
    ensures
      var s := HeaderBytes(f) + f.token + rest;
      && s[0] / 64 == 1 && TokenLength(s) == |f.token| && s[HEADER_LEN + |f.token|..] == rest
      && Start(s) == Packet(NoFields(f.kind, f.code, f.mid, f.token), NoStrings())
  {
    FirstByte(f.kind, |f.token|);
    var s := HeaderBytes(f) + f.token + rest;
    assert s[HEADER_LEN..HEADER_LEN + |f.token|] == f.token;
    assert 256 * (s[2] as int) + s[3] == f.mid;
  }

  /** The marker overwrites the first byte of a payload that lies right behind the head, and no other. */
  function Overwritten(payload: seq<Byte>, touched: bool): seq<Byte> {
    if touched && payload != [] then [255] + payload[1..] else payload
  }

  lemma MovedPayload(before: seq<Byte>, head: seq<Byte>, from: nat, n: nat)
    requires |head| <= from && from + n <= |before| && 0 < n
    ensures Splice(before, 0, head + [255])[from..from + n] == Overwritten(before[from..from + n], from == |head|)
  {
    var full := Splice(before, 0, head + [255]);
    assert forall k :: 0 <= k < |before| ==>
      full[k] == if k < |head| then head[k] else if k == |head| then 255 else before[k];
    var a, b := full[from..from + n], Overwritten(before[from..from + n], from == |head|);
    assert |a| == |b|;
    forall k | 0 <= k < n
      ensures a[k] == b[k]
    {
      assert a[k] == full[from + k] && before[from..from + n][k] == before[from + k];
    }
  }

  lemma SentPayload(before: seq<Byte>, payload: seq<Byte>, head: seq<Byte>, from: nat, n: nat, same: bool)
    requires from + n <= |payload| && |head| + 1 <= |before| && (same ==> payload == before && |head| <= from)
    ensures
      var full := if same then Splice(before, 0, head + Marker(n)) else payload;
      full[from..from + n] == Overwritten(payload[from..from + n], same && from == |head|)
  {
    hide Splice;
    if n > 0 && same {
      MovedPayload(before, head, from, n);
    }
  }

  lemma SplicedMessage(before: seq<Byte>, head: seq<Byte>, marker: seq<Byte>, payload: seq<Byte>)
    requires |head| + |marker| + |payload| <= |before|
    ensures Splice(Splice(before, 0, head + marker), |head| + |marker|, payload)
            == head + (marker + payload) + before[|head| + |marker| + |payload|..]
  {
  }

  /**
   Serializing a packet and parsing what comes out.  The payload may lie in the send buffer itself, at the
   place that is kept free for it: then its first byte is lost exactly when the head fills that room
   completely and the byte is not 255 already.
   */
  method SendAndReceive(m: Packet<Text>, buffer: array<Byte>, payload: array<Byte>, from: nat, payloadLen: nat,
                        maxChunk: nat)
      returns (status: Status, parser: Parser)
    requires NoProxy(m) && m.fields.code != 0 && Ordered(0, OptionsFrom(m, 0)) && |HeadBytes(m)| <= MAX_HEADER_SIZE
    requires from + payloadLen <= payload.Length && payloadLen <= maxChunk && payloadLen < 65000
    requires |HeadBytes(m)| + (if payloadLen > 0 then 1 + payloadLen else 0) < buffer.Length && 19 <= buffer.Length
    requires payload == buffer ==> from >= MAX_HEADER_SIZE
    modifies buffer
    ensures status == NoError && fresh(parser)
    ensures parser.View(buffer[..]) == Upto(m, OPTION_LIMIT)
    ensures Slice(buffer[..], parser.payload)
            == Overwritten(old(payload[..])[from..from + payloadLen], payload == buffer && from == |HeadBytes(m)|)
  {
    hide HeadBytes, OptionsFrom, NoProxy, AbsorbAll, Upto, Ordered, Parsable, ScanMessage, Overwritten, Tail;
    var length;
    ghost var moved, behind;
    length, moved, behind := Send(m, buffer, payload, from, payloadLen);
    status, parser := Receive(m, buffer, length, moved, behind, maxChunk);
  }

  /** Serializing: the buffer then holds the head and the payload, in front of what was behind them. */
  method Send(m: Packet<Text>, buffer: array<Byte>, payload: array<Byte>, from: nat, payloadLen: nat)
      returns (length: nat, ghost moved: seq<Byte>, ghost behind: seq<Byte>)
    requires NoProxy(m) && m.fields.code != 0 && Ordered(0, OptionsFrom(m, 0)) && |HeadBytes(m)| <= MAX_HEADER_SIZE
    requires from + payloadLen <= payload.Length && payloadLen < 65000
    requires |HeadBytes(m)| + (if payloadLen > 0 then 1 + payloadLen else 0) < buffer.Length && 19 <= buffer.Length
    requires payload == buffer ==> from >= MAX_HEADER_SIZE
    modifies buffer
    ensures length == |HeadBytes(m) + Tail(moved)| < 65536 && behind != [] && |moved| == payloadLen
    ensures buffer[..] == (HeadBytes(m) + Tail(moved)) + behind
    ensures payloadLen > 0 ==> |HeadBytes(m)| < buffer.Length && buffer[|HeadBytes(m)|] == 0xFF
    ensures moved == Overwritten(old(payload[..])[from..from + payloadLen], payload == buffer && from == |HeadBytes(m)|)
  {
    hide HeadBytes, OptionsFrom, NoProxy, Splice, Ordered, Overwritten;
    Kept(m, payloadLen, buffer.Length);
    ghost var before, head := buffer[..], HeadBytes(m);
    SentPayload(before, payload[..], head, from, payloadLen, payload == buffer);
    length := SerializeMessage(m, buffer, payload, from, payloadLen);
    moved := (if payload == buffer then Marked(m, before, payloadLen) else old(payload[..]))[from..from + payloadLen];
    SplicedMessage(before, head, Marker(payloadLen), moved);
    behind := before[length..];
  }

  /** Parsing a message that has been serialized. */
  method Receive(ghost m: Packet<Text>, buffer: array<Byte>, length: nat, ghost payload: seq<Byte>,
                 ghost behind: seq<Byte>, maxChunk: nat) returns (status: Status, parser: Parser)
    requires NoProxy(m) && Ordered(0, OptionsFrom(m, 0)) && |payload| <= maxChunk && length < 65536
    requires behind != [] && 19 <= buffer.Length && length == |HeadBytes(m) + Tail(payload)|
    requires buffer[..] == (HeadBytes(m) + Tail(payload)) + behind
    modifies buffer
    ensures status == NoError && fresh(parser)
    ensures parser.View(buffer[..]) == Upto(m, OPTION_LIMIT) && Slice(buffer[..], parser.payload) == payload
  {
    hide HeadBytes, OptionsFrom, NoProxy, AbsorbAll, Upto, Ordered, Parsable, ScanMessage, Tail;
    TokenFits(m);
    MessageIsScanned(m, payload, behind);
    PacketIsCarried(m);
    parser := new Parser(maxChunk);
    status := parser.ParseMessage(buffer, length);
  }

  lemma TokenFits(m: Packet<Text>)
    requires NoProxy(m)
    ensures m.fields.kind < 4 && |m.fields.token| <= TOKEN_LEN && m.fields.mid < 65536
  {
  }

  lemma Kept(m: Packet<Text>, payloadLen: nat, size: nat)
    requires NoProxy(m) && Ordered(0, OptionsFrom(m, 0))
    requires |HeadBytes(m)| + (if payloadLen > 0 then 1 + payloadLen else 0) < size
    ensures WellTyped(m) && Room(m, payloadLen, size) && |HeadBytes(m)| >= HEADER_LEN
  {
  }

  /** The whole way, in terms of the packet: it arrives as it was exactly when it is transparent. */
  method Transfer(m: Packet<Text>, buffer: array<Byte>, payload: array<Byte>, maxChunk: nat)
      returns (status: Status, parser: Parser)
    requires NoProxy(m) && m.fields.code != 0 && Ordered(0, OptionsFrom(m, 0)) && |HeadBytes(m)| <= MAX_HEADER_SIZE
    requires payload != buffer && payload.Length <= maxChunk && payload.Length < 65000 && Regular(m)
    requires |HeadBytes(m)| + (if payload.Length > 0 then 1 + payload.Length else 0) < buffer.Length
    requires 19 <= buffer.Length
    modifies buffer
    ensures status == NoError && fresh(parser) && Slice(buffer[..], parser.payload) == payload[..]
    ensures parser.View(buffer[..]) == Received(m) <==> Transparent(m)
  {
    hide HeadBytes, OptionsFrom, NoProxy, Upto, Ordered, Slice, Received, Transparent, Regular;
    PacketRoundTrip(m);
    ghost var all := payload[..];
    status, parser := SendAndReceive(m, buffer, payload, 0, payload.Length, maxChunk);
    assert payload[..] == all && all[0..payload.Length] == all;
  }

  lemma {:induction false} NoOptions(m: Packet<Text>, number: nat)
    requires m.fields == NoFields(m.fields.kind, m.fields.code, m.fields.mid, m.fields.token)
    requires m.strings == NoStrings()
    ensures OptionsFrom(m, number) == []
    decreases OPTION_LIMIT - number
  {
    if number < OPTION_LIMIT {
      NoOptions(m, number + 1);
    }
  }

  /** A packet without options always fits, and always arrives as it was. */
  lemma BarePacketFits(m: Packet<Text>)
    requires WellTyped(m) && m.strings == NoStrings()
    requires m.fields == NoFields(m.fields.kind, m.fields.code, m.fields.mid, m.fields.token)
    ensures NoProxy(m) && Regular(m) && Transparent(m) && Ordered(0, OptionsFrom(m, 0))
    ensures |HeadBytes(m)| == HEADER_LEN + |m.fields.token| <= MAX_HEADER_SIZE
  {
    NoOptions(m, 0);
    hide OptionsFrom, WellTyped;
  }
}
