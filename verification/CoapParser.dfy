/** coap_parse_message (apps/er-coap/er-coap.c): one pass over the receive buffer, which merges options in place. */
module CoapParser {
  import opened Common
  import opened CoapOptions
  import opened CoapMessage

  /** A string in the receive buffer. */
  datatype Ref = Ref(at: nat, len: nat)

  function Slice(s: seq<Byte>, r: Ref): seq<Byte> {
    if r.at + r.len <= |s| then s[r.at..r.at + r.len] else []
  }

  function StringAt(s: seq<Byte>, o: Option<Ref>): Option<seq<Byte>> {
    if o.Some? then Some(Slice(s, o.value)) else None
  }

  /** The strings that the references stand for. */
  function ViewStrings(s: seq<Byte>, r: Strings<Ref>): Strings<seq<Byte>> {
    Strings(StringAt(s, r.uriHost), StringAt(s, r.locationPath), StringAt(s, r.uriPath), StringAt(s, r.uriQuery),
            StringAt(s, r.locationQuery), StringAt(s, r.proxyUri), StringAt(s, r.proxyScheme))
  }

  lemma ViewAt(s: seq<Byte>, r: Strings<Ref>, n: nat)
    ensures ViewStrings(s, r).At(n) == StringAt(s, r.At(n))
  {
  }

  lemma SameStrings<S>(a: Strings<S>, b: Strings<S>)
    requires forall n: nat :: a.At(n) == b.At(n)
    ensures a == b
  {
    assert a.At(URI_HOST) == b.At(URI_HOST) && a.At(LOCATION_PATH) == b.At(LOCATION_PATH) &&
           a.At(URI_PATH) == b.At(URI_PATH);
    assert a.At(URI_QUERY) == b.At(URI_QUERY) && a.At(LOCATION_QUERY) == b.At(LOCATION_QUERY);
    assert a.At(PROXY_URI) == b.At(PROXY_URI) && a.At(PROXY_SCHEME) == b.At(PROXY_SCHEME);
  }

  /** The strings lie in front of pos, in the order of their option numbers, which `number` bounds. */
  ghost predicate Laid(r: Strings<Ref>, pos: nat, number: nat) {
    && (forall n: nat :: r.At(n).Some? ==> n <= number && r.At(n).value.at + r.At(n).value.len <= pos)
    && (forall a: nat, b: nat :: a < b && r.At(a).Some? && r.At(b).Some? ==>
          r.At(a).value.at + r.At(a).value.len <= r.At(b).value.at)
  }

  /** Bytes that change in [from, to) only leave the strings in front of `from` and the unread bytes alone. */
  predicate ChangedOnly(s: seq<Byte>, s': seq<Byte>, from: nat, to: nat)
    requires from <= to <= |s|
  {
    |s'| == |s| && s'[..from] == s[..from] && s'[to..] == s[to..]
  }

  lemma SliceKept(s: seq<Byte>, s': seq<Byte>, from: nat, to: nat, r: Ref)
    requires from <= to <= |s| && ChangedOnly(s, s', from, to) && r.at + r.len <= from
    ensures Slice(s', r) == Slice(s, r)
  {
    assert s'[r.at..r.at + r.len] == s'[..from][r.at..r.at + r.len];
    assert s[r.at..r.at + r.len] == s[..from][r.at..r.at + r.len];
  }

  /**
   One string is set to r; everything that changed lies behind the strings with lower numbers, and there are
   none with higher numbers.
   */
  lemma StringStored(s: seq<Byte>, s': seq<Byte>, strings: Strings<Ref>, from: nat, pos: nat, to: nat, number: nat,
                     r: Ref)
    requires IsString(number) && Laid(strings, pos, number) && from <= to <= |s| && pos <= to
    requires ChangedOnly(s, s', from, to) && r.at + r.len <= to
    requires forall n: nat :: n != number && strings.At(n).Some? ==>
      strings.At(n).value.at + strings.At(n).value.len <= from &&
      strings.At(n).value.at + strings.At(n).value.len <= r.at
    ensures Laid(strings.Put(number, r), to, number)
    ensures ViewStrings(s', strings.Put(number, r)) == ViewStrings(s, strings).Put(number, Slice(s', r))
  {
    hide Slice, ChangedOnly;
    var strings' := strings.Put(number, r);
    forall n: nat
      ensures ViewStrings(s', strings').At(n) == ViewStrings(s, strings).Put(number, Slice(s', r)).At(n)
    {
      ViewAt(s', strings', n);
      ViewAt(s, strings, n);
      if n != number && strings.At(n).Some? {
        SliceKept(s, s', from, to, strings.At(n).value);
      }
    }
    SameStrings(ViewStrings(s', strings'), ViewStrings(s, strings).Put(number, Slice(s', r)));
  }

  /** A number that has no string yet lies behind all others; otherwise its string comes last. */
  lemma OthersBefore(strings: Strings<Ref>, pos: nat, number: nat, n: nat)
    requires Laid(strings, pos, number) && n != number && strings.At(n).Some?
    ensures var end := strings.At(n).value.at + strings.At(n).value.len;
      end <= pos && (strings.At(number).Some? ==> end <= strings.At(number).value.at)
  {
  }

  // ----- Merging in the buffer -----

  /**
   coap_merge_multi_option: an empty destination is replaced by the option, otherwise separator and option
   are put behind it, over the bytes of the option header.
   */
  method MergeMultiOption(data: array<Byte>, dst: Ref, option: nat, optionLen: nat, sep: Byte) returns (r: Ref)
    requires dst.at + dst.len < option && option + optionLen <= data.Length
    modifies data
    ensures r.at + r.len <= option + optionLen
    ensures Slice(data[..], r) == Merge(old(Slice(data[..], dst)), old(data[..])[option..option + optionLen], sep)
    ensures if dst.len > 0 then r == Ref(dst.at, dst.len + 1 + optionLen) else r == Ref(option, optionLen)
    ensures if dst.len > 0 then ChangedOnly(old(data[..]), data[..], dst.at + dst.len, option + optionLen)
            else data[..] == old(data[..])
  {
    hide Splice, Slice, ChangedOnly;
    if dst.len > 0 {
      SpliceMerges(data[..], dst, sep, data[..][option..option + optionLen], option + optionLen);
      AppendOption(data, dst.at + dst.len, option, optionLen, sep);
      r := Ref(dst.at, dst.len + 1 + optionLen);
    } else {
      EmptyMerge(data[..], dst, option, optionLen, sep);
      r := Ref(option, optionLen);
    }
  }

  /** Separator and option behind the destination; memmove, because they may overlap. */
  method AppendOption(data: array<Byte>, to: nat, option: nat, optionLen: nat, sep: Byte)
    requires to < option && option + optionLen <= data.Length
    modifies data
    ensures data[..] == Splice(old(data[..]), to, [sep] + old(data[..])[option..option + optionLen])
  {
    hide Splice;
    ghost var before := data[..];
    data[to] := sep;
    forall k | 0 <= k < optionLen {
      data[to + 1 + k] := data[option + k];
    }
    Appended(before, data[..], to, option, optionLen, sep);
  }

  lemma Appended(before: seq<Byte>, now: seq<Byte>, to: nat, option: nat, optionLen: nat, sep: Byte)
    requires to < option && option + optionLen <= |before| == |now|
    requires now[to] == sep && forall k :: to < k <= to + optionLen ==> now[k] == before[k + (option - to - 1)]
    requires forall k :: 0 <= k < |now| && !(to <= k <= to + optionLen) ==> now[k] == before[k]
    ensures now == Splice(before, to, [sep] + before[option..option + optionLen])
  {
    var value := before[option..option + optionLen];
    assert now[..to] == before[..to];
    assert now[to..to + 1 + optionLen] == [sep] + value;
    assert now[to + 1 + optionLen..] == before[to + 1 + optionLen..];
    assert now == now[..to] + now[to..to + 1 + optionLen] + now[to + 1 + optionLen..];
  }

  lemma EmptyMerge(s: seq<Byte>, dst: Ref, option: nat, optionLen: nat, sep: Byte)
    requires dst.len == 0 && option + optionLen <= |s|
    ensures Slice(s, Ref(option, optionLen)) == Merge(Slice(s, dst), s[option..option + optionLen], sep)
  {
    assert Slice(s, dst) == [];
  }

  lemma SpliceMerges(s: seq<Byte>, dst: Ref, sep: Byte, value: seq<Byte>, end: nat)
    requires dst.len > 0 && dst.at + dst.len + 1 + |value| <= end <= |s|
    ensures var s' := Splice(s, dst.at + dst.len, [sep] + value);
      && Slice(s', Ref(dst.at, dst.len + 1 + |value|)) == Merge(Slice(s, dst), value, sep)
      && ChangedOnly(s, s', dst.at + dst.len, end)
  {
    var to := dst.at + dst.len;
    var s' := Splice(s, to, [sep] + value);
    assert s'[dst.at..to + 1 + |value|] == s[dst.at..to] + ([sep] + value);
    assert s[dst.at..to] + ([sep] + value) == s[dst.at..to] + [sep] + value;
    assert s'[end..] == s[end..];
  }

  // ----- The parser -----

  method ReadExtension(data: array<Byte>, at: nat, nibble: nat) returns (value: nat, next: nat)
    requires at + ExtensionSize(nibble) <= data.Length
    ensures value == Extended(nibble, data[at..]) && next == at + ExtensionSize(nibble)
  {
    value, next := nibble, at;
    if value == 13 {
      value := value + data[next];
      next := next + 1;
    } else if value == 14 {
      value := value + 255;
      value := value + 256 * (data[next] as int);
      next := next + 1;
      value := value + data[next];
      next := next + 1;
    }
  }

  method ReadOptionHeader(data: array<Byte>, at: nat) returns (delta: nat, length: nat, next: nat)
    requires at < data.Length && at + HeaderSize(data[at]) <= data.Length
    ensures delta == HeaderDelta(data[at..]) && length == HeaderLength(data[at..]) && next == at + HeaderSize(data[at])
  {
    hide Extended;
    ghost var rest := data[at..];
    delta, next := ReadExtension(data, at + 1, data[at] / 16);
    assert data[at + 1..] == rest[1..];
    assert data[next..] == rest[1 + ExtensionSize(rest[0] / 16)..];
    length, next := ReadExtension(data, next, data[at] % 16);
  }

  /** The fields of a block option, from the number that is sent for it. */
  method ParseBlock(value: nat) returns (b: Block)
    ensures b == DecodeBlock(value)
  {
    var exponent := value % 8;
    var masked := value - value % 16;
    assert masked == value / 16 * 16;
    b := Block(value / 16, value / 8 % 2 == 1, 16 * Pow2(exponent), masked * Pow2(exponent) % 0x1_0000_0000);
  }

  function FirstKind(s: seq<Byte>): nat
    requires s != []
  {
    s[0] / 16 % 4
  }

  function TokenLength(s: seq<Byte>): nat
    requires s != []
  {
    s[0] % 16
  }

  /** The header is accepted, and what the loop then reads lies in the buffer. */
  predicate Parsable(s: seq<Byte>, n: nat) {
    && |s| >= HEADER_LEN + 15 && n < |s|
    && (s[0] / 64 == 1 && TokenLength(s) <= TOKEN_LEN ==>
          Readable(s[HEADER_LEN + TokenLength(s)..], n - HEADER_LEN - TokenLength(s), 0))
  }

  function Start(s: seq<Byte>): Packet<seq<Byte>>
    requires |s| >= HEADER_LEN + 15 && TokenLength(s) <= TOKEN_LEN
  {
    Packet(NoFields(FirstKind(s), s[1], 256 * (s[2] as int) + s[3], s[HEADER_LEN..HEADER_LEN + TokenLength(s)]),
           NoStrings())
  }

  function ScanMessage(s: seq<Byte>, n: nat): Scanned
    requires Parsable(s, n) && s[0] / 64 == 1 && TokenLength(s) <= TOKEN_LEN
  {
    Scan(s[HEADER_LEN + TokenLength(s)..], n - HEADER_LEN - TokenLength(s), 0)
  }

  class Parser {
    const maxChunk: nat
    var fields: Fields
    var strings: Strings<Ref>
    var payload: Ref

    constructor (maxChunk: nat)
      ensures this.maxChunk == maxChunk
    {
      this.maxChunk := maxChunk;
      fields, strings, payload := NoFields(0, 0, 0, []), NoStrings(), Ref(0, 0);
    }

    /** The packet, with its strings as they are in the buffer. */
    ghost function View(s: seq<Byte>): Packet<seq<Byte>>
      reads this
    {
      Packet(fields, ViewStrings(s, strings))
    }

    /** The switch over the option number, for a string. */
    method StoreString(data: array<Byte>, number: nat, option: nat, optionLen: nat, ghost pos: nat)
      requires IsString(number) && OptionStatus(number) == NoError
      requires Laid(strings, pos, number) && pos < option && option + optionLen <= data.Length
      modifies `strings, data
      ensures Laid(strings, option + optionLen, number)
      ensures View(data[..]) == Absorb(old(View(data[..])), Opt(number, old(data[..])[option..option + optionLen]))
      ensures data[option + optionLen..] == old(data[..])[option + optionLen..]
    {
      ghost var before := data[..];
      ghost var value := before[option..option + optionLen];
      hide Slice, ViewStrings, ChangedOnly;
      forall n: nat | n != number && strings.At(n).Some?
        ensures strings.At(n).value.at + strings.At(n).value.len <= pos
        ensures strings.At(number).Some? ==>
          strings.At(n).value.at + strings.At(n).value.len <= strings.At(number).value.at
      {
        OthersBefore(strings, pos, number, n);
      }
      if Separator(number) == 0 {
        Unchanged(before, option, option + optionLen);
        StringStored(before, before, strings, option, pos, option + optionLen, number, Ref(option, optionLen));
        WholeSlice(before, option, optionLen);
        strings := strings.Put(number, Ref(option, optionLen));
      } else {
        var dst := if strings.At(number).Some? then strings.At(number).value else Ref(0, 0);
        assert dst.at + dst.len <= pos;
        ContentIs(before, strings, number);
        var r := MergeMultiOption(data, dst, option, optionLen, Separator(number));
        ghost var from := if dst.len > 0 then dst.at + dst.len else option;
        Unchanged(before, from, option + optionLen);
        StringStored(before, data[..], strings, from, pos, option + optionLen, number, r);
        RestKept(before, data[..], from, option + optionLen);
        strings := strings.Put(number, r);
      }
    }

    /** The switch over the option number, for an option that is not a string. */
    method StoreField(data: array<Byte>, number: nat, option: nat, optionLen: nat)
      requires !IsString(number) && option + optionLen <= data.Length
      modifies `fields
      ensures fields == AbsorbField(old(fields), number, data[option..option + optionLen])
    {
      hide DecodeBlock, IntValue, IsString;
      var short := if optionLen <= ETAG_LEN then optionLen else ETAG_LEN;
      assert data[option..option + short] == Prefix(data[option..option + optionLen], ETAG_LEN);
      if number == ETAG {
        fields := fields.(etag := Some(data[option..option + short]));
      } else if number == IF_MATCH {
        fields := fields.(ifMatch := Some(data[option..option + short]));
      } else if number == IF_NONE_MATCH {
        fields := fields.(ifNoneMatch := true);
      } else {
        var value := ParseIntOption(data, option, optionLen);
        if number == CONTENT_FORMAT {
          fields := fields.(contentFormat := Some(value % 65536));
        } else if number == MAX_AGE {
          fields := fields.(maxAge := Some(value));
        } else if number == ACCEPT {
          fields := fields.(accept := Some(value % 65536));
        } else if number == URI_PORT {
          fields := fields.(uriPort := Some(value % 65536));
        } else if number == OBSERVE {
          fields := fields.(observe := Some(value));
        } else if number == BLOCK2 {
          var b := ParseBlock(value);
          fields := fields.(block2 := Some(b));
        } else if number == BLOCK1 {
          var b := ParseBlock(value);
          fields := fields.(block1 := Some(b));
        } else if number == SIZE2 {
          fields := fields.(size2 := Some(value));
        } else if number == SIZE1 {
          fields := fields.(size1 := Some(value));
        }
      }
    }

    /** One round of the loop, behind the option header: afterwards the packet has absorbed the option. */
    method StoreOption(data: array<Byte>, number: nat, option: nat, optionLen: nat, ghost pos: nat, ghost before: nat)
      requires OptionStatus(number) == NoError && before <= number
      requires Laid(strings, pos, before) && pos < option && option + optionLen <= data.Length
      modifies `fields, `strings, data
      ensures Laid(strings, option + optionLen, number)
      ensures View(data[..]) == Absorb(old(View(data[..])), Opt(number, old(data[..])[option..option + optionLen]))
      ensures data[option + optionLen..] == old(data[..])[option + optionLen..]
    {
      hide AbsorbField, ViewStrings, IsString;
      LaidFurther(strings, pos, before, pos, number);
      LaidFurther(strings, pos, before, option + optionLen, number);
      assert data[option..option + optionLen] == data[..][option..option + optionLen];
      assert data[option + optionLen..] == data[..][option + optionLen..];
      if IsString(number) {
        StoreString(data, number, option, optionLen, pos);
      } else {
        StoreField(data, number, option, optionLen);
      }
    }

    /** The payload, cut off at the maximal chunk, with a 0 behind it. */
    method ReadPayload(data: array<Byte>, dataLen: nat, current: nat, ghost number: nat)
      requires current < dataLen < data.Length && Laid(strings, current, number)
      modifies `payload, data
      ensures payload.at == current + 1 && payload.at + payload.len < data.Length && data[payload.at + payload.len] == 0
      ensures Slice(data[..], payload) == Prefix(old(data[..])[current..][1..dataLen - current], maxChunk)
      ensures View(data[..]) == old(View(data[..]))
    {
      ghost var before := data[..];
      var start := current + 1;
      var len := dataLen - start;
      if len > maxChunk {
        len := maxChunk;
      }
      payload := Ref(start, len);
      data[start + len] := 0;
      assert data[..][start..start + len] == before[start..start + len];
      assert before[current..][1..dataLen - current] == before[start..dataLen];
      assert before[start..dataLen][..len] == before[start..start + len];
      StringsKept(before, data[..], strings, current, number);
    }

    /**
     The loop over the options.  What it has read so far, together with what it is still going to find, is
     what a scan of the buffer as it was received finds.
     */
    method ParseOptions(data: array<Byte>, dataLen: nat, first: nat) returns (status: Status)
      requires first <= data.Length && dataLen < data.Length && strings == NoStrings() && payload == Ref(0, 0)
      requires Readable(data[first..], dataLen - first, 0)
      modifies this, data
      ensures
        var scan := Scan(old(data[..])[first..], dataLen - first, 0);
        var result := AbsorbAll(Packet(old(fields), NoStrings()), scan.opts);
        && status == result.0 && View(data[..]) == result.1
        && (status == NoError ==> Slice(data[..], payload) == Prefix(scan.payload, maxChunk))
        && (status == NoError && payload.at > 0 ==>
            payload.at + payload.len < data.Length && data[payload.at + payload.len] == 0)
    {
      hide Readable, Scan, AbsorbAll, ViewStrings, Slice, HeaderSize, HeaderDelta, HeaderLength, Pending, Laid, Absorb,
        OptionStatus;
      ghost var received := data[..];
      ghost var scan := Scan(received[first..], dataLen - first, 0);
      ghost var result := AbsorbAll(Packet(fields, NoStrings()), scan.opts);
      assert received[first..] == data[first..];
      NothingStored(received, first);
      var current, number := first, 0;
      PendingFrom(received, first, 0, dataLen, View(received), scan, result);
      while current < dataLen
        invariant first <= current <= data.Length && payload == Ref(0, 0) && 0 <= number
        invariant data[current..] == received[current..]
        invariant Laid(strings, current, number)
        invariant Pending(received, current, number, dataLen, View(data[..]), scan, result)
        decreases data.Length - current
      {
        SameSuffix(data[..], received, current);
        if data[current] / 16 == 15 {
          PendingPayload(received, current, number, dataLen, View(data[..]), scan, result);
          ReadPayload(data, dataLen, current, number);
          return NoError;
        }
        PendingOption(received, current, number, dataLen, View(data[..]), scan, result);
        var delta, length, option := ReadOptionHeader(data, current);
        ghost var previous := number;
        number := number + delta;
        status := OptionStatus(number);
        if status != NoError {
          return;
        }
        SuffixSlices(received, data[..], current, option, length);
        StoreOption(data, number, option, length, current, previous);
        current := option + length;
      }
      PendingEnd(received, current, number, dataLen, View(data[..]), scan, result);
      EmptySlice(data[..]);
      return NoError;
    }

    /** coap_parse_message */
    method ParseMessage(data: array<Byte>, dataLen: nat) returns (status: Status)
      requires Parsable(data[..], dataLen) && dataLen < 65536
      modifies this, data
      ensures
        var s := old(data[..]);
        if s[0] / 64 != 1 || TokenLength(s) > TOKEN_LEN then status == BadRequest && data[..] == s
        else
          var scan := ScanMessage(s, dataLen);
          var result := AbsorbAll(Start(s), scan.opts);
          && status == result.0 && View(data[..]) == result.1
          && (status == NoError ==> Slice(data[..], payload) == Prefix(scan.payload, maxChunk))
    {
      hide Readable, Scan, AbsorbAll, ViewStrings, Slice;
      ghost var s := data[..];
      fields, strings, payload := NoFields(0, 0, 0, []), NoStrings(), Ref(0, 0);
      var version, tokenLen := data[0] / 64, data[0] % 16;
      if version != 1 {
        return BadRequest;
      }
      if tokenLen > TOKEN_LEN {
        return BadRequest;
      }
      fields := NoFields(data[0] / 16 % 4, data[1], 256 * (data[2] as int) + data[3],
                         data[HEADER_LEN..HEADER_LEN + tokenLen]);
      assert fields == Start(s).fields;
      assert data[HEADER_LEN + tokenLen..] == s[HEADER_LEN + tokenLen..];
      status := ParseOptions(data, dataLen, HEADER_LEN + tokenLen);
    }
  }

  lemma NothingStored(s: seq<Byte>, pos: nat)
    ensures Laid(NoStrings(), pos, 0) && ViewStrings(s, NoStrings()) == NoStrings()
  {
  }

  lemma EmptySlice(s: seq<Byte>)
    ensures Slice(s, Ref(0, 0)) == []
  {
  }

  lemma LaidFurther(strings: Strings<Ref>, pos: nat, number: nat, pos': nat, number': nat)
    requires Laid(strings, pos, number) && pos <= pos' && number <= number'
    ensures Laid(strings, pos', number')
  {
  }

  lemma StringsKept(s: seq<Byte>, s': seq<Byte>, strings: Strings<Ref>, pos: nat, number: nat)
    requires Laid(strings, pos, number) && pos <= |s| == |s'| && s'[..pos] == s[..pos]
    ensures ViewStrings(s', strings) == ViewStrings(s, strings)
  {
    hide Slice;
    forall n: nat
      ensures ViewStrings(s', strings).At(n) == ViewStrings(s, strings).At(n)
    {
      ViewAt(s', strings, n);
      ViewAt(s, strings, n);
      if strings.At(n).Some? {
        SliceKept(s, s', pos, |s|, strings.At(n).value);
      }
    }
    SameStrings(ViewStrings(s', strings), ViewStrings(s, strings));
  }

  lemma SuffixSlices(s: seq<Byte>, t: seq<Byte>, from: nat, at: nat, len: nat)
    requires from <= at && at + len <= |s| == |t| && s[from..] == t[from..]
    ensures s[at..at + len] == t[at..at + len] && s[at + len..] == t[at + len..]
  {
    SliceOfSuffix(s, from, at - from, at - from + len);
    SliceOfSuffix(t, from, at - from, at - from + len);
  }

  lemma SliceOfSuffix(s: seq<Byte>, from: nat, lo: nat, hi: nat)
    requires lo <= hi && from + hi <= |s|
    ensures s[from..][lo..hi] == s[from + lo..from + hi] && s[from..][hi..] == s[from + hi..]
  {
    var a, b := s[from..][lo..hi], s[from + lo..from + hi];
    assert |a| == |b| && forall k :: 0 <= k < |a| ==> a[k] == b[k];
  }

  /** One option of the scan. */
  lemma ScanStep(rest: seq<Byte>, n: nat, number: nat)
    requires 0 < n < |rest| && Readable(rest, n, number)
    ensures rest[0] / 16 == 15 ==> Scan(rest, n, number) == Scanned([], rest[1..n])
    ensures rest[0] / 16 != 15 ==>
      && |rest| >= HeaderSize(rest[0]) && HeaderSize(rest[0]) + HeaderLength(rest) <= |rest|
      && var size, number' := HeaderSize(rest[0]) + HeaderLength(rest), number + HeaderDelta(rest);
      var o := Opt(number', rest[HeaderSize(rest[0])..size]);
      if OptionStatus(number') != NoError then Scan(rest, n, number) == Scanned([o], [])
      else
        && Readable(rest[size..], n - size, number')
        && var more := Scan(rest[size..], n - size, number');
        Scan(rest, n, number) == Scanned([o] + more.opts, more.payload)
  {
    hide HeaderSize, HeaderLength, HeaderDelta, OptionStatus;
  }

  lemma SameSuffix(s: seq<Byte>, t: seq<Byte>, at: nat)
    requires at < |s| == |t| && s[at..] == t[at..]
    ensures s[at] == t[at]
  {
    assert s[at] == s[at..][0] && t[at] == t[at..][0];
  }

  /** In the loop: absorbing what the scan still finds from `current` on leads to the result for the whole message. */
  ghost predicate Pending(received: seq<Byte>, current: nat, number: nat, dataLen: nat, view: Packet<seq<Byte>>,
                          scan: Scanned, result: (Status, Packet<seq<Byte>>)) {
    && current <= |received| && dataLen < |received| && Readable(received[current..], dataLen - current, number)
    && var more := Scan(received[current..], dataLen - current, number);
    more.payload == scan.payload && result == AbsorbAll(view, more.opts)
  }

  lemma PendingFacts(received: seq<Byte>, current: nat, number: nat, dataLen: nat, view: Packet<seq<Byte>>,
                     scan: Scanned, result: (Status, Packet<seq<Byte>>))
    requires Pending(received, current, number, dataLen, view, scan, result)
    ensures current <= |received| && dataLen < |received| && Readable(received[current..], dataLen - current, number)
    ensures Scan(received[current..], dataLen - current, number).payload == scan.payload
    ensures result == AbsorbAll(view, Scan(received[current..], dataLen - current, number).opts)
  {
    hide Readable, Scan, AbsorbAll;
  }

  lemma PendingFrom(received: seq<Byte>, current: nat, number: nat, dataLen: nat, view: Packet<seq<Byte>>,
                    scan: Scanned, result: (Status, Packet<seq<Byte>>))
    requires current <= |received| && dataLen < |received| && Readable(received[current..], dataLen - current, number)
    requires Scan(received[current..], dataLen - current, number).payload == scan.payload
    requires result == AbsorbAll(view, Scan(received[current..], dataLen - current, number).opts)
    ensures Pending(received, current, number, dataLen, view, scan, result)
  {
    hide Readable, Scan, AbsorbAll;
  }

  lemma PendingPayload(received: seq<Byte>, current: nat, number: nat, dataLen: nat, view: Packet<seq<Byte>>,
                       scan: Scanned, result: (Status, Packet<seq<Byte>>))
    requires Pending(received, current, number, dataLen, view, scan, result) && current < dataLen
    requires received[current] / 16 == 15
    ensures result == (NoError, view) && scan.payload == received[current..][1..dataLen - current]
  {
    ScanStep(received[current..], dataLen - current, number);
    AbsorbStep(view, []);
    hide Readable, Scan, AbsorbAll;
  }

  /** The option at `current`, without its header. */
  function OptionAt(received: seq<Byte>, current: nat, number: nat): Opt
    requires current < |received| && current + HeaderSize(received[current]) <= |received|
    requires current + HeaderSize(received[current]) + HeaderLength(received[current..]) <= |received|
  {
    var option := current + HeaderSize(received[current]);
    Opt(number + HeaderDelta(received[current..]), received[option..option + HeaderLength(received[current..])])
  }

  lemma PendingOption(received: seq<Byte>, current: nat, number: nat, dataLen: nat, view: Packet<seq<Byte>>,
                      scan: Scanned, result: (Status, Packet<seq<Byte>>))
    requires Pending(received, current, number, dataLen, view, scan, result) && current < dataLen
    requires received[current] / 16 != 15
    ensures current + HeaderSize(received[current]) <= |received|
    ensures current + HeaderSize(received[current]) + HeaderLength(received[current..]) <= |received|
    ensures
      var o := OptionAt(received, current, number);
      var next := current + HeaderSize(received[current]) + HeaderLength(received[current..]);
      if OptionStatus(o.number) != NoError then result == (OptionStatus(o.number), view)
      else Pending(received, next, o.number, dataLen, Absorb(view, o), scan, result)
  {
    hide Pending, Readable, Scan, AbsorbAll, Absorb, HeaderSize, HeaderDelta, HeaderLength, OptionStatus;
    PendingFacts(received, current, number, dataLen, view, scan, result);
    var rest, n := received[current..], dataLen - current;
    assert rest[0] == received[current];
    ScanStep(rest, n, number);
    AbsorbStep(view, Scan(rest, n, number).opts);
    var header, length := HeaderSize(rest[0]), HeaderLength(rest);
    SliceOfSuffix(received, current, header, header + length);
    var o := OptionAt(received, current, number);
    assert o == Opt(number + HeaderDelta(rest), rest[header..header + length]);
    if OptionStatus(o.number) == NoError {
      FirstAndRest(o, Scan(rest[header + length..], n - header - length, o.number).opts);
      PendingFrom(received, current + header + length, o.number, dataLen, Absorb(view, o), scan, result);
    } else {
      assert [o][0] == o;
    }
  }

  lemma FirstAndRest(o: Opt, opts: seq<Opt>)
    ensures ([o] + opts)[0] == o && ([o] + opts)[1..] == opts
  {
  }

  lemma PendingEnd(received: seq<Byte>, current: nat, number: nat, dataLen: nat, view: Packet<seq<Byte>>,
                   scan: Scanned, result: (Status, Packet<seq<Byte>>))
    requires Pending(received, current, number, dataLen, view, scan, result) && current >= dataLen
    ensures result == (NoError, view) && scan.payload == []
  {
    ScanEnd(received[current..], dataLen - current, number);
    AbsorbStep(view, []);
  }

  lemma ScanEnd(rest: seq<Byte>, n: int, number: nat)
    requires n <= 0 && n < |rest| && Readable(rest, n, number)
    ensures Scan(rest, n, number) == Scanned([], [])
  {
  }

  lemma AbsorbStep(p: Packet<seq<Byte>>, opts: seq<Opt>)
    ensures opts == [] ==> AbsorbAll(p, opts) == (NoError, p)
    ensures opts != [] ==>
      var status := OptionStatus(opts[0].number);
      if status != NoError then AbsorbAll(p, opts) == (status, p)
      else AbsorbAll(p, opts) == AbsorbAll(Absorb(p, opts[0]), opts[1..])
  {
    if opts != [] && OptionStatus(opts[0].number) != NoError {
      FatalIsIgnored(p, opts[0]);
    }
  }

  lemma FatalIsIgnored(p: Packet<seq<Byte>>, o: Opt)
    requires OptionStatus(o.number) != NoError
    ensures Absorb(p, o) == p
  {
  }

  lemma Unchanged(s: seq<Byte>, from: nat, to: nat)
    requires from <= to <= |s|
    ensures ChangedOnly(s, s, from, to)
  {
  }

  lemma RestKept(s: seq<Byte>, s': seq<Byte>, from: nat, to: nat)
    requires from <= to <= |s| && ChangedOnly(s, s', from, to)
    ensures |s'| == |s| && s'[to..] == s[to..]
  {
  }

  lemma WholeSlice(s: seq<Byte>, at: nat, len: nat)
    requires at + len <= |s|
    ensures Slice(s, Ref(at, len)) == s[at..at + len]
  {
  }

  lemma ContentIs(s: seq<Byte>, strings: Strings<Ref>, number: nat)
    ensures Content(ViewStrings(s, strings).At(number))
            == Slice(s, if strings.At(number).Some? then strings.At(number).value else Ref(0, 0))
  {
    ViewAt(s, strings, number);
    assert Slice(s, Ref(0, 0)) == [];
  }
}
