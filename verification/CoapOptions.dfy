/**
 The option format of CoAP as Erbium writes and reads it (apps/er-coap/er-coap.c): option headers with
 extended deltas and lengths, integer options, strings that are split into several options, and merging.
 */
module CoapOptions {
  import opened Common

  // ----- Buffers -----

  lemma SpliceTwice(s: seq<Byte>, at: nat, a: seq<Byte>, b: seq<Byte>)
    requires at + |a| + |b| <= |s|
    ensures Splice(Splice(s, at, a), at + |a|, b) == Splice(s, at, a + b)
  {
  }

  /** memcpy from another object. */
  method CopyTo(buffer: array<Byte>, at: nat, bytes: seq<Byte>)
    requires at + |bytes| <= buffer.Length
    modifies buffer
    ensures buffer[..] == Splice(old(buffer[..]), at, bytes)
  {
    forall k | 0 <= k < |bytes| {
      buffer[at + k] := bytes[k];
    }
  }

  // ----- Option headers -----

  /** Deltas and lengths that fit the 16-bit extension. */
  const MAX_EXTENDED := 65535 + 269

  function Nibble(value: nat): (r: nat)
    ensures r <= 14
  {
    if value < 13 then value else if value <= 268 then 13 else 14
  }

  function Extension(value: nat): seq<Byte>
    requires value <= MAX_EXTENDED
  {
    if value < 13 then []
    else if value <= 268 then [value - 13]
    else [(value - 269) / 256, (value - 269) % 256]
  }

  function OptionHeader(delta: nat, length: nat): seq<Byte>
    requires delta <= MAX_EXTENDED && length <= MAX_EXTENDED
  {
    [Nibble(delta) * 16 + Nibble(length)] + Extension(delta) + Extension(length)
  }

  function EncodeOption(delta: nat, value: seq<Byte>): seq<Byte>
    requires delta <= MAX_EXTENDED && |value| <= MAX_EXTENDED
  {
    OptionHeader(delta, |value|) + value
  }

  /** The extension of a delta or a length, where one is needed. */
  method PutExtension(value: nat, buffer: array<Byte>, at: nat) returns (written: nat)
    requires value <= MAX_EXTENDED && at + |Extension(value)| <= buffer.Length
    modifies buffer
    ensures written == |Extension(value)| && buffer[..] == Splice(old(buffer[..]), at, Extension(value))
  {
    written := 0;
    if value > 268 {
      buffer[at] := (value - 269) / 256 % 256;
      buffer[at + 1] := (value - 269) % 256;
      written := 2;
    } else if value > 12 {
      buffer[at] := value - 13;
      written := 1;
    }
  }

  /** coap_set_option_header */
  method SetOptionHeader(delta: nat, length: nat, buffer: array<Byte>, at: nat) returns (written: nat)
    requires delta <= MAX_EXTENDED && length <= MAX_EXTENDED
    requires at + |OptionHeader(delta, length)| <= buffer.Length
    modifies buffer
    ensures written == |OptionHeader(delta, length)|
    ensures buffer[..] == Splice(old(buffer[..]), at, OptionHeader(delta, length))
  {
    hide Extension, Nibble;
    ghost var before := buffer[..];
    var first: Byte := Nibble(delta) * 16 + Nibble(length);
    buffer[at] := first;
    assert buffer[..] == Splice(before, at, [first]);
    hide Splice;
    SpliceTwice(before, at, [first], Extension(delta));
    written := PutExtension(delta, buffer, at + 1);
    SpliceTwice(before, at, [first] + Extension(delta), Extension(length));
    var n := PutExtension(length, buffer, at + 1 + written);
    written := 1 + written + n;
  }

  // ----- Reading an option header -----

  function ExtensionSize(nibble: nat): nat {
    if nibble == 13 then 1 else if nibble == 14 then 2 else 0
  }

  /** The delta or length that a nibble and the bytes behind it stand for. */
  function Extended(nibble: nat, ext: seq<Byte>): nat
    requires |ext| >= ExtensionSize(nibble)
  {
    if nibble == 13 then 13 + ext[0]
    else if nibble == 14 then 14 + 255 + ext[0] * 256 + ext[1]
    else nibble
  }

  function HeaderSize(first: Byte): (r: nat)
    ensures 1 <= r <= 5
  {
    1 + ExtensionSize(first / 16) + ExtensionSize(first % 16)
  }

  function HeaderDelta(s: seq<Byte>): nat
    requires s != [] && |s| >= HeaderSize(s[0])
  {
    Extended(s[0] / 16, s[1..])
  }

  function HeaderLength(s: seq<Byte>): nat
    requires s != [] && |s| >= HeaderSize(s[0])
  {
    Extended(s[0] % 16, s[1 + ExtensionSize(s[0] / 16)..])
  }

  /** An option header is read back as it was written, whatever follows it. */
  lemma HeaderRoundTrip(delta: nat, length: nat, rest: seq<Byte>)
    requires delta <= MAX_EXTENDED && length <= MAX_EXTENDED
    ensures var s := OptionHeader(delta, length) + rest;
      && HeaderSize(s[0]) == |OptionHeader(delta, length)| && s[0] / 16 != 15
      && HeaderDelta(s) == delta && HeaderLength(s) == length
  {
    hide Nibble, Extension, Extended, ExtensionSize;
    var s := OptionHeader(delta, length) + rest;
    Nibbles(Nibble(delta), Nibble(length));
    ExtensionRoundTrip(delta, Extension(length) + rest);
    ExtensionRoundTrip(length, rest);
    assert s[1..] == Extension(delta) + (Extension(length) + rest);
    assert s[1 + |Extension(delta)|..] == Extension(length) + rest;
  }

  lemma Nibbles(a: nat, b: nat)
    requires a < 16 && b < 16
    ensures (a * 16 + b) / 16 == a && (a * 16 + b) % 16 == b
  {
  }

  lemma ExtensionRoundTrip(value: nat, rest: seq<Byte>)
    requires value <= MAX_EXTENDED
    ensures ExtensionSize(Nibble(value)) == |Extension(value)|
    ensures Extended(Nibble(value), Extension(value) + rest) == value
  {
  }

  // ----- Integer options -----

  /** The shortest big-endian form; 0 has no bytes at all. */
  function IntBytes(value: nat): seq<Byte> {
    if value == 0 then [] else IntBytes(value / 256) + [value % 256]
  }

  /** coap_parse_int_option, with its 32-bit variable. */
  function IntValue(bytes: seq<Byte>): (r: nat)
    ensures r < 0x1_0000_0000
  {
    if bytes == [] then 0
    else (IntValue(bytes[..|bytes| - 1]) * 256 + bytes[|bytes| - 1]) % 0x1_0000_0000
  }

  lemma {:induction false} IntRoundTrip(value: nat)
    requires value < 0x1_0000_0000
    ensures IntValue(IntBytes(value)) == value
  {
    if value > 0 {
      IntRoundTrip(value / 256);
      assert IntBytes(value)[..|IntBytes(value)| - 1] == IntBytes(value / 256);
    }
  }

  lemma IntBytesCases(value: nat)
    requires value < 0x1_0000_0000
    ensures IntBytes(value) ==
      (if value >= 0x100_0000 then [value / 0x100_0000] else [])
      + (if value >= 0x1_0000 then [value / 0x1_0000 % 256] else [])
      + (if value >= 0x100 then [value / 0x100 % 256] else [])
      + (if value >= 1 then [value % 256] else [])
  {
    var a, b, c := value / 256, value / 0x1_0000, value / 0x100_0000;
    assert a / 256 == b && b / 256 == c && c / 256 == 0;
    assert IntBytes(c) == if c == 0 then [] else [c];
    assert IntBytes(b) == if b == 0 then [] else IntBytes(c) + [b % 256];
    assert IntBytes(a) == if a == 0 then [] else IntBytes(b) + [a % 256];
  }

  method ParseIntOption(buffer: array<Byte>, at: nat, length: nat) returns (value: nat)
    requires at + length <= buffer.Length
    ensures value == IntValue(buffer[at..at + length])
  {
    value := 0;
    var i := 0;
    while i < length
      invariant i <= length && value == IntValue(buffer[at..at + i])
    {
      assert buffer[at..at + i + 1][..i] == buffer[at..at + i];
      value := (value * 256 + buffer[at + i]) % 0x1_0000_0000;
      i := i + 1;
    }
  }

  /** coap_serialize_int_option */
  method SerializeIntOption(number: nat, currentNumber: nat, buffer: array<Byte>, at: nat, value: nat)
      returns (i: nat)
    requires currentNumber <= number < 65536 && value < 0x1_0000_0000
    requires |IntBytes(value)| <= 4
    requires at + |EncodeOption(number - currentNumber, IntBytes(value))| <= buffer.Length
    modifies buffer
    ensures i == |EncodeOption(number - currentNumber, IntBytes(value))|
    ensures buffer[..] == Splice(old(buffer[..]), at, EncodeOption(number - currentNumber, IntBytes(value)))
  {
    hide OptionHeader, IntBytes, Splice;
    ghost var header := OptionHeader(number - currentNumber, |IntBytes(value)|);
    IntBytesCases(value);
    i := 0;
    if value >= 0x100_0000 {
      i := i + 1;
    }
    if value >= 0x1_0000 {
      i := i + 1;
    }
    if value >= 0x100 {
      i := i + 1;
    }
    if value >= 1 {
      i := i + 1;
    }
    i := SetOptionHeader(number - currentNumber, i, buffer, at);
    SpliceTwice(old(buffer[..]), at, header, IntBytes(value));
    i := PutInt(buffer, at, i, value);
  }

  method PutInt(buffer: array<Byte>, at: nat, start: nat, value: nat) returns (i: nat)
    requires value < 0x1_0000_0000 && at + start + |IntBytes(value)| <= buffer.Length
    modifies buffer
    ensures i == start + |IntBytes(value)|
    ensures buffer[..] == Splice(old(buffer[..]), at + start, IntBytes(value))
  {
    IntBytesCases(value);
    hide IntBytes;
    i := start;
    if value >= 0x100_0000 {
      buffer[at + i] := value / 0x100_0000;
      i := i + 1;
    }
    if value >= 0x1_0000 {
      buffer[at + i] := value / 0x1_0000 % 256;
      i := i + 1;
    }
    if value >= 0x100 {
      buffer[at + i] := value / 0x100 % 256;
      i := i + 1;
    }
    if value >= 1 {
      buffer[at + i] := value % 256;
      i := i + 1;
    }
  }

  // ----- Strings in several options -----

  /** A string of the packet, with the two bytes that lie behind it in memory. */
  datatype Text = Text(chars: seq<Byte>, next: Byte, beyond: Byte)

  function Memory(t: Text): seq<Byte> {
    t.chars + [t.next, t.beyond]
  }

  /**
   The loop that splits a string, from index j on in a part that began at `start`: the byte after each
   separator is not examined, and the byte after the terminator is.
   */
  function Parts(t: Text, sep: Byte, start: nat, j: nat): (r: seq<seq<Byte>>)
    requires start <= j
    decreases |t.chars| + 2 - j
  {
    if j > |t.chars| + 1 then []
    else if Memory(t)[j] == sep || j == |t.chars| then [Memory(t)[start..j]] + Parts(t, sep, j + 1, j + 2)
    else Parts(t, sep, start, j + 1)
  }

  /** Values of the same option number, one after the other. */
  function EncodeParts(delta: nat, parts: seq<seq<Byte>>): seq<Byte>
    requires delta <= MAX_EXTENDED && forall i :: 0 <= i < |parts| ==> |parts[i]| <= MAX_EXTENDED
  {
    if parts == [] then [] else EncodeOption(delta, parts[0]) + EncodeParts(0, parts[1..])
  }

  lemma {:induction false} PartsAreShort(t: Text, sep: Byte, start: nat, j: nat)
    requires start <= j
    ensures forall i :: 0 <= i < |Parts(t, sep, start, j)| ==> |Parts(t, sep, start, j)[i]| <= |t.chars| + 1
    decreases |t.chars| + 2 - j
  {
    if j <= |t.chars| + 1 {
      if Memory(t)[j] == sep || j == |t.chars| {
        PartsAreShort(t, sep, j + 1, j + 2);
      } else {
        PartsAreShort(t, sep, start, j + 1);
      }
    }
  }

  /** What coap_serialize_array_option writes for a string; separator 0 means that it is not split. */
  function ArrayOption(delta: nat, t: Text, sep: Byte): seq<Byte>
    requires delta < 65536 && |t.chars| < 65536
  {
    PartsAreShort(t, sep, 0, 0);
    EncodeParts(delta, ArrayParts(t, sep))
  }

  function ArrayParts(t: Text, sep: Byte): (parts: seq<seq<Byte>>)
    ensures forall i :: 0 <= i < |parts| ==> |parts[i]| <= |t.chars| + 1
  {
    PartsAreShort(t, sep, 0, 0);
    if sep == 0 then [t.chars] else Parts(t, sep, 0, 0)
  }

  method SerializeArrayOption(number: nat, currentNumber: nat, buffer: array<Byte>, at: nat, t: Text, sep: Byte)
      returns (i: nat)
    requires currentNumber <= number < 65536 && |t.chars| < 65536
    requires at + |ArrayOption(number - currentNumber, t, sep)| <= buffer.Length
    modifies buffer
    ensures i == |ArrayOption(number - currentNumber, t, sep)|
    ensures buffer[..] == Splice(old(buffer[..]), at, ArrayOption(number - currentNumber, t, sep))
  {
    hide OptionHeader;
    i := 0;
    if sep != 0 {
      i := SerializeParts(number, currentNumber, buffer, at, t, sep);
    } else {
      assert EncodeParts(number - currentNumber, [t.chars]) == EncodeOption(number - currentNumber, t.chars);
      i := PutOption(number - currentNumber, buffer, at, t.chars);
    }
  }

  method PutOption(delta: nat, buffer: array<Byte>, at: nat, value: seq<Byte>) returns (i: nat)
    requires delta <= MAX_EXTENDED && |value| <= MAX_EXTENDED
    requires at + |EncodeOption(delta, value)| <= buffer.Length
    modifies buffer
    ensures i == |EncodeOption(delta, value)|
    ensures buffer[..] == Splice(old(buffer[..]), at, EncodeOption(delta, value))
  {
    hide OptionHeader;
    i := SetOptionHeader(delta, |value|, buffer, at);
    SpliceTwice(old(buffer[..]), at, OptionHeader(delta, |value|), value);
    CopyTo(buffer, at + i, value);
    i := i + |value|;
  }

  /** The loop that splits has written this much, and goes on from index j in a part that began at `start`. */
  ghost predicate Splitting(t: Text, sep: Byte, delta: nat, start: nat, j: nat, all: seq<Byte>, written: seq<Byte>) {
    && start <= j <= |t.chars| + 3 && delta <= MAX_EXTENDED
    && (forall k :: 0 <= k < |Parts(t, sep, start, j)| ==> |Parts(t, sep, start, j)[k]| <= MAX_EXTENDED)
    && all == written + EncodeParts(delta, Parts(t, sep, start, j))
  }

  lemma SplittingStarts(t: Text, sep: Byte, delta: nat)
    requires delta < 65536 && |t.chars| < 65536 && sep != 0
    ensures Splitting(t, sep, delta, 0, 0, ArrayOption(delta, t, sep), [])
  {
    hide EncodeOption, EncodeParts, Parts;
    PartsAreShort(t, sep, 0, 0);
  }

  lemma SplittingPart(t: Text, sep: Byte, delta: nat, start: nat, j: nat, all: seq<Byte>, written: seq<Byte>)
    requires Splitting(t, sep, delta, start, j, all, written)
    requires j <= |t.chars| + 1 && (Memory(t)[j] == sep || j == |t.chars|)
    ensures var part := Memory(t)[start..j];
      && |part| <= MAX_EXTENDED && |written + EncodeOption(delta, part)| <= |all|
      && Splitting(t, sep, 0, j + 1, j + 2, all, written + EncodeOption(delta, part))
  {
    hide EncodeOption, EncodeParts, Parts;
    var part, parts, rest := Memory(t)[start..j], Parts(t, sep, start, j), Parts(t, sep, j + 1, j + 2);
    PartsStep(t, sep, start, j);
    assert parts[0] == part && parts[1..] == rest;
    assert forall k :: 0 <= k < |rest| ==> rest[k] == parts[k + 1];
    SplitStep(delta, part, rest);
    Regroup(written, EncodeOption(delta, part), EncodeParts(0, rest), []);
  }

  lemma SplittingSkip(t: Text, sep: Byte, delta: nat, start: nat, j: nat, all: seq<Byte>, written: seq<Byte>)
    requires Splitting(t, sep, delta, start, j, all, written)
    requires j <= |t.chars| + 1 && Memory(t)[j] != sep && j != |t.chars|
    ensures Splitting(t, sep, delta, start, j + 1, all, written)
  {
    hide EncodeOption, EncodeParts, Parts;
    PartsStep(t, sep, start, j);
  }

  lemma SplittingEnds(t: Text, sep: Byte, delta: nat, start: nat, j: nat, all: seq<Byte>, written: seq<Byte>)
    requires Splitting(t, sep, delta, start, j, all, written) && j > |t.chars| + 1
    ensures all == written
  {
  }

  /** The splitting loop. */
  method SerializeParts(number: nat, currentNumber: nat, buffer: array<Byte>, at: nat, t: Text, sep: Byte)
      returns (i: nat)
    requires currentNumber <= number < 65536 && |t.chars| < 65536 && sep != 0
    requires at + |ArrayOption(number - currentNumber, t, sep)| <= buffer.Length
    modifies buffer
    ensures i == |ArrayOption(number - currentNumber, t, sep)|
    ensures buffer[..] == Splice(old(buffer[..]), at, ArrayOption(number - currentNumber, t, sep))
  {
    hide EncodeOption, Splice, Splitting, ArrayOption;
    i := 0;
    var current := currentNumber;
    var partStart, j := 0, 0;
    var mem := Memory(t);
    ghost var before := buffer[..];
    ghost var all := ArrayOption(number - currentNumber, t, sep);
    ghost var written: seq<Byte> := [];
    SpliceNothing(before, at);
    SplittingStarts(t, sep, number - currentNumber);
    while j <= |t.chars| + 1
      invariant 0 <= partStart <= j && 0 <= current <= number && i == |written| <= |all|
      invariant Splitting(t, sep, number - current, partStart, j, all, written)
      invariant buffer[..] == Splice(before, at, written)
      decreases |t.chars| + 3 - j
    {
      if mem[j] == sep || j == |t.chars| {
        var part := mem[partStart..j];
        ghost var option := EncodeOption(number - current, part);
        SplittingPart(t, sep, number - current, partStart, j, all, written);
        SpliceTwice(before, at, written, option);
        var n := PutOption(number - current, buffer, at + i, part);
        written := written + option;
        i := i + n;
        j := j + 1;
        current := number;
        partStart := j;
      } else {
        SplittingSkip(t, sep, number - current, partStart, j, all, written);
      }
      j := j + 1;
    }
    SplittingEnds(t, sep, number - current, partStart, j, all, written);
  }

  lemma SpliceNothing(s: seq<Byte>, at: nat)
    requires at <= |s|
    ensures Splice(s, at, []) == s
  {
  }

  lemma SplitStep(delta: nat, part: seq<Byte>, parts: seq<seq<Byte>>)
    requires delta <= MAX_EXTENDED && |part| <= MAX_EXTENDED
    requires forall i :: 0 <= i < |parts| ==> |parts[i]| <= MAX_EXTENDED
    ensures EncodeParts(delta, [part] + parts) == EncodeOption(delta, part) + EncodeParts(0, parts)
  {
    assert ([part] + parts)[1..] == parts;
  }

  // ----- Merging repeated options -----

  /** coap_merge_multi_option on values: what is there, the separator, and the next value. */
  function Merge(acc: seq<Byte>, value: seq<Byte>, sep: Byte): seq<Byte> {
    if acc == [] then value else acc + [sep] + value
  }

  function MergeAll(acc: seq<Byte>, parts: seq<seq<Byte>>, sep: Byte): seq<Byte>
    decreases |parts|
  {
    if parts == [] then acc else MergeAll(Merge(acc, parts[0], sep), parts[1..], sep)
  }

  /** The parts, each behind a separator. */
  function Glue(parts: seq<seq<Byte>>, sep: Byte): seq<Byte> {
    if parts == [] then [] else [sep] + parts[0] + Glue(parts[1..], sep)
  }

  lemma {:induction false} MergeIsGlue(acc: seq<Byte>, parts: seq<seq<Byte>>, sep: Byte)
    requires acc != []
    ensures MergeAll(acc, parts, sep) == acc + Glue(parts, sep)
    decreases |parts|
  {
    if parts != [] {
      MergeIsGlue(Merge(acc, parts[0], sep), parts[1..], sep);
    }
  }

  /** Length of the run of separators at the end. */
  function TrailingRun(s: seq<Byte>, sep: Byte): (r: nat)
    ensures r <= |s|
  {
    if s == [] || s[|s| - 1] != sep then 0 else 1 + TrailingRun(s[..|s| - 1], sep)
  }

  /** The strings that splitting and merging restore. */
  predicate Restorable(s: seq<Byte>, sep: Byte) {
    s == [] || (s[0] != sep && TrailingRun(s, sep) % 2 == 0)
  }

  /** The splitting loop comes to the end of the string, and does not jump over it. */
  predicate Complete(s: seq<Byte>, sep: Byte, j: nat)
    requires j <= |s| + 1
    decreases |s| + 1 - j
  {
    if j >= |s| then j == |s| else if s[j] == sep then Complete(s, sep, j + 2) else Complete(s, sep, j + 1)
  }

  lemma {:induction false} RunOfSuffix(s: seq<Byte>, sep: Byte, j: nat)
    requires j < |s|
    ensures TrailingRun(s[j..], sep) ==
      if TrailingRun(s[j + 1..], sep) < |s| - j - 1 || s[j] != sep then TrailingRun(s[j + 1..], sep) else |s| - j
    decreases |s| - j
  {
    var u, v := s[j..], s[j + 1..];
    if v != [] {
      assert u[|u| - 1] == v[|v| - 1];
      if v[|v| - 1] == sep {
        var s' := s[..|s| - 1];
        RunOfSuffix(s', sep, j);
        assert u[..|u| - 1] == s'[j..] && v[..|v| - 1] == s'[j + 1..];
      }
    }
  }

  lemma {:induction false} CompleteIsEvenRun(s: seq<Byte>, sep: Byte, j: nat)
    requires j <= |s|
    ensures Complete(s, sep, j) <==> TrailingRun(s[j..], sep) % 2 == 0
    decreases |s| - j
  {
    if j < |s| {
      RunOfSuffix(s, sep, j);
      if s[j] != sep {
        CompleteIsEvenRun(s, sep, j + 1);
      } else if j + 1 < |s| {
        RunOfSuffix(s, sep, j + 1);
        CompleteIsEvenRun(s, sep, j + 2);
      }
    }
  }

  /**
   What the parts hold from a given state of the loop on: the rest of the string, or without its last
   separator when the loop jumps over the end, or with one byte too much when it then also finds a
   separator behind the end.
   */
  function Held(t: Text, sep: Byte, start: nat, j: nat): (r: seq<Byte>)
    requires start <= j <= |t.chars|
    ensures r == t.chars[start..] <==> Complete(t.chars, sep, j)
  {
    CompleteOrTrailing(t.chars, sep, j);
    if Complete(t.chars, sep, j) then t.chars[start..]
    else if t.beyond == sep then t.chars[start..] + [t.next]
    else t.chars[start..|t.chars| - 1]
  }

  lemma {:induction false} CompleteOrTrailing(s: seq<Byte>, sep: Byte, j: nat)
    requires j <= |s|
    ensures !Complete(s, sep, j) ==> j < |s| && s[|s| - 1] == sep
    decreases |s| - j
  {
    if j < |s| && s[j] != sep {
      CompleteOrTrailing(s, sep, j + 1);
    } else if j + 1 < |s| {
      CompleteOrTrailing(s, sep, j + 2);
    }
  }

  lemma HeldStep(t: Text, sep: Byte, start: nat, j: nat)
    requires start <= j && j + 1 < |t.chars| && t.chars[j] == sep
    ensures Held(t, sep, start, j) == t.chars[start..j] + ([sep] + Held(t, sep, j + 1, j + 2))
  {
    CompleteOrTrailing(t.chars, sep, j + 2);
    var s := t.chars;
    assert s[start..] == s[start..j] + [sep] + s[j + 1..];
  }

  lemma PartsStep(t: Text, sep: Byte, start: nat, j: nat)
    requires start <= j <= |t.chars| + 1
    ensures Parts(t, sep, start, j)
            == if Memory(t)[j] == sep || j == |t.chars| then [Memory(t)[start..j]] + Parts(t, sep, j + 1, j + 2)
               else Parts(t, sep, start, j + 1)
    ensures Parts(t, sep, |t.chars| + 1, |t.chars| + 2) == []
  {
  }

  /** The parts, each behind a separator, hold exactly that. */
  lemma {:induction false} GlueParts(t: Text, sep: Byte, start: nat, j: nat)
    requires start <= j <= |t.chars| && t.next != sep
    ensures Glue(Parts(t, sep, start, j), sep) == [sep] + Held(t, sep, start, j)
    decreases |t.chars| - j
  {
    hide Parts, Glue, Held, Complete;
    var s := t.chars;
    PartsStep(t, sep, start, j);
    assert j < |s| ==> Memory(t)[j] == s[j];
    assert Memory(t)[start..j] == s[start..j];
    if j == |s| {
      HeldEnd(t, sep, start);
      SingleGlue(s[start..], [], sep);
      NoGlue(sep);
      assert s[start..j] == s[start..] && [s[start..]] + [] == [s[start..]];
    } else if s[j] == sep {
      SingleGlue(s[start..j], Parts(t, sep, j + 1, j + 2), sep);
      if j + 1 < |s| {
        HeldStep(t, sep, start, j);
        GlueParts(t, sep, j + 1, j + 2);
        Regroup([sep], s[start..j], [sep], Held(t, sep, j + 1, j + 2));
      } else {
        PartsBehindEnd(t, sep);
        HeldLast(t, sep, start);
        Regroup([sep], s[start..j], [sep], [t.next]);
      }
    } else {
      HeldSame(t, sep, start, j);
      GlueParts(t, sep, start, j + 1);
    }
  }

  lemma Regroup(a: seq<Byte>, b: seq<Byte>, c: seq<Byte>, d: seq<Byte>)
    ensures a + b + (c + d) == a + (b + (c + d)) && a + b + [] == a + b && (a + b) + c == a + (b + c)
  {
  }

  lemma NoGlue(sep: Byte)
    ensures Glue([], sep) == []
  {
  }

  lemma HeldEnd(t: Text, sep: Byte, start: nat)
    requires start <= |t.chars|
    ensures Held(t, sep, start, |t.chars|) == t.chars[start..]
  {
  }

  lemma HeldSame(t: Text, sep: Byte, start: nat, j: nat)
    requires start <= j < |t.chars| && t.chars[j] != sep
    ensures Held(t, sep, start, j) == Held(t, sep, start, j + 1)
  {
  }

  /** A separator at the very end. */
  lemma HeldLast(t: Text, sep: Byte, start: nat)
    requires start < |t.chars| && t.chars[|t.chars| - 1] == sep
    ensures Held(t, sep, start, |t.chars| - 1)
            == t.chars[start..|t.chars| - 1] + if t.beyond == sep then [sep] + [t.next] else []
  {
    var s, j := t.chars, |t.chars| - 1;
    assert !Complete(s, sep, j);
    assert s[start..] == s[start..j] + [sep];
    assert s[start..] + [t.next] == s[start..j] + ([sep] + [t.next]);
  }

  lemma PartsBehindEnd(t: Text, sep: Byte)
    ensures Parts(t, sep, |t.chars|, |t.chars| + 1) == if t.beyond == sep then [[t.next]] else []
    ensures Glue(Parts(t, sep, |t.chars|, |t.chars| + 1), sep) == if t.beyond == sep then [sep, t.next] else []
  {
    var n := |t.chars|;
    assert Parts(t, sep, n + 2, n + 3) == [] && Parts(t, sep, n, n + 2) == [];
    assert Memory(t)[n..n + 1] == [t.next];
    SingleGlue([t.next], [], sep);
  }

  lemma SingleGlue(part: seq<Byte>, parts: seq<seq<Byte>>, sep: Byte)
    ensures Glue([part] + parts, sep) == [sep] + part + Glue(parts, sep)
  {
    assert ([part] + parts)[1..] == parts;
  }

  /**
   Splitting a string into options and merging them again restores it exactly when it does not begin with a
   separator and does not end in an odd number of them.
   */
  lemma SplitThenMerge(t: Text, sep: Byte)
    requires sep != 0 && t.next != sep
    ensures MergeAll([], ArrayParts(t, sep), sep) == t.chars <==> Restorable(t.chars, sep)
  {
    var s := t.chars;
    var parts := Parts(t, sep, 0, 0);
    if s == [] {
      assert parts == [[]] + Parts(t, sep, 1, 2) && Parts(t, sep, 1, 2) == [];
      assert MergeAll([], [[]], sep) == MergeAll([], [], sep);
    } else if s[0] != sep {
      CompleteIsEvenRun(s, sep, 0);
      assert s[0..] == s;
      FirstPart(t, sep, 0, 1);
      MergeFirst(parts, sep);
      GlueParts(t, sep, 0, 0);
      assert ([sep] + MergeAll([], parts, sep))[1..] == MergeAll([], parts, sep);
      assert ([sep] + Held(t, sep, 0, 0))[1..] == Held(t, sep, 0, 0);
    } else {
      assert parts == [[]] + Parts(t, sep, 1, 2);
      assert parts[1..] == Parts(t, sep, 1, 2);
      LeadingSeparatorIsLost(t, sep);
    }
  }

  lemma MergeFirst(parts: seq<seq<Byte>>, sep: Byte)
    requires parts != [] && parts[0] != []
    ensures [sep] + MergeAll([], parts, sep) == Glue(parts, sep)
  {
    MergeIsGlue(parts[0], parts[1..], sep);
  }

  /** Every part but one at the very beginning has at least one byte. */
  lemma {:induction false} FirstPart(t: Text, sep: Byte, start: nat, j: nat)
    requires start < j <= |t.chars|
    ensures Parts(t, sep, start, j) != [] && Parts(t, sep, start, j)[0] != []
    decreases |t.chars| - j
  {
    if j < |t.chars| && t.chars[j] != sep {
      FirstPart(t, sep, start, j + 1);
    }
  }

  lemma LeadingSeparatorIsLost(t: Text, sep: Byte)
    requires sep != 0 && t.next != sep && t.chars != [] && t.chars[0] == sep
    ensures MergeAll([], Parts(t, sep, 1, 2), sep) != t.chars
  {
    var s := t.chars;
    var parts := Parts(t, sep, 1, 2);
    if |s| == 1 {
      PartsBehindEnd(t, sep);
      assert t.beyond == sep ==> MergeAll([], [[t.next]], sep) == [t.next];
    } else {
      FirstPart(t, sep, 1, 2);
      MergeFirst(parts, sep);
      GlueParts(t, sep, 1, 2);
      var merged := MergeAll([], parts, sep);
      CompleteOrTrailing(s, sep, 2);
      assert merged == ([sep] + merged)[1..] == Held(t, sep, 1, 2);
      if !Complete(s, sep, 2) && t.beyond == sep {
        assert merged[|s| - 1] == t.next;
      }
    }
  }
}
