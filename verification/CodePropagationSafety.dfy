/** The code propagation protocol as a whole: one source, any number of receivers, an unreliable channel. */
module CodePropagationSafety {
  import opened Common
  import opened CodePropagation

  /** Which packet made a receiver adopt the image it collects: its address, and the length of its data. */
  datatype Origin = Origin(addr: nat, size: nat)

  /** A program that was started: by which receiver, under which id, with which code, adopted from which packet. */
  datatype Start = Start(receiver: nat, id: Word, program: seq<Byte>, origin: Origin)

  /** images[k - 1] is the image that was published with id k; sent holds every packet that ever went out. */
  datatype Net = Net(
    source: SourceState,
    receivers: seq<ReceiverState>,
    origins: seq<Origin>,
    images: seq<seq<Byte>>,
    sent: set<Packet>,
    starts: seq<Start>)

  datatype Action =
    | Publish(image: seq<Byte>)
    | SourceRuns(newData: Option<Packet>, expired: bool)
    | ReceiverRuns(receiver: nat, newData: Option<Packet>, expired: bool)

  /**
   The channel delivers any data packet that was ever sent, at any time and any number of times, or none.
   Nacks are not restricted at all.  Ids do not wrap.
   */
  predicate Enabled(n: Net, a: Action) {
    match a
    case Publish(image) => |image| < 65536 && n.source.id < 65535
    case SourceRuns(newData, expired) => SourceOk(n.source)
    case ReceiverRuns(r, newData, expired) =>
      && r < |n.receivers| == |n.origins| && Fits(n.receivers[r].stored, newData)
      && (newData.Some? && newData.value.kind == Data ==> newData.value in n.sent)
  }

  function Apply(n: Net, a: Action): Net
    requires Enabled(n, a)
  {
    match a
    case Publish(image) => n.(source := PublishStep(n.source, image), images := n.images + [image])
    case SourceRuns(newData, expired) =>
      var o := SourceStep(n.source, newData, expired);
      n.(source := o.state, sent := if o.sent.Some? then n.sent + {o.sent.value} else n.sent)
    case ReceiverRuns(r, newData, expired) =>
      var s := n.receivers[r];
      var o := ReceiverStep(s, newData, expired);
      var origin := if Adopts(s, newData) then Origin(newData.value.addr, |newData.value.data|) else n.origins[r];
      n.(receivers := n.receivers[r := o.state],
         origins := n.origins[r := origin],
         starts := if o.started then n.starts + [Start(r, o.state.id, o.state.stored[..o.state.len], origin)]
                   else n.starts)
  }

  predicate Initial(n: Net) {
    && n.source == SourceState(0, 0, 0, false, AwaitImage, [])
    && |n.receivers| == |n.origins|
    && (forall r :: 0 <= r < |n.receivers| ==>
          var s := n.receivers[r];
          s.addr == 0 && s.len == 0 && s.id == 0 && !s.receiving && |s.stored| == EEPROM_SIZE)
    && n.images == [] && n.sent == {} && n.starts == []
  }

  /** n' is reached from n by the given steps. */
  ghost predicate Runs(n: Net, actions: seq<Action>, n': Net)
    decreases |actions|
  {
    if actions == [] then n' == n
    else Enabled(n, actions[0]) && Runs(Apply(n, actions[0]), actions[1..], n')
  }

  // ----- The invariant -----

  /** The bytes below addr, when the image was adopted from the packet that `o` describes. */
  function Expected(image: seq<Byte>, o: Origin, addr: nat): seq<Byte>
    requires o.size <= addr <= |image| && o.addr + o.size <= |image|
  {
    image[o.addr..o.addr + o.size] + image[o.size..addr]
  }

  predicate GoodPacket(images: seq<seq<Byte>>, p: Packet) {
    && p.kind == Data && 0 < p.id <= |images|
    && var image := images[p.id - 1];
    && p.len == |image| && p.addr < p.len
    && |p.data| == Min(UDPDATASIZE, p.len - p.addr) && p.data == image[p.addr..p.addr + |p.data|]
  }

  predicate GoodSource(images: seq<seq<Byte>>, s: SourceState) {
    && SourceOk(s) && s.id == |images|
    && if s.id == 0 then s == SourceState(0, 0, 0, false, AwaitImage, []) else s.image == images[s.id - 1]
  }

  predicate GoodReceiver(images: seq<seq<Byte>>, s: ReceiverState, o: Origin) {
    && |s.stored| == EEPROM_SIZE && s.id <= |images|
    && if s.id == 0 then s.addr == s.len == 0 && !s.receiving
       else
         var image := images[s.id - 1];
         && s.len == |image| && IsChunk(image, o) && o.size <= s.addr <= s.len
         && s.stored[..s.addr] == Expected(image, o, s.addr)
         && (s.receiving <==> s.addr < s.len)
  }

  predicate GoodStart(images: seq<seq<Byte>>, t: Start) {
    && 0 < t.id <= |images|
    && var image := images[t.id - 1];
    && IsChunk(image, t.origin) && t.origin.size <= |image| && t.program == Expected(image, t.origin, |image|)
  }

  /** One packet of the image has the bytes that `o` describes. */
  predicate IsChunk(image: seq<Byte>, o: Origin) {
    o.addr < |image| && o.size == Min(UDPDATASIZE, |image| - o.addr)
  }

  ghost predicate Inv(n: Net) {
    && |n.receivers| == |n.origins| && |n.images| < 65536
    && (forall k :: 0 <= k < |n.images| ==> |n.images[k]| < 65536)
    && GoodSource(n.images, n.source)
    && (forall p :: p in n.sent ==> GoodPacket(n.images, p))
    && (forall r :: 0 <= r < |n.receivers| ==> GoodReceiver(n.images, n.receivers[r], n.origins[r]))
    && (forall i :: 0 <= i < |n.starts| ==> GoodStart(n.images, n.starts[i]))
  }

  /** An adopting receiver stores the data of the packet, from whatever address, at address 0. */
  lemma AdoptKeeps(images: seq<seq<Byte>>, s: ReceiverState, p: Packet, expired: bool)
    requires |images| < 65536 && |s.stored| == EEPROM_SIZE && s.id <= |images|
    requires GoodPacket(images, p) && Adopts(s, Some(p))
    ensures var o := ReceiverStep(s, Some(p), expired);
      && GoodReceiver(images, o.state, Origin(p.addr, |p.data|)) && o.state.id == p.id
      && (o.started ==> o.state.addr == o.state.len)
  {
    var o := ReceiverStep(s, Some(p), expired);
    assert o.state.stored[..|p.data|] == p.data;
    assert images[p.id - 1][|p.data|..|p.data|] == [];
  }

  /** A receiver that collects only appends what belongs at its address. */
  lemma CollectKeeps(images: seq<seq<Byte>>, s: ReceiverState, o: Origin, p: Packet)
    requires GoodReceiver(images, s, o) && s.receiving && GoodPacket(images, p) && p.id == s.id
    ensures var t := Take(s, p.addr, p.data);
      GoodReceiver(images, t.state, o) && t.state.id == s.id && (t.started ==> t.state.addr == t.state.len)
  {
    hide Expected, Splice;
    if s.addr < s.len && p.addr == s.addr {
      var image, end := images[s.id - 1], s.addr + |p.data|;
      Spliced(s.stored, s.addr, p.data);
      ExpectedGrows(image, o, s.addr, end);
    }
  }

  lemma Spliced(stored: seq<Byte>, at: nat, data: seq<Byte>)
    requires at + |data| <= |stored|
    ensures |Splice(stored, at, data)| == |stored| && Splice(stored, at, data)[..at + |data|] == stored[..at] + data
  {
  }

  lemma ExpectedGrows(image: seq<Byte>, o: Origin, addr: nat, end: nat)
    requires o.size <= addr <= end <= |image| && o.addr + o.size <= |image|
    ensures Expected(image, o, end) == Expected(image, o, addr) + image[addr..end]
  {
  }

  lemma ReceiverKeeps(images: seq<seq<Byte>>, s: ReceiverState, o: Origin, newData: Option<Packet>, expired: bool)
    requires |images| < 65536 && GoodReceiver(images, s, o) && Fits(s.stored, newData)
    requires newData.Some? && newData.value.kind == Data ==> GoodPacket(images, newData.value)
    ensures var t := ReceiverStep(s, newData, expired);
      var o' := if Adopts(s, newData) then Origin(newData.value.addr, |newData.value.data|) else o;
      && GoodReceiver(images, t.state, o') && t.state.id >= s.id
      && (t.started ==> t.state.id > 0 && t.state.addr == t.state.len)
  {
    hide GoodReceiver, GoodPacket, Take;
    GoodFacts(images, s, o);
    if Adopts(s, newData) {
      AdoptKeeps(images, s, newData.value, expired);
    } else if s.receiving && !expired && newData.Some? && newData.value.kind == Data && newData.value.id == s.id {
      CollectKeeps(images, s, o, newData.value);
    }
  }

  lemma GoodFacts(images: seq<seq<Byte>>, s: ReceiverState, o: Origin)
    requires GoodReceiver(images, s, o)
    ensures |s.stored| == EEPROM_SIZE && s.id <= |images| && (s.receiving ==> s.id > 0)
  {
  }

  lemma SourceKeeps(images: seq<seq<Byte>>, s: SourceState, newData: Option<Packet>, expired: bool)
    requires GoodSource(images, s) && |images| < 65536
    ensures var o := SourceStep(s, newData, expired);
      GoodSource(images, o.state) && (o.sent.Some? ==> GoodPacket(images, o.sent.value))
  {
    hide GoodPacket, SendNext;
    if s.at == AwaitImage && s.sending {
      SendKeeps(images, s.(addr := 0), newData.Some?);
    } else if s.at != AwaitImage && s.id > 0 {
      SendKeeps(images, s, newData.Some?);
    }
  }

  lemma SendKeeps(images: seq<seq<Byte>>, s: SourceState, newData: bool)
    requires GoodSource(images, s) && |images| < 65536 && s.id > 0
    ensures var o := SendNext(s, newData);
      GoodSource(images, o.state) && (o.sent.Some? ==> GoodPacket(images, o.sent.value))
  {
  }

  lemma MoreImages(n: Net, image: seq<Byte>)
    requires Inv(n) && |image| < 65536 && n.source.id < 65535
    ensures Inv(Apply(n, Publish(image)))
  {
    var m := Apply(n, Publish(image));
    forall p | p in m.sent
      ensures GoodPacket(m.images, p)
    {
      assert GoodPacket(n.images, p);
    }
    forall i | 0 <= i < |m.starts|
      ensures GoodStart(m.images, m.starts[i])
    {
      assert GoodStart(n.images, n.starts[i]);
    }
    forall r | 0 <= r < |m.receivers|
      ensures GoodReceiver(m.images, m.receivers[r], m.origins[r])
    {
      assert GoodReceiver(n.images, n.receivers[r], n.origins[r]);
    }
  }

  lemma StepKeeps(n: Net, a: Action)
    requires Inv(n) && Enabled(n, a)
    ensures Inv(Apply(n, a))
    ensures var m := Apply(n, a);
      && |m.receivers| == |n.receivers| && n.images <= m.images && n.starts <= m.starts
      && forall r :: 0 <= r < |n.receivers| ==> n.receivers[r].id <= m.receivers[r].id
  {
    hide GoodReceiver, GoodPacket, GoodSource, GoodStart, ReceiverStep, SourceStep;
    var m := Apply(n, a);
    match a
    case Publish(image) =>
      SourceIds(n);
      MoreImages(n, image);
    case SourceRuns(newData, expired) =>
      SourceKeeps(n.images, n.source, newData, expired);
    case ReceiverRuns(r, newData, expired) =>
      ReceiverKeeps(n.images, n.receivers[r], n.origins[r], newData, expired);
      if |m.starts| > |n.starts| {
        StartIsGood(m.images, m.receivers[r], m.origins[r], r);
      }
  }

  lemma SourceIds(n: Net)
    requires Inv(n)
    ensures SourceOk(n.source) && n.source.id == |n.images|
  {
  }

  lemma StartIsGood(images: seq<seq<Byte>>, s: ReceiverState, o: Origin, r: nat)
    requires GoodReceiver(images, s, o) && s.id > 0 && s.addr == s.len
    ensures |s.stored| == EEPROM_SIZE && GoodStart(images, Start(r, s.id, s.stored[..s.len], o))
  {
  }

  lemma {:induction false} RunKeeps(n: Net, actions: seq<Action>, n': Net)
    requires Inv(n) && Runs(n, actions, n')
    ensures Inv(n')
    ensures |n'.receivers| == |n.receivers| && n.images <= n'.images && n.starts <= n'.starts
    ensures forall r :: 0 <= r < |n.receivers| ==> n.receivers[r].id <= n'.receivers[r].id
    decreases |actions|
  {
    hide Inv, Enabled, Apply;
    if actions != [] {
      StepKeeps(n, actions[0]);
      RunKeeps(Apply(n, actions[0]), actions[1..], n');
    }
  }

  // ----- What holds over whole runs -----

  /** The packet that a receiver adopted the image from carried the bytes that belong at address 0. */
  predicate RightStart(image: seq<Byte>, o: Origin)
    requires IsChunk(image, o)
  {
    image[o.addr..o.addr + o.size] == image[..o.size]
  }

  lemma ExpectedIsPrefix(image: seq<Byte>, o: Origin, addr: nat)
    requires IsChunk(image, o) && o.size <= addr <= |image|
    ensures Expected(image, o, addr) == image[..addr] <==> RightStart(image, o)
    ensures o.addr == 0 ==> RightStart(image, o)
    ensures Expected(image, o, addr)[o.size..] == image[o.size..addr]
  {
    assert image[..addr] == image[..o.size] + image[o.size..addr];
    assert Expected(image, o, addr)[..o.size] == image[o.addr..o.addr + o.size];
    assert image[..addr][..o.size] == image[..o.size];
  }

  /**
   In every reachable state a receiver with id k has addr <= len, the length of image k, and has stored
   image k below addr, except that its first bytes are those of the packet that it adopted the image from.
   So the stored prefix is right exactly when that packet carried the first bytes of the image, and in
   particular when its address was 0.
   */
  lemma StoredPrefix(n: Net, actions: seq<Action>, n': Net, r: nat)
    requires Initial(n) && Runs(n, actions, n') && r < |n'.receivers| && n'.receivers[r].id > 0
    ensures |n'.origins| == |n'.receivers|
    ensures var s, o := n'.receivers[r], n'.origins[r];
      && s.id <= |n'.images| && |s.stored| == EEPROM_SIZE
      && var image := n'.images[s.id - 1];
      && s.len == |image| && IsChunk(image, o) && o.size <= s.addr <= s.len
      && s.stored[o.size..s.addr] == image[o.size..s.addr]
      && (s.stored[..s.addr] == image[..s.addr] <==> RightStart(image, o))
      && (o.addr == 0 ==> s.stored[..s.addr] == image[..s.addr])
  {
    RunKeeps(n, actions, n');
    var s, o := n'.receivers[r], n'.origins[r];
    assert GoodReceiver(n'.images, s, o);
    ExpectedIsPrefix(n'.images[s.id - 1], o, s.addr);
    assert s.stored[o.size..s.addr] == s.stored[..s.addr][o.size..];
  }

  /** Every program that is ever started is a published image, exactly when it was adopted from the right bytes. */
  lemma StartedPrograms(n: Net, actions: seq<Action>, n': Net, i: nat)
    requires Initial(n) && Runs(n, actions, n') && i < |n'.starts|
    ensures var t := n'.starts[i];
      && 0 < t.id <= |n'.images| && IsChunk(n'.images[t.id - 1], t.origin)
      && |t.program| == |n'.images[t.id - 1]|
      && (t.program == n'.images[t.id - 1] <==> RightStart(n'.images[t.id - 1], t.origin))
      && (t.origin.addr == 0 ==> t.program == n'.images[t.id - 1])
  {
    RunKeeps(n, actions, n');
    var t := n'.starts[i];
    assert GoodStart(n'.images, t);
    var image := n'.images[t.id - 1];
    ExpectedIsPrefix(image, t.origin, |image|);
    assert image[..|image|] == image;
  }

  /** Between any two reachable states no id decreases, and no image and no start is undone. */
  lemma IdsNeverDecrease(n: Net, before: seq<Action>, n1: Net, after: seq<Action>, n2: Net)
    requires Initial(n) && Runs(n, before, n1) && Runs(n1, after, n2)
    ensures |n2.receivers| == |n1.receivers| && n1.images <= n2.images && n1.starts <= n2.starts
    ensures forall r :: 0 <= r < |n1.receivers| ==> n1.receivers[r].id <= n2.receivers[r].id
  {
    RunKeeps(n, before, n1);
    RunKeeps(n1, after, n2);
  }

  // ----- A run that starts the wrong program, and one that starts the right one -----

  lemma RunTwo(n: Net, a: Action, b: Action, m: Net, rest: seq<Action>, n': Net)
    requires Enabled(n, a) && Enabled(Apply(n, a), b) && m == Apply(Apply(n, a), b) && Runs(m, rest, n')
    ensures Runs(n, [a, b] + rest, n')
  {
    var all := [a, b] + rest;
    assert all[1..][1..] == rest;
    assert all[1..][0] == b;
  }

  /**
   The first packet of an image is lost and the second one is delivered twice: the receiver fills its
   first 32 bytes with those of the second packet, and starts that.
   */
  lemma SecondPacketIsAdopted(n: Net, image: seq<Byte>) returns (actions: seq<Action>, n': Net)
    requires Initial(n) && |n.receivers| > 0
    requires |image| == 64 && image[..32] != image[32..]
    ensures Runs(n, actions, n')
    ensures |n'.starts| == 1 && n'.starts[0].id == 1 && n'.images == [image]
    ensures n'.starts[0].program == image[32..] + image[32..] != image
  {
    hide Runs;
    var first, second := Packet(Data, 1, 0, 64, image[..32]), Packet(Data, 1, 32, 64, image[32..]);
    var n2 := TwoSent(n, image, first, second);
    var hear := ReceiverRuns(0, Some(second), false);
    var n4 := HeardFirst(n2, image, second);
    n' := HeardAgain(n4, image, second);
    assert (image[32..] + image[32..])[..32] == image[32..];
    actions := [Publish(image), SEND] + ([SEND, hear] + [hear]);
    RunOne(n4, hear, n');
    RunTwo(Apply(Apply(n, Publish(image)), SEND), SEND, hear, n4, [hear], n');
    RunTwo(n, Publish(image), SEND, Apply(Apply(n, Publish(image)), SEND), [SEND, hear] + [hear], n');
  }

  const SEND := SourceRuns(None, true)

  lemma RunOne(n: Net, a: Action, n': Net)
    requires Enabled(n, a) && n' == Apply(n, a)
    ensures Runs(n, [a], n')
  {
    assert [a][1..] == [];
    assert Runs(n', [a][1..], n');
  }

  lemma TwoSent(n: Net, image: seq<Byte>, first: Packet, second: Packet) returns (n2: Net)
    requires Initial(n) && |image| == 64
    requires first == Packet(Data, 1, 0, 64, image[..32]) && second == Packet(Data, 1, 32, 64, image[32..])
    ensures Enabled(n, Publish(image)) && Enabled(Apply(n, Publish(image)), SEND)
    ensures Enabled(Apply(Apply(n, Publish(image)), SEND), SEND)
    ensures n2 == Apply(Apply(Apply(n, Publish(image)), SEND), SEND)
    ensures n2.receivers == n.receivers && n2.origins == n.origins && n2.starts == [] && n2.images == [image]
    ensures n2.sent == {first, second}
  {
    var n0 := Apply(n, Publish(image));
    assert image[0..0 + 32] == image[..32] && image[32..32 + 32] == image[32..];
    assert Chunk(n0.source) == first;
    var n1 := Apply(n0, SEND);
    assert Chunk(n1.source) == second;
    n2 := Apply(n1, SEND);
  }

  lemma HeardFirst(n2: Net, image: seq<Byte>, second: Packet) returns (n4: Net)
    requires |n2.receivers| == |n2.origins| > 0 && n2.starts == [] && second in n2.sent && |image| == 64
    requires second == Packet(Data, 1, 32, 64, image[32..])
    requires n2.receivers[0].id == 0 && !n2.receivers[0].receiving && |n2.receivers[0].stored| == EEPROM_SIZE
    ensures Enabled(n2, ReceiverRuns(0, Some(second), false)) && n4 == Apply(n2, ReceiverRuns(0, Some(second), false))
    ensures n4.starts == [] && n4.images == n2.images && n4.sent == n2.sent && |n4.receivers| == |n4.origins| > 0
    ensures n4.receivers[0] == ReceiverState(32, 64, 1, true, n4.receivers[0].stored)
    ensures |n4.receivers[0].stored| == EEPROM_SIZE && n4.receivers[0].stored[..32] == image[32..]
  {
    n4 := Apply(n2, ReceiverRuns(0, Some(second), false));
    var stored := Splice(n2.receivers[0].stored, 0, second.data);
    assert n4.receivers[0].stored == stored && stored[..32] == second.data;
  }

  lemma HeardAgain(n4: Net, image: seq<Byte>, second: Packet) returns (n': Net)
    requires |n4.receivers| == |n4.origins| > 0 && n4.starts == [] && second in n4.sent && |image| == 64
    requires second == Packet(Data, 1, 32, 64, image[32..])
    requires n4.receivers[0] == ReceiverState(32, 64, 1, true, n4.receivers[0].stored)
    requires |n4.receivers[0].stored| == EEPROM_SIZE && n4.receivers[0].stored[..32] == image[32..]
    ensures Enabled(n4, ReceiverRuns(0, Some(second), false)) && n' == Apply(n4, ReceiverRuns(0, Some(second), false))
    ensures |n'.starts| == 1 && n'.starts[0].id == 1 && n'.starts[0].program == image[32..] + image[32..]
    ensures n'.images == n4.images
  {
    n' := Apply(n4, ReceiverRuns(0, Some(second), false));
    var stored := Splice(n4.receivers[0].stored, 32, second.data);
    assert n'.receivers[0].stored == stored && stored[..64] == stored[..32] + second.data;
    assert stored[..32] == n4.receivers[0].stored[..32];
  }

  /** Source and receiver r have both come to the same address of the latest image. */
  ghost predicate InStep(n: Net, r: nat) {
    && Inv(n) && r < |n.receivers| && n.source.id > 0
    && n.source.at != AwaitImage && n.receivers[r].receiving && n.receivers[r].id == n.source.id
    && n.receivers[r].addr == n.source.addr < n.source.len && n.origins[r].addr == 0
  }

  ghost predicate Delivered(n: Net, r: nat, image: seq<Byte>) {
    |n.starts| > 0 && n.starts[|n.starts| - 1].receiver == r && n.starts[|n.starts| - 1].program == image
  }

  lemma SendEffect(n: Net)
    requires Inv(n) && n.source.id > 0 && n.source.at != AwaitImage && n.source.addr < n.source.len
    ensures SourceOk(n.source) && Enabled(n, SEND) && Inv(Apply(n, SEND))
    ensures var p := Chunk(n.source);
      && p.data != [] && p.addr == n.source.addr && p.id == n.source.id
      && Apply(n, SEND)
         == n.(source := n.source.(addr := n.source.addr + |p.data|, at := AwaitEvent), sent := n.sent + {p})
  {
    SourceIds(n);
    hide Inv;
    StepKeeps(n, SEND);
  }

  /** What a packet that a receiver waits for does. */
  lemma HearEffect(m: Net, r: nat, p: Packet)
    requires Inv(m) && p in m.sent && r < |m.receivers|
    requires var s := m.receivers[r]; s.receiving && s.id == p.id && s.addr == p.addr
    ensures var hear := ReceiverRuns(r, Some(p), false);
      && Enabled(m, hear)
      && var m' := Apply(m, hear);
      && Inv(m') && Heard(m, m', r) && m'.receivers[r].addr == p.addr + |p.data| && m'.origins[r] == m.origins[r]
      && m'.receivers[r].id == p.id
  {
    PacketFits(m, r, p);
    hide Inv;
    StepKeeps(m, ReceiverRuns(r, Some(p), false));
  }

  /** Nothing but receiver r has changed; it still collects, or it has started its program. */
  ghost predicate Heard(m: Net, m': Net, r: nat) {
    && |m'.receivers| == |m.receivers| == |m.origins| == |m'.origins| && r < |m.receivers|
    && m'.source == m.source && m'.images == m.images && m'.sent == m.sent
    && var s := m'.receivers[r];
    if s.addr < s.len then s.receiving else !s.receiving && |m'.starts| > |m.starts|
  }

  lemma PacketFits(m: Net, r: nat, p: Packet)
    requires Inv(m) && p in m.sent && r < |m.receivers|
    ensures Enabled(m, ReceiverRuns(r, Some(p), false)) && p.kind == Data && p.addr + |p.data| <= p.len && p.data != []
    ensures m.receivers[r].receiving && m.receivers[r].id == p.id ==> m.receivers[r].len == p.len
  {
    assert GoodPacket(m.images, p) && GoodReceiver(m.images, m.receivers[r], m.origins[r]);
  }

  /** The first packet of a newer image. */
  lemma AdoptEffect(m: Net, r: nat, p: Packet)
    requires Inv(m) && p in m.sent && r < |m.receivers| && p.addr == 0
    requires var s := m.receivers[r]; !s.receiving && s.id < p.id
    ensures var hear := ReceiverRuns(r, Some(p), false);
      && Enabled(m, hear)
      && var m' := Apply(m, hear);
      && Inv(m') && Heard(m, m', r) && m'.receivers[r].addr == |p.data| && m'.origins[r].addr == 0
      && m'.receivers[r].id == p.id
  {
    PacketFits(m, r, p);
    hide Inv;
    StepKeeps(m, ReceiverRuns(r, Some(p), false));
  }

  lemma SourceImage(n: Net)
    requires Inv(n) && n.source.id > 0
    ensures n.source.id == |n.images| && n.source.image == n.images[n.source.id - 1] && n.source.len == |n.source.image|
    ensures forall r :: 0 <= r < |n.receivers| && n.receivers[r].id == n.source.id ==>
      n.receivers[r].len == n.source.len
  {
    forall r | 0 <= r < |n.receivers| && n.receivers[r].id == n.source.id
      ensures n.receivers[r].len == n.source.len
    {
      assert GoodReceiver(n.images, n.receivers[r], n.origins[r]);
    }
  }

  /** When each next packet gets through, the receiver ends up starting the image. */
  lemma {:induction false} BroadcastGoesOn(n: Net, r: nat) returns (actions: seq<Action>, n': Net)
    requires InStep(n, r)
    ensures Runs(n, actions, n') && Delivered(n', r, n.source.image)
    decreases n.source.len - n.source.addr
  {
    hide Inv, Apply, Enabled, Runs, Delivered, Chunk;
    SendEffect(n);
    var p, m := Chunk(n.source), Apply(n, SEND);
    var hear := ReceiverRuns(r, Some(p), false);
    HearEffect(m, r, p);
    var m' := Apply(m, hear);
    SourceImage(n);
    SourceImage(m');
    if m'.receivers[r].receiving {
      actions, n' := BroadcastGoesOn(m', r);
    } else {
      StartedIsDelivered(m, m', r, p);
      actions, n' := [], m';
      RunNone(m');
    }
    RunTwo(n, SEND, hear, m', actions, n');
    actions := [SEND, hear] + actions;
  }

  lemma RunNone(n: Net)
    ensures Runs(n, [], n)
  {
  }

  lemma StartedIsDelivered(m: Net, m': Net, r: nat, p: Packet)
    requires Inv(m') && Enabled(m, ReceiverRuns(r, Some(p), false)) && m' == Apply(m, ReceiverRuns(r, Some(p), false))
    requires r < |m'.receivers| && m'.receivers[r].id > 0 && |m'.starts| > |m.starts| && m'.origins[r].addr == 0
    ensures m'.receivers[r].id <= |m'.images| && Delivered(m', r, m'.images[m'.receivers[r].id - 1])
  {
    var t := m'.starts[|m.starts|];
    assert GoodStart(m'.images, t);
    ExpectedIsPrefix(m'.images[t.id - 1], t.origin, |m'.images[t.id - 1]|);
    assert m'.images[t.id - 1][..|m'.images[t.id - 1]|] == m'.images[t.id - 1];
  }

  /** From every reachable state an idle receiver can be brought to start any image that is published next. */
  lemma BroadcastCanSucceed(n0: Net, before: seq<Action>, n: Net, r: nat, image: seq<Byte>)
      returns (actions: seq<Action>, n': Net)
    requires Initial(n0) && Runs(n0, before, n)
    requires r < |n.receivers| && !n.receivers[r].receiving && n.source.id < 65535 && 0 < |image| < 65536
    ensures Runs(n, actions, n') && Delivered(n', r, image)
  {
    hide Inv, Initial, Apply, Enabled, Runs, Delivered, Chunk;
    InitialKeeps(n0);
    RunKeeps(n0, before, n);
    var publish := Publish(image);
    PublishEffect(n, image, r);
    var n1 := Apply(n, publish);
    var p, n2 := Chunk(n1.source), Apply(n1, SEND);
    var hear := ReceiverRuns(r, Some(p), false);
    AdoptEffect(n2, r, p);
    var n3 := Apply(n2, hear);
    SourceImage(n3);
    if n3.receivers[r].receiving {
      actions, n' := BroadcastGoesOn(n3, r);
    } else {
      StartedIsDelivered(n2, n3, r, p);
      actions, n' := [], n3;
      RunNone(n3);
    }
    RunThree(n, publish, SEND, hear, n3, actions, n');
    actions := [publish, SEND] + ([hear] + actions);
  }

  // ----- Recovery from loss -----

  /** The source is between two packets of the image that receiver r collects, and not behind it. */
  ghost predicate Behind(n: Net, r: nat) {
    && r < |n.receivers| == |n.origins| && n.source.at != AwaitImage
    && n.receivers[r].receiving && n.receivers[r].id == n.source.id && n.origins[r].addr == 0
    && n.receivers[r].addr <= n.source.addr
  }

  /** The receiver has waited too long, or it hears a packet from behind the one it waits for. */
  predicate Misses(s: ReceiverState, newData: Option<Packet>, expired: bool) {
    expired || (newData.Some? && newData.value.kind == Data && newData.value.id == s.id && newData.value.addr > s.addr)
  }

  /**
   Whatever has been lost: in any reachable state a receiver that collects the current image, adopted from its first
   packet, can still be brought to start it.  Its nack asks for its own address, and the source goes on from there.
   */
  lemma LossIsRecovered(n0: Net, before: seq<Action>, n: Net, r: nat, newData: Option<Packet>, expired: bool)
      returns (nack: Packet, actions: seq<Action>, n': Net)
    requires Initial(n0) && Runs(n0, before, n) && Behind(n, r)
    requires Enabled(n, ReceiverRuns(r, newData, expired)) && Misses(n.receivers[r], newData, expired)
    ensures nack.kind == Nack && nack.addr == n.receivers[r].addr
    ensures Fits(n.receivers[r].stored, newData)
    ensures ReceiverStep(n.receivers[r], newData, expired).nack == Some(nack.addr)
    ensures [ReceiverRuns(r, newData, expired), SourceRuns(Some(nack), false)] <= actions
    ensures Runs(n, actions, n') && Delivered(n', r, n.source.image)
  {
    hide Inv, Initial, Apply, Enabled, Runs, Delivered, Misses;
    InitialKeeps(n0);
    RunKeeps(n0, before, n);
    nack := Packet(Nack, n.source.id, n.receivers[r].addr, 0, []);
    var report, answer := ReceiverRuns(r, newData, expired), SourceRuns(Some(nack), false);
    ReportEffect(n, r, newData, expired);
    AnswerEffect(Apply(n, report), r, nack);
    var m, rest := Apply(Apply(n, report), answer), [];
    rest, n' := BroadcastGoesOn(m, r);
    RunTwo(n, report, answer, m, rest, n');
    actions := [report, answer] + rest;
  }

  /** A receiver that misses a packet says so, and changes nothing else. */
  lemma ReportEffect(n: Net, r: nat, newData: Option<Packet>, expired: bool)
    requires Inv(n) && Behind(n, r) && Misses(n.receivers[r], newData, expired)
    requires Enabled(n, ReceiverRuns(r, newData, expired))
    ensures Fits(n.receivers[r].stored, newData)
    ensures ReceiverStep(n.receivers[r], newData, expired).nack == Some(n.receivers[r].addr)
    ensures n.receivers[r].addr < n.receivers[r].len && n.source.id > 0
    ensures var m := Apply(n, ReceiverRuns(r, newData, expired)); m == n && Inv(m) && Behind(m, r)
  {
    assert GoodReceiver(n.images, n.receivers[r], n.origins[r]);
    assert n.receivers[r := n.receivers[r]] == n.receivers && n.origins[r := n.origins[r]] == n.origins;
  }

  /** The source goes back to the address that the nack asks for. */
  lemma AnswerEffect(n: Net, r: nat, nack: Packet)
    requires Inv(n) && Behind(n, r) && nack.kind == Nack && nack.addr == n.receivers[r].addr < n.receivers[r].len
    requires n.source.id > 0
    ensures Enabled(n, SourceRuns(Some(nack), false))
    ensures var m := Apply(n, SourceRuns(Some(nack), false)); InStep(m, r) && m.source.image == n.source.image
  {
    SourceIds(n);
    SourceImage(n);
    hide Inv;
    StepKeeps(n, SourceRuns(Some(nack), false));
  }

  lemma RunThree(n: Net, a: Action, b: Action, c: Action, m: Net, rest: seq<Action>, n': Net)
    requires Enabled(n, a) && Enabled(Apply(n, a), b) && Enabled(Apply(Apply(n, a), b), c)
    requires m == Apply(Apply(Apply(n, a), b), c) && Runs(m, rest, n')
    ensures Runs(n, [a, b] + ([c] + rest), n')
  {
    hide Apply, Enabled;
    var n2 := Apply(Apply(n, a), b);
    assert ([c] + rest)[1..] == rest;
    assert Runs(n2, [c] + rest, n');
    RunTwo(n, a, b, n2, [c] + rest, n');
  }

  /** Publishing an image and sending its first packet, wherever the sending thread waits. */
  lemma PublishEffect(n: Net, image: seq<Byte>, r: nat)
    requires Inv(n) && n.source.id < 65535 && 0 < |image| < 65536 && r < |n.receivers|
    ensures Enabled(n, Publish(image))
    ensures
      var n1 := Apply(n, Publish(image));
      && SourceOk(n1.source) && Enabled(n1, SEND)
      && var p, n2 := Chunk(n1.source), Apply(n1, SEND);
      && Inv(n2) && p in n2.sent && p.addr == 0 && p.id == n.source.id + 1 && n2.receivers == n.receivers
      && n2.source == n1.source.(addr := |p.data|, at := AwaitEvent) && n1.source.image == image && n2.source.id == p.id
      && n.receivers[r].id < p.id
  {
    SourceIds(n);
    assert GoodReceiver(n.images, n.receivers[r], n.origins[r]);
    hide Inv;
    StepKeeps(n, Publish(image));
    StepKeeps(Apply(n, Publish(image)), SEND);
  }

  lemma InitialKeeps(n: Net)
    requires Initial(n)
    ensures Inv(n)
  {
  }
}
