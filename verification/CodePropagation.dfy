/**
 Code propagation over broadcasts (apps/codeprop/codeprop.c): the sending and the receiving protothread as
 methods that run from one resumption to the next, and the whole network as a state machine over a channel
 that may lose, repeat and reorder packets.
 */
module CodePropagation {
  import opened Common

  const UDPDATASIZE := 32
  /** More than any address and any datagram together, so that no write runs past the end. */
  const EEPROM_SIZE := 131072

  datatype Kind = Data | Nack

  datatype Packet = Packet(kind: Kind, id: Word, addr: Word, len: Word, data: seq<Byte>)

  // ----- The receiving thread -----

  datatype ReceiverState = ReceiverState(addr: Word, len: Word, id: Word, receiving: bool, stored: seq<Byte>)

  datatype ReceiverOutcome = ReceiverOutcome(state: ReceiverState, nack: Option<Word>, started: bool)

  predicate Fits(s: seq<Byte>, newData: Option<Packet>) {
    |s| == EEPROM_SIZE && (newData.Some? ==> |newData.value.data| < 65536)
  }

  /** What the receiver does with the packet at hand while it collects an image. */
  function Take(s: ReceiverState, addr: Word, data: seq<Byte>): ReceiverOutcome
    requires |s.stored| == EEPROM_SIZE && |data| < 65536
  {
    if s.addr >= s.len then ReceiverOutcome(s.(receiving := false), None, true)
    else
      var s' := if addr == s.addr then s.(stored := Splice(s.stored, s.addr, data), addr := (s.addr + |data|) % 65536)
                else s;
      var nack := if addr > s.addr then Some(s.addr) else None;
      ReceiverOutcome(s'.(receiving := s'.addr < s'.len), nack, s'.addr >= s'.len)
  }

  predicate Adopts(s: ReceiverState, newData: Option<Packet>) {
    !s.receiving && newData.Some? && newData.value.kind == Data && newData.value.id > s.id
  }

  /**
   recv_udpthread from one wait to the next.  A packet of a newer image is adopted whatever its address:
   send_nack overwrites the address that the loop looks at, so the data is stored at address 0.
   */
  function ReceiverStep(s: ReceiverState, newData: Option<Packet>, expired: bool): ReceiverOutcome
    requires Fits(s.stored, newData)
  {
    if !s.receiving then
      if Adopts(s, newData) then
        var p := newData.value;
        var o := Take(s.(addr := 0, id := p.id, len := p.len), 0, p.data);
        if p.addr != 0 then o.(nack := Some(0)) else o
      else ReceiverOutcome(s, None, false)
    else if expired then ReceiverOutcome(s, Some(s.addr), false)
    else if newData.Some? && newData.value.kind == Data && newData.value.id == s.id then
      Take(s, newData.value.addr, newData.value.data)
    else ReceiverOutcome(s, None, false)
  }

  /**
   What a receiver asks for: its own address when its timer runs out or a packet from further on comes, the start of
   the image when it adopts that from another packet than the first, and otherwise nothing.
   */
  lemma NackAsksFor(s: ReceiverState, newData: Option<Packet>, expired: bool)
    requires Fits(s.stored, newData) && (s.receiving ==> s.addr < s.len)
    ensures
      var nack := ReceiverStep(s, newData, expired).nack;
      && (s.receiving ==>
           (nack == Some(s.addr) <==>
              expired || (newData.Some? && newData.value.kind == Data && newData.value.id == s.id &&
                          newData.value.addr > s.addr)))
      && (!s.receiving ==>
           (nack == Some(0) <==>
              newData.Some? && newData.value.kind == Data && newData.value.id > s.id && newData.value.addr != 0))
      && (nack == None || nack == Some(if s.receiving then s.addr else 0))
  {
  }

  class Receiver {
    var addr: Word
    var len: Word
    var id: Word
    /** The thread waits inside the collecting loop. */
    var receiving: bool
    const eeprom: array<Byte>

    constructor ()
      ensures fresh(eeprom) && eeprom.Length == EEPROM_SIZE
      ensures State() == ReceiverState(0, 0, 0, false, eeprom[..])
    {
      addr, len, id, receiving := 0, 0, 0, false;
      eeprom := new Byte[EEPROM_SIZE];
    }

    ghost function State(): ReceiverState
      reads this, eeprom
    {
      ReceiverState(addr, len, id, receiving, eeprom[..])
    }

    method EepromWrite(at: nat, data: seq<Byte>)
      requires at + |data| <= eeprom.Length
      modifies eeprom
      ensures eeprom[..] == Splice(old(eeprom[..]), at, data)
    {
      forall k | 0 <= k < |data| {
        eeprom[at + k] := data[k];
      }
    }

    /** The collecting loop, from its guard to the next wait or to the end of the thread. */
    method Collect(uh: Packet) returns (nack: Option<Word>, started: bool)
      requires eeprom.Length == EEPROM_SIZE && |uh.data| < 65536
      modifies this, eeprom
      ensures ReceiverOutcome(State(), nack, started) == Take(old(State()), uh.addr, uh.data)
    {
      nack := None;
      if addr < len {
        if uh.addr == addr {
          if |uh.data| > 0 {
            EepromWrite(addr, uh.data);
            addr := (addr + |uh.data|) % 65536;
          }
        } else if uh.addr > addr {
          nack := Some(addr);
        }
        if addr < len {
          receiving := true;
          return nack, false;
        }
      }
      receiving := false;
      return nack, true;
    }

    /** recv_udpthread: `newData` is the packet at hand, `expired` says whether the nack timer has run out. */
    method Resume(newData: Option<Packet>, expired: bool) returns (nack: Option<Word>, started: bool)
      requires Fits(eeprom[..], newData)
      modifies this, eeprom
      ensures ReceiverOutcome(State(), nack, started) == ReceiverStep(old(State()), newData, expired)
    {
      nack, started := None, false;
      if !receiving {
        if newData.None? || newData.value.kind != Data || newData.value.id <= id {
          return;
        }
        var uh := newData.value;
        var refused := uh.addr != 0;
        if refused {
          addr := 0;
          // send_nack writes into the packet at hand, so the loop ends here all the same.
          uh := uh.(kind := Nack, addr := 0);
        }
        addr, id, len := 0, uh.id, uh.len;
        nack, started := Collect(uh);
        if refused {
          nack := Some(0);
        }
      } else if expired {
        nack := Some(addr);
      } else if newData.Some? && newData.value.kind == Data && newData.value.id == id {
        nack, started := Collect(newData.value);
      }
    }
  }

  // ----- The sending thread -----

  /** Where the sending thread waits: for an image, for a packet or its timer, or after having handled a packet. */
  datatype Point = AwaitImage | AwaitEvent | Yielded

  datatype SourceState = SourceState(addr: Word, len: Word, id: Word, sending: bool, at: Point, image: seq<Byte>)

  datatype SourceOutcome = SourceOutcome(state: SourceState, sent: Option<Packet>)

  predicate SourceOk(s: SourceState) {
    s.addr <= s.len == |s.image|
  }

  /** The next data packet of the image. */
  function Chunk(s: SourceState): Packet
    requires SourceOk(s)
  {
    Packet(Data, s.id, s.addr, s.len, s.image[s.addr..s.addr + Min(UDPDATASIZE, s.len - s.addr)])
  }

  /** The sending loop from its guard to the next wait. */
  function SendNext(s: SourceState, newData: bool): SourceOutcome
    requires SourceOk(s)
  {
    if s.addr < s.len then
      SourceOutcome(s.(addr := s.addr + |Chunk(s).data|, at := if newData then Yielded else AwaitEvent), Some(Chunk(s)))
    else SourceOutcome(s.(sending := false, at := AwaitImage), None)
  }

  /** A packet that arrives while the sender waits: only a nack for an earlier address counts. */
  function Rewind(s: SourceState, p: Packet): SourceState {
    if p.kind == Nack && p.addr <= s.addr then s.(addr := p.addr, at := Yielded) else s.(at := Yielded)
  }

  /** send_udpthread from one wait to the next. */
  function SourceStep(s: SourceState, newData: Option<Packet>, expired: bool): SourceOutcome
    requires SourceOk(s)
  {
    match s.at
    case AwaitImage =>
      if s.sending then SendNext(s.(addr := 0), newData.Some?) else SourceOutcome(s, None)
    case AwaitEvent =>
      if newData.Some? then SourceOutcome(Rewind(s, newData.value), None)
      else if expired then SendNext(s, false)
      else SourceOutcome(s, None)
    case Yielded =>
      if expired then SendNext(s, newData.Some?)
      else if newData.Some? then SourceOutcome(Rewind(s, newData.value), None)
      else SourceOutcome(s.(at := AwaitEvent), None)
  }

  /**
   While the source waits for its timer, a nack for an address that it has passed, or reached, makes it send the image
   from that address on; any other packet leaves its address alone.
   */
  lemma NackRewinds(s: SourceState, p: Packet, expired: bool)
    requires SourceOk(s) && (s.at == AwaitEvent || (s.at == Yielded && !expired))
    ensures
      var o := SourceStep(s, Some(p), expired);
      var from := if p.kind == Nack && p.addr <= s.addr then p.addr else s.addr;
      var next := SourceStep(o.state, None, true);
      && o.sent == None && o.state == s.(addr := from, at := Yielded) && SourceOk(o.state)
      && next.sent == (if from == s.len then None
                       else var n := if s.len - from < 32 then s.len - from else 32;
                            Some(Packet(Data, s.id, from, s.len, s.image[from..from + n])))
      && (from < s.len ==> next.state.addr == from + |next.sent.value.data|)
  {
  }

  /** codeprop_start_broadcast for an image that lies in the EEPROM. */
  function PublishStep(s: SourceState, image: seq<Byte>): SourceState
    requires |image| < 65536
  {
    s.(addr := 0, len := |image|, id := (s.id + 1) % 65536, sending := true, image := image)
  }

  class Source {
    var addr: Word
    var len: Word
    var id: Word
    var sending: bool
    var at: Point
    /** The part of the EEPROM that holds the image. */
    var image: seq<Byte>

    constructor ()
      ensures State() == SourceState(0, 0, 0, false, AwaitImage, [])
    {
      addr, len, id, sending, at, image := 0, 0, 0, false, AwaitImage, [];
    }

    ghost function State(): SourceState
      reads this
    {
      SourceState(addr, len, id, sending, at, image)
    }

    method StartBroadcast(newImage: seq<Byte>)
      requires |newImage| < 65536
      modifies this
      ensures State() == PublishStep(old(State()), newImage) && SourceOk(State())
    {
      image := newImage;
      addr, len := 0, |newImage|;
      id := (id + 1) % 65536;
      sending := true;
    }

    method SendUdpData() returns (p: Packet)
      requires SourceOk(State())
      ensures p == Chunk(State())
    {
      var n := if len - addr > UDPDATASIZE then UDPDATASIZE else len - addr;
      p := Packet(Data, id, addr, len, image[addr..addr + n]);
    }

    /** send_udpthread; a packet that it sends overwrites the one at hand. */
    method Resume(newData: Option<Packet>, expired: bool) returns (sent: Option<Packet>)
      requires SourceOk(State())
      modifies this
      ensures SourceOutcome(State(), sent) == SourceStep(old(State()), newData, expired)
      ensures SourceOk(State())
    {
      sent := None;
      if at == AwaitImage {
        if !sending {
          return;
        }
        addr := 0;
      } else if at == AwaitEvent || !expired {
        if newData.Some? {
          if newData.value.kind == Nack {
            // Only accept a nack that points to a lower byte.
            if newData.value.addr <= addr {
              addr := newData.value.addr;
            }
          }
          at := Yielded;
          return;
        } else if !expired {
          at := AwaitEvent;
          return;
        }
      }
      if addr < len {
        var p := SendUdpData();
        addr := addr + |p.data|;
        sent := Some(p);
        at := if newData.Some? then Yielded else AwaitEvent;
      } else {
        sending := false;
        at := AwaitImage;
      }
    }
  }
}
