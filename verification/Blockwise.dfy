/**
 Blockwise transfers of the CoAP engine (apps/er-coap/er-coap-engine.c, apps/er-coap/er-coap-block1.c): responses
 that are sliced into blocks, the client loop that fetches them, and the assembly of a request from its blocks.
 */
module Blockwise {
  import opened Common
  import opened CoapOptions
  import opened CoapMessage
  import opened WellKnownCore

  // ----- Block sizes -----

  /** COAP_MAX_BLOCK_SIZE for a given REST_MAX_CHUNK_SIZE. */
  function MaxBlockSize(chunk: nat): nat {
    if chunk < 32 then 16
    else if chunk < 64 then 32
    else if chunk < 128 then 64
    else if chunk < 256 then 128
    else if chunk < 512 then 256
    else if chunk < 1024 then 512
    else if chunk < 2048 then 1024
    else 2048
  }

  lemma PowersOfTwo()
    ensures Pow2(0) == 1 && Pow2(1) == 2 && Pow2(2) == 4 && Pow2(3) == 8
    ensures Pow2(4) == 16 && Pow2(5) == 32 && Pow2(6) == 64 && Pow2(7) == 128 && Pow2(8) == 256
  {
  }

  /** The size that arrives when the client asks for its chunk size is the block size of the server. */
  lemma RequestedSize(num: nat, chunk: nat)
    requires 16 <= chunk <= 2048 && num <= 0xF_FFFF
    ensures var b := DecodeBlock(EncodeBlock(Block(num, false, chunk, 0)));
      b == Block(num, false, MaxBlockSize(chunk), num * MaxBlockSize(chunk))
  {
    BlockRoundTrip(Block(num, false, chunk, 0));
    var b := DecodeBlock(EncodeBlock(Block(num, false, chunk, 0)));
    SizeExponent(chunk);
    PowersOfTwo();
    var szx := EncodeBlock(Block(num, false, chunk, 0)) % 8;
    BlockDigits(num, 0, Log2(chunk / 16));
    assert szx == Log2(chunk / 16) && b.size == 16 * Pow2(szx);
    hide Log2, Pow2, DecodeBlock, EncodeBlock;
    assert b.size <= chunk < 2 * b.size;
    assert szx == 0 || szx == 1 || szx == 2 || szx == 3 || szx == 4 || szx == 5 || szx == 6 || szx == 7;
  }

  // ----- The server -----

  /** A resource that knows about blocks, and one that always sets its whole payload. */
  datatype Handler = Core(resources: seq<Resource>) | Whole(payload: string)

  function WholeText(h: Handler): string {
    match h
    case Core(resources) => Render(resources)
    case Whole(payload) => payload
  }

  datatype ReplyBlock = ReplyBlock(num: nat, more: bool, size: nat)

  datatype Reply = Reply(badOption: bool, payload: string, block2: Option<ReplyBlock>)

  function Cut(s: string, n: nat): string {
    if |s| <= n then s else s[..n]
  }

  /** The call of the handler: its reply, and the offset it leaves. */
  method Serve(h: Handler, chunk: nat, blockSize: nat, offset: nat) returns (reply: Reply, newOffset: int)
    requires 16 <= blockSize <= chunk && (h.Whole? ==> |h.payload| <= chunk)
    ensures reply.block2 == None
    ensures h.Whole? ==> reply == Reply(false, h.payload, None) && newOffset == offset
    ensures h.Core? ==>
      var full := Render(h.resources);
      && newOffset == (if |full| <= offset + blockSize then -1 else offset + blockSize)
      && (reply.badOption <==> full != "" && |full| <= offset)
      && (!reply.badOption ==> Cut(reply.payload, blockSize) == Window(full, offset, blockSize))
      && (newOffset == -1 ==> |reply.payload| <= blockSize)
      && (reply.badOption ==> reply.payload == "BlockOutOfScope")
  {
    match h {
      case Whole(payload) =>
        reply, newOffset := Reply(false, payload, None), offset;
      case Core(resources) =>
        var buffer := new char[chunk + 1](_ => '\0');
        var result;
        result, newOffset := GetHandler(resources, buffer, blockSize, offset);
        if result.Payload? {
          reply := Reply(false, buffer[..Min(chunk, result.length)], None);
          assert Cut(reply.payload, blockSize) == buffer[..Min(result.length, blockSize)];
        } else if result.BlockOutOfScope? {
          reply := Reply(true, "BlockOutOfScope", None);
        } else {
          reply := Reply(false, "", None);
        }
    }
  }

  /**
   The part of coap_receive that answers a GET: a block of the resource when one is asked for, otherwise the
   first block, or everything when the resource is not aware of blocks.
   */
  method Respond(h: Handler, chunk: nat, request: Option<Block>) returns (reply: Reply)
    requires 16 <= chunk <= 2048 && (h.Whole? ==> |h.payload| <= chunk)
    requires request.Some? ==>
      request.value.num <= 0xF_FFFF && 16 <= request.value.size &&
      request.value.offset == request.value.num * request.value.size
    ensures
      var full := WholeText(h);
      var num := if request.Some? then request.value.num else 0;
      var offset := if request.Some? then request.value.offset else 0;
      var size := if request.Some? then Min(request.value.size, MaxBlockSize(chunk)) else MaxBlockSize(chunk);
      if request.None? && h.Whole? then reply == Reply(false, full, None)
      else if full != "" && |full| <= offset then reply.badOption && reply.payload == "BlockOutOfScope"
      else if full == "" && h.Whole? then reply.badOption
      else reply == Reply(false, Window(full, offset, size), Some(ReplyBlock(num, |full| > offset + size, size)))
  {
    hide Window, Render;
    var num, size, offset := 0, MaxBlockSize(chunk), 0;
    if request.Some? {
      num, size, offset := request.value.num, Min(request.value.size, MaxBlockSize(chunk)), request.value.offset;
    }
    var newOffset;
    reply, newOffset := Serve(h, chunk, size, offset);
    if request.Some? {
      if newOffset == offset {
        // An offset that is still the same says that the resource is not aware of blocks.
        if offset >= |reply.payload| {
          reply := Reply(true, "BlockOutOfScope", None);
        } else {
          PartIsWindow(reply.payload, offset, size);
          reply := Reply(reply.badOption, reply.payload[offset..offset + Min(|reply.payload| - offset, size)],
                         Some(ReplyBlock(num, |reply.payload| - offset > size, size)));
        }
      } else {
        reply := Reply(reply.badOption, Cut(reply.payload, size),
                       Some(ReplyBlock(num, newOffset != -1 || |reply.payload| > size, size)));
      }
    } else if newOffset != 0 {
      reply := Reply(reply.badOption, Cut(reply.payload, size), Some(ReplyBlock(0, newOffset != -1, size)));
    }
  }

  lemma PartIsWindow(s: string, offset: nat, size: nat)
    requires offset < |s|
    ensures s[offset..offset + Min(|s| - offset, size)] == Window(s, offset, size)
  {
  }

  // ----- The client -----

  const MAX_ATTEMPTS := 4

  lemma WindowsConcatenate(s: string, n: nat, size: nat)
    requires n <= |s|
    ensures s[..n] + Window(s, n, size) == s[..Min(n + size, |s|)]
  {
  }

  /**
   coap_blocking_request: block after block, until one says that there are no more.  Request number `lost` is
   not answered; every other one is.  What has been received is the beginning of the resource, and it is all of
   it when the loop ends by itself.
   */
  method BlockingRequest(h: Handler, chunk: nat, lost: nat) returns (received: string, finished: bool)
    requires 16 <= chunk <= 2048 && (h.Whole? ==> |h.payload| <= chunk)
    requires 0 < |WholeText(h)| <= 0xF_FFFF * 16
    ensures finished ==> received == WholeText(h)
    ensures !finished ==> received == WholeText(h)[..Min(lost * MaxBlockSize(chunk), |WholeText(h)|)]
    ensures finished <==> (h.Whole? && lost > 0) || lost * MaxBlockSize(chunk) >= |WholeText(h)|
  {
    hide WholeText, Window, DecodeBlock, EncodeBlock;
    ghost var full := WholeText(h);
    var size := MaxBlockSize(chunk);
    received, finished := "", false;
    var blockNum, more, resBlock, blockError := 0, false, 0, 0;
    var again := true;
    assert full[..0] == "";
    while again
      invariant 0 <= blockNum <= lost && blockNum * size <= 0xF_FFFF * 16 + size && blockError == 0
      invariant again ==> blockNum * size < |full| && received == full[..blockNum * size]
      invariant again ==> if blockNum == 0 then !more && resBlock == 0 else h.Core?
      invariant !again ==> received == full && ((h.Whole? && lost > 0) || lost * size >= |full|)
      decreases |full| - blockNum * size, again
    {
      if blockNum == lost {
        return received, false;
      }
      Times(blockNum, size, lost);
      var request := None;
      if blockNum > 0 {
        RequestedSize(blockNum, chunk);
        request := Some(DecodeBlock(EncodeBlock(Block(blockNum, false, chunk, 0))));
      }
      var reply := Respond(h, chunk, request);
      WindowsConcatenate(full, blockNum * size, size);
      if reply.block2.Some? {
        resBlock, more := reply.block2.value.num, reply.block2.value.more;
      }
      if resBlock == blockNum {
        received := received + reply.payload;
        blockNum := blockNum + 1;
      } else {
        blockError := blockError + 1;
      }
      again := more && blockError < MAX_ATTEMPTS;
    }
    return received, true;
  }

  /** The reply that carries block k. */
  method ReplyFor(h: Handler, chunk: nat, k: nat) returns (reply: Reply)
    requires 16 <= chunk <= 2048 && h.Core? && 0 < |WholeText(h)| <= 0xF_FFFF * 16
    requires k * MaxBlockSize(chunk) < |WholeText(h)|
    ensures
      var full, size := WholeText(h), MaxBlockSize(chunk);
      reply == Reply(false, Window(full, k * size, size), Some(ReplyBlock(k, |full| > k * size + size, size)))
  {
    hide WholeText, Window, DecodeBlock, EncodeBlock;
    var request := None;
    if k > 0 {
      RequestedSize(k, chunk);
      request := Some(DecodeBlock(EncodeBlock(Block(k, false, chunk, 0))));
    }
    reply := Respond(h, chunk, request);
  }

  /** How many of the first n answers are kept: those with the block that is asked for at that time. */
  function Kept(answers: seq<Option<nat>>, n: nat): (k: nat)
    requires n <= |answers|
    ensures k <= n
  {
    if n == 0 then 0
    else
      var k := Kept(answers, n - 1);
      if answers[n - 1] == Some(k) then k + 1 else k
  }

  /** The loop goes on after answer i: there are more blocks, and not too many wrong ones have come. */
  predicate GoesOn(answers: seq<Option<nat>>, i: nat, size: nat, total: nat)
    requires i < |answers|
  {
    answers[i].Some? && (answers[i].value + 1) * size < total && i + 1 - Kept(answers, i + 1) < MAX_ATTEMPTS
  }

  /**
   coap_blocking_request when replies carry other blocks than asked for: request i is answered with block
   answers[i], or not
   at all.  What is kept is always the beginning of the resource.  But the loop takes the word of whatever reply comes
   for whether there is more: when it ends by itself, it has the whole resource iff the last reply is the one that was
   asked for.  The first n answers are used.
   */
  method BlockingRequestAny(h: Handler, chunk: nat, answers: seq<Option<nat>>)
      returns (received: string, finished: bool, n: nat)
    requires 16 <= chunk <= 2048 && h.Core? && 0 < |WholeText(h)| <= 0xF_FFFF * 16
    requires forall i :: 0 <= i < |answers| && answers[i].Some? ==>
      answers[i].value * MaxBlockSize(chunk) < |WholeText(h)|
    ensures n <= |answers| && received == WholeText(h)[..Min(Kept(answers, n) * MaxBlockSize(chunk), |WholeText(h)|)]
    ensures forall i :: 0 <= i < n - 1 ==> GoesOn(answers, i, MaxBlockSize(chunk), |WholeText(h)|)
    ensures finished ==>
      && n > 0 && answers[n - 1].Some? && !GoesOn(answers, n - 1, MaxBlockSize(chunk), |WholeText(h)|)
      && (received == WholeText(h) <==> answers[n - 1].value == Kept(answers, n - 1))
    ensures !finished ==>
      && (n > 0 ==> GoesOn(answers, n - 1, MaxBlockSize(chunk), |WholeText(h)|))
      && (n == |answers| || answers[n].None?)
  {
    hide WholeText, Window, MaxBlockSize, GoesOn, Kept;
    ghost var full := WholeText(h);
    var size := MaxBlockSize(chunk);
    SizeInBounds(chunk);
    received, finished, n := "", false, 0;
    var blockNum, more, resBlock, blockError := 0, false, 0, 0;
    var again := true;
    assert full[..0] == "";
    NothingKept(answers);
    while again
      invariant n <= |answers| && blockNum == Kept(answers, n) && blockNum + blockError == n
      invariant received == full[..Min(blockNum * size, |full|)]
      invariant again ==> blockNum * size < |full| && blockError < MAX_ATTEMPTS
      invariant forall k :: 0 <= k < n - 1 ==> GoesOn(answers, k, size, |full|)
      invariant n > 0 ==> answers[n - 1].Some? && again == GoesOn(answers, n - 1, size, |full|)
      invariant !again ==> n > 0 && (received == full <==> answers[n - 1].value == Kept(answers, n - 1))
      decreases |answers| - n, again
    {
      if n == |answers| || answers[n].None? {
        return;
      }
      var reply := ReplyFor(h, chunk, answers[n].value);
      Next(answers[n].value, size);
      Next(blockNum, size);
      WindowsConcatenate(full, blockNum * size, size);
      Received(full, blockNum, size);
      resBlock, more := reply.block2.value.num, reply.block2.value.more;
      if resBlock == blockNum {
        received := received + reply.payload;
        blockNum := blockNum + 1;
      } else {
        blockError := blockError + 1;
      }
      n := n + 1;
      again := more && blockError < MAX_ATTEMPTS;
      AnswerTaken(answers, n - 1, size, |full|);
    }
    finished := true;
  }

  lemma AnswerTaken(answers: seq<Option<nat>>, i: nat, size: nat, total: nat)
    requires i < |answers| && answers[i].Some?
    ensures GoesOn(answers, i, size, total)
            <==> (answers[i].value + 1) * size < total && i + 1 - Kept(answers, i + 1) < MAX_ATTEMPTS
    ensures Kept(answers, i + 1) == Kept(answers, i) + if answers[i].value == Kept(answers, i) then 1 else 0
  {
  }

  lemma NothingKept(answers: seq<Option<nat>>)
    ensures Kept(answers, 0) == 0
  {
  }

  lemma Received(full: string, n: nat, size: nat)
    requires n * size < |full|
    ensures full[..Min(n * size, |full|)] != full
    ensures (n + 1) * size >= |full| ==> full[..Min((n + 1) * size, |full|)] == full
  {
    assert |full[..Min(n * size, |full|)]| == n * size;
  }

  lemma Next(n: nat, size: nat)
    ensures (n + 1) * size == n * size + size
  {
  }

  lemma SizeInBounds(chunk: nat)
    requires 16 <= chunk <= 2048
    ensures 16 <= MaxBlockSize(chunk) <= chunk
  {
  }

  /** A reply with the last block, instead of the second, ends the transfer behind the first block. */
  method WrongBlockEnds(h: Handler, chunk: nat, k: nat) returns (received: string)
    requires 16 <= chunk <= 2048 && h.Core? && |WholeText(h)| <= 0xF_FFFF * 16
    requires k > 1 && k * MaxBlockSize(chunk) < |WholeText(h)| <= (k + 1) * MaxBlockSize(chunk)
    ensures received == WholeText(h)[..MaxBlockSize(chunk)] != WholeText(h)
  {
    hide WholeText, MaxBlockSize;
    SizeInBounds(chunk);
    Monotone(MaxBlockSize(chunk), 2, k);
    var answers := [Some(0), Some(k)];
    assert Kept(answers, 0) == 0 && Kept(answers, 1) == 1 && Kept(answers, 2) == 1;
    var finished, n;
    received, finished, n := BlockingRequestAny(h, chunk, answers);
  }

  lemma Times(n: nat, size: nat, lost: nat)
    requires n < lost
    ensures (n + 1) * size == n * size + size && (n + 1) * size <= lost * size
  {
  }

  // ----- Assembling a request from its blocks -----

  datatype Response = Response(code: Block1Code, block1: Option<ReplyBlock>)

  datatype Block1Code = Unset | ContinueCode | BadRequestCode | TooLargeCode

  /**
   coap_block1_handler: the payload goes to its place in the target, if there is one; 1 says that more blocks will
   follow.
   */
  method Block1Handler(payload: seq<Byte>, block1: Option<Block>, target: array?<Byte>, len: nat, maxLen: nat)
      returns (r: int, newLen: nat, response: Response)
    requires target != null ==> maxLen <= target.Length
    requires block1.Some? ==> block1.value.offset + |payload| < 0x1_0000_0000
    modifies target
    ensures
      var offset := if block1.Some? then block1.value.offset else 0;
      var refused := payload == [] || offset + |payload| > maxLen;
      && newLen == (if refused || target == null then len else offset + |payload|)
      && (target != null ==>
            target[..] == if refused then old(target[..]) else Splice(old(target[..]), offset, payload))
      && if refused then r == -1 && response.code == if payload == [] then BadRequestCode else TooLargeCode
         else
           && r == (if block1.Some? && block1.value.more then 1 else 0)
           && response.code == (if r == 1 then ContinueCode else Unset)
           && response.block1 == (if block1.Some? && BlockInBounds(block1.value)
                                  then Some(ReplyBlock(block1.value.num, block1.value.more, block1.value.size))
                                  else None)
  {
    response, newLen := Response(Unset, None), len;
    if payload == [] {
      return -1, newLen, Response(BadRequestCode, None);
    }
    var offset := if block1.Some? then block1.value.offset else 0;
    if offset + |payload| > maxLen {
      return -1, newLen, Response(TooLargeCode, None);
    }
    if target != null {
      CopyTo(target, offset, payload);
      newLen := offset + |payload|;
    }
    r := 0;
    if block1.Some? {
      var b := block1.value;
      if 16 <= b.size && b.size <= 2048 && b.num <= 0xF_FFFF {
        response := response.(block1 := Some(ReplyBlock(b.num, b.more, b.size)));
      }
      if b.more {
        response := response.(code := ContinueCode);
        r := 1;
      }
    }
  }

  /** Where block i begins. */
  function At(i: nat, size: nat): nat {
    i * size
  }

  lemma AtGrows(i: nat, j: nat, size: nat)
    requires i <= j
    ensures At(i, size) <= At(j, size) && At(i + 1, size) == At(i, size) + size && At(0, size) == 0
    ensures i < j ==> At(i, size) + size <= At(j, size)
  {
    Monotone(size, i, j);
    if i < j {
      Monotone(size, i + 1, j);
    }
  }

  /** Block i of the data. */
  function Piece(data: seq<Byte>, size: nat, i: nat): seq<Byte>
    requires At(i, size) <= |data|
  {
    data[At(i, size)..Min(At(i, size) + size, |data|)]
  }

  /** Block i is in its place. */
  ghost predicate InPlace(target: seq<Byte>, data: seq<Byte>, size: nat, i: nat) {
    && At(i, size) < |data| <= |target|
    && forall k :: At(i, size) <= k < Min(At(i, size) + size, |data|) ==> target[k] == data[k]
  }

  lemma PlacedPiece(target: seq<Byte>, data: seq<Byte>, size: nat, i: nat)
    requires At(i, size) < |data| <= |target|
    ensures At(i, size) + |Piece(data, size, i)| <= |data|
    ensures
      var after := Splice(target, At(i, size), Piece(data, size, i));
      && InPlace(after, data, size, i) && after[|data|..] == target[|data|..]
      && forall j: nat :: InPlace(target, data, size, j) ==> InPlace(after, data, size, j)
  {
    hide At;
  }

  lemma AllInPlace(target: seq<Byte>, data: seq<Byte>, size: nat, blocks: nat)
    requires size > 0 && |data| <= |target| && |data| <= At(blocks, size)
    requires forall i: nat :: i < blocks ==> InPlace(target, data, size, i)
    ensures target[..|data|] == data
  {
    forall k | 0 <= k < |data|
      ensures target[k] == data[k]
    {
      var i := BlockOf(k, blocks, size);
      assert InPlace(target, data, size, i);
    }
  }

  lemma {:induction false} BlockOf(k: nat, blocks: nat, size: nat) returns (i: nat)
    requires k < At(blocks, size)
    ensures i < blocks && At(i, size) <= k < At(i, size) + size
  {
    AtGrows(blocks - 1, blocks, size);
    if k < At(blocks - 1, size) {
      i := BlockOf(k, blocks - 1, size);
    } else {
      i := blocks - 1;
    }
  }

  /** The data has this number of blocks. */
  predicate HasBlocks(total: nat, blocks: nat, size: nat) {
    0 < blocks <= 0x10_0000 && 16 <= size <= 2048 && At(blocks - 1, size) < total <= At(blocks, size)
  }

  /**
   The blocks of some data are fed to the handler in any order and any number of times.  Once every block
   has come at least once, the target begins with the data; each call answers 1 for every block but the last.
   When the last block comes last, the right length is left as well.
   */
  method Assemble(data: seq<Byte>, size: nat, blocks: nat, order: seq<nat>, target: array<Byte>)
      returns (results: seq<int>, len: nat)
    requires HasBlocks(|data|, blocks, size) && size == 16 * Pow2(Log2(size / 16)) && |data| <= target.Length
    requires |order| > 0 && forall k :: 0 <= k < |order| ==> order[k] < blocks
    requires forall i: nat :: i < blocks ==> i in order
    modifies target
    ensures target[..|data|] == data && target[|data|..] == old(target[..])[|data|..]
    ensures |results| == |order|
    ensures forall k :: 0 <= k < |order| ==> results[k] == if order[k] == blocks - 1 then 0 else 1
    ensures order[|order| - 1] == blocks - 1 ==> len == |data|
  {
    hide Pow2, Log2, InPlace, Splice, Piece, At;
    results, len := [], 0;
    ghost var before := target[..];
    var k := 0;
    while k < |order|
      invariant 0 <= k <= |order| && |results| == k
      invariant forall j :: 0 <= j < k ==> InPlace(target[..], data, size, order[j])
      invariant forall j :: 0 <= j < k ==> results[j] == if order[j] == blocks - 1 then 0 else 1
      invariant target[..][|data|..] == before[|data|..]
      invariant k > 0 && order[k - 1] == blocks - 1 ==> len == |data|
    {
      AtGrows(order[k], blocks - 1, size);
      PlacedPiece(target[..], data, size, order[k]);
      var r;
      r, len := PlaceBlock(data, size, blocks, order[k], target, len);
      results := results + [r];
      k := k + 1;
    }
    forall i: nat | i < blocks
      ensures InPlace(target[..], data, size, i)
    {
      assert i in order;
      var j :| 0 <= j < |order| && order[j] == i;
    }
    AllInPlace(target[..], data, size, blocks);
    assert target[..|data|] == target[..][..|data|] && target[|data|..] == target[..][|data|..];
  }

  /** One block on its way: number and flag are encoded, decoded, and handled. */
  method PlaceBlock(data: seq<Byte>, size: nat, blocks: nat, i: nat, target: array<Byte>, len: nat)
    returns (r: int, newLen: nat)
    requires HasBlocks(|data|, blocks, size) && size == 16 * Pow2(Log2(size / 16)) && |data| <= target.Length
    requires i < blocks && At(i, size) < |data| && At(i, size) + |Piece(data, size, i)| <= |data|
    modifies target
    ensures target[..] == Splice(old(target[..]), At(i, size), Piece(data, size, i))
    ensures r == (if i == blocks - 1 then 0 else 1) && (i == blocks - 1 ==> newLen == |data|)
  {
    var sent := Block(i, i < blocks - 1, size, 0);
    BlockRoundTrip(sent);
    var received := DecodeBlock(EncodeBlock(sent));
    assert received == Block(i, i < blocks - 1, size, At(i, size));
    BlockPlace(i, blocks, size, |data|);
    hide Pow2, Log2, EncodeBlock, DecodeBlock, Splice, At;
    var response;
    r, newLen, response := Block1Handler(Piece(data, size, i), Some(received), target, len, target.Length);
  }

  lemma BlockPlace(i: nat, blocks: nat, size: nat, total: nat)
    requires HasBlocks(total, blocks, size) && i < blocks
    ensures At(i, size) + size < 0x1_0000_0000
    ensures i == blocks - 1 ==> At(i, size) + size >= total
  {
    AtGrows(i, blocks, size);
    AtGrows(blocks - 1, blocks, size);
    Monotone(i, size, 2048);
  }
}
