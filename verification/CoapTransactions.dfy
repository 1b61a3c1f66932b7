/**
 Retransmission of CoAP messages (apps/er-coap/er-coap-transactions.c): a pool of transactions, the linked list of
 those that are in use, and the exponential back-off of each of them.
 */
module CoapTransactions {
  import opened Common
  import opened LinkedList

  const MAX_RETRANSMIT := 4
  const MAX_OPEN := 4

  /** A transaction in the pool; what the message is is said by `confirmable`. */
  datatype Slot = Slot(mid: nat, counter: nat, interval: nat, confirmable: bool, callback: Option<nat>)

  datatype Outcome = Kept | Freed | TimedOut(callback: Option<nat>)

  /** n intervals, each twice the one before. */
  function Doubling(initial: nat, n: nat): (r: seq<nat>)
    ensures |r| == n
  {
    if n == 0 then [] else Doubling(initial, n - 1) + [initial * Pow2(n - 1)]
  }

  function Sum(s: seq<nat>): nat {
    if s == [] then 0 else Sum(s[..|s| - 1]) + s[|s| - 1]
  }

  lemma {:induction false} DoublingSum(initial: nat, n: nat)
    ensures Sum(Doubling(initial, n)) == initial * (Pow2(n) - 1)
    ensures forall k :: 0 <= k < n ==> Doubling(initial, n)[k] == initial * Pow2(k)
  {
    if n > 0 {
      DoublingSum(initial, n - 1);
      assert Doubling(initial, n)[..n - 1] == Doubling(initial, n - 1);
      assert initial * (Pow2(n) - 1) == initial * (Pow2(n - 1) - 1) + initial * Pow2(n - 1) by {
        Distribute(initial, Pow2(n - 1));
      }
    }
  }

  lemma Distribute(a: nat, p: nat)
    ensures a * (2 * p - 1) == a * (p - 1) + a * p
  {
    assert a * (2 * p - 1) == a * (2 * p) - a;
    assert a * (p - 1) == a * p - a;
  }

  /** What has happened to a transaction since it was allocated: messages sent, and intervals armed. */
  datatype History = History(transmissions: nat, armed: seq<nat>)

  /** A transaction is fresh, or it waits for its answer after counter + 1 messages and as many armed intervals. */
  predicate Consistent(s: Slot, h: History) {
    || (h == History(0, []) && s.counter == 0)
    || Waiting(s, h)
  }

  predicate Waiting(s: Slot, h: History) {
    && s.confirmable && s.counter < MAX_RETRANSMIT && h.transmissions == s.counter + 1
    && |h.armed| == s.counter + 1 && h.armed == Doubling(h.armed[0], s.counter + 1)
    && s.interval == h.armed[0] * Pow2(s.counter)
  }

  /** A state of the pool: the list, the slots with what has happened to them, and the timers that do not run. */
  datatype Pool = Pool(items: seq<nat>, slots: seq<Slot>, history: seq<History>, expired: set<nat>)

  predicate WellFormed(p: Pool) {
    |p.slots| == |p.history| == MAX_OPEN && NoDuplicates(p.items) && Below(p.items, MAX_OPEN)
  }

  /** The transaction is sent for the last time. */
  predicate GivesUp(t: nat, p: Pool) {
    t in p.expired && t < |p.slots| && p.slots[t].counter + 1 >= MAX_RETRANSMIT
  }

  function CallbackOf(t: nat, p: Pool): seq<nat> {
    if t < |p.slots| && p.slots[t].callback.Some? then [p.slots[t].callback.value] else []
  }

  /**
   How many transactions of the list one check looks at.  Giving up takes a transaction out of the list and clears
   its next pointer, and the walk goes on from that pointer: it ends behind the first one that gives up.
   */
  function Handled(l: seq<nat>, p: Pool): (k: nat)
    ensures k <= |l|
    ensures forall i :: 0 <= i < k - 1 ==> !GivesUp(l[i], p)
    ensures k < |l| ==> k > 0 && GivesUp(l[k - 1], p)
  {
    if l == [] then 0 else if GivesUp(l[0], p) then 1 else 1 + Handled(l[1..], p)
  }

  predicate LastGivesUp(k: nat, p: Pool) {
    0 < k <= |p.items| && GivesUp(p.items[k - 1], p)
  }

  /** The transactions that are still listed when all whose timers have run out have been handled. */
  function Survivors(l: seq<nat>, p: Pool): seq<nat> {
    if l == [] then [] else (if GivesUp(l[0], p) then [] else [l[0]]) + Survivors(l[1..], p)
  }

  /** The callbacks of the others, in the order of the list. */
  function Callbacks(l: seq<nat>, p: Pool): seq<nat> {
    if l == [] then [] else (if GivesUp(l[0], p) then CallbackOf(l[0], p) else []) + Callbacks(l[1..], p)
  }

  /** How many transactions of the list have a timer that has run out. */
  function Count(l: seq<nat>, p: Pool): nat {
    if l == [] then 0 else (if l[0] in p.expired then 1 else 0) + Count(l[1..], p)
  }

  predicate SameSlot(t: nat, p: Pool, q: Pool) {
    t < |p.slots| == |p.history| == |q.slots| == |q.history| && p.slots[t] == q.slots[t] && p.history[t] == q.history[t]
  }

  /** What a check does to a transaction of the list. */
  predicate Checked(t: nat, was: Pool, now: Pool)
    requires |was.slots| == |was.history| == |now.slots| == |now.history| == MAX_OPEN && t < MAX_OPEN
  {
    var s, s', h, h' := was.slots[t], now.slots[t], was.history[t], now.history[t];
    if t !in was.expired then s' == s && h' == h
    else
      && s' == s.(counter := s.counter + 1, interval := s'.interval)
      && h'.transmissions == h.transmissions + 1
      && if s'.counter < MAX_RETRANSMIT then s'.interval == 2 * s.interval && h'.armed == h.armed + [s'.interval]
         else h'.transmissions == 1 + MAX_RETRANSMIT && h'.armed == h.armed
  }

  /** The first k transactions of the list have been checked, all others are as before. */
  ghost predicate Progress(k: nat, was: Pool, now: Pool) {
    && WellFormed(was) && WellFormed(now) && k <= |was.items|
    && (forall j :: 0 <= j < k ==> Checked(was.items[j], was, now))
    && (forall j :: k <= j < |was.items| ==> SameSlot(was.items[j], was, now))
    && (forall u: nat :: u < MAX_OPEN && u !in was.items ==> SameSlot(u, was, now))
  }

  /** The timers of the handled transactions run again, except for one that gives up; the others are as before. */
  ghost predicate TimersAfter(k: nat, was: Pool, now: Pool) {
    && k <= |was.items|
    && forall t: nat :: t in now.expired <==> t in was.expired && (t in was.items[..k] ==> GivesUp(t, was))
  }

  /** What one check does: `called` are the callbacks. */
  ghost predicate CheckEffect(was: Pool, now: Pool, called: seq<nat>) {
    var k := Handled(was.items, was);
    && Progress(k, was, now) && TimersAfter(k, was, now)
    && if LastGivesUp(k, was)
       then now.items == Without(was.items, was.items[k - 1]) && called == CallbackOf(was.items[k - 1], was)
       else k == |was.items| && now.items == was.items && called == []
  }

  class Transactions {
    const slots: array<Slot>
    const used: array<bool>
    const list: List
    /** The slots whose timers do not run: they were stopped, they have run out, or they were never started. */
    var expired: set<nat>
    ghost var history: seq<History>

    constructor ()
      ensures Valid() && list.items == [] && fresh(slots) && fresh(used) && fresh(list) && fresh(list.next)
      ensures forall i :: 0 <= i < MAX_OPEN ==> slots[i].callback == None
    {
      slots := new Slot[MAX_OPEN](_ => Slot(0, 0, 0, false, None));
      used := new bool[MAX_OPEN](_ => false);
      list := new List(MAX_OPEN);
      expired := {0, 1, 2, 3};
      history := seq(MAX_OPEN, _ => History(0, []));
    }

    ghost predicate Shape()
      reads this, slots, used, list, list.next
    {
      && slots.Length == used.Length == |history| == list.next.Length == MAX_OPEN && list.Valid()
      && NoDuplicates(list.items) && Below(list.items, MAX_OPEN)
      && (forall t: nat :: t < MAX_OPEN ==> (used[t] <==> t in list.items))
    }

    /** The listed transactions are exactly the allocated ones, each once. */
    ghost predicate Valid()
      reads this, slots, used, list, list.next
    {
      && Shape()
      && (forall t: nat :: t < MAX_OPEN && used[t] ==> Consistent(slots[t], history[t]))
    }

    /** All but transaction t are as they should be. */
    ghost predicate ValidBut(t: nat)
      reads this, slots, used, list, list.next
    {
      && Shape() && t < MAX_OPEN && used[t]
      && (forall u: nat :: u < MAX_OPEN && used[u] && u != t ==> Consistent(slots[u], history[u]))
    }

    /** Transaction t is fresh, or its timer has run out and its counter has been increased. */
    ghost predicate Due(t: nat)
      reads this, slots
      requires slots.Length == |history| == MAX_OPEN && t < MAX_OPEN
    {
      var s, h := slots[t], history[t];
      if s.counter == 0 then h == History(0, []) else Waiting(s.(counter := s.counter - 1), h)
    }

    /** What other transactions are and have done is not touched. */
    twostate predicate OthersKept(t: nat)
      reads this, slots, used
      requires slots.Length == used.Length == old(|history|) == MAX_OPEN == |history|
    {
      forall u: nat :: u < MAX_OPEN && u != t ==>
        slots[u] == old(slots[u]) && used[u] == old(used[u]) && history[u] == old(history[u])
    }

    /** memb_alloc: the first free slot. */
    method Allocate() returns (t: int)
      requires Valid()
      modifies used
      ensures if t < 0 then t == -1 && (forall i :: 0 <= i < MAX_OPEN ==> used[i]) && unchanged(used)
              else t < MAX_OPEN && !old(used[t]) && used[..] == old(used[..])[t := true]
    {
      t := 0;
      while t < MAX_OPEN && used[t]
        invariant 0 <= t <= MAX_OPEN && forall i :: 0 <= i < t ==> used[i]
      {
        t := t + 1;
      }
      if t == MAX_OPEN {
        return -1;
      }
      used[t] := true;
    }

    /** coap_new_transaction: fails only when the pool is exhausted.  The callback is the one the slot had before. */
    method NewTransaction(mid: nat, confirmable: bool) returns (t: int)
      requires Valid()
      modifies this, slots, used, list, list.next
      ensures Valid() && expired == old(expired)
      ensures t < 0 <==> forall u :: 0 <= u < MAX_OPEN ==> old(used[u])
      ensures t < 0 ==> unchanged(this) && unchanged(slots) && unchanged(used) && list.items == old(list.items)
      ensures t >= 0 ==>
        && t < MAX_OPEN && !old(used[t]) && list.items == old(list.items) + [t] && OthersKept(t)
        && slots[t].mid == mid && slots[t].counter == 0 && slots[t].confirmable == confirmable
        && slots[t].callback == old(slots[t].callback) && history[t] == History(0, [])
    {
      hide Without, Linked;
      t := Allocate();
      if t >= 0 {
        slots[t] := slots[t].(mid := mid, counter := 0, confirmable := confirmable);
        history := history[t := History(0, [])];
        WithoutIfAbsent(list.items, t);
        AddLast(list.items, t);
        list.Add(t);
      }
    }

    /** coap_clear_transaction */
    method ClearTransaction(t: nat)
      requires ValidBut(t)
      modifies this, used, list, list.next
      ensures Valid() && !used[t] && list.items == Without(old(list.items), t) && OthersKept(t)
      ensures history == old(history) && expired == old(expired) + {t} && list.next[t] == NULL
    {
      hide Without, Linked, Consistent;
      expired := expired + {t};
      list.Remove(t);
      used[t] := false;
    }

    /**
     coap_send_transaction, for a transaction whose counter says how often it was sent before.  It is sent
     once more; then it waits for twice as long as before, or is freed: at once when it is not confirmable,
     and with its callback once it has been sent 1 + MAX_RETRANSMIT times.
     */
    method SendTransaction(t: nat, initial: nat) returns (outcome: Outcome)
      requires slots.Length == used.Length == |history| == MAX_OPEN && t < MAX_OPEN
      requires Due(t) && ValidBut(t)
      modifies this, slots, used, list, list.next
      ensures Valid() && OthersKept(t)
      ensures history[t].transmissions == old(history[t]).transmissions + 1
      ensures slots[t] == old(slots[t]).(interval := slots[t].interval)
      ensures outcome.Kept? <==> slots[t].confirmable && old(slots[t]).counter < MAX_RETRANSMIT
      ensures outcome.Kept? ==>
        && used[t] && list.items == old(list.items) && expired == old(expired) - {t} && Waiting(slots[t], history[t])
        && history[t].armed == old(history[t]).armed + [slots[t].interval]
        && slots[t].interval == (if old(slots[t]).counter == 0 then initial else 2 * old(slots[t]).interval)
      ensures !outcome.Kept? ==>
        && !used[t] && list.items == Without(old(list.items), t)
        && list.next[t] == NULL && expired == old(expired) + {t}
        && history[t].armed == old(history[t]).armed
      ensures outcome.TimedOut? ==>
        && slots[t].confirmable && outcome.callback == slots[t].callback
        && history[t].transmissions == 1 + MAX_RETRANSMIT
        && |history[t].armed| == MAX_RETRANSMIT
        && Sum(history[t].armed) == history[t].armed[0] * (Pow2(MAX_RETRANSMIT) - 1)
      ensures outcome.Freed? ==> !slots[t].confirmable
    {
      hide Consistent, Linked, Without, Sum, Doubling, Pow2, Waiting;
      ghost var h, was := history[t], slots[t];
      if slots[t].counter > 0 {
        WaitingMeans(slots[t].(counter := slots[t].counter - 1), h);
      }
      history := history[t := h.(transmissions := h.transmissions + 1)];
      if slots[t].confirmable {
        if slots[t].counter < MAX_RETRANSMIT {
          if slots[t].counter == 0 {
            slots[t] := slots[t].(interval := initial);
          } else {
            slots[t] := slots[t].(interval := 2 * slots[t].interval);
          }
          history := history[t := history[t].(armed := h.armed + [slots[t].interval])];
          expired := expired - {t};
          ArmedAgain(was, slots[t].interval, h);
          IsConsistent(slots[t], history[t]);
          return Kept;
        } else {
          DoublingSum(h.armed[0], MAX_RETRANSMIT);
          var callback := slots[t].callback;
          ClearTransaction(t);
          return TimedOut(callback);
        }
      } else {
        ClearTransaction(t);
        return Freed;
      }
    }

    ghost function Now(): Pool
      reads this, slots, list
    {
      Pool(list.items, slots[..], history, expired)
    }

    /** Timers run out; each of them makes the engine check the transactions once. */
    method RunOut(timers: set<nat>)
      requires Valid()
      modifies this`expired
      ensures Valid() && expired == old(expired) + timers
    {
      expired := expired + timers;
    }

    /** The listed transactions whose timers have run out have been sent before. */
    ghost predicate Sent()
      reads this, slots, used, list, list.next
      requires Valid()
    {
      forall t: nat :: t in expired && t in list.items ==> Waiting(slots[t], history[t])
    }

    /**
     coap_check_transactions: the walk sends every transaction again whose timer has run out, in the order of the
     list, and ends at the first one that thereby gives up.  That one leaves the list and its callback is called;
     those behind it are as before, and their timers still count as run out.
     */
    method CheckTransactions() returns (called: seq<nat>)
      requires Valid() && Sent()
      modifies this, slots, used, list, list.next
      ensures Valid() && CheckEffect(old(Now()), Now(), called)
    {
      hide Consistent, Without, Waiting, Linked, Walked, GivesUp, Checked;
      called := [];
      ghost var was := Now();
      ghost var k: nat := 0;
      InRange(list.head, list.next[..], list.items);
      WalkStarts(was);
      var t := list.head;
      while t != NULL
        invariant Valid() && Walked(k, was, Now(), called, t)
        decreases |was.items| - k
      {
        ghost var before := Now();
        WalkReaches(k, was, before, called, t);
        if t in expired {
          called := CheckOne(t);
        } else {
          NotChecked(t, before);
        }
        PointsOn(list.head, list.next[..], list.items, k, t);
        WalkGoesOn(k, was, before, called, Now(), t, list.next[t]);
        t := list.next[t];
        k := k + 1;
      }
      WalkEnds(k, was, Now(), called);
    }

    /** The body of the loop, for a timer that has run out. */
    method CheckOne(t: nat) returns (called: seq<nat>)
      requires Valid() && t in list.items && t in expired && t < MAX_OPEN && Waiting(slots[t], history[t])
      modifies this, slots, used, list, list.next
      ensures Valid() && Checked(t, old(Now()), Now())
      ensures forall u: nat :: u < MAX_OPEN && u != t ==> SameSlot(u, old(Now()), Now())
      ensures
        if GivesUp(t, old(Now()))
        then list.items == Without(old(list.items), t) && list.next[t] == NULL && expired == old(expired)
             && called == CallbackOf(t, old(Now()))
        else list.items == old(list.items) && expired == old(expired) - {t} && called == []
    {
      hide Consistent, Without, Linked, Doubling, Pow2, Sum;
      slots[t] := slots[t].(counter := slots[t].counter + 1);
      var outcome := SendTransaction(t, 0);
      called := if outcome.TimedOut? && outcome.callback.Some? then [outcome.callback.value] else [];
    }

    /**
     The checks that follow when several timers have run out.  One for each of these timers is enough to handle all
     of them: each is sent once, those that give up leave the list, and their callbacks are called in its order.
     */
    method CheckRepeatedly(checks: nat) returns (called: seq<nat>)
      requires Valid() && Sent() && Count(list.items, Now()) <= checks
      modifies this, slots, used, list, list.next
      ensures Valid() && list.items == Survivors(old(list.items), old(Now()))
      ensures called == Callbacks(old(list.items), old(Now()))
      ensures Progress(old(|list.items|), old(Now()), Now())
      ensures forall t: nat :: t in list.items ==> t !in expired
    {
      hide Consistent, Waiting, Linked, Between, CheckEffect, Progress, NoDuplicates, Survivors, Callbacks, Count;
      called := [];
      ghost var was := Now();
      ghost var m: nat := 0;
      StartsBetween(was);
      for n := 0 to checks
        invariant Valid() && Between(m, was, Now(), called)
        invariant m <= |was.items| && Count(was.items[m..], was) <= checks - n
      {
        ghost var before := Now();
        StillSent(m, was, before, called);
        var now := CheckTransactions();
        m := ChecksCompose(m, was, before, called, Now(), now);
        called := called + now;
      }
      AllHandled(m, was, Now(), called);
    }
  }

  /** The walk has handled k transactions and stands at t. */
  ghost predicate Walked(k: nat, was: Pool, now: Pool, called: seq<nat>, t: int) {
    && Progress(k, was, now) && TimersAfter(k, was, now)
    && if LastGivesUp(k, was)
       then t == NULL && now.items == Without(was.items, was.items[k - 1]) &&
            called == CallbackOf(was.items[k - 1], was)
            && Handled(was.items, was) == k
       else t == At(was.items, k) && now.items == was.items && called == []
            && Handled(was.items, was) == k + Handled(was.items[k..], was)
  }

  lemma WalkStarts(was: Pool)
    requires WellFormed(was)
    ensures Walked(0, was, was, [], At(was.items, 0))
  {
    assert was.items[0..] == was.items;
  }

  lemma WalkReaches(k: nat, was: Pool, now: Pool, called: seq<nat>, t: int)
    requires Walked(k, was, now, called, t) && t != NULL
    ensures k < |was.items| && now.items == was.items && called == [] && t == was.items[k] && 0 <= t < MAX_OPEN
    ensures SameSlot(t, was, now) && (t in was.expired <==> t in now.expired) && GivesUp(t, was) == GivesUp(t, now)
    ensures t !in now.expired ==> !GivesUp(t, was)
    ensures WellFormed(was)
  {
  }

  lemma WalkGoesOn(k: nat, was: Pool, before: Pool, called: seq<nat>, now: Pool, t: nat, next: int)
    requires Walked(k, was, before, [], t) && WellFormed(now) && Checked(t, before, now)
    requires forall u: nat :: u < MAX_OPEN && u != t ==> SameSlot(u, before, now)
    requires
      if GivesUp(t, before)
      then now.items == Without(before.items, t) && next == NULL && now.expired == before.expired &&
           called == CallbackOf(t, before)
      else now.items == before.items && now.expired == before.expired - {t} && called == [] &&
           next == At(now.items, k + 1)
    ensures Walked(k + 1, was, now, called, next)
  {
    hide Checked, Without, CallbackOf, GivesUp, Progress, TimersAfter;
    WalkReaches(k, was, before, [], t);
    WalkProgress(k, was, before, now, t);
    WalkTimers(k, was, before, now, t);
    HandledNext(k, was);
    SameCallback(t, was, before);
  }

  lemma HandledNext(k: nat, p: Pool)
    requires k < |p.items|
    ensures Handled(p.items[k..], p) == if GivesUp(p.items[k], p) then 1 else 1 + Handled(p.items[k + 1..], p)
  {
    assert p.items[k..][1..] == p.items[k + 1..];
  }

  lemma WalkTimers(k: nat, was: Pool, before: Pool, now: Pool, t: nat)
    requires NoDuplicates(was.items) && k < |was.items| && was.items[k] == t && TimersAfter(k, was, before)
    requires now.expired == if GivesUp(t, was) then before.expired else before.expired - {t}
    ensures TimersAfter(k + 1, was, now)
  {
    hide GivesUp;
    assert was.items[..k + 1] == was.items[..k] + [t];
  }

  lemma WalkProgress(k: nat, was: Pool, before: Pool, now: Pool, t: nat)
    requires Progress(k, was, before) && WellFormed(now) && k < |was.items| && was.items[k] == t
    requires Checked(t, before, now) && (t in before.expired <==> t in was.expired)
    requires forall u: nat :: u < MAX_OPEN && u != t ==> SameSlot(u, before, now)
    ensures Progress(k + 1, was, now)
  {
    hide Checked;
    forall j | 0 <= j < k + 1
      ensures Checked(was.items[j], was, now)
    {
      if j < k {
        assert Checked(was.items[j], was, before) && was.items[j] != t;
        CheckedBefore(was.items[j], was, before, now);
      } else {
        CheckedLater(t, was, before, now);
      }
    }
    forall u: nat | u < MAX_OPEN && u != t && SameSlot(u, was, before)
      ensures SameSlot(u, was, now)
    {
      assert SameSlot(u, before, now);
    }
  }

  lemma WalkEnds(k: nat, was: Pool, now: Pool, called: seq<nat>)
    requires Walked(k, was, now, called, NULL)
    ensures CheckEffect(was, now, called)
  {
  }

  lemma NotChecked(t: nat, p: Pool)
    requires WellFormed(p) && t < MAX_OPEN && t !in p.expired
    ensures Checked(t, p, p) && p.expired - {t} == p.expired
  {
  }

  lemma WaitingMeans(s: Slot, h: History)
    ensures Waiting(s, h) ==>
      && s.confirmable && s.counter < MAX_RETRANSMIT && h.transmissions == |h.armed| == s.counter + 1
      && h.armed == Doubling(h.armed[0], s.counter + 1)
  {
  }

  lemma IsConsistent(s: Slot, h: History)
    requires Waiting(s, h)
    ensures Consistent(s, h)
  {
  }

  lemma AddLast(s: seq<nat>, x: nat)
    requires NoDuplicates(s) && x !in s
    ensures NoDuplicates(s + [x]) && forall y: nat :: y in s + [x] <==> y in s || y == x
  {
  }

  /** A transaction that is sent again waits twice as long as before. */
  lemma ArmedAgain(s: Slot, interval: nat, h: History)
    requires s.confirmable && s.counter < MAX_RETRANSMIT
    requires if s.counter == 0 then h == History(0, [])
             else Waiting(s.(counter := s.counter - 1), h) && interval == 2 * s.interval
    ensures Waiting(s.(interval := interval), History(h.transmissions + 1, h.armed + [interval]))
  {
    if s.counter == 0 {
      assert Doubling(interval, 0) == [];
      assert Doubling(interval, 1) == [] + [interval * Pow2(0)];
    } else {
      assert h.armed[0] * Pow2(s.counter) == 2 * (h.armed[0] * Pow2(s.counter - 1));
    }
  }

  /** One check sends all transactions whose timers have run out iff none of them lies behind one that gives up. */
  lemma OneCheckIsEnough(was: Pool, now: Pool, called: seq<nat>)
    requires CheckEffect(was, now, called)
    ensures
      (forall j :: 0 <= j < |was.items| && was.items[j] in was.expired ==>
        now.history[was.items[j]].transmissions == was.history[was.items[j]].transmissions + 1)
      <==> (forall i, j :: 0 <= i < j < |was.items| && GivesUp(was.items[i], was) ==> was.items[j] !in was.expired)
  {
    hide GivesUp;
    var k := Handled(was.items, was);
    forall i, j | 0 <= i < j < |was.items| && GivesUp(was.items[i], was)
      ensures SameSlot(was.items[j], was, now)
    {
      assert k - 1 <= i;
    }
    forall j | 0 <= j < k && was.items[j] in was.expired
      ensures now.history[was.items[j]].transmissions == was.history[was.items[j]].transmissions + 1
    {
      assert Checked(was.items[j], was, now);
    }
  }

  lemma {:induction false} SurvivorsConcat(a: seq<nat>, b: seq<nat>, p: Pool)
    ensures Survivors(a + b, p) == Survivors(a, p) + Survivors(b, p)
    ensures Callbacks(a + b, p) == Callbacks(a, p) + Callbacks(b, p)
    ensures Count(a + b, p) == Count(a, p) + Count(b, p)
  {
    if a == [] {
      assert a + b == b;
    } else {
      assert (a + b)[1..] == a[1..] + b;
      SurvivorsConcat(a[1..], b, p);
    }
  }

  lemma {:induction false} AllSurvive(l: seq<nat>, p: Pool)
    requires forall i :: 0 <= i < |l| ==> !GivesUp(l[i], p)
    ensures Survivors(l, p) == l && Callbacks(l, p) == []
  {
    if l != [] {
      AllSurvive(l[1..], p);
    }
  }

  lemma {:induction false} SurvivorsStay(l: seq<nat>, p: Pool)
    ensures forall t: nat :: t in Survivors(l, p) ==> t in l && !GivesUp(t, p)
  {
    if l != [] {
      SurvivorsStay(l[1..], p);
    }
  }

  /** Between two checks: those that stay of the first m, then the others, which are as they were. */
  ghost predicate Between(m: nat, was: Pool, now: Pool, called: seq<nat>) {
    && m <= |was.items| && Progress(m, was, now) && TimersAfter(m, was, now)
    && now.items == Survivors(was.items[..m], was) + was.items[m..] && called == Callbacks(was.items[..m], was)
    && forall t: nat :: t in was.expired && t in was.items ==> Waiting(was.slots[t], was.history[t])
  }

  lemma StartsBetween(was: Pool)
    requires WellFormed(was)
    requires forall t: nat :: t in was.expired && t in was.items ==> Waiting(was.slots[t], was.history[t])
    ensures Between(0, was, was, []) && was.items[0..] == was.items
  {
    assert was.items[..0] == [];
  }

  /** What the next check finds at position i of the list. */
  lemma Verdict(m: nat, was: Pool, now: Pool, called: seq<nat>, i: nat)
    requires Between(m, was, now, called) && i < |now.items|
    ensures
      var s, t := |Survivors(was.items[..m], was)|, now.items[i];
      if i < s then t in was.items[..m] && t !in now.expired
      else
        && m + i - s < |was.items| && t == was.items[m + i - s] && t !in was.items[..m]
        && (t in now.expired <==> t in was.expired) && GivesUp(t, now) == GivesUp(t, was) && SameSlot(t, was, now)
  {
    hide Survivors, Callbacks, Checked, Waiting;
    SurvivorsStay(was.items[..m], was);
    var s := Survivors(was.items[..m], was);
    if i < |s| {
      assert now.items[i] == s[i] && s[i] in s;
    } else {
      assert now.items[i] == was.items[m..][i - |s|] == was.items[m + i - |s|];
    }
  }

  lemma StillSent(m: nat, was: Pool, now: Pool, called: seq<nat>)
    requires Between(m, was, now, called)
    ensures WellFormed(now)
    ensures forall t: nat :: t in now.expired && t in now.items ==> Waiting(now.slots[t], now.history[t])
  {
    hide Survivors, Callbacks, Waiting, Checked;
    forall t: nat | t in now.expired && t in now.items
      ensures Waiting(now.slots[t], now.history[t])
    {
      var i :| 0 <= i < |now.items| && now.items[i] == t;
      Verdict(m, was, now, called, i);
    }
  }

  /** How far the next check comes. */
  lemma Reach(m: nat, was: Pool, now: Pool, called: seq<nat>)
    requires Between(m, was, now, called)
    ensures
      var s, k := |Survivors(was.items[..m], was)|, Handled(now.items, now);
      var n := m + k - s;
      && m <= n <= |was.items|
      && (LastGivesUp(k, now) ==> n > m && GivesUp(was.items[n - 1], was) && now.items[k - 1] == was.items[n - 1])
      && (!LastGivesUp(k, now) ==> k == |now.items| && (n > m ==> !GivesUp(was.items[n - 1], was)))
      && forall j :: m <= j < n - 1 ==> !GivesUp(was.items[j], was)
  {
    hide Survivors, Callbacks, Waiting, Checked, Handled, SameSlot, Progress, TimersAfter;
    var s, k := |Survivors(was.items[..m], was)|, Handled(now.items, now);
    if k > 0 {
      Verdict(m, was, now, called, k - 1);
    }
    forall j | m <= j < m + k - s - 1
      ensures !GivesUp(was.items[j], was)
    {
      Verdict(m, was, now, called, s + j - m);
    }
  }

  /** A stretch of the list of which only the last transaction may give up. */
  lemma Stretch(m: nat, n: nat, p: Pool)
    requires m < n <= |p.items| && forall j :: m <= j < n - 1 ==> !GivesUp(p.items[j], p)
    ensures
      var last := p.items[n - 1];
      && Survivors(p.items[..n], p)
         == Survivors(p.items[..m], p) + p.items[m..n - 1] + (if GivesUp(last, p) then [] else [last])
      && Callbacks(p.items[..n], p) == Callbacks(p.items[..m], p)
           + (if GivesUp(last, p) then CallbackOf(last, p) else [])
      && Count(p.items[m..], p) == Count(p.items[m..n], p) + Count(p.items[n..], p)
      && (GivesUp(last, p) ==> Count(p.items[m..n], p) > 0)
  {
    hide Survivors, Callbacks, GivesUp, Count, CallbackOf;
    var last := p.items[n - 1];
    assert p.items[..n] == p.items[..m] + (p.items[m..n - 1] + [last]) && p.items[m..] == p.items[m..n] + p.items[n..];
    assert p.items[m..n] == p.items[m..n - 1] + [last];
    SurvivorsConcat(p.items[..m], p.items[m..n - 1] + [last], p);
    SurvivorsConcat(p.items[m..n - 1], [last], p);
    SurvivorsConcat(p.items[m..n], p.items[n..], p);
    AllSurvive(p.items[m..n - 1], p);
    OnlyOne(last, p);
  }

  lemma OnlyOne(t: nat, p: Pool)
    ensures Survivors([t], p) == if GivesUp(t, p) then [] else [t]
    ensures Callbacks([t], p) == if GivesUp(t, p) then CallbackOf(t, p) else []
    ensures Count([], p) == 0 && (GivesUp(t, p) ==> Count([t], p) == 1)
  {
  }

  /** Another check comes up to position n of the original list. */
  lemma ChecksCompose(m: nat, was: Pool, before: Pool, called: seq<nat>, now: Pool, more: seq<nat>) returns (n: nat)
    requires Between(m, was, before, called) && CheckEffect(before, now, more)
    ensures m <= n <= |was.items| && Between(n, was, now, called + more)
    ensures Count(was.items[n..], was) == 0 || Count(was.items[n..], was) < Count(was.items[m..], was)
  {
    hide Survivors, Callbacks, GivesUp, Count, Without, Handled, TimersAfter, Checked, Waiting, CallbackOf;
    Reach(m, was, before, called);
    n := m + Handled(before.items, before) - |Survivors(was.items[..m], was)|;
    ItemsCompose(m, was, before, called, now, more, n);
    ProgressCompose(m, was, before, called, now, more, n);
    TimersCompose(m, was, before, called, now, more, n);
  }

  lemma ItemsCompose(m: nat, was: Pool, before: Pool, called: seq<nat>, now: Pool, more: seq<nat>, n: nat)
    requires Between(m, was, before, called) && CheckEffect(before, now, more)
    requires n == m + Handled(before.items, before) - |Survivors(was.items[..m], was)| <= |was.items|
    ensures now.items == Survivors(was.items[..n], was) + was.items[n..]
    ensures called + more == Callbacks(was.items[..n], was)
    ensures Count(was.items[n..], was) == 0 || Count(was.items[n..], was) < Count(was.items[m..], was)
  {
    hide Survivors, Callbacks, GivesUp, Count, Without, Handled, TimersAfter, Progress, Waiting, CallbackOf;
    Reach(m, was, before, called);
    var s, k, l := Survivors(was.items[..m], was), Handled(before.items, before), was.items;
    OnlyOne(0, was);
    if LastGivesUp(k, before) {
      OneTakenOut(m, was, before, called, now, more, n);
    } else if n > m {
      Stretch(m, n, was);
      assert l[n..] == [] && now.items == s + l[m..n - 1] + [l[n - 1]] + l[n..];
    } else {
      assert l[n..] == [];
    }
  }

  lemma OneTakenOut(m: nat, was: Pool, before: Pool, called: seq<nat>, now: Pool, more: seq<nat>, n: nat)
    requires Between(m, was, before, called) && CheckEffect(before, now, more)
    requires LastGivesUp(Handled(before.items, before), before)
    requires n == m + Handled(before.items, before) - |Survivors(was.items[..m], was)| <= |was.items|
    ensures now.items == Survivors(was.items[..n], was) + was.items[n..]
    ensures called + more == Callbacks(was.items[..n], was)
    ensures Count(was.items[n..], was) < Count(was.items[m..], was)
  {
    hide Survivors, Callbacks, GivesUp, Count, Without, Handled, TimersAfter, Progress, Waiting, CallbackOf, SameSlot;
    Reach(m, was, before, called);
    var k, l := Handled(before.items, before), was.items;
    LastTakenOut(m, n, was);
    Verdict(m, was, before, called, k - 1);
    SameCallback(l[n - 1], was, before);
    IsWellFormed(m, was, before, called);
    TakenOut(Survivors(l[..m], was), l, m, n, before.items, k);
  }

  lemma LastTakenOut(m: nat, n: nat, p: Pool)
    requires m < n <= |p.items|
    requires (forall j :: m <= j < n - 1 ==> !GivesUp(p.items[j], p)) && GivesUp(p.items[n - 1], p)
    ensures Survivors(p.items[..n], p) == Survivors(p.items[..m], p) + p.items[m..n - 1]
    ensures Callbacks(p.items[..n], p) == Callbacks(p.items[..m], p) + CallbackOf(p.items[n - 1], p)
    ensures Count(p.items[n..], p) < Count(p.items[m..], p)
  {
    hide Survivors, Callbacks, GivesUp, Count, CallbackOf;
    Stretch(m, n, p);
    assert Survivors(p.items[..m], p) + p.items[m..n - 1] + [] == Survivors(p.items[..m], p) + p.items[m..n - 1];
  }

  lemma IsWellFormed(m: nat, was: Pool, now: Pool, called: seq<nat>)
    requires Between(m, was, now, called)
    ensures WellFormed(was) && WellFormed(now)
  {
  }

  lemma TakenOut(s: seq<nat>, l: seq<nat>, m: nat, n: nat, items: seq<nat>, k: nat)
    requires m < n <= |l| && items == s + l[m..] && k == |s| + n - m && NoDuplicates(items)
    ensures Without(items, items[k - 1]) == s + l[m..n - 1] + l[n..]
  {
    hide Without;
    WithoutAt(items, k - 1);
    assert items[..k - 1] == s + l[m..n - 1] && items[k..] == l[n..];
  }

  lemma SameCallback(t: nat, p: Pool, q: Pool)
    requires SameSlot(t, p, q)
    ensures CallbackOf(t, p) == CallbackOf(t, q)
  {
  }

  lemma ProgressCompose(m: nat, was: Pool, before: Pool, called: seq<nat>, now: Pool, more: seq<nat>, n: nat)
    requires Between(m, was, before, called) && CheckEffect(before, now, more)
    requires n == m + Handled(before.items, before) - |Survivors(was.items[..m], was)| <= |was.items|
    ensures Progress(n, was, now)
  {
    hide Between, CheckEffect, Survivors, GivesUp, Handled, Checked, SameSlot;
    forall j | 0 <= j < |was.items|
      ensures WellFormed(was) && WellFormed(now) && was.items[j] < MAX_OPEN
      ensures if j < n then Checked(was.items[j], was, now) else SameSlot(was.items[j], was, now)
    {
      ListedProgress(m, was, before, called, now, more, n, j);
    }
    forall u: nat | u < MAX_OPEN && u !in was.items
      ensures SameSlot(u, was, now)
    {
      NotListed(m, was, before, called, u);
      UnlistedProgress(m, was, before, called, now, more, u);
    }
    BothWellFormed(m, was, before, called, now, more);
  }

  lemma BothWellFormed(m: nat, was: Pool, before: Pool, called: seq<nat>, now: Pool, more: seq<nat>)
    requires Between(m, was, before, called) && CheckEffect(before, now, more)
    ensures WellFormed(was) && WellFormed(now)
  {
  }

  lemma UnlistedProgress(m: nat, was: Pool, before: Pool, called: seq<nat>, now: Pool, more: seq<nat>, u: nat)
    requires Between(m, was, before, called) && CheckEffect(before, now, more)
    requires u < MAX_OPEN && u !in was.items && u !in before.items
    ensures SameSlot(u, was, now)
  {
    hide Survivors, Callbacks, GivesUp, Without, Handled, TimersAfter, Checked, Waiting, CallbackOf;
  }

  lemma ListedProgress(m: nat, was: Pool, before: Pool, called: seq<nat>, now: Pool, more: seq<nat>, n: nat, j: nat)
    requires Between(m, was, before, called) && CheckEffect(before, now, more)
    requires n == m + Handled(before.items, before) - |Survivors(was.items[..m], was)| <= |was.items| && j < |was.items|
    ensures WellFormed(was) && WellFormed(now) && was.items[j] < MAX_OPEN
    ensures if j < n then Checked(was.items[j], was, now) else SameSlot(was.items[j], was, now)
  {
    hide Survivors, Callbacks, GivesUp, Without, Handled, TimersAfter, Checked, Waiting, CallbackOf;
    Reach(m, was, before, called);
    if j < m {
      HandledOnce(m, was, before, called, now, more, was.items[j]);
      CheckedBefore(was.items[j], was, before, now);
    } else {
      Verdict(m, was, before, called, |Survivors(was.items[..m], was)| + j - m);
      if j < n {
        CheckedLater(was.items[j], was, before, now);
      }
    }
  }

  lemma NotListed(m: nat, was: Pool, now: Pool, called: seq<nat>, u: nat)
    requires Between(m, was, now, called) && u !in was.items
    ensures u !in now.items
  {
    hide Survivors, Callbacks, GivesUp;
    SurvivorsStay(was.items[..m], was);
  }

  /** The next check changes nothing about a transaction that has been handled. */
  lemma HandledOnce(m: nat, was: Pool, before: Pool, called: seq<nat>, now: Pool, more: seq<nat>, t: nat)
    requires Between(m, was, before, called) && CheckEffect(before, now, more) && t in was.items[..m] && t < MAX_OPEN
    ensures SameSlot(t, before, now)
  {
    hide Survivors, Callbacks, GivesUp, Handled, Without, Waiting;
    if t in before.items {
      var i :| 0 <= i < |before.items| && before.items[i] == t;
      Verdict(m, was, before, called, i);
      Reach(m, was, before, called);
      assert Checked(before.items[i], before, now);
    }
  }

  lemma CheckedBefore(t: nat, was: Pool, before: Pool, now: Pool)
    requires WellFormed(was) && WellFormed(before) && WellFormed(now) && t < MAX_OPEN
    requires Checked(t, was, before) && SameSlot(t, before, now)
    ensures Checked(t, was, now)
  {
  }

  lemma CheckedLater(t: nat, was: Pool, before: Pool, now: Pool)
    requires WellFormed(was) && WellFormed(before) && WellFormed(now) && t < MAX_OPEN
    requires SameSlot(t, was, before) && (t in before.expired <==> t in was.expired) && Checked(t, before, now)
    ensures Checked(t, was, now)
  {
  }

  lemma TimersCompose(m: nat, was: Pool, before: Pool, called: seq<nat>, now: Pool, more: seq<nat>, n: nat)
    requires Between(m, was, before, called) && CheckEffect(before, now, more)
    requires m <= n == m + Handled(before.items, before) - |Survivors(was.items[..m], was)| <= |was.items|
    ensures TimersAfter(n, was, now)
  {
    hide Survivors, Callbacks, GivesUp, Handled, Without, Waiting, Checked, Progress, Between;
    var k := Handled(before.items, before);
    forall t: nat
      ensures t in now.expired <==> t in was.expired && (t in was.items[..n] ==> GivesUp(t, was))
    {
      if t in before.items[..k] {
        var i :| 0 <= i < k && before.items[i] == t;
        TimerReached(m, was, before, called, i, n);
      } else {
        TimerNotReached(m, was, before, called, t, n);
      }
    }
  }

  /** A timer that the next check looks at. */
  lemma TimerReached(m: nat, was: Pool, before: Pool, called: seq<nat>, i: nat, n: nat)
    requires Between(m, was, before, called) && i < Handled(before.items, before)
    requires m <= n == m + Handled(before.items, before) - |Survivors(was.items[..m], was)| <= |was.items|
    ensures
      var t := before.items[i];
      && t in was.items[..n]
      && (t in before.expired && GivesUp(t, before) <==> t in was.expired && GivesUp(t, was))
  {
    hide Survivors, Callbacks, GivesUp, Handled, Waiting, Checked, Progress;
    Verdict(m, was, before, called, i);
    var s, t := |Survivors(was.items[..m], was)|, before.items[i];
    if i >= s {
      assert was.items[..n][m + i - s] == t;
    } else {
      assert was.items[..n] == was.items[..m] + was.items[m..n];
    }
  }

  lemma TimerNotReached(m: nat, was: Pool, before: Pool, called: seq<nat>, t: nat, n: nat)
    requires Between(m, was, before, called) && t !in before.items[..Handled(before.items, before)]
    requires m <= n == m + Handled(before.items, before) - |Survivors(was.items[..m], was)| <= |was.items|
    ensures t in before.expired <==> t in was.expired && (t in was.items[..n] ==> GivesUp(t, was))
  {
    hide Survivors, Callbacks, GivesUp, Handled, Waiting, Checked, Progress;
    var s, k, l := |Survivors(was.items[..m], was)|, Handled(before.items, before), was.items;
    forall j | m <= j < n
      ensures l[j] in before.items[..k]
    {
      Verdict(m, was, before, called, s + j - m);
      assert before.items[..k][s + j - m] == l[j];
    }
    assert l[..n] == l[..m] + l[m..n];
  }

  lemma {:induction false} NoneExpired(l: seq<nat>, p: Pool)
    requires Count(l, p) == 0
    ensures forall t: nat :: t in l ==> t !in p.expired
    ensures Survivors(l, p) == l && Callbacks(l, p) == []
  {
    if l != [] {
      NoneExpired(l[1..], p);
    }
  }

  lemma AllHandled(m: nat, was: Pool, now: Pool, called: seq<nat>)
    requires Between(m, was, now, called) && Count(was.items[m..], was) == 0
    ensures now.items == Survivors(was.items, was) && called == Callbacks(was.items, was)
    ensures Progress(|was.items|, was, now)
    ensures forall t: nat :: t in now.items ==> t !in now.expired
  {
    hide Survivors, Callbacks, Count, GivesUp, Waiting;
    NoneExpired(was.items[m..], was);
    assert was.items == was.items[..m] + was.items[m..];
    SurvivorsConcat(was.items[..m], was.items[m..], was);
    SurvivorsStay(was.items, was);
    forall j | m <= j < |was.items|
      ensures Checked(was.items[j], was, now)
    {
      assert was.items[j] in was.items[m..];
    }
  }

  /** A check in which at most the last transaction of the list gives up. */
  lemma LastOne(others: seq<nat>, t: nat, was: Pool, now: Pool, called: seq<nat>)
    requires CheckEffect(was, now, called) && was.items == others + [t]
    requires forall i :: 0 <= i < |others| ==> !GivesUp(others[i], was)
    ensures now.items == (if GivesUp(t, was) then others else was.items)
    ensures called == if GivesUp(t, was) then CallbackOf(t, was) else []
    ensures t < MAX_OPEN && WellFormed(was) && WellFormed(now)
    ensures Checked(t, was, now) && TimersAfter(|was.items|, was, now)
    ensures forall u: nat :: u < MAX_OPEN && u !in was.items ==> SameSlot(u, was, now)
  {
    hide GivesUp, Checked, CallbackOf, Without;
    var k := Handled(was.items, was);
    assert forall i :: 0 <= i < |others| ==> was.items[i] == others[i];
    assert k == |was.items| && was.items[k - 1] == t;
    WithoutAt(was.items, k - 1);
    assert was.items[..k - 1] + was.items[k..] == others;
  }

  /**
   A confirmable message that is never answered, while no other timer runs out: it is sent 1 + MAX_RETRANSMIT times,
   after waits that double, which make up initial * (2^MAX_RETRANSMIT - 1) together.  Then its slot is free again,
   and the callback that the slot holds (which coap_new_transaction has not set) has been called once.
   */
  method SendUnanswered(ts: Transactions, mid: nat, initial: nat) returns (t: int, called: seq<nat>)
    requires ts.Valid() && exists u :: 0 <= u < MAX_OPEN && !ts.used[u]
    requires forall u: nat :: u in ts.list.items ==> u !in ts.expired
    modifies ts, ts.slots, ts.used, ts.list, ts.list.next
    ensures ts.Valid() && 0 <= t < MAX_OPEN && !ts.used[t] && ts.list.items == old(ts.list.items)
    ensures ts.history[t] == History(1 + MAX_RETRANSMIT, Doubling(initial, MAX_RETRANSMIT))
    ensures Sum(ts.history[t].armed) == initial * (Pow2(MAX_RETRANSMIT) - 1)
    ensures called == if old(ts.slots[..])[t].callback.Some? then [old(ts.slots[..])[t].callback.value] else []
  {
    hide Consistent, Without, Sum, Doubling, Pow2, CheckEffect, Waiting, Linked;
    ghost var others := ts.list.items;
    t := ts.NewTransaction(mid, true);
    assert t !in others;
    var outcome := ts.SendTransaction(t, initial);
    ghost var callback := ts.slots[t].callback;
    WaitingMeans(ts.slots[t], ts.history[t]);
    DoublingSum(initial, MAX_RETRANSMIT);
    called := [];
    var k := 0;
    while k < MAX_RETRANSMIT
      invariant 0 <= k <= MAX_RETRANSMIT && ts.Valid() && ts.slots[t].callback == callback
      invariant ts.list.items == if k < MAX_RETRANSMIT then others + [t] else others
      invariant k < MAX_RETRANSMIT ==> Waiting(ts.slots[t], ts.history[t]) && ts.slots[t].counter == k
      invariant forall u: nat :: u in ts.list.items ==> u !in ts.expired
      invariant ts.history[t].transmissions == k + 1
      invariant |ts.history[t].armed| > 0 && ts.history[t].armed[0] == initial
      invariant ts.history[t].armed == Doubling(initial, if k < MAX_RETRANSMIT then k + 1 else MAX_RETRANSMIT)
      invariant k == MAX_RETRANSMIT ==> called == if callback.Some? then [callback.value] else []
    {
      DoublingSum(initial, k + 1);
      called := CheckLast(ts, others, t);
      k := k + 1;
    }
  }

  lemma OthersRun(items: seq<nat>, others: seq<nat>, t: nat, expired: set<nat>)
    requires items == others + [t] && NoDuplicates(items) && forall u: nat :: u in items ==> u !in expired
    ensures forall i :: 0 <= i < |others| ==> others[i] !in expired && others[i] != t
  {
    forall i | 0 <= i < |others|
      ensures others[i] !in expired && others[i] != t
    {
      assert items[i] == others[i] && items[|others|] == t;
    }
  }

  /** The timer of the last transaction of the list runs out, and no other one. */
  method CheckLast(ts: Transactions, ghost others: seq<nat>, t: nat) returns (called: seq<nat>)
    requires ts.Valid() && ts.list.items == others + [t] && t < MAX_OPEN && Waiting(ts.slots[t], ts.history[t])
    requires forall u: nat :: u in ts.list.items ==> u !in ts.expired
    modifies ts, ts.slots, ts.used, ts.list, ts.list.next
    ensures ts.Valid() && forall u: nat :: u in ts.list.items ==> u !in ts.expired
    ensures ts.slots[t].counter == old(ts.slots[t]).counter + 1 && ts.slots[t].callback == old(ts.slots[t]).callback
    ensures ts.history[t].transmissions == old(ts.history[t]).transmissions + 1
    ensures
      if old(ts.slots[t]).counter + 1 < MAX_RETRANSMIT
      then ts.list.items == old(ts.list.items) && Waiting(ts.slots[t], ts.history[t]) && called == []
           && ts.history[t].armed[0] == old(ts.history[t]).armed[0]
           && ts.history[t].armed == Doubling(ts.history[t].armed[0], ts.slots[t].counter + 1)
      else ts.list.items == others && called == CallbackOf(t, old(ts.Now()))
           && !ts.used[t] && ts.history[t].armed == old(ts.history[t]).armed
  {
    hide Consistent, Without, Doubling, Pow2, CheckEffect, Waiting, Linked, NoDuplicates;
    WaitingMeans(ts.slots[t], ts.history[t]);
    OthersRun(ts.list.items, others, t, ts.expired);
    ts.RunOut({t});
    ghost var was := ts.Now();
    called := ts.CheckTransactions();
    LastOne(others, t, was, ts.Now(), called);
    if t in ts.list.items {
      StillWaiting(ts, t);
      WaitingMeans(ts.slots[t], ts.history[t]);
    }
  }

  lemma StillWaiting(ts: Transactions, t: nat)
    requires ts.Valid() && t in ts.list.items && ts.history[t].transmissions > 0
    ensures Waiting(ts.slots[t], ts.history[t])
  {
  }

  /** A check of two transactions whose timers have both run out: the second is skipped when the first gives up. */
  lemma TwoInARow(a: nat, b: nat, was: Pool, now: Pool, called: seq<nat>)
    requires CheckEffect(was, now, called) && was.items == [a, b] && a in was.expired && b in was.expired
    ensures WellFormed(was) && WellFormed(now) && a < MAX_OPEN && b < MAX_OPEN && a != b && Checked(a, was, now)
    ensures
      if GivesUp(a, was)
      then now.items == [b] && called == CallbackOf(a, was) && SameSlot(b, was, now) && b in now.expired
      else Checked(b, was, now)
           && if GivesUp(b, was) then now.items == [a] && called == CallbackOf(b, was)
              else now.items == [a, b] && called == []
  {
    hide Checked, CallbackOf, Without, GivesUp, SameSlot;
    var k := Handled(was.items, was);
    assert was.items[0] == a && was.items[1] == b;
    WithoutOneOfTwo(a, b);
    assert k == 1 ==> b !in was.items[..k];
  }

  lemma WithoutOneOfTwo(a: nat, b: nat)
    ensures a != b ==> Without([a, b], a) == [b] && Without([a, b], b) == [a]
  {
    if a != b {
      WithoutAt([a, b], 0);
      WithoutAt([a, b], 1);
    }
  }

  /** Two transactions that have been sent `n` times more than once. */
  ghost predicate Pair(ts: Transactions, a: int, b: int, n: nat, x: nat, y: nat)
    reads ts, ts.slots, ts.used, ts.list, ts.list.next
  {
    && ts.Valid() && 0 <= a < MAX_OPEN && 0 <= b < MAX_OPEN && a != b && ts.list.items == [a as nat, b as nat]
    && Waiting(ts.slots[a], ts.history[a]) && Waiting(ts.slots[b], ts.history[b])
    && ts.slots[a].counter == ts.slots[b].counter == n
    && ts.slots[a].callback == Some(x) && ts.slots[b].callback == Some(y)
  }

  method TwoSent(initial: nat, x: nat, y: nat) returns (ts: Transactions, a: int, b: int)
    ensures fresh(ts) && fresh(ts.slots) && fresh(ts.used) && fresh(ts.list) && fresh(ts.list.next)
    ensures Pair(ts, a, b, 0, x, y)
  {
    hide Without, Linked, Doubling, Pow2, Waiting, Consistent;
    ts := new Transactions();
    assert !ts.used[0] && !ts.used[1];
    a := RequestSent(ts, 1, initial, x);
    ghost var free := if a == 0 then 1 else 0;
    assert !ts.used[free];
    ghost var before := ts.Now();
    b := RequestSent(ts, 2, initial, y);
    assert SameSlot(a, before, ts.Now());
  }

  /** A transaction is allocated, gets its callback, and is sent. */
  method RequestSent(ts: Transactions, mid: nat, initial: nat, x: nat) returns (t: nat)
    requires ts.Valid() && exists u :: 0 <= u < MAX_OPEN && !ts.used[u]
    modifies ts, ts.slots, ts.used, ts.list, ts.list.next
    ensures ts.Valid() && t < MAX_OPEN && t !in old(ts.list.items) && ts.list.items == old(ts.list.items) + [t]
    ensures Waiting(ts.slots[t], ts.history[t]) && ts.slots[t].counter == 0 && ts.slots[t].callback == Some(x)
    ensures forall u: nat :: u < MAX_OPEN && u != t ==> SameSlot(u, old(ts.Now()), ts.Now())
    ensures forall u: nat :: u < MAX_OPEN && u != t ==> ts.used[u] == old(ts.used[u])
  {
    hide Without, Linked, Doubling, Pow2, Waiting, Consistent;
    var id := ts.NewTransaction(mid, true);
    t := id;
    ts.slots[t] := ts.slots[t].(callback := Some(x));
    var outcome := ts.SendTransaction(t, initial);
  }

  /** Nobody gives up in the first three rounds. */
  method ThreeRounds(ts: Transactions, a: int, b: int, ghost x: nat, ghost y: nat)
    requires Pair(ts, a, b, 0, x, y)
    modifies ts, ts.slots, ts.used, ts.list, ts.list.next
    ensures Pair(ts, a, b, MAX_RETRANSMIT - 1, x, y)
  {
    hide Without, Linked, Doubling, Pow2, Waiting, CheckEffect, Consistent;
    for n := 0 to MAX_RETRANSMIT - 1
      invariant Pair(ts, a, b, n, x, y)
    {
      ts.RunOut({a, b});
      ghost var was := ts.Now();
      var called := ts.CheckTransactions();
      TwoInARow(a, b, was, ts.Now(), called);
      StillWaiting(ts, a);
      StillWaiting(ts, b);
    }
  }

  /**
   Two messages without an answer, whose timers always run out together.  When both time out, the check that gives
   the first one up does not reach the second: it is neither sent nor called back before another check comes.
   */
  method SecondIsSkipped(initial: nat, x: nat, y: nat)
    returns (ts: Transactions, a: int, b: int, called: seq<nat>, later: seq<nat>)
    ensures fresh(ts) && ts.Valid() && 0 <= a < MAX_OPEN && 0 <= b < MAX_OPEN && a != b
    ensures called == [x] && later == [y] && ts.list.items == []
    ensures ts.history[a].transmissions == ts.history[b].transmissions == 1 + MAX_RETRANSMIT
  {
    hide Without, Linked, Doubling, Pow2, Waiting, CheckEffect, Consistent;
    ts, a, b := TwoSent(initial, x, y);
    ThreeRounds(ts, a, b, x, y);
    WaitingMeans(ts.slots[a], ts.history[a]);
    WaitingMeans(ts.slots[b], ts.history[b]);
    ts.RunOut({a, b});
    ghost var was := ts.Now();
    called := ts.CheckTransactions();
    TwoInARow(a, b, was, ts.Now(), called);
    assert ts.history[b].transmissions == 1 + 3 && ts.slots[b].counter == 3 && ts.list.items == [b] && called == [x];
    ghost var between := ts.Now();
    later := ts.CheckTransactions();
    LastOne([], b, between, ts.Now(), later);
    assert SameSlot(a, between, ts.Now());
  }
}
