/**
 Linked lists whose elements carry their own next pointer (core/lib/list.c).  Elements are the blocks of a pool,
 named by their position; the abstract value of a list is the sequence of its elements.
 */
module LinkedList {
  const NULL := -1

  predicate NoDuplicates(s: seq<nat>) {
    forall i, j :: 0 <= i < j < |s| ==> s[i] != s[j]
  }

  predicate Below(s: seq<nat>, n: nat) {
    forall i :: 0 <= i < |s| ==> s[i] < n
  }

  function At(s: seq<nat>, k: nat): int {
    if k < |s| then s[k] else NULL
  }

  /** The pointers run from the head through the elements and end at the last. */
  predicate Linked(head: int, next: seq<int>, items: seq<nat>) {
    && NoDuplicates(items) && Below(items, |next|) && head == At(items, 0)
    && forall i :: 0 <= i < |items| ==> next[items[i]] == At(items, i + 1)
  }

  function Without(s: seq<nat>, x: nat): (r: seq<nat>)
    ensures |r| <= |s|
    ensures forall y: nat :: y in r <==> y in s && y != x
    ensures NoDuplicates(s) ==> NoDuplicates(r)
    ensures forall n: nat :: Below(s, n) ==> Below(r, n)
  {
    if s == [] then [] else
      var r := Without(s[1..], x);
      assert forall y: nat :: y in s <==> y == s[0] || y in s[1..];
      assert forall n: nat :: Below(s, n) ==> s[0] < n && Below(s[1..], n);
      assert NoDuplicates(s) ==> s[0] !in s[1..] && NoDuplicates(s[1..]);
      if s[0] == x then r else [s[0]] + r
  }

  lemma {:induction false} WithoutNothing(s: seq<nat>, x: nat)
    requires x !in s
    ensures Without(s, x) == s
  {
    if s != [] {
      WithoutNothing(s[1..], x);
    }
  }

  lemma {:induction false} WithoutAt(s: seq<nat>, k: nat)
    requires NoDuplicates(s) && k < |s|
    ensures Without(s, s[k]) == s[..k] + s[k + 1..]
  {
    if k == 0 {
      WithoutNothing(s[1..], s[0]);
    } else {
      WithoutAt(s[1..], k - 1);
      assert s[1..][..k - 1] == s[1..k] && s[1..][k..] == s[k + 1..];
      assert [s[0]] + s[1..k] == s[..k];
    }
  }

  /** Taking the first element out: the head gets its pointer, and its own is cleared. */
  lemma HeadUnlinked(head: int, next: seq<int>, items: seq<nat>)
    requires Linked(head, next, items) && items != []
    ensures Linked(next[items[0]], next[items[0] := NULL], Without(items, items[0]))
  {
    hide Without;
    WithoutAt(items, 0);
    assert items[..0] + items[1..] == items[1..];
    var rest, next' := items[1..], next[items[0] := NULL];
    forall i | 0 <= i < |rest|
      ensures next'[rest[i]] == At(rest, i + 1)
    {
      assert rest[i] == items[i + 1] && next[items[i + 1]] == At(items, i + 2);
    }
  }

  /** Taking out a later element: its predecessor gets its pointer. */
  lemma InnerUnlinked(head: int, next: seq<int>, items: seq<nat>, k: nat)
    requires Linked(head, next, items) && 0 < k < |items|
    ensures Linked(head, next[items[k - 1] := next[items[k]]][items[k] := NULL], Without(items, items[k]))
  {
    hide Without;
    WithoutAt(items, k);
    var rest := items[..k] + items[k + 1..];
    var next' := next[items[k - 1] := next[items[k]]][items[k] := NULL];
    forall i | 0 <= i < |rest|
      ensures next'[rest[i]] == At(rest, i + 1)
    {
      if i + 1 < k {
        assert rest[i] == items[i] && rest[i + 1] == items[i + 1];
      } else if i + 1 == k {
        assert rest[i] == items[k - 1] && next'[rest[i]] == next[items[k]];
      } else {
        assert rest[i] == items[i + 1] && next'[rest[i]] == next[items[i + 1]];
      }
    }
  }

  /** Putting an element that is not in the list behind the last one. */
  lemma Appended(head: int, next: seq<int>, items: seq<nat>, x: nat)
    requires Linked(head, next, items) && x !in items && x < |next| && next[x] == NULL
    ensures
      var next' := if items == [] then next else next[items[|items| - 1] := x];
      Linked(if items == [] then x else head, next', items + [x])
  {
    var all := items + [x];
    var next' := if items == [] then next else next[items[|items| - 1] := x];
    forall i | 0 <= i < |all|
      ensures next'[all[i]] == At(all, i + 1)
    {
      if i < |items| {
        assert all[i] == items[i];
      }
    }
  }

  lemma LinkedApart(head: int, next: seq<int>, items: seq<nat>, x: nat, p: int)
    requires Linked(head, next, items) && x !in items && x < |next|
    ensures Linked(head, next[x := p], items)
  {
  }

  class List {
    const next: array<int>
    var head: int
    ghost var items: seq<nat>

    constructor (size: nat)
      ensures Valid() && items == [] && fresh(next) && next.Length == size
    {
      next := new int[size](_ => NULL);
      head := NULL;
      items := [];
    }

    ghost predicate Valid()
      reads this, next
    {
      Linked(head, next[..], items)
    }

    /** list_remove.  The element that is taken out points nowhere afterwards. */
    method Remove(item: nat)
      requires Valid() && item < next.Length
      modifies this, next
      ensures Valid() && items == Without(old(items), item)
      ensures item in old(items) ==> next[item] == NULL
      ensures item !in old(items) ==> unchanged(this) && unchanged(next)
    {
      hide Without;
      WithoutIfAbsent(items, item);
      if head == NULL {
        return;
      }
      var r := NULL;
      var l := head;
      ghost var k := 0;
      while l != NULL
        invariant 0 <= k <= |items| && l == At(items, k) && r == (if k == 0 then NULL else items[k - 1])
        invariant item !in items[..k] && unchanged(this) && unchanged(next)
        decreases |items| - k
      {
        if l == item {
          if r == NULL {
            HeadUnlinked(head, next[..], items);
            head := next[l];
          } else {
            InnerUnlinked(head, next[..], items, k);
            next[r] := next[l];
          }
          next[l] := NULL;
          items := Without(items, item);
          return;
        }
        r := l;
        l := next[l];
        k := k + 1;
      }
    }

    /** list_tail */
    method Tail() returns (l: int)
      requires Valid()
      ensures l == if items == [] then NULL else items[|items| - 1]
    {
      if head == NULL {
        return NULL;
      }
      l := head;
      ghost var k := 0;
      while next[l] != NULL
        invariant 0 <= k < |items| && l == items[k]
        decreases |items| - k
      {
        l := next[l];
        k := k + 1;
      }
    }

    /** list_add: the element becomes the last one, wherever it was before. */
    method Add(item: nat)
      requires Valid() && item < next.Length
      modifies this, next
      ensures Valid() && items == Without(old(items), item) + [item]
    {
      hide Without, Linked;
      Remove(item);
      LinkedApart(head, next[..], items, item, NULL);
      next[item] := NULL;
      Appended(head, next[..], items, item);
      InRange(head, next[..], items);
      var l := Tail();
      if l == NULL {
        head := item;
      } else {
        next[l] := item;
      }
      items := items + [item];
    }
  }

  lemma WithoutIfAbsent(s: seq<nat>, x: nat)
    ensures x !in s ==> Without(s, x) == s
  {
    if x !in s {
      WithoutNothing(s, x);
    }
  }

  lemma InRange(head: int, next: seq<int>, items: seq<nat>)
    requires Linked(head, next, items)
    ensures head == At(items, 0) && (items != [] ==> items[|items| - 1] < |next|)
  {
  }

  lemma PointsOn(head: int, next: seq<int>, items: seq<nat>, k: nat, x: nat)
    requires Linked(head, next, items)
    ensures k < |items| && items[k] == x ==> x < |next| && next[x] == At(items, k + 1)
  {
  }
}
