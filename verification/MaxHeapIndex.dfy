/**
 The MaxHeap index of Antelope (apps/antelope/index-maxheap.c): an implicit binary tree in a flat array
 whose nodes bisect the space of hashed keys; every node owns a bucket that is only appended to.
 */
module MaxHeapIndex {
  import opened Common

  // ----- Positions in the implicit tree -----

  const KEY_SPACE := 65536

  function Parent(i: nat): nat
    requires i > 0
  {
    (i - 1) / 2
  }

  function LeftChild(i: nat): nat {
    2 * i + 1
  }

  function RightChild(i: nat): nat {
    2 * i + 2
  }

  function Depth(i: nat): nat {
    if i == 0 then 0 else Depth(Parent(i)) + 1
  }

  /** Position of a node on its level, counted from the left. */
  function Pos(i: nat): nat {
    if i == 0 then 0 else 2 * Pos(Parent(i)) + if i % 2 == 1 then 0 else 1
  }

  /** Number of hashed keys that a node on level d stands for. */
  function Width(d: nat): nat
    requires d <= 16
  {
    Pow2(16 - d)
  }

  function Low(i: nat): nat
    requires Depth(i) <= 16
  {
    Pos(i) * Width(Depth(i))
  }

  function High(i: nat): int
    requires Depth(i) <= 16
  {
    (Pos(i) + 1) * Width(Depth(i)) - 1
  }

  /** The hashed key h belongs to node i. */
  predicate OnPath(i: nat, h: nat) {
    Depth(i) <= 16 && Low(i) <= h <= High(i)
  }

  lemma Children(i: nat)
    ensures Parent(2 * i + 1) == i && Parent(2 * i + 2) == i
    ensures Depth(2 * i + 1) == Depth(i) + 1 && Depth(2 * i + 2) == Depth(i) + 1
    ensures Pos(2 * i + 1) == 2 * Pos(i) && Pos(2 * i + 2) == 2 * Pos(i) + 1
  {
  }

  /** The two halves that bucket_split computes are exactly the ranges of the two children. */
  lemma HalvesAreChildren(i: nat)
    requires Depth(i) < 16
    ensures Depth(2 * i + 1) <= 16 && Depth(2 * i + 2) <= 16
    ensures var mean := Low(i) + (High(i) - Low(i)) / 2;
      && Low(2 * i + 1) == Low(i) && High(2 * i + 1) == mean
      && Low(2 * i + 2) == mean + 1 && High(2 * i + 2) == High(i)
    ensures Low(i) <= High(2 * i + 1) < High(i)
  {
    Children(i);
    var w, p := Width(Depth(i) + 1), Pos(i);
    assert Width(Depth(i)) == 2 * w;
    hide Pos, Depth, Width;
    Halve(p, w);
  }

  lemma Halve(p: nat, w: nat)
    requires w >= 1
    ensures
      var lo, hi := p * (2 * w), (p + 1) * (2 * w) - 1;
      var mean := lo + (hi - lo) / 2;
      && (2 * p) * w == lo && (2 * p + 1) * w - 1 == mean
      && (2 * p + 1) * w == mean + 1 && (2 * p + 1 + 1) * w - 1 == hi && lo <= mean < hi
  {
    var x := p * w;
    assert p * (2 * w) == 2 * x;
    assert (2 * p) * w == 2 * x;
    assert (p + 1) * (2 * w) == 2 * x + 2 * w;
    assert (2 * p + 1) * w == 2 * x + w;
    assert (2 * p + 1 + 1) * w == 2 * x + 2 * w;
  }

  /** Nodes above the last level of a tree of 16 levels have ranges of at least two hashed keys. */
  lemma {:induction false} DepthBound(i: nat, d: nat)
    requires i < Pow2(d) - 1
    ensures Depth(i) < d
  {
    if i > 0 {
      DepthBound(Parent(i), d - 1);
    }
  }

  lemma RangeNotEmpty(i: nat)
    requires Depth(i) < 16
    ensures 0 <= Low(i) < High(i)
  {
    HalvesAreChildren(i);
  }

  lemma Pow2Sixteen()
    ensures Pow2(16) == 65536
  {
    assert Pow2(4) == 16;
    assert Pow2(8) == 256;
    assert Pow2(12) == 4096;
  }

  /** i is b or one of its ancestors. */
  predicate Ancestor(i: nat, b: nat) {
    i == b || (b > 0 && Ancestor(i, Parent(b)))
  }

  lemma {:induction false} AncestorStep(i: nat, b: nat)
    requires Ancestor(i, b)
    ensures i <= b
    ensures i != b ==> Ancestor(2 * i + 1, b) || Ancestor(2 * i + 2, b)
    ensures i > 0 ==> Ancestor(Parent(i), b)
    ensures Depth(i) <= Depth(b)
    decreases b
  {
    if i != b {
      AncestorStep(i, Parent(b));
      assert b == 2 * Parent(b) + 1 || b == 2 * Parent(b) + 2;
    } else if i > 0 {
      assert Ancestor(Parent(i), Parent(b));
    }
  }

  /** The range of a node lies in the range of each of its ancestors. */
  lemma {:induction false} AncestorContains(i: nat, b: nat)
    requires Ancestor(i, b) && Depth(b) <= 16
    ensures Depth(i) <= Depth(b)
    ensures Low(i) <= Low(b) && High(b) <= High(i)
    decreases b
  {
    if i != b {
      AncestorContains(i, Parent(b));
      HalvesAreChildren(Parent(b));
      assert b == 2 * Parent(b) + 1 || b == 2 * Parent(b) + 2;
    }
  }

  // ----- The index -----

  datatype Node = Node(min: nat, max: nat)

  datatype Entry = Entry(key: nat, value: nat)

  const NO_ENTRY := Entry(0, 0)

  predicate Unused(node: Node) {
    node.min == 0 && node.max == 0
  }

  predicate HasRange(node: Node, i: nat) {
    Depth(i) <= 16 && node.min == Low(i) && node.max == High(i)
  }

  /**
   The shape of the tree: a used node has the range of its position; children are used in pairs, and
   only below a used node whose bucket is full; buckets of unused nodes are empty.
   */
  ghost predicate TreeShape(nodes: seq<Node>, fill: seq<nat>, bucketSize: nat) {
    && |nodes| == |fill| && |nodes| > 0 && !Unused(nodes[0])
    && (forall i :: 0 <= i < |nodes| && !Unused(nodes[i]) ==> HasRange(nodes[i], i))
    && (forall i :: 0 <= i < |nodes| && Unused(nodes[i]) ==> fill[i] == 0)
    && (forall p :: 0 <= p && LeftChild(p) < |nodes| ==> ChildrenShape(nodes, fill, bucketSize, p))
  }

  ghost predicate ChildrenShape(nodes: seq<Node>, fill: seq<nat>, bucketSize: nat, p: nat)
    requires |nodes| == |fill| && LeftChild(p) < |nodes|
  {
    && RightChild(p) < |nodes|
    && (Unused(nodes[LeftChild(p)]) <==> Unused(nodes[RightChild(p)]))
    && (!Unused(nodes[LeftChild(p)]) ==> !Unused(nodes[p]) && fill[p] == bucketSize)
  }

  /** Using both children of a full node keeps the shape. */
  lemma SplitKeepsShape(nodes: seq<Node>, fill: seq<nat>, bucketSize: nat, b: nat, left: Node, right: Node)
    requires TreeShape(nodes, fill, bucketSize) && RightChild(b) < |nodes|
    requires !Unused(nodes[b]) && fill[b] == bucketSize > 0 && Unused(nodes[LeftChild(b)])
    requires HasRange(left, LeftChild(b)) && HasRange(right, RightChild(b)) && !Unused(left) && !Unused(right)
    ensures TreeShape(nodes[LeftChild(b) := left][RightChild(b) := right], fill, bucketSize)
  {
    hide HasRange;
    var after := nodes[LeftChild(b) := left][RightChild(b) := right];
    forall p | 0 <= p && LeftChild(p) < |after|
      ensures ChildrenShape(after, fill, bucketSize, p)
    {
      assert ChildrenShape(nodes, fill, bucketSize, p);
    }
  }

  /** Filling the bucket of a used node keeps the shape. */
  lemma FillKeepsShape(nodes: seq<Node>, fill: seq<nat>, bucketSize: nat, b: nat)
    requires TreeShape(nodes, fill, bucketSize) && b < |nodes| && !Unused(nodes[b]) && fill[b] < bucketSize
    ensures TreeShape(nodes, fill[b := fill[b] + 1], bucketSize)
  {
    hide HasRange;
    forall p | 0 <= p && LeftChild(p) < |nodes|
      ensures ChildrenShape(nodes, fill[b := fill[b] + 1], bucketSize, p)
    {
      assert ChildrenShape(nodes, fill, bucketSize, p);
    }
  }

  /** The shape that create leaves. */
  lemma RootShape(nodes: seq<Node>, fill: seq<nat>, bucketSize: nat)
    requires |nodes| == |fill| && |nodes| % 2 == 1 && !Unused(nodes[0]) && HasRange(nodes[0], 0)
    requires forall i :: 1 <= i < |nodes| ==> Unused(nodes[i])
    requires forall i :: 0 <= i < |nodes| ==> fill[i] == 0
    ensures TreeShape(nodes, fill, bucketSize)
  {
    hide HasRange;
  }

  class MaxHeap {
    const levels: nat
    const bucketSize: nat
    /** transform_key */
    const hash: nat -> nat
    const nodes: array<Node>
    const buckets: array<seq<Entry>>
    const nextFreeSlot: array<nat>
    // The bucket cache holds one bucket; -1 is the free cache.
    var cacheId: int
    var cache: seq<Entry>

    /** create: the root takes the whole key space. */
    constructor (levels: nat, bucketSize: nat, hash: nat -> nat)
      requires 1 <= levels <= 16 && bucketSize > 0 && forall k :: hash(k) < KEY_SPACE
      ensures Valid() && Placed() && CacheFresh() && Contents() == multiset{}
      ensures fresh(nodes) && fresh(buckets) && fresh(nextFreeSlot)
      ensures cacheId == -1 && |cache| == bucketSize && (forall k :: 0 <= k < |cache| ==> cache[k] == NO_ENTRY)
      ensures forall i :: 1 <= i < nodes.Length ==> Empty(i)
      ensures forall i :: 0 <= i < nodes.Length ==> nextFreeSlot[i] == 0
      ensures this.levels == levels && this.bucketSize == bucketSize && this.hash == hash
    {
      this.levels, this.bucketSize, this.hash := levels, bucketSize, hash;
      nodes := new Node[Pow2(levels) - 1](_ => Node(0, 0));
      buckets := new seq<Entry>[Pow2(levels) - 1](_ => seq(bucketSize, _ => NO_ENTRY));
      nextFreeSlot := new nat[Pow2(levels) - 1](_ => 0);
      cacheId, cache := -1, seq(bucketSize, _ => NO_ENTRY);
      new;
      Create();
    }

    method Create()
      requires Layout() && cacheId == -1
      requires forall i :: 0 <= i < nodes.Length ==> Empty(i) && nextFreeSlot[i] == 0
      modifies nodes
      ensures Valid() && Placed() && CacheFresh() && Contents() == multiset{}
      ensures forall i :: 1 <= i < nodes.Length ==> Empty(i)
    {
      hide Depth, Pos, Low, High, Pow2, Width, Total, TreeShape, Walk, HasRange, Parent, OnPath;
      RootRange();
      PowOdd(levels);
      NothingAboveRoot();
      var r := HeapInsert(0, KEY_SPACE - 1, 0);
      forall i | 1 <= i < nodes.Length
        ensures Unused(nodes[i])
      {
        assert old(Empty(i)) && nodes[..][i] == old(nodes[..])[i];
      }
      RootShape(nodes[..], nextFreeSlot[..], bucketSize);
      EmptyTotal(buckets[..], nextFreeSlot[..], buckets.Length);
    }

    lemma UnusedIsEmpty()
      requires Valid()
      ensures forall i :: 0 <= i < nodes.Length && Empty(i) ==> nextFreeSlot[i] == 0
    {
      hide Depth, Pos, Low, High, Pow2, HasRange, ChildrenShape;
    }

    lemma NothingAboveRoot()
      ensures Reachable(0)
    {
    }

    predicate Empty(i: nat)
      reads nodes
      requires i < nodes.Length
    {
      Unused(nodes[i])
    }

    /** Arrays of the right sizes, and the entries written so far in front of each bucket. */
    ghost predicate Layout()
      reads this, nodes, buckets, nextFreeSlot
    {
      && 1 <= levels <= 16 && bucketSize > 0 && |cache| == bucketSize && -1 <= cacheId < buckets.Length
      && nodes.Length == buckets.Length == nextFreeSlot.Length == Pow2(levels) - 1
      && (forall k :: hash(k) < KEY_SPACE)
      && (forall i :: 0 <= i < buckets.Length ==> |buckets[i]| == bucketSize && nextFreeSlot[i] <= bucketSize)
      && (forall i :: 0 <= i < buckets.Length && nextFreeSlot[i] == 0 ==>
            forall k :: 0 <= k < bucketSize ==> buckets[i][k] == NO_ENTRY)
    }

    ghost predicate Shape()
      reads this, nodes, nextFreeSlot
      requires nodes.Length == nextFreeSlot.Length == Pow2(levels) - 1 && 1 <= levels <= 16
    {
      TreeShape(nodes[..], nextFreeSlot[..], bucketSize)
    }

    ghost predicate Valid()
      reads this, nodes, buckets, nextFreeSlot
    {
      Layout() && Shape()
    }

    /** The entries of bucket b. */
    ghost function Entries(b: nat): seq<Entry>
      reads this, nodes, buckets, nextFreeSlot
      requires Layout() && b < buckets.Length
    {
      buckets[b][..nextFreeSlot[b]]
    }

    /** All nodes on the walk to node t, except t itself, are used. */
    ghost predicate Reachable(t: nat)
      reads nodes
    {
      forall a :: 0 <= a < nodes.Length && a != t && Walk(a, t) ==> !Empty(a)
    }

    ghost predicate Ranges()
      reads this, nodes
    {
      && 1 <= levels <= 16 && nodes.Length == Pow2(levels) - 1
      && forall i :: 0 <= i < nodes.Length && !Empty(i) ==> HasRange(nodes[i], i)
    }

    /** heap_insert for the range of node t: it ends up at node t, or nowhere when t is not available. */
    method HeapInsert(min: nat, max: nat, ghost t: nat) returns (r: int)
      requires Ranges() && Reachable(t)
      requires Depth(t) <= 16 && min == Low(t) && max == High(t)
      requires t < nodes.Length && !Empty(t) ==> 2 * t + 1 >= nodes.Length
      modifies nodes
      ensures Ranges()
      ensures if t < nodes.Length && old(Empty(t))
              then r == t && !Empty(t) && nodes[..] == old(nodes[..])[t := Node(min, max)]
              else r == -1 && nodes[..] == old(nodes[..])
    {
      RangeOrdered(t);
      RootIsAncestor(t);
      hide Walk, Depth, Low, High, Pow2;
      if min > max {
        return -1;
      }
      var i := 0;
      while i < nodes.Length
        invariant Walk(i, t) || (t < nodes.Length <= i && !Empty(t))
        invariant Ranges() && nodes[..] == old(nodes[..])
        decreases nodes.Length - i
      {
        HeapStep(i, t);
        DepthBound(i, levels);
        RangeNotEmpty(i);
        if Empty(i) {
          nodes[i] := Node(min, max);
          return i;
        } else if nodes[i].min <= min && max <= nodes[i].max {
          i := 2 * i + 1;
        } else {
          i := i + 1;
        }
      }
      if Walk(i, t) {
        HeapStep(i, t);
      }
      return -1;
    }

    // ----- The path of a hashed key -----

    /** Where heap_find may start for hashed key h: at the root, or at the first child of a used node on the path. */
    ghost predicate Start(s: nat, h: nat)
      reads nodes
    {
      s == 0 || (s % 2 == 1 && Parent(s) < nodes.Length && !Empty(Parent(s)) && OnPath(Parent(s), h))
    }

    /** The node that heap_find finds from s: the one of s and its sibling that is on the path. */
    function Found(s: nat, h: nat): (r: int)
      reads nodes
    {
      if s >= nodes.Length || Empty(s) then -1
      else
        var c := if OnPath(s, h) then s else s + 1;
        if LeftChild(c) >= nodes.Length then -1 else c
    }

    lemma ChildOnPath(s: nat, h: nat)
      requires Valid() && h < KEY_SPACE && Start(s, h) && s < nodes.Length && !Empty(s)
      ensures HasRange(nodes[s], s)
      ensures OnPath(s, h) || (s + 1 < nodes.Length && !Empty(s + 1) && OnPath(s + 1, h) &&
                               HasRange(nodes[s + 1], s + 1))
    {
      hide Depth, Pos, Low, High, Pow2, Width, OnPath, HasRange;
      if s == 0 {
        RootOnPath(h);
      } else {
        var p := Parent(s);
        PowOdd(levels);
        DepthBound(p, levels);
        PathSplits(p, h);
        assert s == LeftChild(p) && ChildrenShape(nodes[..], nextFreeSlot[..], bucketSize, p);
      }
    }

    lemma StartsAtChild(i: nat, h: nat)
      requires i < nodes.Length && !Empty(i) && OnPath(i, h)
      ensures Start(LeftChild(i), h)
    {
      hide OnPath;
      assert Parent(LeftChild(i)) == i;
    }

    /** heap_find: the next node on the path of the key, at or behind the iterator. */
    method HeapFind(key: nat, iterator_: nat) returns (r: int, newIterator: nat)
      requires Valid() && Start(iterator_, hash(key))
      ensures r == Found(iterator_, hash(key))
      ensures r >= 0 ==>
        && newIterator == LeftChild(r) < nodes.Length && r < nodes.Length && !Empty(r)
        && OnPath(r, hash(key))
      ensures r >= 0 ==> Start(newIterator, hash(key))
      ensures r < 0 ==> newIterator == iterator_
    {
      hide Depth, Pos, Low, High, Pow2, Width, OnPath, HasRange, TreeShape, Start;
      var hashedKey := hash(key);
      newIterator := iterator_;
      var i := iterator_;
      if i < nodes.Length && !Empty(i) {
        ChildOnPath(i, hashedKey);
        RangeTest(nodes[i], i, hashedKey);
        if !OnPath(i, hashedKey) {
          RangeTest(nodes[i + 1], i + 1, hashedKey);
        }
      }
      while i < nodes.Length
        invariant i == iterator_ || (i == iterator_ + 1 && iterator_ < nodes.Length && !Empty(iterator_) &&
                                     !OnPath(iterator_, hashedKey))
        decreases nodes.Length - i
      {
        if Empty(i) {
          break;
        } else if nodes[i].min <= hashedKey && hashedKey <= nodes[i].max {
          var firstChild := 2 * i + 1;
          if firstChild >= nodes.Length {
            break;
          }
          StartsAtChild(i, hashedKey);
          return i, firstChild;
        } else {
          i := i + 1;
        }
      }
      return -1, iterator_;
    }

    // ----- Inserting -----

    /** Every entry lies in a bucket on the path of its key, at a node that heap_find can return. */
    ghost predicate Placed()
      reads this, nodes, buckets, nextFreeSlot
      requires Layout()
    {
      forall b :: 0 <= b < buckets.Length ==> BucketPlaced(b)
    }

    ghost predicate BucketPlaced(b: nat)
      reads this, nodes, buckets, nextFreeSlot
      requires Layout() && b < buckets.Length
    {
      nextFreeSlot[b] > 0 ==>
        && !Empty(b) && LeftChild(b) < nodes.Length
        && forall k :: 0 <= k < nextFreeSlot[b] ==> OnPath(b, hash(buckets[b][k].key))
    }

    /** The cached bucket, if there is one, has the entries of the stored one. */
    ghost predicate CacheFresh()
      reads this, nodes, buckets, nextFreeSlot
      requires Layout()
    {
      FreshAs(cacheId, cache)
    }

    ghost predicate FreshAs(id: int, was: seq<Entry>)
      reads this, nodes, buckets, nextFreeSlot
      requires Layout() && -1 <= id < buckets.Length && |was| == bucketSize
    {
      0 <= id ==> forall k :: 0 <= k < nextFreeSlot[id] ==> was[k] == buckets[id][k]
    }

    lemma {:induction false} AncestorsUsed(a: nat, b: nat)
      requires Valid() && b < nodes.Length && !Empty(b) && Ancestor(a, b)
      ensures a < nodes.Length && !Empty(a)
      decreases b
    {
      hide Depth, Pos, Low, High, Pow2, OnPath, HasRange;
      if a != b {
        var p := Parent(b);
        assert (b == LeftChild(p) || b == RightChild(p)) && ChildrenShape(nodes[..], nextFreeSlot[..], bucketSize, p);
        AncestorsUsed(a, p);
      }
    }

    lemma ReachableChild(b: nat)
      requires Valid() && b < nodes.Length && !Empty(b)
      ensures Reachable(LeftChild(b))
    {
      hide Depth, Pos, Low, High, Pow2, OnPath, HasRange;
      Children(b);
      forall a | 0 <= a < nodes.Length && a != 2 * b + 1 && Walk(a, 2 * b + 1)
        ensures !Empty(a)
      {
        if Ancestor(a, 2 * b + 1) {
          AncestorsUsed(a, b);
        } else {
          AncestorsUsed(a + 1, b);
          assert a == LeftChild(Parent(a)) && ChildrenShape(nodes[..], nextFreeSlot[..], bucketSize, Parent(a));
        }
      }
    }

    /** bucket_split: the halves become the two children, if these are free and exist. */
    method BucketSplit(b: nat) returns (ok: bool)
      requires Valid() && b < nodes.Length && !Empty(b) && nextFreeSlot[b] == bucketSize
      requires LeftChild(b) < nodes.Length
      requires !Empty(LeftChild(b)) ==> LeftChild(LeftChild(b)) >= nodes.Length
      modifies nodes
      ensures Valid()
      ensures ok <==> old(Empty(LeftChild(b)))
      ensures ok ==>
        && RightChild(b) < nodes.Length && old(Empty(RightChild(b))) && !Empty(LeftChild(b))
        && !Empty(RightChild(b))
      ensures forall i :: 0 <= i < nodes.Length && !old(Empty(i)) ==> nodes[i] == old(nodes[i])
      ensures !ok ==> nodes[..] == old(nodes[..])
    {
      hide Depth, Pos, Low, High, Pow2, OnPath, Walk;
      ghost var before, fill := nodes[..], nextFreeSlot[..];
      assert ChildrenShape(before, fill, bucketSize, b) && HasRange(before[b], b);
      SplitRanges(b, levels);
      ReachableChild(b);
      var mean := nodes[b].min + (nodes[b].max - nodes[b].min) / 2;
      var small := HeapInsert(nodes[b].min, mean, LeftChild(b));
      if small < 0 {
        return false;
      }
      SecondHalf(b);
      var large := HeapInsert(mean + 1, nodes[b].max, RightChild(b));
      SplitKeepsShape(before, fill, bucketSize, b, nodes[LeftChild(b)], nodes[RightChild(b)]);
      if large < 0 {
        return false;
      }
      return true;
    }

    /** With the left child in use, the walk to the right child is open as well. */
    lemma SecondHalf(b: nat)
      requires LeftChild(b) < nodes.Length && Reachable(LeftChild(b)) && !Empty(LeftChild(b))
      ensures Reachable(RightChild(b))
    {
      forall a | 0 <= a < nodes.Length && a != RightChild(b) && Walk(a, RightChild(b))
        ensures !Empty(a)
      {
        Children(b);
        if a != LeftChild(b) {
          assert Walk(a, LeftChild(b));
        }
      }
    }

    /** All entries of the index, over its buckets. */
    ghost function Contents(): multiset<Entry>
      reads this, nodes, buckets, nextFreeSlot
      requires Layout()
    {
      Total(buckets[..], nextFreeSlot[..], buckets.Length)
    }

    /** Entries stay placed while used nodes keep their ranges. */
    twostate lemma PlacedStays()
      requires old(Layout()) && Layout() && old(Placed())
      requires buckets[..] == old(buckets[..]) && nextFreeSlot[..] == old(nextFreeSlot[..])
      requires forall i :: 0 <= i < nodes.Length && !old(Empty(i)) ==> nodes[i] == old(nodes[i])
      ensures Placed()
    {
      hide OnPath, Pow2;
      forall b | 0 <= b < buckets.Length
        ensures BucketPlaced(b)
      {
        assert old(BucketPlaced(b)) && buckets[..][b] == old(buckets[..])[b];
        assert nextFreeSlot[..][b] == old(nextFreeSlot[..])[b];
      }
    }

    twostate lemma CacheStays()
      requires old(Layout()) && Layout() && cacheId == old(cacheId) && cache == old(cache)
      requires buckets[..] == old(buckets[..]) && nextFreeSlot[..] == old(nextFreeSlot[..])
      ensures old(CacheFresh()) ==> CacheFresh()
    {
      if old(CacheFresh()) && cacheId >= 0 {
        assert buckets[..][cacheId] == old(buckets[..])[cacheId] &&
               nextFreeSlot[..][cacheId] == old(nextFreeSlot[..])[cacheId];
      }
    }

    method BucketAppend(b: nat, e: Entry) returns (ok: bool)
      requires Valid() && Placed() && b < nodes.Length
      requires !Empty(b) && LeftChild(b) < nodes.Length && OnPath(b, hash(e.key))
      modifies buckets, nextFreeSlot
      ensures Valid() && Placed()
      ensures ok <==> old(nextFreeSlot[b]) < bucketSize
      ensures ok ==> Entries(b) == old(Entries(b)) + [e] && Contents() == old(Contents()) + multiset{e}
      ensures forall i :: 0 <= i < buckets.Length && i != b ==>
        buckets[i] == old(buckets[i]) && nextFreeSlot[i] == old(nextFreeSlot[i])
      ensures !ok ==> buckets[..] == old(buckets[..]) && nextFreeSlot[..] == old(nextFreeSlot[..])
      ensures ok && old(CacheFresh()) ==>
        (CacheFresh() <==> b != cacheId || cache[old(nextFreeSlot[b])] == e)
    {
      hide Depth, Pos, Low, High, Pow2, OnPath, HasRange, Total, TreeShape;
      if nextFreeSlot[b] >= bucketSize {
        return false;
      }
      ghost var bs, fill := buckets[..], nextFreeSlot[..];
      buckets[b] := buckets[b][nextFreeSlot[b] := e];
      nextFreeSlot[b] := nextFreeSlot[b] + 1;
      assert nextFreeSlot[..] == fill[b := fill[b] + 1] && buckets[..] == bs[b := bs[b][fill[b] := e]];
      FillKeepsShape(nodes[..], fill, bucketSize, b);
      assert buckets[b][..nextFreeSlot[b]] == bs[b][..fill[b]] + [e];
      TotalAppend(bs, fill, buckets[..], nextFreeSlot[..], b, e, |bs|);
      forall i | 0 <= i < buckets.Length
        ensures BucketPlaced(i)
      {
        assert old(BucketPlaced(i));
      }
      return true;
    }

    /**
     insert_item: the entry goes into the deepest usable bucket on the path of its key, which is split
     when it is full.  It is refused when that bucket is on the last usable level.
     */
    method InsertItem(key: nat, value: nat) returns (ok: bool, ghost b: int)
      requires Valid() && Placed()
      modifies nodes, buckets, nextFreeSlot
      ensures Valid() && Placed()
      ensures ok ==> Contents() == old(Contents()) + multiset{Entry(key, value)}
      ensures ok ==>
        && 0 <= b < buckets.Length && OnPath(b, hash(key))
        && Entries(b) == old(Entries(b)) + [Entry(key, value)]
      ensures ok ==> !Empty(b) && LeftChild(b) < nodes.Length && Found(LeftChild(b), hash(key)) < 0
      // The bucket is that of a node whose range of hashed keys holds that of the new key.
      ensures ok ==> nodes[b].min <= hash(key) <= nodes[b].max
      ensures !ok ==> buckets[..] == old(buckets[..]) && nextFreeSlot[..] == old(nextFreeSlot[..])
      ensures !ok && 0 < LeftChild(0) < nodes.Length ==>
        0 <= b < nodes.Length && OnPath(b, hash(key)) && nextFreeSlot[b] == bucketSize &&
        LeftChild(LeftChild(b)) >= nodes.Length
      ensures forall i :: 0 <= i < nodes.Length && !old(Empty(i)) ==> nodes[i] == old(nodes[i])
      ensures forall i :: 0 <= i < buckets.Length && (!ok || i != b) ==>
                buckets[i] == old(buckets[i]) && nextFreeSlot[i] == old(nextFreeSlot[i])
      ensures (forall i :: 0 <= i < nodes.Length && !old(Empty(i)) ==> old(nextFreeSlot[i]) < bucketSize) ==>
        forall i :: 0 <= i < nodes.Length ==> nodes[i] == old(nodes[i])
      // The cache is not refreshed: it goes stale exactly when it holds the bucket that is appended to.
      ensures !ok && old(CacheFresh()) ==> CacheFresh()
      ensures ok && old(CacheFresh()) ==>
        (CacheFresh() <==> b != cacheId || cache[old(nextFreeSlot[b])] == Entry(key, value))
    {
      hide Depth, Pos, Low, High, Pow2, OnPath, HasRange, Parent, Placed, Total, CacheFresh, TreeShape;
      var bucketId, iterator_ := LastBucket(key);
      b := bucketId;
      if bucketId < 0 {
        return false, b;
      }
      if nextFreeSlot[bucketId] == bucketSize {
        bucketId := SplitFull(key, bucketId);
        if bucketId < 0 {
          return false, b;
        }
      }
      b := bucketId;
      ok := BucketAppend(bucketId, Entry(key, value));
      RangeOfNode(bucketId, hash(key));
    }

    lemma RangeOfNode(b: nat, h: nat)
      requires Valid() && b < nodes.Length && !Empty(b) && OnPath(b, h)
      ensures nodes[b].min <= h <= nodes[b].max
    {
      hide Depth, Pos, Pow2;
      assert HasRange(nodes[b], b);
    }

    /** The branch of insert_item for a full bucket: one of the new buckets is selected. */
    method SplitFull(key: nat, full: nat) returns (bucketId: int)
      requires Valid() && Placed() && full < nodes.Length && !Empty(full) && nextFreeSlot[full] == bucketSize
      requires OnPath(full, hash(key)) && LeftChild(full) < nodes.Length
      requires Start(LeftChild(full), hash(key)) && Found(LeftChild(full), hash(key)) < 0
      modifies nodes
      ensures Valid() && Placed() && (old(CacheFresh()) ==> CacheFresh())
      ensures forall i :: 0 <= i < nodes.Length && !old(Empty(i)) ==> nodes[i] == old(nodes[i])
      ensures bucketId < 0 ==> LeftChild(LeftChild(full)) >= nodes.Length
      ensures bucketId >= 0 ==>
        && bucketId < nodes.Length && !Empty(bucketId) && OnPath(bucketId, hash(key)) && nextFreeSlot[bucketId] == 0
        && LeftChild(bucketId) < nodes.Length && Found(LeftChild(bucketId), hash(key)) < 0
    {
      hide Depth, Pos, Low, High, Pow2, OnPath, HasRange, Parent, Placed, Total, CacheFresh, TreeShape;
      UnusedIsEmpty();
      LastLevel(full, levels);
      var split := BucketSplit(full);
      PlacedStays();
      CacheStays();
      if !split {
        return -1;
      }
      var iterator_;
      bucketId, iterator_ := HeapFind(key, LeftChild(full));
      if bucketId >= 0 {
        assert nextFreeSlot[bucketId] == 0;
        NoGrandchildren(bucketId, hash(key));
      }
    }

    // ----- Looking up -----

    /** The loop of bucket_load: where a bucket of unknown fill ends. */
    static method FirstEmptyPair(bucket: seq<Entry>) returns (i: nat)
      ensures i <= |bucket| && (i < |bucket| ==> bucket[i] == NO_ENTRY)
      ensures forall k :: 0 <= k < i ==> bucket[k] != NO_ENTRY
    {
      i := 0;
      while i < |bucket| && bucket[i] != NO_ENTRY
        invariant i <= |bucket| && forall k :: 0 <= k < i ==> bucket[k] != NO_ENTRY
      {
        i := i + 1;
      }
    }

    /** What bucket_load leaves in the cache when it held bucket `id` as `was`: a cached bucket is not read again. */
    ghost predicate Loaded(b: nat, id: int, was: seq<Entry>)
      reads this, buckets, nextFreeSlot
      requires buckets.Length == nextFreeSlot.Length && b < buckets.Length
    {
      && cacheId == b && |cache| == |was| == |buckets[b]|
      && if id == b then cache == was
         else forall k :: 0 <= k < |cache| ==>
           if k < nextFreeSlot[b] then cache[k] == buckets[b][k] else nextFreeSlot[b] > 0 ==> cache[k] == was[k]
    }

    /** bucket_load */
    method BucketLoad(b: nat)
      requires Valid() && b < buckets.Length
      modifies `cacheId, `cache, nextFreeSlot
      ensures Valid() && Loaded(b, old(cacheId), old(cache)) && nextFreeSlot[..] == old(nextFreeSlot[..])
    {
      hide Depth, Pos, Low, High, Pow2, OnPath, HasRange, ChildrenShape;
      if cacheId == b {
        return;
      }
      var size := if nextFreeSlot[b] == 0 then bucketSize else nextFreeSlot[b];
      cache := buckets[b][..size] + cache[size..];
      cacheId := b;
      if nextFreeSlot[b] == 0 {
        var first := FirstEmptyPair(cache);
        assert cache[0] == NO_ENTRY;
        nextFreeSlot[b] := first;
        assert nextFreeSlot[..] == old(nextFreeSlot[..]);
      }
    }

    /** The iterator of heap_find after j buckets have been found. */
    static function IteratorAt(visited: seq<nat>, j: nat): nat
      requires j <= |visited|
    {
      if j == 0 then 0 else LeftChild(visited[j - 1])
    }

    ghost predicate ChainStep(visited: seq<nat>, h: nat, j: nat)
      reads nodes
      requires j < |visited|
    {
      visited[j] == Found(IteratorAt(visited, j), h)
    }

    /** `visited` is the chain of buckets that heap_find finds one after the other. */
    ghost predicate Chain(visited: seq<nat>, h: nat)
      reads nodes
    {
      && (forall j :: 0 <= j < |visited| ==> ChainStep(visited, h, j))
      && Found(IteratorAt(visited, |visited|), h) < 0
    }

    /** The chain visits every bucket in which heap_insert may have put a key with this hash. */
    lemma {:induction false} ChainComplete(visited: seq<nat>, h: nat, b: nat) returns (j: nat)
      requires Valid() && Chain(visited, h) && h < KEY_SPACE
      requires b < nodes.Length && !Empty(b) && OnPath(b, h) && LeftChild(b) < nodes.Length
      ensures j < |visited| && visited[j] == b
      decreases b
    {
      hide Depth, Pos, Low, High, Pow2, HasRange, Width;
      if b == 0 {
        RootOnPath(h);
        assert Found(0, h) == 0;
        j := 0;
        assert visited != [] && ChainStep(visited, h, 0);
      } else {
        var p := Parent(b);
        ParentOnPath(b, h);
        DepthBound(p, levels);
        PathSplits(p, h);
        assert (b == LeftChild(p) || b == RightChild(p)) && ChildrenShape(nodes[..], nextFreeSlot[..], bucketSize, p);
        assert Found(LeftChild(p), h) == b;
        var k := ChainComplete(visited, h, p);
        assert ChainStep(visited, h, k + 1);
        j := k + 1;
      }
    }

    lemma ChainExtends(visited: seq<nat>, h: nat, b: nat)
      requires h < KEY_SPACE && b == Found(IteratorAt(visited, |visited|), h)
      requires forall j :: 0 <= j < |visited| ==> ChainStep(visited, h, j)
      ensures forall j :: 0 <= j <= |visited| ==> ChainStep(visited + [b], h, j)
      ensures Depth(b) == if visited == [] then 0 else Depth(visited[|visited| - 1]) + 1
    {
      hide Pos, Low, High, Pow2, OnPath;
      if visited == [] {
        RootOnPath(h);
      } else {
        Children(visited[|visited| - 1]);
      }
      forall j | 0 <= j <= |visited|
        ensures ChainStep(visited + [b], h, j)
      {
        assert j < |visited| ==> ChainStep(visited, h, j);
      }
    }

    /** The first loop of get_next: the buckets on the path of the key, from the root down. */
    method VisitBuckets(key: nat) returns (visited: seq<nat>)
      requires Valid()
      ensures Chain(visited, hash(key))
      ensures forall j :: 0 <= j < |visited| ==> visited[j] < nodes.Length
    {
      hide Depth, Pos, Low, High, Pow2, OnPath, HasRange, TreeShape, Found, ChainStep;
      visited := [];
      var iterator_, i := 0, 0;
      while i < levels
        invariant i == |visited| <= levels && Start(iterator_, hash(key))
        invariant iterator_ == IteratorAt(visited, i)
        invariant visited != [] ==> Depth(visited[i - 1]) == i - 1 && LeftChild(visited[i - 1]) < nodes.Length
        invariant forall j :: 0 <= j < i ==> visited[j] < nodes.Length
        invariant forall j :: 0 <= j < i ==> ChainStep(visited, hash(key), j)
      {
        var r, it := HeapFind(key, iterator_);
        if r < 0 {
          return;
        }
        var b: nat := r;
        ChainExtends(visited, hash(key), b);
        visited := visited + [b];
        iterator_, i := it, i + 1;
      }
      DepthBound(LeftChild(visited[i - 1]), levels);
      Children(visited[i - 1]);
    }

    lemma ChainGrows(visited: seq<nat>, h: nat, j: nat)
      requires Chain(visited, h) && j + 1 < |visited|
      ensures visited[j] < visited[j + 1]
    {
      hide OnPath;
      assert ChainStep(visited, h, j + 1);
    }

    /** What a search sees in the j-th bucket of its chain: only the last one comes from the old cache. */
    ghost function Seen(visited: seq<nat>, j: nat, id: int, was: seq<Entry>): seq<Entry>
      reads this, nodes, buckets, nextFreeSlot
      requires Layout() && j < |visited| && visited[j] < buckets.Length && |was| == bucketSize
    {
      if j == |visited| - 1 && id == visited[j] then was[..nextFreeSlot[visited[j]]] else Entries(visited[j])
    }

    /**
     The first get_next of a search for one key: the buckets on the path are scanned from the bottom up, the
     bottom one as the cache has it if it is there.  Unless that one is stale, a value stored under the key is
     found exactly when there is one.
     */
    method GetFirst(key: nat) returns (found: bool, value: nat, ghost visited: seq<nat>, ghost stop: nat)
      requires Valid() && Placed()
      modifies `cacheId, `cache, nextFreeSlot
      ensures Valid() && Placed() && nextFreeSlot[..] == old(nextFreeSlot[..])
      ensures Chain(visited, hash(key)) && forall j :: 0 <= j < |visited| ==> visited[j] < nodes.Length
      ensures found ==> stop < |visited| && Entry(key, value) in Seen(visited, stop, old(cacheId), old(cache))
      ensures forall j: nat :: j < |visited| && (found ==> stop < j) ==>
        NoKeyIn(Seen(visited, j, old(cacheId), old(cache)), key)
      ensures |visited| == 1 ==> Loaded(visited[0], old(cacheId), old(cache))
      ensures old(CacheFresh()) ==>
        && CacheFresh() && (found ==> Entry(key, value) in Contents())
        && (!found ==> forall v :: Entry(key, v) !in Contents())
    {
      hide Depth, Pos, Low, High, Pow2, OnPath, HasRange, TreeShape, Chain, Total, Placed, Loaded, Seen, InCache;
      var chain := VisitBuckets(key);
      visited := chain;
      ghost var i;
      found, value, i := SearchBuckets(key, chain);
      stop := i;
      AfterSearch(chain, i, old(cacheId), old(cache));
      PlacedStays();
      BucketsStay();
      if FreshAs(old(cacheId), old(cache)) {
        SearchFresh(key, visited, i, found, value, old(cacheId), old(cache));
      }
    }

    twostate lemma BucketsStay()
      requires old(Layout()) && Layout()
      requires buckets[..] == old(buckets[..]) && nextFreeSlot[..] == old(nextFreeSlot[..])
      ensures forall b :: 0 <= b < buckets.Length ==>
        buckets[b] == old(buckets[b]) && nextFreeSlot[b] == old(nextFreeSlot[b])
    {
      assert forall b :: 0 <= b < buckets.Length ==>
        buckets[b] == buckets[..][b] == old(buckets[..])[b] &&
        nextFreeSlot[b] == nextFreeSlot[..][b] == old(nextFreeSlot[..])[b];
    }

    /** The second loop of get_next; i is the position in the chain that it has come down to. */
    method SearchBuckets(key: nat, chain: seq<nat>) returns (found: bool, value: nat, ghost i: nat)
      requires Valid() && Chain(chain, hash(key)) && forall j :: 0 <= j < |chain| ==> chain[j] < buckets.Length
      modifies `cacheId, `cache, nextFreeSlot
      ensures Valid() && nextFreeSlot[..] == old(nextFreeSlot[..])
      ensures i <= |chain| && InCache(chain, i, old(cacheId), old(cache))
      ensures found ==> i < |chain| && Entry(key, value) in Seen(chain, i, old(cacheId), old(cache))
      ensures !found ==> i == 0
      ensures forall j: nat :: j < |chain| && (found ==> i < j) ==>
        NoKeyIn(Seen(chain, j, old(cacheId), old(cache)), key)
    {
      hide Depth, Pos, Low, High, Pow2, OnPath, HasRange, TreeShape, Chain, Total, Placed, Loaded, Seen, CacheFresh,
        InCache, NoKeyIn;
      ghost var id, was := cacheId, cache;
      NothingLoaded(chain, id, was);
      var n := |chain|;
      while n > 0
        invariant Valid() && nextFreeSlot[..] == old(nextFreeSlot[..]) && 0 <= n <= |chain|
        invariant InCache(chain, n, id, was)
        invariant forall j: nat :: n <= j < |chain| ==> NoKeyIn(Seen(chain, j, id, was), key)
      {
        n := n - 1;
        found, value := SearchBucket(key, chain, n, id, was);
        if found {
          return found, value, n;
        }
      }
      return false, 0, 0;
    }

    lemma NothingLoaded(visited: seq<nat>, id: int, was: seq<Entry>)
      requires Layout() && cacheId == id && cache == was
      requires forall j :: 0 <= j < |visited| ==> visited[j] < buckets.Length
      ensures InCache(visited, |visited|, id, was)
    {
    }

    /** The body of that loop. */
    method SearchBucket(key: nat, chain: seq<nat>, n: nat, ghost id: int, ghost was: seq<Entry>)
      returns (found: bool, value: nat)
      requires Valid() && Chain(chain, hash(key))
      requires (forall j :: 0 <= j < |chain| ==> chain[j] < buckets.Length) && n < |chain|
      requires |was| == bucketSize && InCache(chain, n + 1, id, was)
      modifies `cacheId, `cache, nextFreeSlot
      ensures Valid() && nextFreeSlot[..] == old(nextFreeSlot[..]) && InCache(chain, n, id, was)
      ensures forall j: nat :: j < |chain| ==> Seen(chain, j, id, was) == old(Seen(chain, j, id, was))
      ensures if found then Entry(key, value) in Seen(chain, n, id, was) else NoKeyIn(Seen(chain, n, id, was), key)
    {
      hide Depth, Pos, Low, High, Pow2, OnPath, HasRange, TreeShape, Chain, Loaded, NoKeyIn;
      ghost var id0, was0 := cacheId, cache;
      BucketLoad(chain[n]);
      BucketsStay();
      NowInCache(chain, hash(key), n, id, was, id0, was0);
      found, value := ScanBucket(chain[n], key);
    }

    /** A chain of one bucket leaves that one in the cache. */
    lemma AfterSearch(visited: seq<nat>, i: nat, id: int, was: seq<Entry>)
      requires Layout() && |was| == bucketSize && i <= |visited|
      requires forall j :: 0 <= j < |visited| ==> visited[j] < buckets.Length
      requires InCache(visited, i, id, was)
      ensures |visited| == 1 && i == 0 ==> Loaded(visited[0], id, was)
    {
    }

    /** What the cache holds when the search has come down to the i-th bucket. */
    ghost predicate InCache(visited: seq<nat>, i: nat, id: int, was: seq<Entry>)
      reads this, nodes, buckets, nextFreeSlot
      requires Layout() && |was| == bucketSize && i <= |visited|
      requires forall j :: 0 <= j < |visited| ==> visited[j] < buckets.Length
    {
      if i == |visited| then cacheId == id && cache == was
      else
        && cacheId == visited[i] && cache[..nextFreeSlot[visited[i]]] == Seen(visited, i, id, was)
        && (i == |visited| - 1 ==> Loaded(visited[i], id, was))
    }

    lemma NowInCache(visited: seq<nat>, h: nat, i: nat, id: int, was: seq<Entry>, id0: int, was0: seq<Entry>)
      requires Layout() && Chain(visited, h) && i < |visited|
      requires forall j :: 0 <= j < |visited| ==> visited[j] < buckets.Length
      requires |was| == |was0| == bucketSize && Loaded(visited[i], id0, was0)
      requires if i + 1 == |visited| then id0 == id && was0 == was else id0 == visited[i + 1]
      ensures InCache(visited, i, id, was)
    {
      hide Chain;
      if i + 1 < |visited| {
        ChainGrows(visited, h, i);
      }
      var b := visited[i];
      assert forall k :: 0 <= k < nextFreeSlot[b] ==> cache[..nextFreeSlot[b]][k] == Seen(visited, i, id, was)[k];
    }

    /** The loop over the pairs of the cached bucket. */
    method ScanBucket(b: nat, key: nat) returns (found: bool, value: nat)
      requires Layout() && cacheId == b < buckets.Length
      ensures found ==> Entry(key, value) in cache[..nextFreeSlot[b]]
      ensures !found ==> NoKeyIn(cache[..nextFreeSlot[b]], key)
    {
      var k := 0;
      while k < nextFreeSlot[b]
        invariant k <= nextFreeSlot[b]
        invariant forall m :: 0 <= m < k ==> cache[m].key != key
      {
        if cache[k].key == key {
          assert cache[..nextFreeSlot[b]][k] == Entry(key, cache[k].value);
          return true, cache[k].value;
        }
        k := k + 1;
      }
      return false, 0;
    }

    /** With a fresh cache a search sees the stored buckets, and these are all that matter. */
    lemma SearchFresh(key: nat, visited: seq<nat>, i: nat, found: bool, value: nat, id: int, was: seq<Entry>)
      requires Valid() && Placed() && Chain(visited, hash(key)) && |was| == bucketSize && i <= |visited|
      requires forall j :: 0 <= j < |visited| ==> visited[j] < nodes.Length
      requires InCache(visited, i, id, was) && -1 <= id < buckets.Length
      requires FreshAs(id, was)
      requires found ==> i < |visited| && Entry(key, value) in Seen(visited, i, id, was)
      requires !found ==> forall j: nat :: j < |visited| ==> NoKeyIn(Seen(visited, j, id, was), key)
      ensures CacheFresh()
      ensures found ==> Entry(key, value) in Contents()
      ensures !found ==> forall v :: Entry(key, v) !in Contents()
    {
      hide Depth, Pos, Low, High, Pow2, OnPath, HasRange, TreeShape, Chain, Total, Placed;
      forall j | 0 <= j < |visited|
        ensures Seen(visited, j, id, was) == Entries(visited[j])
      {
      }
      if i < |visited| {
        var b := visited[i];
        assert forall k :: 0 <= k < nextFreeSlot[b] ==>
          cache[k] == cache[..nextFreeSlot[b]][k] == Entries(b)[k] == buckets[b][k];
      }
      if found {
        var b := visited[i];
        var k :| 0 <= k < nextFreeSlot[b] && Entries(b)[k] == Entry(key, value);
        InTotal(buckets[..], nextFreeSlot[..], b, k);
      } else {
        NotStored(key, visited);
      }
    }

    lemma NotStored(key: nat, visited: seq<nat>)
      requires Valid() && Placed() && Chain(visited, hash(key))
      requires forall j :: 0 <= j < |visited| ==> visited[j] < nodes.Length && NoKeyIn(Entries(visited[j]), key)
      ensures forall v :: Entry(key, v) !in Contents()
    {
      hide Depth, Pos, Low, High, Pow2, OnPath, HasRange, TreeShape, Chain, Total;
      forall v
        ensures Entry(key, v) !in Contents()
      {
        if Entry(key, v) in Contents() {
          var b, k := TotalHas(buckets[..], nextFreeSlot[..], buckets.Length, Entry(key, v));
          KeyVisited(key, visited, b, k);
        }
      }
    }

    lemma KeyVisited(key: nat, visited: seq<nat>, b: nat, k: nat)
      requires Valid() && Placed() && Chain(visited, hash(key))
      requires forall j :: 0 <= j < |visited| ==> visited[j] < nodes.Length
      requires b < buckets.Length && k < nextFreeSlot[b] && buckets[b][k].key == key
      ensures exists j :: 0 <= j < |visited| && !NoKeyIn(Entries(visited[j]), key)
    {
      hide Depth, Pos, Low, High, Pow2, OnPath, HasRange, TreeShape, Chain;
      assert BucketPlaced(b);
      var j := ChainComplete(visited, hash(key), b);
      assert Entries(visited[j])[k].key == key;
    }

    /** The children of a bucket that is not full are not used. */
    lemma NoGrandchildren(c: nat, h: nat)
      requires Valid() && LeftChild(c) < nodes.Length && nextFreeSlot[c] < bucketSize
      ensures Found(LeftChild(c), h) < 0
    {
      hide Depth, Pos, Low, High, Pow2, OnPath, HasRange;
      assert ChildrenShape(nodes[..], nextFreeSlot[..], bucketSize, c);
    }

    lemma NoneStored(key: nat)
      requires Layout() && forall v :: Entry(key, v) !in Contents()
      ensures forall b :: 0 <= b < buckets.Length ==> NoKeyIn(Entries(b), key)
    {
      hide Total;
      forall b, k | 0 <= b < buckets.Length && 0 <= k < nextFreeSlot[b]
        ensures buckets[b][k].key != key
      {
        InTotal(buckets[..], nextFreeSlot[..], b, k);
        assert buckets[b][k] == Entry(buckets[b][k].key, buckets[b][k].value);
      }
    }

    /** The deepest usable bucket on the path is the last of the chain. */
    lemma DeepestIsLast(visited: seq<nat>, h: nat, b: nat)
      requires Valid() && Chain(visited, h) && h < KEY_SPACE
      requires b < nodes.Length && !Empty(b) && OnPath(b, h)
      requires LeftChild(b) < nodes.Length && Found(LeftChild(b), h) < 0
      ensures visited != [] && visited[|visited| - 1] == b && forall j :: 0 <= j < |visited| - 1 ==> visited[j] < b
      ensures b == 0 ==> |visited| == 1
    {
      hide Depth, Pos, Low, High, Pow2, OnPath, HasRange, TreeShape, Found;
      var j := ChainComplete(visited, h, b);
      assert j + 1 < |visited| ==> ChainStep(visited, h, j + 1);
      ChainSorted(visited, h, j);
      var top := visited[0];
      assert j > 0 ==> top < b;
    }

    lemma {:induction false} ChainSorted(visited: seq<nat>, h: nat, n: nat)
      requires Chain(visited, h) && n < |visited|
      ensures forall j :: 0 <= j < n ==> visited[j] < visited[n]
    {
      hide Chain;
      if n > 0 {
        ChainSorted(visited, h, n - 1);
        ChainGrows(visited, h, n - 1);
      }
    }

    lemma LastPlace(was: seq<Entry>, entries: seq<Entry>, key: nat)
      requires |entries| < |was| && NoKeyIn(entries, key) && forall k :: 0 <= k < |entries| ==> was[k] == entries[k]
      ensures !NoKeyIn(was[..|entries| + 1], key) <==> was[|entries|].key == key
    {
    }

    /** The search for a key that only the last entry of the last bucket of its chain has. */
    lemma LookedUp(key: nat, value: nat, visited: seq<nat>, b: nat, id: int, was: seq<Entry>, found: bool, v: nat,
                   stop: nat)
      requires Valid() && |was| == bucketSize && -1 <= id < buckets.Length
      requires visited != [] && visited[|visited| - 1] == b
      requires forall j :: 0 <= j < |visited| ==> visited[j] < buckets.Length
      requires forall j :: 0 <= j < |visited| - 1 ==> NoKeyIn(Entries(visited[j]), key)
      requires var n := nextFreeSlot[b];
        && n > 0 && buckets[b][n - 1] == Entry(key, value)
        && NoKeyIn(buckets[b][..n - 1], key)
      requires found ==> stop < |visited| && Entry(key, v) in Seen(visited, stop, id, was)
      requires forall j: nat :: j < |visited| && (found ==> stop < j) ==> NoKeyIn(Seen(visited, j, id, was), key)
      ensures found <==> id != b || !NoKeyIn(was[..nextFreeSlot[b]], key)
      ensures found && id != b ==> v == value
    {
      hide Depth, Pos, Low, High, Pow2, OnPath, HasRange, TreeShape;
      var n, last := nextFreeSlot[b], |visited| - 1;
      var seen := Seen(visited, last, id, was);
      assert |seen| == n && seen[n - 1] == if id == b then was[n - 1] else Entry(key, value);
      assert seen == if id == b then was[..n] else Entries(b);
      assert forall k :: 0 <= k < n - 1 ==> Entries(b)[k] == buckets[b][..n - 1][k];
      if found {
        var k :| 0 <= k < |Seen(visited, stop, id, was)| && Seen(visited, stop, id, was)[k] == Entry(key, v);
        assert stop == last;
        assert id != b ==> k == n - 1;
      }
    }

    /**
     A new key is inserted and looked up, with any cache.  The lookup misses it iff its bucket is the one in the cache,
     where no entry has the key; when the cache was up to date, only the place of the new entry can have it.
     */
    method InsertThenGet(key: nat, value: nat) returns (ok: bool, found: bool, v: nat, ghost b: int)
      requires Valid() && Placed() && forall u :: Entry(key, u) !in Contents()
      modifies this, nodes, buckets, nextFreeSlot
      ensures Valid() && Placed()
      ensures ok ==>
        && 0 <= b < buckets.Length && old(nextFreeSlot[b]) < bucketSize
        && Contents() == old(Contents()) + multiset{Entry(key, value)}
      ensures ok ==> (found <==> b != old(cacheId) || !NoKeyIn(old(cache)[..old(nextFreeSlot[b]) + 1], key))
      ensures ok && old(CacheFresh()) ==> (found <==> b != old(cacheId) || old(cache)[old(nextFreeSlot[b])].key == key)
      ensures ok && found && b != old(cacheId) ==> v == value
      ensures old(Small()) ==> ok && b == 0
    {
      hide Depth, Pos, Low, High, Pow2, OnPath, HasRange, TreeShape, Total, Placed, NoKeyIn;
      NoneStored(key);
      ok, b := InsertItem(key, value);
      if old(Small()) {
        forall i | 1 <= i < nodes.Length
          ensures Empty(i)
        {
          assert old(Empty(i));
        }
        OnlyRoot(b);
      }
      found, v := false, 0;
      if ok {
        ghost var rest := old(Entries(b));
        forall i | 0 <= i < buckets.Length && i != b
          ensures NoKeyIn(Entries(i), key)
        {
          assert old(NoKeyIn(Entries(i), key));
        }
        found, v := GetNew(key, value, b, rest);
        if old(CacheFresh()) && b == old(cacheId) {
          LastPlace(old(cache), rest, key);
        }
      }
    }

    /** get_next, when the key has just been appended to the last bucket of its chain and is nowhere else. */
    method GetNew(key: nat, ghost value: nat, ghost b: nat, ghost rest: seq<Entry>) returns (found: bool, v: nat)
      requires Valid() && Placed() && b < nodes.Length && !Empty(b) && OnPath(b, hash(key))
      requires LeftChild(b) < nodes.Length && Found(LeftChild(b), hash(key)) < 0
      requires Entries(b) == rest + [Entry(key, value)] && NoKeyIn(rest, key)
      requires forall i :: 0 <= i < buckets.Length && i != b ==> NoKeyIn(Entries(i), key)
      modifies `cacheId, `cache, nextFreeSlot
      ensures Valid() && Placed() && nextFreeSlot[..] == old(nextFreeSlot[..])
      ensures found <==> b != old(cacheId) || !NoKeyIn(old(cache)[..|rest| + 1], key)
      ensures found && b != old(cacheId) ==> v == value
    {
      hide Depth, Pos, Low, High, Pow2, OnPath, HasRange, TreeShape, Chain, Total, Placed, Loaded, Seen, NoKeyIn;
      ghost var visited, stop;
      found, v, visited, stop := GetFirst(key);
      BucketsStay();
      assert buckets[b][..nextFreeSlot[b] - 1] == Entries(b)[..nextFreeSlot[b] - 1] == rest;
      DeepestIsLast(visited, hash(key), b);
      forall j | 0 <= j < |visited| - 1
        ensures NoKeyIn(Entries(visited[j]), key)
      {
        assert visited[j] != b && NoKeyIn(old(Entries(visited[j])), key);
      }
      LookedUp(key, value, visited, b, old(cacheId), old(cache), found, v, stop);
    }

    /** Only the root is used, and its bucket is not full. */
    ghost predicate Small()
      reads this, nodes, buckets, nextFreeSlot
      requires Layout()
    {
      && 1 < nodes.Length && nextFreeSlot[0] < bucketSize && forall i :: 1 <= i < nodes.Length ==> Empty(i)
    }

    /** InsertItem on a small index: the root has room. */
    method InsertSmall(key: nat, value: nat)
      requires Valid() && Placed() && Small()
      modifies nodes, buckets, nextFreeSlot
      ensures Valid() && Placed() && Contents() == old(Contents()) + multiset{Entry(key, value)}
      ensures (forall i :: 1 <= i < nodes.Length ==> Empty(i)) && nextFreeSlot[0] == old(nextFreeSlot[0]) + 1
      ensures old(CacheFresh()) && cacheId < 0 ==> CacheFresh()
    {
      hide Depth, Pos, Low, High, Pow2, OnPath, HasRange, ChildrenShape, Total, Placed;
      UnusedIsEmpty();
      var ok, b := InsertItem(key, value);
      forall i | 1 <= i < nodes.Length
        ensures Empty(i)
      {
        assert old(Empty(i));
      }
      OnlyRoot(b);
    }

    lemma OnlyRoot(b: nat)
      requires Valid() && b < nodes.Length && forall i :: 1 <= i < nodes.Length ==> Empty(i)
      ensures !Empty(b) ==> b == 0
      ensures b != 0 ==> nextFreeSlot[b] == 0
    {
      UnusedIsEmpty();
    }

    /** The lookup of the only key; it leaves the bucket of the root in the cache. */
    method GetOnly(key: nat, ghost value: nat) returns (found: bool)
      requires Valid() && Placed() && CacheFresh() && cacheId < 0 && Small() && Entry(key, value) in Contents()
      modifies `cacheId, `cache, nextFreeSlot
      ensures Valid() && Placed() && CacheFresh() && found && cacheId == 0 && nextFreeSlot[..] == old(nextFreeSlot[..])
      ensures nextFreeSlot[0] > 0 ==> forall k :: nextFreeSlot[0] <= k < bucketSize ==> cache[k] == old(cache)[k]
    {
      hide Depth, Pos, Low, High, Pow2, OnPath, HasRange, ChildrenShape, Total, Placed, Chain;
      var v;
      ghost var visited, stop;
      found, v, visited, stop := GetFirst(key);
      RootOnPath(hash(key));
      assert Empty(1) && !Empty(0);
      DeepestIsLast(visited, hash(key), 0);
    }

    /** The loop of insert_item: the deepest usable bucket on the path of the key. */
    method LastBucket(key: nat) returns (lastGood: int, iterator_: nat)
      requires Valid()
      ensures lastGood < 0 ==> LeftChild(0) >= nodes.Length
      ensures lastGood >= 0 ==>
        && lastGood < nodes.Length && !Empty(lastGood) && OnPath(lastGood, hash(key))
        && iterator_ == LeftChild(lastGood) < nodes.Length
        && Start(iterator_, hash(key)) && Found(iterator_, hash(key)) < 0
    {
      hide Depth, Pos, Low, High, Pow2, HasRange, Parent;
      ghost var h := hash(key);
      iterator_ := 0;
      lastGood := -1;
      RootOnPath(h);
      var bucketId := 0;
      while bucketId >= 0
        invariant Start(iterator_, h)
        invariant lastGood >= 0 ==>
          && lastGood < nodes.Length && !Empty(lastGood) && OnPath(lastGood, h)
          && iterator_ == LeftChild(lastGood) < nodes.Length
        invariant lastGood < 0 ==> iterator_ == 0
        invariant bucketId < 0 ==> Found(iterator_, h) < 0
        decreases nodes.Length - iterator_, bucketId >= 0
      {
        bucketId, iterator_ := HeapFind(key, iterator_);
        if bucketId >= 0 {
          lastGood := bucketId;
        }
      }
    }
  }

  /** Two keys in a new index; the first is looked up before the second is inserted, and the second is not found. */
  method StaleRun(hash: nat -> nat, key1: nat, value1: nat, key2: nat, value2: nat)
    returns (heap: MaxHeap, found1: bool, found2: bool)
    requires (forall k :: hash(k) < KEY_SPACE) && key1 != key2 && key2 != 0
    ensures fresh(heap) && heap.Valid() && found1 && !found2
    ensures heap.Contents() == multiset{Entry(key1, value1), Entry(key2, value2)}
  {
    hide Depth, Pos, Low, High, Pow2, Total, OnPath;
    NodeLimit();
    heap := new MaxHeap(9, 128, hash);
    heap.InsertSmall(key1, value1);
    found1 := heap.GetOnly(key1, value1);
    var ok2, v2;
    ghost var b2;
    ok2, found2, v2, b2 := heap.InsertThenGet(key2, value2);
  }

  lemma NodeLimit()
    ensures Pow2(9) - 1 == 511
  {
    assert Pow2(4) == 16;
    assert Pow2(8) == 256;
  }

  predicate NoKeyIn(entries: seq<Entry>, key: nat) {
    forall m :: 0 <= m < |entries| ==> entries[m].key != key
  }

  /** The ranges of both halves, at levels that exist. */
  lemma SplitRanges(b: nat, levels: nat)
    requires levels <= 16 && RightChild(b) < Pow2(levels) - 1
    ensures Depth(b) < 16 && Depth(LeftChild(b)) < 16 && Depth(RightChild(b)) < 16
    ensures var mean := Low(b) + (High(b) - Low(b)) / 2;
      && Low(LeftChild(b)) == Low(b) && High(LeftChild(b)) == mean
      && Low(RightChild(b)) == mean + 1 && High(RightChild(b)) == High(b)
      && Low(b) < mean + 1 && 0 < mean && mean + 1 <= High(b)
  {
    hide Depth, Pos, Low, High, Pow2, Width;
    DepthBound(LeftChild(b), levels);
    DepthBound(RightChild(b), levels);
    Children(b);
    HalvesAreChildren(b);
    RangeNotEmpty(LeftChild(b));
    RangeNotEmpty(RightChild(b));
  }

  /** The children of two siblings are both inside the tree or both outside. */
  lemma LastLevel(b: nat, levels: nat)
    requires LeftChild(b) < Pow2(levels) - 1
    ensures LeftChild(LeftChild(b)) >= Pow2(levels) - 1 <==> LeftChild(RightChild(b)) >= Pow2(levels) - 1
  {
    var q := Pow2(levels - 2);
    assert levels >= 2 && Pow2(levels) == 2 * Pow2(levels - 1) == 4 * q;
    hide Pow2;
    assert 4 * b + 3 >= 4 * q - 1 <==> b + 1 >= q;
    assert 4 * b + 5 >= 4 * q - 1 <==> b + 1 >= q;
  }

  lemma ParentOnPath(b: nat, h: nat)
    requires b > 0 && OnPath(b, h)
    ensures OnPath(Parent(b), h) && (b == LeftChild(Parent(b)) || b == RightChild(Parent(b)))
  {
    assert Ancestor(Parent(b), b);
    AncestorContains(Parent(b), b);
  }

  lemma {:induction false} InTotal(buckets: seq<seq<Entry>>, fill: seq<nat>, b: nat, k: nat)
    requires |buckets| == |fill| && b < |buckets| && k < fill[b]
    requires forall i :: 0 <= i < |buckets| ==> fill[i] <= |buckets[i]|
    ensures buckets[b][k] in Total(buckets, fill, |buckets|)
  {
    assert buckets[b][..fill[b]][k] == buckets[b][k];
    TotalGrows(buckets, fill, b + 1, |buckets|);
  }

  lemma {:induction false} EmptyTotal(buckets: seq<seq<Entry>>, fill: seq<nat>, n: nat)
    requires n <= |buckets| == |fill| && forall i :: 0 <= i < |buckets| ==> fill[i] == 0
    ensures Total(buckets, fill, n) == multiset{}
  {
    if n > 0 {
      EmptyTotal(buckets, fill, n - 1);
    }
  }

  lemma {:induction false} TotalGrows(buckets: seq<seq<Entry>>, fill: seq<nat>, m: nat, n: nat)
    requires m <= n <= |buckets| == |fill|
    requires forall i :: 0 <= i < |buckets| ==> fill[i] <= |buckets[i]|
    ensures Total(buckets, fill, m) <= Total(buckets, fill, n)
    decreases n
  {
    if m < n {
      TotalGrows(buckets, fill, m, n - 1);
    }
  }

  lemma {:induction false} TotalHas(buckets: seq<seq<Entry>>, fill: seq<nat>, n: nat, e: Entry) returns (b: nat, k: nat)
    requires n <= |buckets| == |fill|
    requires forall i :: 0 <= i < |buckets| ==> fill[i] <= |buckets[i]|
    requires e in Total(buckets, fill, n)
    ensures b < n && k < fill[b] && buckets[b][k] == e
  {
    var last := buckets[n - 1][..fill[n - 1]];
    if e in last {
      b := n - 1;
      k :| 0 <= k < |last| && last[k] == e;
    } else {
      b, k := TotalHas(buckets, fill, n - 1, e);
    }
  }

  /** The entries of the first n buckets. */
  function Total(buckets: seq<seq<Entry>>, fill: seq<nat>, n: nat): multiset<Entry>
    requires n <= |buckets| == |fill|
    requires forall i :: 0 <= i < |buckets| ==> fill[i] <= |buckets[i]|
  {
    if n == 0 then multiset{} else Total(buckets, fill, n - 1) + multiset(buckets[n - 1][..fill[n - 1]])
  }

  lemma {:induction false} TotalSame(buckets: seq<seq<Entry>>, fill: seq<nat>, buckets': seq<seq<Entry>>,
                                     fill': seq<nat>, n: nat)
    requires n <= |buckets| == |fill| && n <= |buckets'| == |fill'|
    requires forall i :: 0 <= i < |buckets| ==> fill[i] <= |buckets[i]|
    requires forall i :: 0 <= i < |buckets'| ==> fill'[i] <= |buckets'[i]|
    requires forall i :: 0 <= i < n ==> buckets[i] == buckets'[i] && fill[i] == fill'[i]
    ensures Total(buckets, fill, n) == Total(buckets', fill', n)
  {
    if n > 0 {
      TotalSame(buckets, fill, buckets', fill', n - 1);
    }
  }

  /** One entry more in bucket b is one entry more in all. */
  lemma {:induction false} TotalAppend(
      buckets: seq<seq<Entry>>, fill: seq<nat>, buckets': seq<seq<Entry>>, fill': seq<nat>, b: nat, e: Entry, n: nat)
    requires b < n <= |buckets| == |fill| && n <= |buckets'| == |fill'|
    requires forall i :: 0 <= i < |buckets| ==> fill[i] <= |buckets[i]|
    requires forall i :: 0 <= i < |buckets'| ==> fill'[i] <= |buckets'[i]|
    requires forall i :: 0 <= i < n && i != b ==> buckets[i] == buckets'[i] && fill[i] == fill'[i]
    requires buckets'[b][..fill'[b]] == buckets[b][..fill[b]] + [e]
    ensures Total(buckets', fill', n) == Total(buckets, fill, n) + multiset{e}
  {
    if b == n - 1 {
      TotalSame(buckets, fill, buckets', fill', b);
    } else {
      TotalAppend(buckets, fill, buckets', fill', b, e, n - 1);
    }
  }

  lemma PowOdd(n: nat)
    requires n >= 1
    ensures Pow2(n) % 2 == 0
  {
  }

  lemma RootRange()
    ensures Depth(0) == 0 && Low(0) == 0 && High(0) == KEY_SPACE - 1
  {
    Pow2Sixteen();
  }

  lemma RootOnPath(h: nat)
    requires h < KEY_SPACE
    ensures OnPath(0, h)
  {
    RootRange();
  }

  /** A path goes on through exactly one of the two children. */
  lemma PathSplits(p: nat, h: nat)
    requires Depth(p) < 16 && OnPath(p, h)
    ensures Depth(2 * p + 1) <= 16 && Depth(2 * p + 2) <= 16
    ensures OnPath(2 * p + 1, h) <==> !OnPath(2 * p + 2, h)
  {
    HalvesAreChildren(p);
    hide Depth, Low, High;
  }

  lemma RangeTest(node: Node, i: nat, h: nat)
    requires HasRange(node, i)
    ensures OnPath(i, h) <==> node.min <= h <= node.max
  {
  }

  /** i is t, one of its ancestors, or the left sibling of one of these. */
  predicate Walk(i: nat, t: nat) {
    Ancestor(i, t) || (i % 2 == 1 && Ancestor(i + 1, t))
  }

  lemma RangeOrdered(t: nat)
    requires Depth(t) <= 16
    ensures Low(t) <= High(t)
  {
    assert (Pos(t) + 1) * Width(Depth(t)) == Pos(t) * Width(Depth(t)) + Width(Depth(t));
  }

  lemma {:induction false} RootIsAncestor(t: nat)
    ensures Ancestor(0, t) && Walk(0, t)
  {
    if t > 0 {
      RootIsAncestor(Parent(t));
    }
  }

  /** One step of the walk to node t: down from an ancestor, to the right from its left sibling. */
  lemma HeapStep(i: nat, t: nat)
    requires Depth(t) <= 16 && Walk(i, t)
    ensures i <= t && Depth(i) <= 16 && Low(t) <= High(t)
    ensures Low(i) <= Low(t) && High(t) <= High(i) ==> i == t || Walk(2 * i + 1, t)
    ensures !(Low(i) <= Low(t) && High(t) <= High(i)) ==> i != t && Walk(i + 1, t)
  {
    hide Ancestor, Depth, Pos, Low, High, Pow2, Width;
    RangeOrdered(t);
    if Ancestor(i, t) {
      AncestorStep(i, t);
      AncestorContains(i, t);
    } else {
      AncestorStep(i + 1, t);
      AncestorContains(i + 1, t);
      LeftOfSibling(i);
    }
  }

  lemma LeftOfSibling(i: nat)
    requires i % 2 == 1 && Depth(i + 1) <= 16
    ensures Depth(i) <= 16 && High(i) + 1 == Low(i + 1)
  {
    hide Depth, Pos, Low, High, Pow2, Width;
    var p := Parent(i);
    assert i == 2 * p + 1 && Parent(i + 1) == p;
    Children(p);
    HalvesAreChildren(p);
  }

}
