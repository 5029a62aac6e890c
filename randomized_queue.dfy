/**
 * The randomized queue: a vector of elements from which dequeue removes a randomly chosen one by
 * swapping it with the last and popping, and whose iterators walk the elements in a random
 * permutation.  The random generator is replaced by its draws: a draw is passed in where the
 * queue asks generate_index for an index, and the order std::shuffle produces is passed in where
 * an iterator is built.
 */
module RandomizedQueues {
  /** 2^64 - 1, where a size_t that is decremented below zero wraps to. */
  const SizeMax: nat := 0xFFFF_FFFF_FFFF_FFFF

  /** 0, 1, ..., n - 1. */
  function Identity(n: nat): (r: seq<nat>)
    ensures |r| == n && forall i :: 0 <= i < n ==> r[i] == i
  {
    if n == 0 then [] else Identity(n - 1) + [n - 1]
  }

  /** p holds each of 0 .. n-1 exactly once: n entries, all below n, as many of each as 0 .. n-1 holds. */
  predicate IsPermutation(p: seq<nat>, n: nat)
  {
    |p| == n && (forall i :: 0 <= i < n ==> p[i] < n) && multiset(p) == multiset(Identity(n))
  }

  /** generate_index(n): a draw of the generator within the distribution's range [0, n-1]. */
  function GenerateIndex(n: int, draw: nat): (r: int)
    requires n >= 1
    ensures 0 <= r <= n - 1
  {
    draw % n
  }

  /** Every offset in p is below bound. */
  predicate Below(p: seq<nat>, bound: nat)
  {
    forall i :: 0 <= i < |p| ==> p[i] < bound
  }

  /** The elements of s at the offsets p, in order. */
  function Pick<T>(s: seq<T>, p: seq<nat>): (r: seq<T>)
    requires Below(p, |s|)
  {
    seq(|p|, i requires 0 <= i < |p| => s[p[i]])
  }

  /** Reading at the offsets a + b reads at a, then at b. */
  lemma PickConcat<T>(s: seq<T>, a: seq<nat>, b: seq<nat>)
    requires Below(a, |s|) && Below(b, |s|)
    ensures Below(a + b, |s|)
    ensures multiset(Pick(s, a + b)) == multiset(Pick(s, a)) + multiset(Pick(s, b))
  {
    assert Pick(s, a + b) == Pick(s, a) + Pick(s, b);
  }

  /** Dropping slot m of q drops one q[m] from its multiset. */
  lemma DropAt<T>(q: seq<T>, m: nat)
    requires m < |q|
    ensures multiset(q[..m] + q[m + 1..]) == multiset(q) - multiset{q[m]}
    ensures q[..m] + ([q[m]] + q[m + 1..]) == q
  {
    assert q == q[..m] + [q[m]] + q[m + 1..];
  }

  /** Moving one part of a multiset sum to the front. */
  lemma Regroup<T>(rest: multiset<T>, here: multiset<T>, before: multiset<T>, after: multiset<T>)
    requires rest == before + after
    ensures before + (here + after) == rest + here
  {
  }

  /** Reading s at q with slot m dropped reads one s[q[m]] fewer. */
  lemma PickDrop<T>(s: seq<T>, q: seq<nat>, m: nat)
    requires m < |q| && Below(q, |s|)
    ensures Below(q[..m] + q[m + 1..], |s|)
    ensures multiset(Pick(s, q)) == multiset(Pick(s, q[..m] + q[m + 1..])) + multiset{s[q[m]]}
  {
    var x := q[m];
    DropAt(q, m);
    assert Below(q[..m], |s|) && Below(q[m + 1..], |s|) && Below([x], |s|);
    PickConcat(s, q[..m], [x] + q[m + 1..]);
    PickConcat(s, [x], q[m + 1..]);
    PickConcat(s, q[..m], q[m + 1..]);
    assert Pick(s, [x]) == [s[x]];
    Regroup(multiset(Pick(s, q[..m] + q[m + 1..])), multiset{s[x]}, multiset(Pick(s, q[..m])), multiset(Pick(s, q[m + 1..])));
  }

  /** Reading s in the order of a rearrangement of p reads a rearrangement of the same elements. */
  lemma {:induction false} PickRearranged<T>(s: seq<T>, p: seq<nat>, q: seq<nat>)
    requires multiset(p) == multiset(q) && Below(p, |s|) && Below(q, |s|)
    ensures multiset(Pick(s, p)) == multiset(Pick(s, q))
    decreases |p|
  {
    if p != [] {
      var x := p[0];
      assert x in multiset(q);
      var m :| 0 <= m < |q| && q[m] == x;
      DropAt(q, m);
      DropAt(p, 0);
      PickDrop(s, q, m);
      PickDrop(s, p, 0);
      assert p[..0] + p[1..] == p[1..];
      PickRearranged(s, p[1..], q[..m] + q[m + 1..]);
    } else {
      assert |q| == |multiset(q)| == 0;
    }
  }

  /** Reading the elements of s at a permutation of its offsets reads each element once. */
  lemma PickPermutation<T>(s: seq<T>, p: seq<nat>)
    requires IsPermutation(p, |s|)
    ensures multiset(Pick(s, p)) == multiset(s)
  {
    PickRearranged(s, p, Identity(|s|));
    assert Pick(s, Identity(|s|)) == s;
  }

  /** The vector after dequeue removed slot i: the last element moved into slot i, then the last slot dropped. */
  function SwapRemove<T>(s: seq<T>, i: nat): seq<T>
    requires i < |s|
  {
    s[i := s[|s| - 1]][..|s| - 1]
  }

  /** Slot i takes the old last element, every other slot keeps its element, and exactly s[i] is gone. */
  lemma SwapRemoveMeaning<T>(s: seq<T>, i: nat)
    requires i < |s|
    ensures var r := SwapRemove(s, i);
      |r| == |s| - 1 &&
      (i < |r| ==> r[i] == s[|s| - 1]) &&
      (forall j :: 0 <= j < |r| && j != i ==> r[j] == s[j]) &&
      multiset(r) + multiset{s[i]} == multiset(s)
  {
    var n := |s| - 1;
    var r := SwapRemove(s, i);
    if i == n {
      assert s == r + [s[i]];
    } else {
      assert s == r[..i] + [s[i]] + r[i + 1..] + [s[n]];
      assert r == r[..i] + [s[n]] + r[i + 1..];
    }
  }

  /** randomized_queue<T>: the elements vector; the generator is replaced by draws passed to its users. */
  class RandomizedQueue<T> {
    var elements: seq<T>

    constructor()
      ensures elements == []
    {
      elements := [];
    }

    /** The copy constructor. */
    constructor Copy(other: RandomizedQueue<T>)
      ensures elements == other.elements
    {
      elements := other.elements;
    }

    /** The move constructor: the vector is moved, leaving the other queue empty. */
    constructor Move(other: RandomizedQueue<T>)
      modifies other
      ensures elements == old(other.elements) && other.elements == []
    {
      elements := other.elements;
      other.elements := [];
    }

    /** The copy assignment; assigning a queue to itself changes nothing. */
    method Assign(other: RandomizedQueue<T>)
      modifies this
      ensures elements == old(other.elements)
    {
      if this == other {
        return;
      }
      elements := other.elements;
    }

    /** The move assignment, from another queue. */
    method MoveAssign(other: RandomizedQueue<T>)
      requires other != this
      modifies this
      ensures elements == old(other.elements) && other.elements == old(other.elements)
    {
      elements := other.elements;
    }

    function Size(): (r: nat)
      reads this
      ensures r == |elements|
    {
      |elements|
    }

    predicate Empty()
      reads this
      ensures Empty() <==> |elements| == 0
    {
      elements == []
    }

    method Enqueue(x: T)
      modifies this
      ensures elements == old(elements) + [x]
    {
      elements := elements + [x];
    }

    /** dequeue: removes and returns the element at the drawn index, moving the last element into its slot. */
    method Dequeue(draw: nat) returns (x: T)
      requires |elements| > 0
      modifies this
      ensures var i := GenerateIndex(|old(elements)|, draw);
        x == old(elements)[i] && elements == SwapRemove(old(elements), i)
    {
      var index := GenerateIndex(|elements|, draw);
      x := elements[index];
      var last := |elements| - 1;
      elements := elements[index := elements[last]][last := x];
      elements := elements[..last];
    }

    /** sample: the element at the drawn index; the queue is left as it is. */
    function Sample(draw: nat): (x: T)
      requires |elements| > 0
      reads this
      ensures x in elements
    {
      elements[GenerateIndex(|elements|, draw)]
    }

    /** begin(): an iterator at index 0 of a fresh permutation of size + 1 offsets. */
    method Begin(order: seq<nat>) returns (it: QueueIterator<T>)
      requires IsPermutation(order, |elements|)
      ensures fresh(it) && it.queue == this && it.index == 0
      ensures it.permutation == order + [|elements|] && IsPermutation(it.permutation, |elements| + 1)
    {
      it := new QueueIterator(this, |elements|, 0, order);
    }

    /** end(): an iterator at index size, whose offset is always size. */
    method End(order: seq<nat>) returns (it: QueueIterator<T>)
      requires IsPermutation(order, |elements|)
      ensures fresh(it) && it.queue == this && it.index == |elements|
      ensures it.permutation == order + [|elements|] && IsPermutation(it.permutation, |elements| + 1)
    {
      it := new QueueIterator(this, |elements|, |elements|, order);
    }
  }

  /** detail::generate_random_permutation(size): 0 .. size-1 with the first size - 1 entries shuffled. */
  method GenerateRandomPermutation(size: nat, order: seq<nat>) returns (v: seq<nat>)
    requires size >= 1 && IsPermutation(order, size - 1)
    ensures v == order + [size - 1]
    ensures |v| == size && IsPermutation(v, size) && v[size - 1] == size - 1
  {
    var vector := new nat[size];
    for i := 0 to size
      invariant vector[..i] == Identity(i)
    {
      vector[i] := i;
      assert vector[..i + 1] == vector[..i] + [i];
    }
    assert vector[..] == Identity(size);
    Shuffle(vector, order);
    v := vector[..];
    assert Pick(Identity(size), order) == order;
    assert Identity(size)[size - 1..] == [size - 1];
    assert Identity(size) == Identity(size - 1) + [size - 1];
  }

  /** std::shuffle(vector.begin(), vector.end() - 1): the first Length - 1 slots rearranged as order says, the last kept. */
  method Shuffle(a: array<nat>, order: seq<nat>)
    requires a.Length >= 1 && IsPermutation(order, a.Length - 1)
    modifies a
    ensures a[..] == Pick(old(a[..]), order) + old(a[..])[a.Length - 1..]
  {
    var original := a[..];
    for k := 0 to |order|
      invariant forall j :: 0 <= j < k ==> a[j] == original[order[j]]
      invariant forall j :: k <= j < a.Length ==> a[j] == original[j]
    {
      a[k] := original[order[k]];
    }
    assert a[..] == Pick(original, order) + original[a.Length - 1..];
  }

  /** The ITERATOR struct: the queue's storage, its own permutation of size + 1 offsets, and an index into it. */
  class QueueIterator<T> {
    const queue: RandomizedQueue<T>
    const permutation: seq<nat>
    var index: nat

    constructor(queue: RandomizedQueue<T>, size: nat, index: nat, order: seq<nat>)
      requires IsPermutation(order, size)
      ensures this.queue == queue && this.index == index
      ensures permutation == order + [size] && IsPermutation(permutation, size + 1)
    {
      this.queue := queue;
      var p := GenerateRandomPermutation(size + 1, order);
      this.permutation := p;
      this.index := index;
    }

    /** operator==: both point at the same slot of the same storage. */
    predicate Equals(other: QueueIterator<T>)
      requires index < |permutation| && other.index < |other.permutation|
      reads this, other
    {
      queue == other.queue && permutation[index] == other.permutation[other.index]
    }

    /** operator*: the element at the current offset. */
    function Deref(): (x: T)
      requires index < |permutation| && permutation[index] < |queue.elements|
      reads this, queue
      ensures x in queue.elements
    {
      queue.elements[permutation[index]]
    }

    /** operator++: the size_t index steps forward, wrapping past SIZE_MAX. */
    method Next()
      modifies this
      ensures index == if old(index) == SizeMax then 0 else old(index) + 1
    {
      index := if index == SizeMax then 0 else index + 1;
    }

    method PostNext() returns (prior: QueueIterator<T>)
      modifies this
      ensures fresh(prior) && prior.queue == queue && prior.permutation == permutation
      ensures prior.index == old(index) && index == if old(index) == SizeMax then 0 else old(index) + 1
    {
      prior := new QueueIterator.Clone(this);
      index := if index == SizeMax then 0 else index + 1;
    }

    /** operator--: the size_t index steps back, wrapping below zero. */
    method Prev()
      modifies this
      ensures index == if old(index) == 0 then SizeMax else old(index) - 1
    {
      index := if index == 0 then SizeMax else index - 1;
    }

    method PostPrev() returns (prior: QueueIterator<T>)
      modifies this
      ensures fresh(prior) && prior.queue == queue && prior.permutation == permutation
      ensures prior.index == old(index) && index == if old(index) == 0 then SizeMax else old(index) - 1
    {
      prior := new QueueIterator.Clone(this);
      index := if index == 0 then SizeMax else index - 1;
    }

    /** The iterator's implicit copy. */
    constructor Clone(other: QueueIterator<T>)
      ensures queue == other.queue && permutation == other.permutation && index == other.index
    {
      queue := other.queue;
      permutation := other.permutation;
      index := other.index;
    }
  }

  /** The elements in the order an iterator from begin() shows them before it meets end(). */
  function Visits<T>(elements: seq<T>, permutation: seq<nat>): seq<T>
    requires |permutation| > |elements| && forall i :: 0 <= i < |elements| ==> permutation[i] < |elements|
  {
    Pick(elements, permutation[..|elements|])
  }

  /** With the last offset fixed at size, the permutation's other entries permute 0 .. size-1. */
  lemma LastFixed(order: seq<nat>, size: nat)
    requires IsPermutation(order, size)
    ensures IsPermutation((order + [size])[..size], size)
    ensures forall i :: 0 <= i < size ==> (order + [size])[i] < size
  {
    assert (order + [size])[..size] == order;
  }

  /**
   * An iterator stepped k times from begin() meets end() exactly when k is the size, so the
   * iteration shows the elements at offsets permutation[0 .. size-1], each element once; on an
   * empty queue begin() == end() at once.
   */
  lemma IterationVisitsEachOnce<T>(b: QueueIterator<T>, e: QueueIterator<T>, orderB: seq<nat>, orderE: seq<nat>)
    requires b.queue == e.queue && IsPermutation(orderB, |b.queue.elements|) && IsPermutation(orderE, |b.queue.elements|)
    requires b.permutation == orderB + [|b.queue.elements|] && e.permutation == orderE + [|b.queue.elements|]
    requires e.index == |b.queue.elements| && b.index <= |b.queue.elements|
    ensures b.Equals(e) <==> b.index == |b.queue.elements|
    ensures b.index < |b.queue.elements| ==> b.Deref() == b.queue.elements[orderB[b.index]]
    ensures multiset(Visits(b.queue.elements, b.permutation)) == multiset(b.queue.elements)
    ensures b.index == 0 && b.queue.elements == [] ==> b.Equals(e)
  {
    var n := |b.queue.elements|;
    LastFixed(orderB, n);
    PickPermutation(b.queue.elements, orderB);
    assert b.permutation[..n] == orderB;
  }
}
