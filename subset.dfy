/**
 * subset: every input line is put into a randomized queue, then up to k lines are dequeued and
 * written.  The queue's generator is replaced by draws: draws(n) is the draw behind the n-th
 * dequeue.  Input and output streams are sequences of lines.
 */
module Subsets {
  import opened RandomizedQueues

  function Min(a: nat, b: nat): nat
  {
    if a <= b then a else b
  }

  /** The lines the dequeue loop writes from a queue holding elements, with k lines still wanted and n draws used. */
  function Drawn(elements: seq<string>, k: nat, draws: nat -> nat, n: nat): seq<string>
    decreases k
  {
    if k == 0 || elements == [] then []
    else
      var i := GenerateIndex(|elements|, draws(n));
      [elements[i]] + Drawn(SwapRemove(elements, i), k - 1, draws, n + 1)
  }

  /** One turn of the dequeue loop: the drawn line, then what the loop writes from the rest. */
  lemma DrawnStep(elements: seq<string>, k: nat, draws: nat -> nat, n: nat)
    requires k > 0 && elements != []
    ensures var i := GenerateIndex(|elements|, draws(n));
      Drawn(elements, k, draws, n) == [elements[i]] + Drawn(SwapRemove(elements, i), k - 1, draws, n + 1)
  {
  }

  /** Exactly min(k, size) lines are written; none when k is 0 or the queue is empty. */
  lemma {:induction false} DrawnLength(elements: seq<string>, k: nat, draws: nat -> nat, n: nat)
    ensures |Drawn(elements, k, draws, n)| == Min(k, |elements|)
    ensures k == 0 || elements == [] ==> Drawn(elements, k, draws, n) == []
    decreases k
  {
    if k != 0 && elements != [] {
      var i := GenerateIndex(|elements|, draws(n));
      SwapRemoveMeaning(elements, i);
      DrawnLength(SwapRemove(elements, i), k - 1, draws, n + 1);
    }
  }

  /** A line put in front of lines taken from rest stays within rest with that line added back. */
  lemma ConsWithin(x: string, more: seq<string>, rest: seq<string>, all: seq<string>)
    requires multiset(more) <= multiset(rest) && multiset(rest) + multiset{x} == multiset(all)
    ensures multiset([x] + more) <= multiset(all)
  {
    assert multiset([x] + more) == multiset{x} + multiset(more);
  }

  /** Every written line was in the queue, and no line is written more often than the queue held it. */
  lemma {:induction false} DrawnWithin(elements: seq<string>, k: nat, draws: nat -> nat, n: nat)
    ensures multiset(Drawn(elements, k, draws, n)) <= multiset(elements)
    decreases k
  {
    if k != 0 && elements != [] {
      var i := GenerateIndex(|elements|, draws(n));
      DrawnWithin(SwapRemove(elements, i), k - 1, draws, n + 1);
      DrawnWithinStep(elements, k, draws, n, i);
    }
  }

  /** One turn of the dequeue loop keeps what is written within what the queue held. */
  lemma DrawnWithinStep(elements: seq<string>, k: nat, draws: nat -> nat, n: nat, i: nat)
    requires k > 0 && elements != [] && i == GenerateIndex(|elements|, draws(n))
    requires multiset(Drawn(SwapRemove(elements, i), k - 1, draws, n + 1)) <= multiset(SwapRemove(elements, i))
    ensures multiset(Drawn(elements, k, draws, n)) <= multiset(elements)
  {
    DrawnStep(elements, k, draws, n);
    SwapRemoveMeaning(elements, i);
    ConsWithin(elements[i], Drawn(SwapRemove(elements, i), k - 1, draws, n + 1), SwapRemove(elements, i), elements);
  }

  /** The whole program: read all lines into the queue, in order, then write what the dequeue loop yields. */
  method Subset(k: nat, input: seq<string>, draws: nat -> nat) returns (output: seq<string>)
    ensures output == Drawn(input, k, draws, 0)
    ensures |output| == Min(k, |input|) && multiset(output) <= multiset(input)
    ensures k == 0 || input == [] ==> output == []
  {
    var queue := new RandomizedQueue<string>();
    for i := 0 to |input|
      invariant queue.elements == input[..i]
    {
      queue.Enqueue(input[i]);
      assert input[..i + 1] == input[..i] + [input[i]];
    }
    assert input[..|input|] == input;
    output := [];
    var left := k;
    var n := 0;
    while left > 0 && !queue.Empty()
      invariant output + Drawn(queue.elements, left, draws, n) == Drawn(input, k, draws, 0)
      decreases left
    {
      DrawnStep(queue.elements, left, draws, n);
      var line := queue.Dequeue(draws(n));
      ghost var rest := Drawn(queue.elements, left - 1, draws, n + 1);
      assert output + ([line] + rest) == (output + [line]) + rest;
      output := output + [line];
      left := left - 1;
      n := n + 1;
    }
    DrawnLength(input, k, draws, 0);
    DrawnWithin(input, k, draws, 0);
  }
}
