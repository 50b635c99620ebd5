/** The queue component: an array of strings, the front at index 0. As with
    the stack, each handler builds a new array. */
module Queue {
  import opened Wrappers
  import opened Text

  /** What the Dequeue button leaves behind: the new queue and the string it
      reports removed (`None` for "Queue is already empty."). */
  datatype DequeueResult = DequeueResult(queue: seq<string>, removed: Option<string>)

  /** `handleEnqueue`: the untrimmed input joins the rear unless it is blank. */
  function Enqueue(queue: seq<string>, input: string): (r: seq<string>)
    ensures IsBlank(input) ==> r == queue
    ensures !IsBlank(input) ==> |r| == |queue| + 1 && r[..|queue|] == queue && r[|queue|] == input
  {
    AppendUnlessBlank(queue, input)
  }

  /** `handleDequeue`: reports the front and removes it; an empty queue stays empty. */
  function Dequeue(queue: seq<string>): (r: DequeueResult)
    ensures queue == [] ==> r == DequeueResult([], None)
    ensures queue != [] ==> r.removed == Some(queue[0]) && [r.removed.value] + r.queue == queue
  {
    if |queue| > 0 then DequeueResult(queue[1..], Some(queue[0]))
    else DequeueResult(queue, None)
  }

  /** Several enqueues in a row, blank inputs included. */
  function EnqueueAll(queue: seq<string>, inputs: seq<string>): seq<string>
    decreases |inputs|
  {
    if inputs == [] then queue else EnqueueAll(Enqueue(queue, inputs[0]), inputs[1..])
  }

  /** `n` presses of Dequeue: the queue left and the values reported, in order. */
  function DequeueTimes(queue: seq<string>, n: nat): (seq<string>, seq<string>)
  {
    if n == 0 then (queue, [])
    else
      var d := Dequeue(queue);
      var rest := DequeueTimes(d.queue, n - 1);
      (rest.0, (if d.removed.Some? then [d.removed.value] else []) + rest.1)
  }

  /** No input of `inputs` is blank. */
  ghost predicate NoneBlank(inputs: seq<string>) {
    forall i :: 0 <= i < |inputs| ==> !IsBlank(inputs[i])
  }

  lemma NoneBlankTail(inputs: seq<string>)
    requires inputs != [] && NoneBlank(inputs)
    ensures !IsBlank(inputs[0]) && NoneBlank(inputs[1..])
  {
    forall i | 0 <= i < |inputs[1..]|
      ensures !IsBlank(inputs[1..][i])
    {
      assert inputs[1..][i] == inputs[i + 1];
    }
  }

  /** A non-blank input joins the rear. */
  lemma EnqueueNonBlank(queue: seq<string>, input: string)
    requires !IsBlank(input)
    ensures Enqueue(queue, input) == queue + [input]
  {
    var r := Enqueue(queue, input);
    assert r[..|queue|] == queue;
    assert r == r[..|queue|] + [r[|queue|]];
  }

  lemma AppendHead<T>(queue: seq<T>, inputs: seq<T>)
    requires inputs != []
    ensures (queue + [inputs[0]]) + inputs[1..] == queue + inputs
  {
    assert inputs == [inputs[0]] + inputs[1..];
  }

  /** Enqueueing non-blank values appends them, in order. */
  lemma {:induction false} EnqueueAllAppends(queue: seq<string>, inputs: seq<string>)
    requires NoneBlank(inputs)
    ensures EnqueueAll(queue, inputs) == queue + inputs
    decreases |inputs|
  {
    if inputs != [] {
      NoneBlankTail(inputs);
      EnqueueNonBlank(queue, inputs[0]);
      EnqueueAllAppends(queue + [inputs[0]], inputs[1..]);
      AppendHead(queue, inputs);
    }
  }

  /** Dequeueing a whole queue reports its elements front to back. */
  lemma {:induction false} DequeueAllInOrder(queue: seq<string>)
    ensures DequeueTimes(queue, |queue|) == ([], queue)
    decreases |queue|
  {
    if queue != [] {
      DequeueAllInOrder(queue[1..]);
    }
  }

  /** FIFO: values enqueued behind an existing queue come out after it, in
      the order they went in. */
  lemma FirstInFirstOut(queue: seq<string>, inputs: seq<string>)
    requires NoneBlank(inputs)
    ensures DequeueTimes(EnqueueAll(queue, inputs), |queue| + |inputs|) == ([], queue + inputs)
  {
    EnqueueAllAppends(queue, inputs);
    var q := queue + inputs;
    assert |q| == |queue| + |inputs|;
    DequeueAllInOrder(q);
  }
}
