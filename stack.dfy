/** The stack component: its state is an array of the strings typed in, the
    top at the end. Every handler builds a new array, so the model is a set of
    functions from the old stack to the new one. */
module Stack {
  import opened Wrappers
  import opened Text

  /** What the Pop button leaves behind: the new stack and the string it
      reports popped (`None` for "Stack is already empty."). */
  datatype PopResult = PopResult(stack: seq<string>, popped: Option<string>)

  /** `handlePush`: the untrimmed input goes on top unless it is blank. */
  function Push(stack: seq<string>, input: string): (r: seq<string>)
    ensures IsBlank(input) ==> r == stack
    ensures !IsBlank(input) ==> |r| == |stack| + 1 && r[..|stack|] == stack && r[|stack|] == input
  {
    AppendUnlessBlank(stack, input)
  }

  /** `handlePop`: reports the top and removes it; an empty stack stays empty. */
  function Pop(stack: seq<string>): (r: PopResult)
    ensures stack == [] ==> r == PopResult([], None)
    ensures stack != [] ==> r.popped == Some(stack[|stack| - 1]) && r.stack + [r.popped.value] == stack
  {
    if |stack| > 0 then PopResult(stack[..|stack| - 1], Some(stack[|stack| - 1]))
    else PopResult(stack, None)
  }

  /** The Clear button: `setStack([])`, whatever was there. */
  function Clear(stack: seq<string>): (r: seq<string>)
    ensures Pop(r) == PopResult(r, None)
  {
    []
  }

  /** Pushing then popping gives back the pushed value and the prior stack. */
  lemma PushThenPop(stack: seq<string>, input: string)
    requires !IsBlank(input)
    ensures Pop(Push(stack, input)) == PopResult(stack, Some(input))
  {
    var s := Push(stack, input);
    assert s[..|stack|] == stack;
  }

  /** Several pushes in a row (blank inputs included) */
  function PushAll(stack: seq<string>, inputs: seq<string>): seq<string>
    decreases |inputs|
  {
    if inputs == [] then stack else PushAll(Push(stack, inputs[0]), inputs[1..])
  }

  /** `n` presses of Pop: the stack left and the values reported, in order. */
  function PopTimes(stack: seq<string>, n: nat): (seq<string>, seq<string>)
  {
    if n == 0 then (stack, [])
    else
      var p := Pop(stack);
      var rest := PopTimes(p.stack, n - 1);
      (rest.0, (if p.popped.Some? then [p.popped.value] else []) + rest.1)
  }

  function Reverse(s: seq<string>): (r: seq<string>)
    ensures |r| == |s|
  {
    if s == [] then [] else Reverse(s[1..]) + [s[0]]
  }

  lemma {:induction false} PushAllSnoc(stack: seq<string>, inputs: seq<string>, v: string)
    ensures PushAll(stack, inputs + [v]) == Push(PushAll(stack, inputs), v)
    decreases |inputs|
  {
    if inputs != [] {
      assert (inputs + [v])[1..] == inputs[1..] + [v];
      PushAllSnoc(Push(stack, inputs[0]), inputs[1..], v);
    } else {
      assert ([] + [v])[1..] == [];
    }
  }

  lemma {:induction false} ReverseSnoc(s: seq<string>, v: string)
    ensures Reverse(s + [v]) == [v] + Reverse(s)
    decreases |s|
  {
    if s != [] {
      assert (s + [v])[1..] == s[1..] + [v];
      ReverseSnoc(s[1..], v);
    }
  }

  /** LIFO: after pushing non-blank values, as many pops report them
      last-first and restore the stack that was there before. */
  lemma {:induction false} LastInFirstOut(stack: seq<string>, inputs: seq<string>)
    requires forall i :: 0 <= i < |inputs| ==> !IsBlank(inputs[i])
    ensures PopTimes(PushAll(stack, inputs), |inputs|) == (stack, Reverse(inputs))
    decreases |inputs|
  {
    if inputs != [] {
      var front, v := inputs[..|inputs| - 1], inputs[|inputs| - 1];
      assert inputs == front + [v];
      PushAllSnoc(stack, front, v);
      ReverseSnoc(front, v);
      var below := PushAll(stack, front);
      PushThenPop(below, v);
      LastInFirstOut(stack, front);
    }
  }
}
