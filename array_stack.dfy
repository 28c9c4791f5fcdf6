/**
 * A bounded stack stored in a fixed-size array, with `top` the index of the
 * top element (-1 when empty). Pushing onto a full stack and popping or
 * peeking an empty one are errors; a popped slot is cleared so that the
 * array holds no stale reference.
 */
module ArrayStacks {
  import opened Wrappers

  /** `Full` is Java's `IllegalStateException("Stack is full")`, `Empty` its `EmptyStackException`. */
  datatype StackError = Full | Empty

  class ArrayStack<E> {
    var S: array<Option<E>>
    var top: int
    /** The elements on the stack, bottom first. */
    ghost var Contents: seq<E>

    /** Slots `0..top` hold the contents bottom to top, every slot above `top` is cleared, and `-1 <= top < capacity`. */
    ghost predicate Valid()
      reads this, S
    {
      && -1 <= top < S.Length
      && |Contents| == top + 1
      && (forall i :: 0 <= i <= top ==> S[i] == Some(Contents[i]))
      && (forall i :: top < i < S.Length ==> S[i] == None)
    }

    constructor (capacity: nat)
      ensures Valid() && fresh(S)
      ensures S.Length == capacity && Contents == []
    {
      S := new Option<E>[capacity](_ => None);
      top := -1;
      Contents := [];
    }

    /** The number of elements, `top + 1`. */
    function Size(): (n: int)
      reads this, S
      requires Valid()
      ensures n == |Contents|
      ensures 0 <= n <= S.Length
    {
      top + 1
    }

    function IsEmpty(): (b: bool)
      reads this, S
      requires Valid()
      ensures b <==> Contents == []
    {
      top == -1
    }

    /** Puts `o` on top, or fails with `Full` and changes nothing when every slot is taken. */
    method Push(o: E) returns (r: Outcome<StackError>)
      requires Valid()
      modifies this, S
      ensures Valid() && S == old(S)
      ensures r == (if old(|Contents|) == S.Length then Fail(Full) else Pass)
      ensures r.Fail? ==> Contents == old(Contents) && unchanged(S)
      ensures r.Pass? ==> Contents == old(Contents) + [o]
    {
      if top == S.Length - 1 {
        return Fail(Full);
      }
      top := top + 1;
      S[top] := Some(o);
      Contents := Contents + [o];
      r := Pass;
    }

    /** Removes and returns the most recently pushed element still on the stack, or fails with `Empty`. */
    method Pop() returns (r: Result<E, StackError>)
      requires Valid()
      modifies this, S
      ensures Valid() && S == old(S)
      ensures old(Contents) == [] ==> r == Failure(Empty) && Contents == old(Contents)
      ensures old(Contents) != [] ==>
                && r == Success(old(Contents)[|old(Contents)| - 1])
                && Contents == old(Contents)[..|old(Contents)| - 1]
    {
      if IsEmpty() {
        return Failure(Empty);
      }
      var elem := S[top].value;
      S[top] := None;
      top := top - 1;
      Contents := Contents[..|Contents| - 1];
      r := Success(elem);
    }

    /** The top element without removing it, or `Empty`. */
    method Peek() returns (r: Result<E, StackError>)
      requires Valid()
      ensures Contents == [] ==> r == Failure(Empty)
      ensures Contents != [] ==> r == Success(Contents[|Contents| - 1])
    {
      if IsEmpty() {
        return Failure(Empty);
      }
      r := Success(S[top].value);
    }
  }

  /** Pushing onto a stack that is not full and popping straight away gives back the pushed element and the earlier contents. */
  method PushThenPop<E>(s: ArrayStack<E>, o: E) returns (r: Result<E, StackError>)
    requires s.Valid() && |s.Contents| < s.S.Length
    modifies s, s.S
    ensures s.Valid()
    ensures r == Success(o) && s.Contents == old(s.Contents)
  {
    var pushed := s.Push(o);
    r := s.Pop();
  }
}
