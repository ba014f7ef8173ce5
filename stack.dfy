/**
  The bounded stack of include/container/stack.hpp: a buffer `S` of `cap`
  slots allocated once by the constructor, and the index `top` of the first
  free slot. The elements on the stack are S[0..top], the top one last.
*/
module StackContainer {
  import opened Wrappers

  class Stack<T(0)> {
    var S: array<T>
    var top: nat
    var cap: nat

    /** The buffer has `cap` slots and `top` never passes it. */
    ghost predicate Valid()
      reads this
    {
      S.Length == cap && top <= cap
    }

    /** The elements on the stack, bottom first. */
    ghost function Contents(): seq<T>
      reads this, S
      requires Valid()
    {
      S[..top]
    }

    /** An empty stack with room for `n` elements, 32 unless given (allocate_stack). */
    constructor (n: nat := 32)
      ensures Valid() && fresh(S) && cap == n && Contents() == []
    {
      S := new T[n];
      top := 0;
      cap := n;
    }

    /** True exactly when nothing is on the stack. */
    function Empty(): (b: bool)
      reads this, S
      requires Valid()
      ensures b <==> Contents() == []
    {
      top == 0
    }

    /** True exactly when every slot of the buffer is taken. */
    function Full(): (b: bool)
      reads this, S
      requires Valid()
      ensures b <==> |Contents()| == cap
    {
      top >= cap
    }

    /** The number of elements on the stack. */
    function Size(): (n: nat)
      reads this, S
      requires Valid()
      ensures n == |Contents()| && n <= cap
    {
      top
    }

    /** Puts `x` on top; the caller must not push onto a full stack. */
    method Push(x: T)
      requires Valid() && !Full()
      modifies this, S
      ensures Valid() && S == old(S) && cap == old(cap)
      ensures Contents() == old(Contents()) + [x]
    {
      S[top] := x;
      top := top + 1;
    }

    /**
      Removes and returns the top element: None on an empty stack, which is
      left as it was.
    */
    method Pop() returns (r: Option<T>)
      requires Valid()
      modifies this
      ensures Valid() && S == old(S) && cap == old(cap)
      ensures old(top) == 0 ==> r == None && Contents() == old(Contents())
      ensures old(top) > 0 ==>
        && r == Some(old(Contents())[old(top) - 1])
        && Contents() == old(Contents())[..old(top) - 1]
    {
      if Empty() {
        return None;
      }
      var x := S[top - 1];
      top := top - 1;
      r := Some(x);
    }
  }

  // ---------------------------------------------------------------------
  // pop as written in include/container/stack.hpp

  /** A slot of the buffer: a live element, or storage whose element has been destroyed. */
  datatype Slot<T> = Live(value: T) | Destroyed

  /**
    pop as the code is written, over the slots S[0..top]. `decltype(auto)`
    of `std::move(S_[top_ - 1])` is a reference bound to the top slot (the
    move is only a cast); the slot's element is then destroyed, and the
    optional is copied from the reference, that is from the destroyed slot.
  */
  function PopAsWritten<T>(slots: seq<Slot<T>>): (r: (seq<Slot<T>>, Option<Slot<T>>))
    ensures |slots| == 0 ==> r == (slots, None)
    ensures |slots| > 0 ==> r.0 == slots[..|slots| - 1] && r.1 == Some(Destroyed)
  {
    if |slots| == 0 then (slots, None)
    else
      var i := |slots| - 1;
      var after := slots[i := Destroyed];
      (after[..i], Some(after[i]))
  }

  /**
    On any non-empty stack whose top slot is live, pop as written shrinks the
    stack correctly but does not return the top element.
  */
  lemma PopAsWrittenLosesTop<T>(slots: seq<Slot<T>>)
    requires |slots| > 0 && slots[|slots| - 1].Live?
    ensures PopAsWritten(slots).0 == slots[..|slots| - 1]
    ensures PopAsWritten(slots).1 != Some(slots[|slots| - 1])
  {
  }

  /** A push followed by a pop hands back the pushed element and restores the stack. */
  method PushThenPop<T(0)>(s: Stack<T>, x: T) returns (r: Option<T>)
    requires s.Valid() && !s.Full()
    modifies s, s.S
    ensures s.Valid() && s.S == old(s.S)
    ensures r == Some(x) && s.Contents() == old(s.Contents()) && s.Size() == old(s.Size())
  {
    s.Push(x);
    r := s.Pop();
  }

  /** Elements come off the stack in the reverse of the order they went on. */
  method LastInFirstOut<T(0)>(s: Stack<T>, x: T, y: T) returns (first: Option<T>, second: Option<T>)
    requires s.Valid() && s.cap - s.top >= 2
    modifies s, s.S
    ensures s.Valid() && s.Contents() == old(s.Contents())
    ensures first == Some(y) && second == Some(x)
  {
    s.Push(x);
    s.Push(y);
    first := s.Pop();
    second := s.Pop();
  }
}
