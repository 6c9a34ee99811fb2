/**
 * The vector-backed stack of 10_DataStructures/02_Stack: StackExample.cpp is a class
 * template over the element type, StackImplementation.cpp is the same class fixed to
 * `int`, so one generic class models both. The vector is the sequence `data`, bottom first.
 */
module VectorStack {

  class Stack<T> {
    var data: seq<T>

    constructor ()
      ensures data == []
    {
      data := [];
    }

    /** `push(v)`: `data.push_back(v)`. */
    method Push(v: T)
      modifies this
      ensures data == old(data) + [v]
    {
      data := data + [v];
    }

    /** `pop()`: drops the top element; popping an empty stack does nothing. */
    method Pop()
      modifies this
      ensures old(data) == [] ==> data == []
      ensures old(data) != [] ==> data + [old(data)[|old(data)| - 1]] == old(data)
    {
      if data != [] {
        data := data[..|data| - 1];
      }
    }

    /** `top()`: `data.back()`, undefined on an empty stack. */
    function Top(): (x: T)
      reads this
      requires data != []
      ensures data == data[..|data| - 1] + [x]
    {
      data[|data| - 1]
    }

    /** `empty()`. */
    function Empty(): (b: bool)
      reads this
      ensures b <==> Size() == 0
    {
      data == []
    }

    /** `size()`. */
    function Size(): (n: nat)
      reads this
      ensures n == |data|
    {
      |data|
    }
  }

  /** StackImplementation.cpp `main`: 10, 20, 30 pushed; top is 30, and 20 after one pop. */
  method IntStackExample() returns (top: int, topAfterPop: int)
    ensures top == 30 && topAfterPop == 20
  {
    var s := new Stack<int>();
    s.Push(10);
    s.Push(20);
    s.Push(30);
    top := s.Top();
    s.Pop();
    topAfterPop := s.Top();
  }

  /** StackExample.cpp `main`: 1, 2, 3 pushed; top is 3, and 2 after one pop. */
  method TemplateStackExample() returns (top: int, newTop: int, size: nat)
    ensures top == 3 && newTop == 2 && size == 2
  {
    var s := new Stack<int>();
    s.Push(1);
    s.Push(2);
    s.Push(3);
    top := s.Top();
    s.Pop();
    newTop := s.Top();
    size := s.Size();
  }
}
