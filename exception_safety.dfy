/**
 * `pushStrong` and `pushBasic` of 09_ExceptionHandling/03_ExceptionSafety/
 * ExceptionSafetyExample.cpp over a vector of ints passed by reference. Whether an
 * allocation throws is not something the program decides, so each step that may throw
 * takes a flag saying whether it does; a thrown exception is returned as `thrown`.
 */
module ExceptionSafety {

  /** A `std::vector<int>`, by its elements. */
  class Vector {
    var elements: seq<int>

    constructor(init: seq<int>)
      ensures elements == init
    {
      elements := init;
    }

    /** The copy constructor. */
    constructor Copy(other: Vector)
      ensures elements == other.elements
    {
      elements := other.elements;
    }

    /**
     * `push_back(x)`: appends `x`, or throws when the reallocation fails, in which case
     * (as `push_back` itself guarantees) nothing has changed.
     */
    method PushBack(x: int, fails: bool) returns (thrown: bool)
      modifies this
      ensures thrown == fails
      ensures elements == if fails then old(elements) else old(elements) + [x]
    {
      thrown := fails;
      if !fails {
        elements := elements + [x];
      }
    }

    /** `swap(other)`: the two vectors exchange their elements. */
    method Swap(other: Vector)
      modifies this, other
      ensures elements == old(other.elements) && other.elements == old(elements)
    {
      elements, other.elements := other.elements, elements;
    }
  }

  /**
   * `pushStrong`: the value is appended to a copy, which is swapped in only once that has
   * succeeded; if the copy or the append throws, `v` is exactly as it was (the strong
   * guarantee).
   */
  method PushStrong(v: Vector, value: int, copyFails: bool, pushFails: bool) returns (thrown: bool)
    modifies v
    ensures thrown <==> copyFails || pushFails
    ensures thrown ==> v.elements == old(v.elements)
    ensures !thrown ==> v.elements == old(v.elements) + [value]
  {
    if copyFails {
      return true;
    }
    var temp := new Vector.Copy(v);
    thrown := temp.PushBack(value, pushFails);
    if !thrown {
      v.Swap(temp);
    }
  }

  /** `pushBasic`: `push_back` on `v` itself. */
  method PushBasic(v: Vector, value: int, fails: bool) returns (thrown: bool)
    modifies v
    ensures thrown == fails
    ensures v.elements == if fails then old(v.elements) else old(v.elements) + [value]
  {
    thrown := v.PushBack(value, fails);
  }

  /** `main`: starting from {1, 2, 3}, `pushBasic(v, 4)` and `pushStrong(v, 5)` give 1 2 3 4 5. */
  method Example() returns (result: seq<int>)
    ensures result == [1, 2, 3, 4, 5]
  {
    var v := new Vector([1, 2, 3]);
    var thrown := PushBasic(v, 4, false);
    thrown := PushStrong(v, 5, false, false);
    result := v.elements;
  }

  /** Had the append inside `pushStrong` thrown, `v` would still hold 1 2 3 4. */
  method RollbackExample() returns (result: seq<int>, thrown: bool)
    ensures thrown && result == [1, 2, 3, 4]
  {
    var v := new Vector([1, 2, 3]);
    thrown := PushBasic(v, 4, false);
    thrown := PushStrong(v, 5, false, true);
    result := v.elements;
  }
}
