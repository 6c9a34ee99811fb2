/**
 * The `Buffer` of 04_OOP/05_SpecialMemberFunctions/RuleOfFiveExample.cpp: a heap array of
 * `n` ints behind a pointer that is null for the default buffer. The copy operations
 * allocate fresh storage and copy element by element, the move operations hand the storage
 * over and leave the source empty, and both assignments do nothing on self-assignment.
 */
module RuleOfFive {

  /** Fresh storage holding the same ints as `src`, copied one by one. */
  method CopyOf(src: array<int>) returns (dst: array<int>)
    ensures fresh(dst) && dst[..] == src[..]
  {
    dst := new int[src.Length];
    for i := 0 to src.Length
      invariant dst[..i] == src[..i]
      modifies dst
    {
      dst[i] := src[i];
    }
  }

  class Buffer {
    var data: array?<int>
    var n: nat

    /** `data` holds exactly `n` ints; only the default buffer has no storage. */
    ghost predicate Valid()
      reads this
    {
      if data == null then n == 0 else data.Length == n
    }

    /** The ints the buffer holds. */
    ghost function Contents(): seq<int>
      reads this, data
    {
      if data == null then [] else data[..]
    }

    /** `Buffer()`: no storage and size 0. */
    constructor()
      ensures Valid() && data == null && n == 0
    {
      data, n := null, 0;
    }

    /**
     * `Buffer(sz)`: fresh storage of `sz` ints, even for `sz == 0`; `new int[sz]` leaves
     * the values indeterminate, so nothing is promised about them.
     */
    constructor Sized(sz: nat)
      ensures Valid() && data != null && fresh(data) && n == sz
    {
      data := new int[sz];
      n := sz;
    }

    /**
     * The copy constructor: the same size and the same ints, in storage of its own, or no
     * storage when the source is empty.
     */
    constructor Copy(o: Buffer)
      requires o.Valid()
      ensures Valid() && n == o.n && Contents() == o.Contents()
      ensures o.n == 0 <==> data == null
      ensures data != null ==> fresh(data)
    {
      var nd: array?<int> := null;
      if o.n != 0 {
        nd := CopyOf(o.data);
      }
      data, n := nd, o.n;
    }

    /**
     * Copy assignment: on another buffer, this one gets a fresh copy of its ints and its
     * size, and the source is left as it was; on itself, nothing happens.
     */
    method CopyAssign(o: Buffer)
      requires Valid() && o.Valid()
      modifies this
      ensures Valid()
      ensures o == this ==> data == old(data) && n == old(n)
      ensures o != this ==> n == o.n && Contents() == old(o.Contents())
      ensures o != this ==> (data == null <==> o.n == 0) && (data != null ==> fresh(data))
      ensures o != this ==> o.data == old(o.data) && o.n == old(o.n)
    {
      if this != o {
        var nd: array?<int> := null;
        if o.n != 0 {
          nd := CopyOf(o.data);
        }
        data, n := nd, o.n;
      }
    }

    /** The move constructor: takes the storage and the size and empties the source. */
    constructor Move(o: Buffer)
      requires o.Valid()
      modifies o
      ensures Valid() && o.Valid()
      ensures data == old(o.data) && n == old(o.n)
      ensures o.data == null && o.n == 0
    {
      data, n := o.data, o.n;
      new;
      o.data, o.n := null, 0;
    }

    /**
     * Move assignment: on another buffer, this one drops its own storage and takes the
     * source's, which is left empty; on itself, nothing happens.
     */
    method MoveAssign(o: Buffer)
      requires Valid() && o.Valid()
      modifies this, o
      ensures Valid() && o.Valid()
      ensures o == this ==> data == old(data) && n == old(n)
      ensures o != this ==> data == old(o.data) && n == old(o.n) && o.data == null && o.n == 0
    {
      if this != o {
        data, n := o.data, o.n;
        o.data, o.n := null, 0;
      }
    }
  }

  /**
   * `main`: `a(10)` is copied into `b` and moved into `c`, which leaves `a` empty; `b = c`
   * gives `b` ten ints of its own equal to `c`'s, and `c = Buffer(5)` gives `c` the five
   * ints of the temporary.
   */
  method Example() returns (a: Buffer, b: Buffer, c: Buffer)
    ensures a.Valid() && b.Valid() && c.Valid()
    ensures a.data == null && a.n == 0
    ensures b.n == 10 && c.n == 5
    ensures b.data != null && c.data != null && b.data != c.data
  {
    a := new Buffer.Sized(10);
    b := new Buffer.Copy(a);
    c := new Buffer.Move(a);
    b.CopyAssign(c);
    var temp := new Buffer.Sized(5);
    c.MoveAssign(temp);
  }
}
