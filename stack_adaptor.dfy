/**
 * The three algorithms that 01_STL_Containers/04_ContainerAdaptors/StackExample.cpp runs on
 * `std::stack`: a postfix evaluator, an undo history, and a balanced-bracket test. A
 * stack is a sequence with its top at the end.
 */
module StackAdaptor {
  import opened Wrappers

  // ---------------------------------------------------------------------------------------
  // Postfix evaluation
  // ---------------------------------------------------------------------------------------

  /** The range of a 32-bit C++ `int`; leaving it is undefined behaviour. */
  const IntMin: int := -0x8000_0000
  const IntMax: int := 0x7fff_ffff

  predicate InInt(x: int)
  {
    IntMin <= x <= IntMax
  }

  predicate IsDigit(c: char)
  {
    '0' <= c <= '9'
  }

  predicate IsOperator(c: char)
  {
    c == '+' || c == '-' || c == '*' || c == '/'
  }

  function Abs(x: int): nat
  {
    if x < 0 then -x else x
  }

  /** C++ `a / b`: the quotient truncated toward zero, so the remainder takes the sign of `a`. */
  function TruncDiv(a: int, b: int): (q: int)
    requires b != 0
    ensures Abs(a - q * b) < Abs(b)
    ensures a - q * b == 0 || (a - q * b < 0 <==> a < 0)
  {
    var m := Abs(a) / Abs(b);
    var q := if (a < 0) == (b < 0) then m else -m;
    TruncDivRemainder(a, b, m, q);
    q
  }

  lemma TruncDivRemainder(a: int, b: int, m: int, q: int)
    requires b != 0 && m == Abs(a) / Abs(b) && q == if (a < 0) == (b < 0) then m else -m
    ensures a - q * b == if a < 0 then -(Abs(a) % Abs(b)) else Abs(a) % Abs(b)
  {
    var x: int, y: int := Abs(a), Abs(b);
    assert x == m * y + x % y;
    if b < 0 {
      assert b == -y;
      assert q * b == -(q * y);
    } else {
      assert b == y;
    }
    assert q * b == if a < 0 then -(m * y) else m * y;
  }

  /**
   * `a op b` on C++ `int` operands: `None` where the C++ has undefined behaviour, that is a
   * result outside `int` or a division by zero.
   */
  function Apply(op: char, a: int, b: int): (r: Option<int>)
    requires IsOperator(op)
    ensures r.Some? ==> InInt(r.value)
    ensures op == '/' && b == 0 ==> r == None
    ensures op == '+' && InInt(a + b) ==> r == Some(a + b)
    ensures op == '-' && InInt(a - b) ==> r == Some(a - b)
    ensures op == '*' && InInt(a * b) ==> r == Some(a * b)
    ensures op == '/' && b != 0 && InInt(TruncDiv(a, b)) ==> r == Some(TruncDiv(a, b))
  {
    var v :=
      if op == '+' then a + b
      else if op == '-' then a - b
      else if op == '*' then a * b
      else if b == 0 then IntMax + 1
      else TruncDiv(a, b);
    if InInt(v) then Some(v) else None
  }

  /**
   * One character of the loop: a digit pushes its value, an operator with two operands
   * pops `b` then `a` and pushes `a op b`; every other character, and an operator with
   * fewer than two operands, leaves the stack alone. `None` is undefined behaviour.
   */
  function Step(stk: seq<int>, c: char): Option<seq<int>>
  {
    if IsDigit(c) then Some(stk + [c as int - '0' as int])
    else if IsOperator(c) && |stk| >= 2 then
      match Apply(c, stk[|stk| - 2], stk[|stk| - 1])
      case None => None
      case Some(v) => Some(stk[..|stk| - 2] + [v])
    else Some(stk)
  }

  /** The stack after reading `s` from the stack `stk`; `None` once undefined behaviour occurs. */
  function Run(stk: seq<int>, s: string): Option<seq<int>>
    decreases |s|
  {
    if s == [] then Some(stk)
    else
      match Step(stk, s[0])
      case None => None
      case Some(t) => Run(t, s[1..])
  }

  /** What each character does to the stack. */
  lemma StepEffect(stk: seq<int>, c: char)
    ensures IsDigit(c) ==> Step(stk, c) == Some(stk + [c as int - '0' as int])
    ensures !IsDigit(c) && !(IsOperator(c) && |stk| >= 2) ==> Step(stk, c) == Some(stk)
    ensures IsOperator(c) && |stk| >= 2 && Step(stk, c).Some? ==>
      |Step(stk, c).value| == |stk| - 1 && Step(stk, c).value[..|stk| - 2] == stk[..|stk| - 2]
  {
  }

  /** Reading `a + b` is reading `a` and then, unless that was undefined, `b`. */
  lemma {:induction false} RunAppend(stk: seq<int>, a: string, b: string)
    ensures Run(stk, a + b) == match Run(stk, a) case None => None case Some(t) => Run(t, b)
    decreases |a|
  {
    if a == [] {
      assert a + b == b;
    } else {
      assert (a + b)[0] == a[0] && (a + b)[1..] == a[1..] + b;
      match Step(stk, a[0])
      case None =>
      case Some(t) => RunAppend(t, a[1..], b);
    }
  }

  /**
   * The evaluation loop over `expr`: the final stack, or `None` when an operation had
   * undefined behaviour.
   */
  method EvaluatePostfix(expr: string) returns (r: Option<seq<int>>)
    ensures r == Run([], expr)
  {
    var stk: seq<int> := [];
    for i := 0 to |expr|
      invariant Run([], expr[..i]) == Some(stk)
    {
      var c := expr[i];
      RunAppend([], expr[..i], [c]);
      assert expr[..i + 1] == expr[..i] + [c];
      if IsDigit(c) {
        stk := stk + [c as int - '0' as int];
      } else if IsOperator(c) {
        if |stk| >= 2 {
          ghost var s0 := stk;
          var b := stk[|stk| - 1];
          stk := stk[..|stk| - 1];
          var a := stk[|stk| - 1];
          stk := stk[..|stk| - 1];
          var result: int;
          if c == '+' {
            result := a + b;
          } else if c == '-' {
            result := a - b;
          } else if c == '*' {
            result := a * b;
          } else {
            if b == 0 {
              RunAppend([], expr[..i + 1], expr[i + 1..]);
              assert expr[..i + 1] + expr[i + 1..] == expr;
              return None;
            }
            result := TruncDiv(a, b);
          }
          if !InInt(result) {
            RunAppend([], expr[..i + 1], expr[i + 1..]);
            assert expr[..i + 1] + expr[i + 1..] == expr;
            return None;
          }
          assert a == s0[|s0| - 2] && b == s0[|s0| - 1] && stk == s0[..|s0| - 2];
          assert Apply(c, a, b) == Some(result);
          stk := stk + [result];
        }
      }
    }
    assert expr[..|expr|] == expr;
    return Some(stk);
  }

  /** An arithmetic expression over single digits, the source of a postfix string. */
  datatype Expr = Lit(digit: nat) | Bin(op: char, left: Expr, right: Expr)

  predicate WellFormed(e: Expr)
  {
    match e
    case Lit(d) => d < 10
    case Bin(op, l, r) => IsOperator(op) && WellFormed(l) && WellFormed(r)
  }

  /** The postfix spelling of `e`: operands, then the operator, separated by spaces. */
  function Render(e: Expr): string
    requires WellFormed(e)
  {
    match e
    case Lit(d) => [('0' as int + d) as char]
    case Bin(op, l, r) => Render(l) + " " + Render(r) + " " + [op]
  }

  /** The value of `e` in C++ `int` arithmetic; `None` if any operation is undefined. */
  function Value(e: Expr): Option<int>
    requires WellFormed(e)
  {
    match e
    case Lit(d) => Some(d)
    case Bin(op, l, r) =>
      match (Value(l), Value(r))
      case (Some(a), Some(b)) => Apply(op, a, b)
      case _ => None
  }

  /**
   * The evaluator is correct: reading the postfix spelling of a well-formed expression
   * pushes exactly its value, and is undefined exactly when the expression is.
   */
  lemma {:induction false} RunRender(e: Expr, stk: seq<int>)
    requires WellFormed(e)
    ensures Run(stk, Render(e)) == match Value(e) case None => None case Some(v) => Some(stk + [v])
  {
    match e
    case Lit(d) =>
      assert Render(e)[1..] == [];
    case Bin(op, l, r) =>
      var sl, sr := Render(l), Render(r);
      assert Render(e) == sl + (" " + (sr + (" " + [op])));
      RunAppend(stk, sl, " " + (sr + (" " + [op])));
      RunRender(l, stk);
      if Value(l).Some? {
        var a := Value(l).value;
        RunAppend(stk + [a], " ", sr + (" " + [op]));
        RunAppend(stk + [a], sr, " " + [op]);
        RunRender(r, stk + [a]);
        if Value(r).Some? {
          var b := Value(r).value;
          assert stk + [a] + [b] == stk + [a, b];
          OperatorLast(stk, a, b, op);
        }
      }
  }

  /** A space and then the operator, read with `a` and `b` on top, replace them by `a op b`. */
  lemma OperatorLast(stk: seq<int>, a: int, b: int, op: char)
    requires IsOperator(op)
    ensures Run(stk + [a, b], " " + [op]) == match Apply(op, a, b) case None => None case Some(v) => Some(stk + [v])
  {
    var t := stk + [a, b];
    RunAppend(t, " ", [op]);
    assert t[..|t| - 2] == stk && t[|t| - 2] == a && t[|t| - 1] == b;
  }

  /** `5 3 + 2 *` is `(5 + 3) * 2`, and leaves just 16 on the stack. */
  lemma PostfixExample()
    ensures Run([], "5 3 + 2 *") == Some([16])
  {
    var sum := Bin('+', Lit(5), Lit(3));
    var e := Bin('*', sum, Lit(2));
    assert Render(sum) == "5 3 +";
    assert Render(e) == "5 3 + 2 *";
    assert Value(sum) == Some(8);
    assert Value(e) == Some(16);
    RunRender(e, []);
    assert [] + [16] == [16];
  }

  /** `example3_ExpressionEvaluation`: the final top is 16. */
  method PostfixDemo() returns (finalTop: int)
    ensures finalTop == 16
  {
    var r := EvaluatePostfix("5 3 + 2 *");
    PostfixExample();
    finalTop := r.value[|r.value| - 1];
  }

  // ---------------------------------------------------------------------------------------
  // Undo history
  // ---------------------------------------------------------------------------------------

  /** The captured `currentState` and the `actions` stack of earlier states. */
  class UndoSystem {
    var current: string
    var actions: seq<string>

    /** Every state so far that can still be returned to, oldest first, ending with the current one. */
    ghost function Timeline(): seq<string>
      reads this
    {
      actions + [current]
    }

    constructor ()
      ensures current == "Empty Document" && actions == []
    {
      current := "Empty Document";
      actions := [];
    }

    /** `performAction(a)`: saves the current state on the history and makes `a` current. */
    method PerformAction(a: string)
      modifies this
      ensures actions == old(actions) + [old(current)] && current == a
      ensures Timeline() == old(Timeline()) + [a]
    {
      actions := actions + [current];
      current := a;
    }

    /** `undo()`: restores the most recent saved state; with no history, nothing changes. */
    method Undo() returns (undone: bool)
      modifies this
      ensures undone <==> old(actions) != []
      ensures !undone ==> current == old(current) && actions == old(actions)
      ensures undone ==> current == old(actions)[|old(actions)| - 1] && actions == old(actions)[..|old(actions)| - 1]
      ensures undone ==> Timeline() == old(Timeline())[..|old(Timeline())| - 1]
    {
      if actions == [] {
        return false;
      }
      current := actions[|actions| - 1];
      actions := actions[..|actions| - 1];
      undone := true;
    }
  }

  /** `example4_UndoSystem`: three actions, a history of 3, two undos back to the first action. */
  method UndoDemo() returns (historySize: nat, finalState: string)
    ensures historySize == 3 && finalState == "Added 'Hello'"
  {
    var u := new UndoSystem();
    u.PerformAction("Added 'Hello'");
    u.PerformAction("Added 'World'");
    u.PerformAction("Added '!'");
    historySize := |u.actions|;
    var _ := u.Undo();
    var _ := u.Undo();
    finalState := u.current;
  }

  // ---------------------------------------------------------------------------------------
  // Balanced brackets
  // ---------------------------------------------------------------------------------------

  predicate IsOpen(c: char)
  {
    c == '(' || c == '{' || c == '['
  }

  predicate IsClose(c: char)
  {
    c == ')' || c == '}' || c == ']'
  }

  /** `c` closes the bracket `o`. */
  predicate Pair(o: char, c: char)
  {
    (o == '(' && c == ')') || (o == '{' && c == '}') || (o == '[' && c == ']')
  }

  /** The bracket characters of `s`, in order. */
  function Brackets(s: string): (b: string)
    ensures forall i :: 0 <= i < |b| ==> IsOpen(b[i]) || IsClose(b[i])
    decreases |s|
  {
    if s == [] then []
    else (if IsOpen(s[0]) || IsClose(s[0]) then [s[0]] else []) + Brackets(s[1..])
  }

  /**
   * Properly nested brackets: empty, or an opening bracket, a nested run, its matching
   * closing bracket, and another nested run.
   */
  ghost predicate Nested(b: string)
    decreases |b|, 1
  {
    b == [] || exists i :: Split(b, i)
  }

  /** `b[0]` and `b[i]` are a matched pair around a nested run, and a nested run follows. */
  ghost predicate Split(b: string, i: int)
    decreases |b|, 0
  {
    0 < i < |b| && Pair(b[0], b[i]) && Nested(b[1..i]) && Nested(b[i + 1..])
  }

  /** One character of `isBalanced`'s loop; `None` is an early `return false`. */
  function Match(stk: seq<char>, c: char): Option<seq<char>>
  {
    if IsOpen(c) then Some(stk + [c])
    else if IsClose(c) then
      if stk != [] && Pair(stk[|stk| - 1], c) then Some(stk[..|stk| - 1]) else None
    else Some(stk)
  }

  /** The stack of unclosed brackets after reading `s` from `stk`; `None` on a mismatch. */
  function Scan(stk: seq<char>, s: string): Option<seq<char>>
    decreases |s|
  {
    if s == [] then Some(stk)
    else
      match Match(stk, s[0])
      case None => None
      case Some(t) => Scan(t, s[1..])
  }

  lemma {:induction false} ScanAppend(stk: seq<char>, a: string, b: string)
    ensures Scan(stk, a + b) == match Scan(stk, a) case None => None case Some(t) => Scan(t, b)
    decreases |a|
  {
    if a == [] {
      assert a + b == b;
    } else {
      assert (a + b)[0] == a[0] && (a + b)[1..] == a[1..] + b;
      match Match(stk, a[0])
      case None =>
      case Some(t) => ScanAppend(t, a[1..], b);
    }
  }

  /** Non-bracket characters do not affect the scan. */
  lemma {:induction false} ScanBrackets(stk: seq<char>, s: string)
    ensures Scan(stk, s) == Scan(stk, Brackets(s))
    decreases |s|
  {
    if s != [] {
      match Match(stk, s[0])
      case None =>
        assert Brackets(s) == [s[0]] + Brackets(s[1..]);
      case Some(t) =>
        ScanBrackets(t, s[1..]);
        if IsOpen(s[0]) || IsClose(s[0]) {
          var b := Brackets(s);
          assert b == [s[0]] + Brackets(s[1..]);
          assert b[0] == s[0] && b[1..] == Brackets(s[1..]);
          assert Scan(stk, b) == Scan(t, b[1..]);
        } else {
          assert Brackets(s) == [] + Brackets(s[1..]) == Brackets(s[1..]);
        }
    }
  }

  /** A nested run leaves any stack as it found it. */
  lemma {:induction false} NestedScan(b: string, stk: seq<char>)
    requires Nested(b)
    ensures Scan(stk, b) == Some(stk)
    decreases |b|
  {
    if b != [] {
      var i :| Split(b, i);
      var o, inner, c, rest := b[0], b[1..i], b[i], b[i + 1..];
      assert b[1..] == inner + ([c] + rest);
      ScanAppend(stk + [o], inner, [c] + rest);
      NestedScan(inner, stk + [o]);
      assert ([c] + rest)[1..] == rest;
      assert (stk + [o])[..|stk|] == stk;
      NestedScan(rest, stk);
    }
  }

  /** A matched pair around a nested run, followed by a nested run, is nested. */
  lemma Enclose(o: char, inner: string, c: char, rest: string)
    requires Pair(o, c) && Nested(inner) && Nested(rest)
    ensures Nested([o] + inner + [c] + rest)
  {
    var r := [o] + inner + [c] + rest;
    var i := |inner| + 1;
    assert r[1..i] == inner && r[i + 1..] == rest;
    assert Split(r, i);
  }

  /** Putting a matched pair at any position into a nested run keeps it nested. */
  lemma {:induction false} InsertPair(b: string, k: nat, o: char, c: char)
    requires Nested(b) && k <= |b| && Pair(o, c)
    ensures Nested(b[..k] + [o, c] + b[k..])
    decreases |b|, 1
  {
    if k == 0 {
      Enclose(o, [], c, b);
      assert [o] + [] + [c] + b == b[..k] + [o, c] + b[k..];
    } else {
      var i :| Split(b, i);
      if k <= i {
        InsertInside(b, i, k, o, c);
      } else {
        InsertAfter(b, i, k, o, c);
      }
    }
  }

  /** The pair goes inside the brackets `b[0]` and `b[i]`. */
  lemma {:induction false} InsertInside(b: string, i: nat, k: nat, o: char, c: char)
    requires Split(b, i) && 0 < k <= i && Pair(o, c)
    ensures Nested(b[..k] + [o, c] + b[k..])
    decreases |b|, 0
  {
    var inner := b[1..i];
    InsertPair(inner, k - 1, o, c);
    Enclose(b[0], inner[..k - 1] + [o, c] + inner[k - 1..], b[i], b[i + 1..]);
    SpliceInside(b, i, k, [o, c]);
  }

  /** The pair goes into the run after the bracket `b[i]` that closes `b[0]`. */
  lemma {:induction false} InsertAfter(b: string, i: nat, k: nat, o: char, c: char)
    requires Split(b, i) && i < k <= |b| && Pair(o, c)
    ensures Nested(b[..k] + [o, c] + b[k..])
    decreases |b|, 0
  {
    var rest := b[i + 1..];
    InsertPair(rest, k - i - 1, o, c);
    Enclose(b[0], b[1..i], b[i], rest[..k - i - 1] + [o, c] + rest[k - i - 1..]);
    SpliceAfter(b, i, k, [o, c]);
  }

  /** Inserting at `k` inside `b[1..i]` seen from the whole of `b`. */
  lemma SpliceInside<T>(b: seq<T>, i: nat, k: nat, ins: seq<T>)
    requires 0 < k <= i < |b|
    ensures b[..k] + ins + b[k..] == [b[0]] + (b[1..i][..k - 1] + ins + b[1..i][k - 1..]) + [b[i]] + b[i + 1..]
  {
    var inner := b[1..i];
    assert b[..k] == [b[0]] + inner[..k - 1];
    assert b[k..] == inner[k - 1..] + [b[i]] + b[i + 1..];
  }

  /** Inserting at `k` inside `b[i + 1..]` seen from the whole of `b`. */
  lemma SpliceAfter<T>(b: seq<T>, i: nat, k: nat, ins: seq<T>)
    requires 0 < i < k <= |b|
    ensures b[..k] + ins + b[k..] == [b[0]] + b[1..i] + [b[i]] + (b[i + 1..][..k - i - 1] + ins + b[i + 1..][k - i - 1..])
  {
    var rest := b[i + 1..];
    assert b[..i + 1] == [b[0]] + b[1..i] + [b[i]];
    assert b[i + 1..k] == rest[..k - i - 1];
    assert b[..k] == b[..i + 1] + b[i + 1..k];
    assert b[k..] == rest[k - i - 1..];
  }

  /** If reading `s` from `stk` closes every bracket, the open brackets of `stk` followed by those of `s` nest. */
  lemma {:induction false} ScanNested(stk: seq<char>, s: string)
    requires Scan(stk, s) == Some([])
    ensures Nested(stk + Brackets(s))
    decreases |s|
  {
    if s == [] {
      assert stk + Brackets(s) == [];
    } else {
      var c := s[0];
      var t := Match(stk, c).value;
      ScanNested(t, s[1..]);
      if IsOpen(c) {
        assert stk + Brackets(s) == t + Brackets(s[1..]);
      } else if IsClose(c) {
        var k := |stk| - 1;
        assert t == stk[..k];
        InsertPair(t + Brackets(s[1..]), k, stk[k], c);
        assert Brackets(s) == [c] + Brackets(s[1..]);
        SpliceClose(stk, c, Brackets(s[1..]));
      } else {
        assert Brackets(s) == Brackets(s[1..]);
      }
    }
  }

  /** Closing the top of `stk` is inserting a pair where the top sat. */
  lemma SpliceClose<T>(stk: seq<T>, c: T, r: seq<T>)
    requires stk != []
    ensures var k := |stk| - 1; var u := stk[..k] + r;
      stk + ([c] + r) == u[..k] + [stk[k], c] + u[k..]
  {
    var k := |stk| - 1;
    var u := stk[..k] + r;
    assert u[..k] == stk[..k] && u[k..] == r;
    assert stk == stk[..k] + [stk[k]];
  }

  /** What `isBalanced` decides: scanning leaves no unclosed bracket and meets no mismatch. */
  ghost predicate Balanced(s: string)
  {
    Scan([], s) == Some([])
  }

  /** The stack algorithm decides proper nesting of the brackets, ignoring all other characters. */
  lemma BalancedIffNested(s: string)
    ensures Balanced(s) <==> Nested(Brackets(s))
  {
    if Balanced(s) {
      ScanNested([], s);
      assert [] + Brackets(s) == Brackets(s);
    }
    if Nested(Brackets(s)) {
      NestedScan(Brackets(s), []);
      ScanBrackets([], s);
    }
  }

  /** `isBalanced(expr)`: the loop with its early returns. */
  method IsBalanced(expr: string) returns (balanced: bool)
    ensures balanced <==> Balanced(expr)
    ensures balanced <==> Nested(Brackets(expr))
  {
    BalancedIffNested(expr);
    var stk: seq<char> := [];
    for i := 0 to |expr|
      invariant Scan([], expr[..i]) == Some(stk)
    {
      var c := expr[i];
      ScanAppend([], expr[..i], [c]);
      assert expr[..i + 1] == expr[..i] + [c];
      if IsOpen(c) {
        stk := stk + [c];
      } else if IsClose(c) {
        if stk == [] || !Pair(stk[|stk| - 1], c) {
          ScanAppend([], expr[..i + 1], expr[i + 1..]);
          assert expr[..i + 1] + expr[i + 1..] == expr;
          return false;
        }
        stk := stk[..|stk| - 1];
      }
    }
    assert expr[..|expr|] == expr;
    return stk == [];
  }

  /** `example6_BalancedParentheses`: the six test strings. */
  method BracketsDemo() returns (results: seq<bool>)
    ensures results == [true, true, false, false, true, false]
  {
    var b1 := IsBalanced("((()))");
    var b2 := IsBalanced("({[]})");
    var b3 := IsBalanced("(()");
    var b4 := IsBalanced("({[}])");
    var b5 := IsBalanced("{[()]}");
    var b6 := IsBalanced("((])");
    BalancedExamples();
    UnbalancedExamples();
    results := [b1, b2, b3, b4, b5, b6];
  }

  /** The three test strings whose brackets nest. */
  lemma BalancedExamples()
    ensures Balanced("((()))") && Balanced("({[]})") && Balanced("{[()]}")
  {
    assert ScanFrom([], "((()))", 0) == Some([]);
    assert ScanFrom([], "({[]})", 0) == Some([]);
    assert ScanFrom([], "{[()]}", 0) == Some([]);
    ScanFromStart("((()))");
    ScanFromStart("({[]})");
    ScanFromStart("{[()]}");
  }

  /** The three test strings that leave a bracket open or close the wrong one. */
  lemma UnbalancedExamples()
    ensures !Balanced("(()") && !Balanced("({[}])") && !Balanced("((])")
  {
    assert ScanFrom([], "(()", 0) != Some([]);
    assert ScanFrom([], "({[}])", 0) == None;
    assert ScanFrom([], "((])", 0) == None;
    ScanFromStart("(()");
    ScanFromStart("({[}])");
    ScanFromStart("((])");
  }

  /** `Scan` read by position: the stack after reading `s[i..]` from `stk`. */
  function ScanFrom(stk: seq<char>, s: string, i: nat): Option<seq<char>>
    requires i <= |s|
    decreases |s| - i
  {
    if i == |s| then Some(stk)
    else
      match Match(stk, s[i])
      case None => None
      case Some(t) => ScanFrom(t, s, i + 1)
  }

  /** Reading by position from `i` on is scanning the rest of the string. */
  lemma {:induction false} ScanFromRest(stk: seq<char>, s: string, i: nat)
    requires i <= |s|
    ensures ScanFrom(stk, s, i) == Scan(stk, s[i..])
    decreases |s| - i
  {
    if i < |s| {
      assert s[i..][0] == s[i] && s[i..][1..] == s[i + 1..];
      match Match(stk, s[i])
      case None =>
      case Some(t) => ScanFromRest(t, s, i + 1);
    }
  }

  /** Reading by position from the start decides balance. */
  lemma ScanFromStart(s: string)
    ensures Balanced(s) <==> ScanFrom([], s, 0) == Some([])
  {
    ScanFromRest([], s, 0);
    assert s[0..] == s;
  }
}
