/** A model of the calculator exercise: four 32-bit integer helpers and the
    `switch` in `main` that picks one of them by an operator character.

    The `switch` has no `break`, so control that enters at a case label runs
    every later case as well; the `'/'` case calls the multiplication helper;
    and the zero check sits in the last case, where every recognised operator
    reaches it. `Evaluate` runs the dispatch as written, case by case, and is
    proved equal to the closed form `Behaviour`. `EvaluateCorrected` is the
    dispatch with the evident intent (one case per operator, real division,
    an explicit error for an unknown operator). */
module Calculator {

  // ---------------------------------------------------------------------
  // 32-bit `int`

  const IntMin: int := -0x8000_0000
  const IntMax: int := 0x7fff_ffff

  /** The values of a 32-bit C++ `int`. */
  predicate InInt32(x: int) {
    IntMin <= x <= IntMax
  }

  function Abs(x: int): (r: nat)
    ensures r == x || r == -x
  {
    if x < 0 then -x else x
  }

  // ---------------------------------------------------------------------
  // The four helpers. Signed overflow is undefined in C++, so each helper
  // requires that its mathematical result is an `int`.

  function Add(a: int, b: int): (r: int)
    requires InInt32(a) && InInt32(b) && InInt32(a + b)
    ensures InInt32(r)
  {
    a + b
  }

  function Subtract(a: int, b: int): (r: int)
    requires InInt32(a) && InInt32(b) && InInt32(a - b)
    ensures InInt32(r)
  {
    a - b
  }

  function Multiply(a: int, b: int): (r: int)
    requires InInt32(a) && InInt32(b) && InInt32(a * b)
    ensures InInt32(r)
  {
    a * b
  }

  /** `q` is `a` divided by `b` rounded toward zero: the remainder `a - q * b`
      is smaller than the divisor in magnitude and is zero or has the sign of
      the dividend. This is what C++ integer division yields. */
  ghost predicate IsTruncatedQuotient(a: int, b: int, q: int) {
    b != 0 &&
    var r := a - q * b;
    Abs(r) < Abs(b) && (r == 0 || (r < 0 <==> a < 0))
  }

  /** C++ `a / b` on `int`: truncates toward zero. Division by zero and
      `IntMin / -1` (whose quotient is not an `int`) are undefined in C++. */
  function Divide(a: int, b: int): (q: int)
    requires InInt32(a) && InInt32(b) && b != 0
    requires !(a == IntMin && b == -1)
    ensures InInt32(q)
  {
    var m := Abs(a) / Abs(b);
    QuotientAtMostDividend(Abs(a), Abs(b));
    if (a < 0) == (b < 0) then m else -m
  }

  /** A quotient of natural numbers is at most the dividend, and at most
      half of it when the divisor is 2 or more. */
  lemma QuotientAtMostDividend(n: nat, d: nat)
    requires d > 0
    ensures n / d <= n
    ensures d >= 2 ==> 2 * (n / d) <= n
  {
    var q, s := n / d, n % d;
    assert n == q * d + s;
    ProductMonotone(q, 1, d);
    if d >= 2 {
      ProductMonotone(q, 2, d);
    }
  }

  lemma ProductMonotone(x: nat, y: nat, z: nat)
    requires y <= z
    ensures x * y <= x * z
  {
    assert x * z == x * y + x * (z - y);
  }

  /** `|d * b| == |d| * |b|`. */
  lemma AbsOfProduct(d: int, b: int)
    ensures Abs(d * b) == Abs(d) * Abs(b)
  {
    if d < 0 && b < 0 {
      assert d * b == (-d) * (-b);
    } else if d < 0 {
      assert -(d * b) == (-d) * b;
    } else if b < 0 {
      assert -(d * b) == d * (-b);
    }
  }

  /** For any nonzero `d`, `d * b` is at least as large as `b` in magnitude. */
  lemma MultipleAtLeastFactor(d: int, b: int)
    requires d != 0
    ensures Abs(d * b) >= Abs(b)
  {
    AbsOfProduct(d, b);
    ProductMonotone(Abs(b), 1, Abs(d));
  }

  /** `Divide` computes the truncated quotient. */
  lemma DivideTruncates(a: int, b: int)
    requires InInt32(a) && InInt32(b) && b != 0
    requires !(a == IntMin && b == -1)
    ensures IsTruncatedQuotient(a, b, Divide(a, b))
  {
    var m, s := Abs(a) / Abs(b), Abs(a) % Abs(b);
    TruncatedFromMagnitudes(a, b, m, s);
  }

  /** Dividing the magnitudes and giving the quotient the sign of the
      product of the signs yields the truncated quotient. */
  lemma TruncatedFromMagnitudes(a: int, b: int, m: int, s: int)
    requires b != 0 && m >= 0 && 0 <= s < Abs(b) && Abs(a) == m * Abs(b) + s
    ensures IsTruncatedQuotient(a, b, if (a < 0) == (b < 0) then m else -m)
  {
    var q := if (a < 0) == (b < 0) then m else -m;
    var d: int := Abs(b);
    assert q * b == (if a < 0 then -(m * d) else m * d) by {
      if b < 0 {
        if a < 0 {
          assert q * b == m * (-d) == -(m * d);
        } else {
          assert q * b == (-m) * (-d) == m * d;
        }
      } else if a < 0 {
        assert q * b == (-m) * d == -(m * d);
      }
    }
    assert a - q * b == (if a < 0 then -s else s);
  }

  /** The truncated quotient is unique: `IsTruncatedQuotient` is an
      independent definition of what `Divide` returns. */
  lemma TruncatedQuotientUnique(a: int, b: int, q1: int, q2: int)
    requires IsTruncatedQuotient(a, b, q1) && IsTruncatedQuotient(a, b, q2)
    ensures q1 == q2
  {
    var r1, r2 := a - q1 * b, a - q2 * b;
    assert r1 - r2 == (q2 - q1) * b;
    assert Abs(r1 - r2) < Abs(b);
    if q1 != q2 {
      MultipleAtLeastFactor(q2 - q1, b);
    }
  }

  /** `Divide` is the unique truncated quotient. */
  lemma DivideIsTheTruncatedQuotient(a: int, b: int, q: int)
    requires InInt32(a) && InInt32(b) && b != 0
    requires !(a == IntMin && b == -1)
    ensures Divide(a, b) == q <==> IsTruncatedQuotient(a, b, q)
  {
    DivideTruncates(a, b);
    if IsTruncatedQuotient(a, b, q) {
      TruncatedQuotientUnique(a, b, q, Divide(a, b));
    }
  }

  /** C++ truncation agrees with Dafny's Euclidean `/` except for a negative
      dividend that the divisor does not divide, where it is one step
      closer to zero. */
  lemma DivideVersusEuclidean(a: int, b: int)
    requires InInt32(a) && InInt32(b) && b != 0
    requires !(a == IntMin && b == -1)
    ensures Divide(a, b) == if a >= 0 || a % b == 0 then a / b else a / b + (if b > 0 then 1 else -1)
  {
    var qe, re := a / b, a % b;
    assert a == qe * b + re && 0 <= re < Abs(b);
    if a >= 0 || re == 0 {
      DivideIsTheTruncatedQuotient(a, b, qe);
    } else {
      var sign := if b > 0 then 1 else -1;
      assert sign * b == Abs(b);
      assert a - (qe + sign) * b == re - Abs(b);
      DivideIsTheTruncatedQuotient(a, b, qe + sign);
    }
  }

  /** Dividing a product by one factor gives back the other one. */
  lemma DivideUndoesMultiply(a: int, b: int)
    requires InInt32(a) && InInt32(b) && b != 0 && InInt32(a * b)
    ensures !(a * b == IntMin && b == -1)
    ensures Divide(Multiply(a, b), b) == a
  {
    assert IsTruncatedQuotient(a * b, b, a);
    DivideIsTheTruncatedQuotient(a * b, b, a);
  }

  /** Subtracting undoes adding, and adding undoes subtracting. */
  lemma AddSubtractInverse(a: int, b: int)
    requires InInt32(a) && InInt32(b)
    ensures InInt32(a + b) ==> Subtract(Add(a, b), b) == a
    ensures InInt32(a - b) ==> Add(Subtract(a, b), b) == a
  {
  }

  // ---------------------------------------------------------------------
  // What the program does

  /** How one run of the program ends. */
  datatype Outcome =
    | Printed(value: int)  // `result` printed, exit status 0
    | DivByZeroExit        // the zero guard: diagnostic printed, `main` returns -1
    | Unassigned           // `result` printed although no case assigned it; exit status 0
    | InvalidOperator      // produced only by the corrected dispatch

  /** The one line a run writes to standard output. */
  datatype Line = Number(n: int) | Text(s: string) | Indeterminate

  const DivByZeroMessage: string := "Cannot divide by 0!"
  const InvalidOperatorMessage: string := "Invalid operator!"

  /** What `main` returns: 0 after printing `result` on line 45, -1 from the
      zero guard on line 40 (and from the corrected dispatch's error). */
  function ExitStatus(o: Outcome): (status: int)
    ensures status == 0 <==> o.Printed? || o.Unassigned?
    ensures status == 0 || status == -1
  {
    match o
    case Printed(_) => 0
    case Unassigned => 0
    case DivByZeroExit => -1
    case InvalidOperator => -1
  }

  /** The one line a run prints: the number on line 45, or the diagnostic on
      line 39. */
  function Stdout(o: Outcome): (lines: seq<Line>)
    ensures |lines| == 1
    ensures lines[0].Number? <==> o.Printed?
    ensures o.Printed? ==> lines[0].n == o.value
    ensures o == DivByZeroExit <==> lines == [Text(DivByZeroMessage)]
  {
    match o
    case Printed(v) => [Number(v)]
    case Unassigned => [Indeterminate]
    case DivByZeroExit => [Text(DivByZeroMessage)]
    case InvalidOperator => [Text(InvalidOperatorMessage)]
  }

  /** The case labels of the `switch`, in source order. */
  const Labels: string := "+-*/"

  /** A call of one of the four helpers. */
  datatype Call = AddCall | SubtractCall | MultiplyCall | DivideCall

  /** No helper that the fall-through calls for `op` overflows. */
  predicate NoOverflowOnPath(a: int, b: int, op: char) {
    (op == '+' ==> InInt32(a + b)) &&
    (op == '+' || op == '-' ==> InInt32(a - b)) &&
    (op in Labels ==> InInt32(a * b))
  }

  /** Closed form of the dispatch as written. */
  function Behaviour(a: int, b: int, op: char): (o: Outcome)
    ensures o != InvalidOperator
  {
    if op !in Labels then Unassigned
    else if b == 0 then DivByZeroExit
    else Printed(a * b)
  }

  /** Closed form of the helper calls the dispatch as written makes: the
      fall-through runs every case from the matching label on, and the last
      case multiplies unless the zero guard returns first. */
  function CallsMade(b: int, op: char): (calls: seq<Call>)
    ensures DivideCall !in calls
    ensures calls == [] <==> op !in Labels || (op == '/' && b == 0)
  {
    var last := if b == 0 then [] else [MultiplyCall];
    if op == '+' then [AddCall, SubtractCall, MultiplyCall] + last
    else if op == '-' then [SubtractCall, MultiplyCall] + last
    else if op == '*' then [MultiplyCall] + last
    else if op == '/' then last
    else []
  }

  /** The `switch` as written. `matched` records that control has entered the
      switch at some label; without a `break` it stays in for every later
      case. `written` records whether any case has written `result`. */
  method Evaluate(a: int, b: int, op: char) returns (outcome: Outcome, calls: seq<Call>)
    requires InInt32(a) && InInt32(b) && NoOverflowOnPath(a, b, op)
    ensures outcome == Behaviour(a, b, op)
    ensures calls == CallsMade(b, op)
    ensures DivideCall !in calls
  {
    var result: int := *;
    var written := false;
    var matched := false;
    calls := [];

    matched := matched || op == '+';
    if matched {
      result := Add(a, b);
      written := true;
      calls := calls + [AddCall];
    }
    matched := matched || op == '-';
    if matched {
      result := Subtract(a, b);
      written := true;
      calls := calls + [SubtractCall];
    }
    matched := matched || op == '*';
    if matched {
      result := Multiply(a, b);
      written := true;
      calls := calls + [MultiplyCall];
    }
    matched := matched || op == '/';
    if matched {
      if b == 0 {
        outcome := DivByZeroExit;
        return;
      } else {
        result := Multiply(a, b);
        written := true;
        calls := calls + [MultiplyCall];
      }
    }
    outcome := if written then Printed(result) else Unassigned;
  }

  // ---------------------------------------------------------------------
  // The `switch` as data, run by the C++ rules for `switch`: control jumps
  // to the first matching label and runs every statement from there to the
  // end of the `switch` unless a `return` leaves `main` first. There is no
  // `break` statement because the source has none.

  datatype Option<T> = None | Some(value: T)

  /** A statement of a case body: `result = f(a, b);`, or the guard
      `if (b == 0) { print diagnostic; return -1; }`. The source's
      `else { result = multiply(a, b); }` is the `Assign` after the guard. */
  datatype Stmt = Assign(f: Call) | ExitIfZeroDivisor

  datatype Case = Case(key: char, body: seq<Stmt>)

  /** The four cases of the source's `switch`, in order. */
  const SourceSwitch: seq<Case> := [
    Case('+', [Assign(AddCall)]),
    Case('-', [Assign(SubtractCall)]),
    Case('*', [Assign(MultiplyCall)]),
    Case('/', [ExitIfZeroDivisor, Assign(MultiplyCall)])
  ]

  /** Where a run of the `switch` stands. `Running` holds `result` (`None`
      while unassigned) and the helper calls so far; `Returned` is `main`
      having returned -1; `Undefined` is a helper called where C++ leaves
      the result undefined (signed overflow, or division by zero). */
  datatype State =
    | Running(result: Option<int>, calls: seq<Call>)
    | Returned(calls: seq<Call>)
    | Undefined

  /** The value a helper returns, or `None` where C++ leaves it undefined. */
  function Apply(f: Call, a: int, b: int): (r: Option<int>)
    requires InInt32(a) && InInt32(b)
    ensures r.Some? ==> InInt32(r.value)
    ensures f == AddCall ==> (r.Some? <==> InInt32(a + b)) && (r.Some? ==> r.value == a + b)
    ensures f == SubtractCall ==> (r.Some? <==> InInt32(a - b)) && (r.Some? ==> r.value == a - b)
    ensures f == MultiplyCall ==> (r.Some? <==> InInt32(a * b)) && (r.Some? ==> r.value == a * b)
    ensures f == DivideCall ==> (r.Some? <==> b != 0 && !(a == IntMin && b == -1))
  {
    match f
    case AddCall => if InInt32(a + b) then Some(Add(a, b)) else None
    case SubtractCall => if InInt32(a - b) then Some(Subtract(a, b)) else None
    case MultiplyCall => if InInt32(a * b) then Some(Multiply(a, b)) else None
    case DivideCall =>
      if b != 0 && !(a == IntMin && b == -1) then Some(Divide(a, b)) else None
  }

  /** One statement: a stopped run stays stopped; an assignment records its
      call and overwrites `result`, or makes the run undefined; the guard
      returns exactly when the divisor is zero. */
  function ExecStmt(s: Stmt, a: int, b: int, st: State): (r: State)
    requires InInt32(a) && InInt32(b)
    ensures !st.Running? ==> r == st
    ensures st.Running? && s.Assign? ==>
      r == Undefined || (r.Running? && r.result.Some? && r.calls == st.calls + [s.f])
    ensures st.Running? && s == ExitIfZeroDivisor ==>
      r == if b == 0 then Returned(st.calls) else st
  {
    if !st.Running? then st
    else match s
      case ExitIfZeroDivisor => if b == 0 then Returned(st.calls) else st
      case Assign(f) =>
        match Apply(f, a, b)
        case None => Undefined
        case Some(v) => Running(Some(v), st.calls + [f])
  }

  function ExecBody(body: seq<Stmt>, a: int, b: int, st: State): State
    requires InInt32(a) && InInt32(b)
    decreases |body|
  {
    if body == [] then st else ExecBody(body[1..], a, b, ExecStmt(body[0], a, b, st))
  }

  /** Runs the bodies of `cases` one after another: the fall-through. */
  function ExecCases(cases: seq<Case>, a: int, b: int, st: State): State
    requires InInt32(a) && InInt32(b)
    decreases |cases|
  {
    if cases == [] then st else ExecCases(cases[1..], a, b, ExecBody(cases[0].body, a, b, st))
  }

  /** The index of the first case labelled `op`, or `|cases|` if none is. */
  function EntryIndex(cases: seq<Case>, op: char): (i: nat)
    ensures i <= |cases|
    ensures forall j :: 0 <= j < i ==> cases[j].key != op
    ensures i < |cases| ==> cases[i].key == op
    decreases |cases|
  {
    if cases == [] then 0
    else if cases[0].key == op then 0
    else 1 + EntryIndex(cases[1..], op)
  }

  /** A run of `switch (op)` over `cases`, starting with `result` unassigned
      and no call made: it runs, as one list, the bodies of the matching case
      and of every later one; with no matching label nothing runs. */
  function RunSwitch(cases: seq<Case>, a: int, b: int, op: char): (st: State)
    requires InInt32(a) && InInt32(b)
    ensures st == ExecBody(Bodies(cases[EntryIndex(cases, op)..]), a, b, Running(None, []))
    ensures EntryIndex(cases, op) == |cases| ==> st == Running(None, [])
  {
    var entry := EntryIndex(cases, op);
    FallThroughRunsLaterBodies(cases[entry..], a, b, Running(None, []));
    ExecCases(cases[entry..], a, b, Running(None, []))
  }

  /** The statements of `cases`, one body after another. */
  function Bodies(cases: seq<Case>): seq<Stmt>
    decreases |cases|
  {
    if cases == [] then [] else cases[0].body + Bodies(cases[1..])
  }

  /** Running two statement lists one after the other is running their
      concatenation. */
  lemma {:induction false} ExecBodyAppend(s1: seq<Stmt>, s2: seq<Stmt>, a: int, b: int, st: State)
    requires InInt32(a) && InInt32(b)
    ensures ExecBody(s1 + s2, a, b, st) == ExecBody(s2, a, b, ExecBody(s1, a, b, st))
    decreases |s1|
  {
    if s1 == [] {
      assert s1 + s2 == s2;
    } else {
      assert (s1 + s2)[0] == s1[0];
      assert (s1 + s2)[1..] == s1[1..] + s2;
      ExecBodyAppend(s1[1..], s2, a, b, ExecStmt(s1[0], a, b, st));
    }
  }

  /** Without `break`, a `switch` entered at a case runs the bodies of that
      case and of every later case as one statement list. */
  lemma {:induction false} FallThroughRunsLaterBodies(cases: seq<Case>, a: int, b: int, st: State)
    requires InInt32(a) && InInt32(b)
    ensures ExecCases(cases, a, b, st) == ExecBody(Bodies(cases), a, b, st)
    decreases |cases|
  {
    if cases != [] {
      ExecBodyAppend(cases[0].body, Bodies(cases[1..]), a, b, st);
      FallThroughRunsLaterBodies(cases[1..], a, b, ExecBody(cases[0].body, a, b, st));
    }
  }

  /** Once `main` has returned (or behaviour is undefined), no later
      statement has any effect: the guard's `return` ends the run. */
  lemma {:induction false} StoppedStaysStopped(body: seq<Stmt>, a: int, b: int, st: State)
    requires InInt32(a) && InInt32(b) && !st.Running?
    ensures ExecBody(body, a, b, st) == st
    decreases |body|
  {
    if body != [] {
      StoppedStaysStopped(body[1..], a, b, ExecStmt(body[0], a, b, st));
    }
  }

  /** What line 45 (or the guard's `return`) makes of the final state. */
  function Finish(st: State): (o: Option<Outcome>)
    ensures o == None <==> st == Undefined
    ensures o == Some(DivByZeroExit) <==> st.Returned?
    ensures o == Some(Unassigned) <==> st.Running? && st.result == None
    ensures st.Running? && st.result.Some? ==> o == Some(Printed(st.result.value))
  {
    match st
    case Undefined => None
    case Returned(_) => Some(DivByZeroExit)
    case Running(None, _) => Some(Unassigned)
    case Running(Some(v), _) => Some(Printed(v))
  }

  /** The assignments the fall-through runs before reaching the `'/'` case
      when it enters at `op`. */
  function PrefixBefore(op: char): seq<Stmt> {
    if op == '+' then [Assign(AddCall), Assign(SubtractCall), Assign(MultiplyCall)]
    else if op == '-' then [Assign(SubtractCall), Assign(MultiplyCall)]
    else if op == '*' then [Assign(MultiplyCall)]
    else []
  }

  /** Entering the source's `switch` at a label runs the assignments of the
      cases from there on and then the `'/'` case; with no matching label
      nothing runs. */
  lemma SourceSwitchFallsThrough(a: int, b: int, op: char)
    requires InInt32(a) && InInt32(b)
    ensures op in Labels ==>
      (RunSwitch(SourceSwitch, a, b, op) ==
       ExecBody([ExitIfZeroDivisor, Assign(MultiplyCall)], a, b,
                ExecBody(PrefixBefore(op), a, b, Running(None, []))))
    ensures op !in Labels ==> RunSwitch(SourceSwitch, a, b, op) == Running(None, [])
  {
    var c0, c1, c2, c3 := SourceSwitch[0], SourceSwitch[1], SourceSwitch[2], SourceSwitch[3];
    assert SourceSwitch[1..] == [c1, c2, c3];
    assert SourceSwitch[2..] == [c2, c3];
    assert SourceSwitch[3..] == [c3];
    assert SourceSwitch[4..] == [];
    var guarded := [ExitIfZeroDivisor, Assign(MultiplyCall)];
    assert Bodies([c3]) == PrefixBefore('/') + guarded;
    assert Bodies([c2, c3]) == PrefixBefore('*') + guarded;
    assert Bodies([c1, c2, c3]) == PrefixBefore('-') + guarded;
    assert Bodies(SourceSwitch) == PrefixBefore('+') + guarded;
    var entry := if op == '+' then 0 else if op == '-' then 1 else if op == '*' then 2 else if op == '/' then 3 else 4;
    assert EntryIndex(SourceSwitch, op) == entry;
    ExecBodyAppend(PrefixBefore(op), guarded, a, b, Running(None, []));
  }

  /** The assignments before the `'/'` case: undefined as soon as one of their
      helpers overflows, otherwise each call recorded and `result` holding the
      last value, a product. */
  lemma PrefixRun(a: int, b: int, op: char)
    requires InInt32(a) && InInt32(b)
    ensures op == '/' ==> ExecBody(PrefixBefore(op), a, b, Running(None, [])) == Running(None, [])
    ensures op == '*' ==>
      (ExecBody(PrefixBefore(op), a, b, Running(None, [])) ==
       if InInt32(a * b) then Running(Some(a * b), [MultiplyCall]) else Undefined)
    ensures op == '-' ==>
      (ExecBody(PrefixBefore(op), a, b, Running(None, [])) ==
       if InInt32(a - b) && InInt32(a * b) then Running(Some(a * b), [SubtractCall, MultiplyCall])
       else Undefined)
    ensures op == '+' ==>
      (ExecBody(PrefixBefore(op), a, b, Running(None, [])) ==
       if InInt32(a + b) && InInt32(a - b) && InInt32(a * b)
       then Running(Some(a * b), [AddCall, SubtractCall, MultiplyCall])
       else Undefined)
  {
    var mul := [Assign(MultiplyCall)];
    var sub := [Assign(SubtractCall)] + mul;
    assert PrefixBefore('-') == sub && sub[1..] == mul;
    assert PrefixBefore('+') == [Assign(AddCall)] + sub && PrefixBefore('+')[1..] == sub;
    forall st: State | !st.Running?
      ensures ExecBody(mul, a, b, st) == st && ExecBody(sub, a, b, st) == st
    {
      StoppedStaysStopped(mul, a, b, st);
      StoppedStaysStopped(sub, a, b, st);
    }
  }

  /** Running the source's `switch` by the C++ rules gives the closed forms:
      its behaviour is undefined exactly when a helper on the path overflows,
      and otherwise its outcome is `Behaviour` and its calls are `CallsMade`. */
  lemma {:induction false} SourceSwitchSemantics(a: int, b: int, op: char)
    requires InInt32(a) && InInt32(b)
    ensures RunSwitch(SourceSwitch, a, b, op) == Undefined <==> !NoOverflowOnPath(a, b, op)
    ensures NoOverflowOnPath(a, b, op) ==>
      Finish(RunSwitch(SourceSwitch, a, b, op)) == Some(Behaviour(a, b, op)) &&
      RunSwitch(SourceSwitch, a, b, op).calls == CallsMade(b, op)
  {
    SourceSwitchFallsThrough(a, b, op);
    if op in Labels {
      PrefixRun(a, b, op);
      GuardedTail(a, b, ExecBody(PrefixBefore(op), a, b, Running(None, [])));
    }
  }

  /** The `'/'` case body run from any state: with a zero divisor `main`
      returns before the multiplication, which then never runs. */
  lemma GuardedTail(a: int, b: int, st: State)
    requires InInt32(a) && InInt32(b)
    ensures ExecBody([ExitIfZeroDivisor, Assign(MultiplyCall)], a, b, st) ==
      if !st.Running? then st
      else if b == 0 then Returned(st.calls)
      else if InInt32(a * b) then Running(Some(a * b), st.calls + [MultiplyCall])
      else Undefined
  {
    var guarded := [ExitIfZeroDivisor, Assign(MultiplyCall)];
    assert guarded[1..] == [Assign(MultiplyCall)];
    var after := ExecStmt(ExitIfZeroDivisor, a, b, st);
    assert ExecBody(guarded, a, b, st) == ExecBody([Assign(MultiplyCall)], a, b, after);
    if !after.Running? {
      StoppedStaysStopped([Assign(MultiplyCall)], a, b, after);
    }
  }

  // ---------------------------------------------------------------------
  // Properties of the dispatch as written

  /** With a nonzero divisor every recognised operator prints the product:
      the last write to `result`, in the `'/'` case, is a multiplication. */
  lemma RecognisedOperatorPrintsProduct(a: int, b: int, op: char)
    requires InInt32(a) && InInt32(b) && NoOverflowOnPath(a, b, op)
    requires op in Labels && b != 0
    ensures Behaviour(a, b, op) == Printed(Multiply(a, b))
    ensures CallsMade(b, op)[|CallsMade(b, op)| - 1] == MultiplyCall
  {
  }

  /** With a zero divisor every recognised operator, not only `'/'`, reaches
      the guard, prints the diagnostic and no number, and exits with -1. */
  lemma ZeroDivisorExitsForEveryOperator(a: int, b: int, op: char)
    requires op in Labels && b == 0
    ensures Behaviour(a, b, op) == DivByZeroExit
    ensures Stdout(Behaviour(a, b, op)) == [Text(DivByZeroMessage)]
    ensures ExitStatus(Behaviour(a, b, op)) == -1
  {
  }

  /** Which of the four operators was given makes no difference. */
  lemma OperatorIrrelevant(a: int, b: int, op1: char, op2: char)
    requires op1 in Labels && op2 in Labels
    ensures Behaviour(a, b, op1) == Behaviour(a, b, op2)
  {
  }

  /** `'/'` never divides: no path calls `divide`. */
  lemma DivideNeverCalled(b: int, op: char)
    ensures DivideCall !in CallsMade(b, op)
  {
  }

  /** Exactly the operators outside the case labels leave `result` unassigned;
      they call no helper. */
  lemma UnknownOperatorUnassigned(a: int, b: int, op: char)
    ensures Behaviour(a, b, op) == Unassigned <==> op !in Labels
    ensures op !in Labels ==> CallsMade(b, op) == []
  {
  }

  /** The exit status is 0 whenever line 45 prints `result`, and -1 exactly
      when the zero guard fires; no other status occurs. */
  lemma ExitStatusOfDispatch(a: int, b: int, op: char)
    ensures ExitStatus(Behaviour(a, b, op)) in {0, -1}
    ensures ExitStatus(Behaviour(a, b, op)) == -1 <==> op in Labels && b == 0
    ensures Behaviour(a, b, op) != InvalidOperator
    ensures |Stdout(Behaviour(a, b, op))| == 1
  {
  }

  // ---------------------------------------------------------------------
  // The evident intent, and where the code departs from it

  /** `5 3 +` prints 15, not 5 + 3: the fall-through overwrites the sum.
      And `5 0 +` falls through to the zero guard and exits with -1 instead
      of printing 5. */
  lemma FallThroughCounterexample()
    ensures Behaviour(5, 3, '+') == Printed(15)
    ensures Add(5, 3) == 8
    ensures Behaviour(5, 0, '+') == DivByZeroExit
    ensures Add(5, 0) == 5
  {
  }

  /** `5 3 /` prints 15, not the quotient 1: the `'/'` case multiplies. */
  lemma SlashMultipliesCounterexample()
    ensures Behaviour(5, 3, '/') == Printed(15)
    ensures Divide(5, 3) == 1
  {
  }

  /** `5 3 %` prints the uninitialised `result` instead of an error. */
  lemma UnknownOperatorCounterexample()
    ensures Behaviour(5, 3, '%') == Unassigned
    ensures Stdout(Behaviour(5, 3, '%')) == [Indeterminate]
  {
  }

  /** No helper the intended dispatch calls for `op` is undefined. */
  predicate DefinedForIntent(a: int, b: int, op: char) {
    (op == '+' ==> InInt32(a + b)) &&
    (op == '-' ==> InInt32(a - b)) &&
    (op == '*' ==> InInt32(a * b)) &&
    (op == '/' ==> !(a == IntMin && b == -1))
  }

  /** The dispatch with a `break` after every case, `divide` in the `'/'`
      case and a default case that reports an invalid operator. */
  method EvaluateCorrected(a: int, b: int, op: char) returns (outcome: Outcome, calls: seq<Call>)
    requires InInt32(a) && InInt32(b) && DefinedForIntent(a, b, op)
    ensures outcome == CorrectedBehaviour(a, b, op)
    ensures op == '+' ==> outcome == Printed(a + b) && calls == [AddCall]
    ensures op == '-' ==> outcome == Printed(a - b) && calls == [SubtractCall]
    ensures op == '*' ==> outcome == Printed(a * b) && calls == [MultiplyCall]
    ensures op == '/' && b == 0 ==> outcome == DivByZeroExit && calls == []
    ensures op == '/' && b != 0 ==>
      outcome.Printed? && IsTruncatedQuotient(a, b, outcome.value) && calls == [DivideCall]
    ensures op !in Labels ==> outcome == InvalidOperator && calls == []
  {
    calls := [];
    match op
    case '+' =>
      outcome := Printed(Add(a, b));
      calls := [AddCall];
    case '-' =>
      outcome := Printed(Subtract(a, b));
      calls := [SubtractCall];
    case '*' =>
      outcome := Printed(Multiply(a, b));
      calls := [MultiplyCall];
    case '/' =>
      if b == 0 {
        outcome := DivByZeroExit;
      } else {
        DivideTruncates(a, b);
        outcome := Printed(Divide(a, b));
        calls := [DivideCall];
      }
    case _ =>
      outcome := InvalidOperator;
  }

  /** Closed form of the corrected dispatch. */
  function CorrectedBehaviour(a: int, b: int, op: char): (o: Outcome)
    requires InInt32(a) && InInt32(b) && DefinedForIntent(a, b, op)
    ensures op == '/' && b != 0 ==> o.Printed? && IsTruncatedQuotient(a, b, o.value)
    ensures op !in Labels <==> o == InvalidOperator
  {
    if op == '+' then Printed(Add(a, b))
    else if op == '-' then Printed(Subtract(a, b))
    else if op == '*' then Printed(Multiply(a, b))
    else if op == '/' then
      if b == 0 then DivByZeroExit
      else DivideTruncates(a, b); Printed(Divide(a, b))
    else InvalidOperator
  }

  /** Where the dispatch as written and the corrected one agree and where
      they differ, operator by operator. With a zero divisor they agree only
      on `'/'`: for `+ - *` the code as written falls through to the zero
      guard. With a nonzero divisor they agree on `'*'`, and on `+ - /` only
      when the intended value happens to equal the product. On an unknown
      operator they never agree. */
  lemma DispatchesCompared(a: int, b: int, op: char)
    requires InInt32(a) && InInt32(b) && InInt32(a * b)
    requires DefinedForIntent(a, b, op)
    ensures op !in Labels ==> Behaviour(a, b, op) != CorrectedBehaviour(a, b, op)
    ensures op in Labels && b == 0 ==>
      (Behaviour(a, b, op) == CorrectedBehaviour(a, b, op) <==> op == '/')
    ensures op == '*' ==> (Behaviour(a, b, op) == CorrectedBehaviour(a, b, op) <==> b != 0)
    ensures op == '+' && b != 0 ==>
      (Behaviour(a, b, op) == CorrectedBehaviour(a, b, op) <==> a + b == a * b)
    ensures op == '-' && b != 0 ==>
      (Behaviour(a, b, op) == CorrectedBehaviour(a, b, op) <==> a - b == a * b)
    ensures op == '/' && b != 0 ==>
      (Behaviour(a, b, op) == CorrectedBehaviour(a, b, op) <==> Divide(a, b) == a * b)
  {
  }
}
