# Calculator exercise, modelled in Dafny

The calculator exercise reads two `int` operands and an operator character.
It picks one of four helpers (`add`, `subtract`, `multiply`, `divide`) in a
`switch` and prints the result. There is one guard: when the operator is one
of the four recognised ones and the second operand is zero, the program prints
`Cannot divide by 0!` and `main` returns -1. With any other operator a zero
operand is not checked, and the unassigned `result` is printed.

The code behaves differently from what it appears to do:

- No case ends in `break`. Control that enters at one label runs every later case.
- The `'/'` case calls `multiply`, not `divide`.
- The zero guard is in the last case. Every recognised operator falls through to it.
- An unknown operator matches no case. `result` is then printed without ever being assigned.

Read one case at a time, the `switch` suggests that only `'/'` with a zero
divisor exits with -1. In the code, all four operators reach that guard, and
the model follows the code.

`calculator.dfy` (module `Calculator`) contains:

- the four helpers as functions over 32-bit `int` values. `Divide` truncates toward zero, as C++ does. It is proved to be the unique truncated quotient and is related to Dafny's Euclidean `/`.
- `Evaluate`, the `switch` as written, as a method. It keeps a local `result` that each case overwrites, a `matched` flag for the fall-through and a `written` flag for "result was assigned". It also returns the list of helper calls it made. It is proved equal to the closed forms `Behaviour` (the outcome) and `CallsMade` (the calls).
- lemmas about `Behaviour`: for a nonzero divisor every recognised operator prints `a * b`; for a zero divisor every recognised operator exits with -1; the four operators are interchangeable; `divide` is never called; an unknown operator leaves `result` unassigned; the only exit statuses are 0 and -1.
- `SourceSwitch`, lines 27-44 as data: four labelled cases with no `break`. `RunSwitch` is a small interpreter of the C++ `switch` rules. Control jumps to the first matching label and then runs every later body, unless a `return` leaves `main` or a helper overflows (`Undefined`). `SourceSwitchSemantics` proves that this reference gives `Behaviour` and `CallsMade`. It also proves that the run is undefined exactly when `NoOverflowOnPath` fails.
- `EvaluateCorrected`, the dispatch with the evident intent, for the findings below. `CorrectedBehaviour` is the same dispatch written as a function, so that lemmas (which cannot call a method) can compare it with `Behaviour`. The method's own ensures list the intended value for each operator, and its `ensures outcome == CorrectedBehaviour(a, b, op)` only links the two forms.

Inputs are parameters and the output is the returned `Outcome`. `Printed(v)`
means `v` is printed and the status is 0. `DivByZeroExit` means the
diagnostic is printed and `main` returns -1. `Unassigned` means the
unassigned `result` is printed. C++ makes that read undefined; the model
assumes the usual effect of one indeterminate line and status 0. `Stdout` and
`ExitStatus` turn an outcome into the printed line and the status of `main`.
The `InvalidOperator` outcome, with its message `Invalid operator!` and
status -1, belongs only to the corrected dispatch. The source has no such
case, so choosing that message and status is a decision of this model.

Signed overflow is undefined in C++, so it is excluded by requires clauses,
not modelled as wrap-around. For the dispatch as written,
`NoOverflowOnPath` excludes it only for the helpers that the fall-through
actually calls for the given operator. For `'+'` that means `a + b`, `a - b`
and `a * b` all fit. For `'/'` with a nonzero divisor it means only `a * b`
fits. `Divide` also requires that `IntMin / -1` is not asked for, because that
quotient does not fit in an `int`.

## Model

| member | source | states |
|---|---|---|
| Calculator.Add | Chapter1/Exercises/Calculator/calculator.cpp:4-6 | the sum of two `int`s whose sum fits is an `int` |
| Calculator.Subtract | Chapter1/Exercises/Calculator/calculator.cpp:7-9 | the difference of two `int`s whose difference fits is an `int` |
| Calculator.Multiply | Chapter1/Exercises/Calculator/calculator.cpp:10-12 | the product of two `int`s whose product fits is an `int` |
| Calculator.AddSubtractInverse | Chapter1/Exercises/Calculator/calculator.cpp:4-9 | `subtract(add(a, b), b) == a` and `add(subtract(a, b), b) == a` whenever the inner call does not overflow |
| Calculator.Divide | Chapter1/Exercises/Calculator/calculator.cpp:13-15 | integer division needs `b != 0` and not `IntMin / -1`; its quotient is then an `int` |
| Calculator.DivideTruncates | Chapter1/Exercises/Calculator/calculator.cpp:13-15 | `divide` rounds toward zero: the remainder is smaller than the divisor in magnitude and is zero or has the dividend's sign |
| Calculator.TruncatedQuotientUnique | Chapter1/Exercises/Calculator/calculator.cpp:13-15 | at most one quotient satisfies the round-toward-zero remainder condition |
| Calculator.DivideIsTheTruncatedQuotient | Chapter1/Exercises/Calculator/calculator.cpp:13-15 | `divide(a, b) == q` exactly when `q` is the round-toward-zero quotient (both directions) |
| Calculator.DivideVersusEuclidean | Chapter1/Exercises/Calculator/calculator.cpp:13-15 | C++ division equals Euclidean division for a non-negative dividend or an exact division; otherwise it is one step closer to zero |
| Calculator.DivideUndoesMultiply | Chapter1/Exercises/Calculator/calculator.cpp:10-15 | `divide(multiply(a, b), b) == a` for every nonzero `b` whose product with `a` fits |
| Calculator.ExitStatus | Chapter1/Exercises/Calculator/calculator.cpp:40-46 | `main` returns 0 exactly when it reaches the print on line 45 (a value or the unassigned `result`); the only other status is -1 |
| Calculator.Stdout | Chapter1/Exercises/Calculator/calculator.cpp:39-45 | every run prints one line; it is a number exactly when a value is printed, and the diagnostic `Cannot divide by 0!` exactly on the zero-guard exit |
| Calculator.Behaviour | Chapter1/Exercises/Calculator/calculator.cpp:26-46 | closed form of the dispatch as written; it never produces the corrected dispatch's invalid-operator error |
| Calculator.CallsMade | Chapter1/Exercises/Calculator/calculator.cpp:27-43 | closed form of the helper calls on each path; `divide` is never among them, and no helper is called exactly for an unknown operator or for `'/'` with a zero divisor |
| Calculator.Evaluate | Chapter1/Exercises/Calculator/calculator.cpp:26-46 | the fall-through `switch` run case by case yields exactly `Behaviour(a, b, op)` and calls exactly the helpers `CallsMade(b, op)`, never `divide` |
| Calculator.EntryIndex | Chapter1/Exercises/Calculator/calculator.cpp:27 | the `switch` enters at the first case whose label is the operator, and past every case when none is |
| Calculator.ExecBodyAppend | Chapter1/Exercises/Calculator/calculator.cpp:27-44 | running two statement lists one after the other is running their concatenation |
| Calculator.FallThroughRunsLaterBodies | Chapter1/Exercises/Calculator/calculator.cpp:27-44 | without `break`, entering at a case runs the bodies of that case and of all later cases, in order |
| Calculator.StoppedStaysStopped | Chapter1/Exercises/Calculator/calculator.cpp:38-40 | after the guard's `return -1` (or undefined behaviour) no later statement changes anything |
| Calculator.Apply | Chapter1/Exercises/Calculator/calculator.cpp:4-15 | a helper call yields its mathematical value, and is undefined exactly when C++ leaves it undefined (overflow, a zero divisor, `IntMin / -1`) |
| Calculator.ExecStmt | Chapter1/Exercises/Calculator/calculator.cpp:29-42 | one statement of a case: an assignment records its call and overwrites `result` or makes the run undefined; the guard returns exactly when `b == 0`; after a return nothing changes |
| Calculator.RunSwitch | Chapter1/Exercises/Calculator/calculator.cpp:27-44 | a run of the `switch` (the source's cases are the constant `SourceSwitch`) executes, as one list, the bodies of the matching case and of all later cases; with no matching label nothing runs and `result` stays unassigned |
| Calculator.Finish | Chapter1/Exercises/Calculator/calculator.cpp:40-45 | the final state becomes the outcome: undefined, the guard's return, the unassigned `result`, or the printed value |
| Calculator.SourceSwitchFallsThrough | Chapter1/Exercises/Calculator/calculator.cpp:27-44 | entering the source's `switch` at a label runs the assignments of the cases from there on and then the `'/'` case; with no matching label nothing runs |
| Calculator.PrefixRun | Chapter1/Exercises/Calculator/calculator.cpp:28-35 | the cases before `'/'` run from the entry label are undefined as soon as one helper overflows; otherwise they record each call, and `result` holds the last value, `a * b` |
| Calculator.GuardedTail | Chapter1/Exercises/Calculator/calculator.cpp:37-43 | the `'/'` case returns before multiplying when `b == 0`, and otherwise overwrites `result` with `a * b` |
| Calculator.SourceSwitchSemantics | Chapter1/Exercises/Calculator/calculator.cpp:27-44 | the source's `switch` run by the C++ rules is undefined exactly when a helper on the path overflows; otherwise its outcome is `Behaviour(a, b, op)` and its calls are `CallsMade(b, op)` |
| Calculator.RecognisedOperatorPrintsProduct | Chapter1/Exercises/Calculator/calculator.cpp:27-43 | for any of `+ - * /` with `b != 0` the outcome is `Printed(multiply(a, b))`, and the last helper call is the multiplication in the `'/'` case |
| Calculator.ZeroDivisorExitsForEveryOperator | Chapter1/Exercises/Calculator/calculator.cpp:28-40 | for any of `+ - * /` with `b == 0` the run prints only the diagnostic and returns -1 |
| Calculator.OperatorIrrelevant | Chapter1/Exercises/Calculator/calculator.cpp:28-43 | any two of the four recognised operators give the same outcome |
| Calculator.DivideNeverCalled | Chapter1/Exercises/Calculator/calculator.cpp:37-43 | no operator and no divisor lead to a call of `divide` |
| Calculator.UnknownOperatorUnassigned | Chapter1/Exercises/Calculator/calculator.cpp:26-27 | the outcome is `Unassigned` exactly when the operator is none of the four labels, and then no helper is called |
| Calculator.ExitStatusOfDispatch | Chapter1/Exercises/Calculator/calculator.cpp:38-46 | the status is 0 or -1; it is -1 exactly when the zero guard fires (recognised operator, `b == 0`); every run prints exactly one line |
| Calculator.FallThroughCounterexample | Chapter1/Exercises/Calculator/calculator.cpp:28-40 | `5 3 +` prints 15 although `add(5, 3)` is 8; `5 0 +` falls through to the zero guard and exits with -1 although `add(5, 0)` is 5 |
| Calculator.SlashMultipliesCounterexample | Chapter1/Exercises/Calculator/calculator.cpp:37-43 | `5 3 /` prints 15 although `divide(5, 3)` is 1 |
| Calculator.UnknownOperatorCounterexample | Chapter1/Exercises/Calculator/calculator.cpp:26-27 | `5 3 %` prints an indeterminate value |
| Calculator.EvaluateCorrected | Chapter1/Exercises/Calculator/calculator.cpp:27-44 | with a `break` per case: `+ - *` print the sum, difference and product; `/` prints the truncated quotient, or takes the zero guard; anything else reports an invalid operator |
| Calculator.CorrectedBehaviour | Chapter1/Exercises/Calculator/calculator.cpp:27-44 | the corrected `'/'` with a nonzero divisor prints the truncated quotient; the invalid-operator error happens exactly for operators outside the four labels |
| Calculator.DispatchesCompared | Chapter1/Exercises/Calculator/calculator.cpp:27-44 | where the code as written and the corrected dispatch agree, operator by operator: never on an unknown operator; with `b == 0` only on `'/'` (`+ - *` fall through to the guard); on `'*'` exactly when `b != 0`; on `+ - /` with `b != 0` exactly when the intended value equals `a * b` |

## Left out

- Console I/O on `std::cin`/`std::cout` (lines 22-24, 39, 45): the operands and the operator are parameters, and the printed line and the exit status are functions of the returned outcome.
- Stream parse failures and end of input: the source never checks the stream state.
- Reading the unassigned `result` on line 45: in C++ this is undefined behaviour, so the language guarantees nothing about that run. The model records it as `Unassigned`, with one line of indeterminate output and exit status 0. That is what such a run usually does, not what C++ promises. In `Evaluate` the local starts as an arbitrary value, and the `written` flag decides the outcome.
- Signed overflow of `+`, `-`, `*` and of `IntMin / -1`: it is undefined behaviour in C++, so requires clauses exclude it and there is no wrap-around.
- Calculator.Add: its contract states only that the result is an `int`. That it is exactly `a + b` is its definition, and `AddSubtractInverse` relates it to `Subtract`. The same holds for `Subtract` and `Multiply`, and `DivideUndoesMultiply` relates `Multiply` to `Divide`.
- A C++ `char` is a byte; the operator is modelled as a Dafny `char`. Only the four label characters matter.

## Findings

| source | as written | input that shows it | evidently intended | confidence | as-written member | corrected member |
|---|---|---|---|---|---|---|
| Chapter1/Exercises/Calculator/calculator.cpp:28-36 | no `break` ends a case, so `'+'`, `'-'` and `'*'` fall through into the `'/'` case: its multiplication overwrites `result`, and its zero guard fires for them too | `5 3 +` prints 15; `5 0 +` prints `Cannot divide by 0!` and exits with -1 | `5 3 +` prints 8 and `5 0 +` prints 5 (one case per operator) | not executed | Calculator.FallThroughCounterexample | Calculator.EvaluateCorrected |
| Chapter1/Exercises/Calculator/calculator.cpp:42 | the `'/'` case calls `multiply(a, b)` | `5 3 /` prints 15 | `5 3 /` prints 1, the truncated quotient | not executed | Calculator.SlashMultipliesCounterexample | Calculator.EvaluateCorrected |
| Chapter1/Exercises/Calculator/calculator.cpp:26-27 | no `default` case, so an unknown operator prints the uninitialised `result` | `5 3 %` prints an indeterminate value | an "invalid operator" error | not executed | Calculator.UnknownOperatorCounterexample | Calculator.EvaluateCorrected |

Nothing was executed. `Evaluate` and `Behaviour` model the code as written.
`EvaluateCorrected` and `CorrectedBehaviour` are the corrected definitions,
and `DispatchesCompared` states, operator by operator, exactly where the
two agree and where they differ.
