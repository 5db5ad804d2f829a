# Binary arithmetic specializations, parse results and object materialization (ZipPy on Graal)

This project models three pieces of the ZipPy Python interpreter and the
Graal compiler it runs on, and proves properties of the model.

- **Binary arithmetic nodes** (`BinaryArithmeticNode`). Each Python operator
  (`+`, `-`, `*`, `/`, `//`, `%`) is a table of guarded specializations.
  A rule has an `order`, the kinds of its two parameters, an optional guard, and
  may be marked `rewriteOn = ArithmeticException`. A call takes the first rule
  by order whose kinds and guard match. A `rewriteOn` rule whose body throws
  `ArithmeticException` (32-bit overflow, an `int` divisor of zero) is
  abandoned, and the search goes on. With no rule left, `@Generic` throws
  `TypeError`. The tables are in `ArithmeticRules`, and the search is in
  `Dispatch`. A node that rewrites itself is the class
  `SpecializationNode.ArithmeticNode`. It tries its installed rules first and
  installs the rule the full search selects. The string repetition loop is in
  `StringRepetition`. List concatenation by copy-and-extend is in `ListStorage`.
  Java's 32-bit `int`, its truncating `/` and `%` and its wrap-around are
  written out in `JavaInt`.
- **Parse results** (`PythonParseResult`). This is a mutable record of the module
  root, the context and a map from function names to root nodes. A function whose
  name is taken is stored under the name followed by its hash code. See
  `ParseResult` and `JavaDecimal`.
- **Object materialization** (`MaterializeObjectNode`). This covers the sizing of
  the value slots, the `isDefault` check (no locks and only default
  constants), `length` and `canonical`. See `Materialize`.

`PythonArithmetic` defines Python's own `//`, `%` and string repetition.
It sets them beside what the `int` rules compute (see Findings). The rule
tables keep the code's behaviour. The intended definitions are proved to agree
with the code in these ranges:
- `//`: exactly when the operands have the same sign or the division is exact.
  `Integer.MIN_VALUE // -1` is excluded.
- `%` with a positive divisor: exactly when `left >= -right` or the division is exact.
- `%` with a negative divisor: for every negative `left` whose sum with the
  divisor fits in an `int`. For a non-negative `left`, exactly when the division is exact.
- String repetition: for every positive count.

Modelling assumptions where the code relies on machinery that is not part of this model:
- The specialization chain is generated by the Truffle DSL, and that code is not
  part of this model. The installed rules are a sorted list of table indices,
  searched in ascending order. When none of them takes a call, the whole table is
  searched and the selected rule is installed. There is no capacity limit and no
  collapse to the generic case. Under this policy a node agrees with the full
  table on which rule body runs only once the selected rule is installed. For
  example, an Add node whose first call overflowed has only
  `doIntegerBigInteger` installed. It then answers `3 + 4` with the
  `BigInteger` 7, where the table alone would give the `int` 7.
- A `BigInteger` parameter also accepts an `int` (the implicit cast of the
  type system). This is what lets an overflowing `int` call fall through to
  the `BigInteger` rules. No other implicit cast is modelled.
- Specializations without an `order` (FloorDiv's three rules, and Modulo's
  `doBigInteger` and `doDouble`) keep their declaration position.
- Sub declares no `@Generic`. Operands no Sub rule takes give
  `Threw(NoSpecialization(...))`.
- An empty value slot of the materialize node is a Java `null`. `isDefault`
  dereferences it and throws `NullPointerException`.
- A constant is default for its kind when its raw bits are zero (a primitive) or
  it is `null` (a reference).

## Model

| member | source | states |
|---|---|---|
| PythonValues.KindOf | graal/edu.uci.python.nodes/src/edu/uci/python/nodes/expression/BinaryArithmeticNode.java:54-67 | every operand falls into exactly one kind, fixed by its representation |
| JavaInt.Wrap32 | graal/edu.uci.python.nodes/src/edu/uci/python/nodes/expression/BinaryArithmeticNode.java:298-316 | a Java `int` expression's value: unchanged when the exact result fits, else congruent to it modulo 2^32 |
| JavaInt.JavaDiv | graal/edu.uci.python.nodes/src/edu/uci/python/nodes/expression/BinaryArithmeticNode.java:401-404 | Java `int` division: a non-zero quotient is negative exactly when the operand signs differ |
| JavaInt.JavaRem | graal/edu.uci.python.nodes/src/edu/uci/python/nodes/expression/BinaryArithmeticNode.java:429-437 | Java `%`: magnitude below the divisor's and no larger than the dividend's; a non-zero remainder has the dividend's sign |
| JavaInt.DivRemIdentity | graal/edu.uci.python.nodes/src/edu/uci/python/nodes/expression/BinaryArithmeticNode.java:401-437 | `(a / b) * b + a % b == a` for every non-zero `b` |
| ArithmeticRules.ExactInt | graal/edu.uci.python.nodes/src/edu/uci/python/nodes/expression/BinaryArithmeticNode.java:49-52 | `addExact` and its siblings return exactly when the result fits in an `int`, and then return that result; otherwise they throw `ArithmeticException` |
| ArithmeticRules.Accepts | graal/edu.uci.python.nodes/src/edu/uci/python/nodes/expression/BinaryArithmeticNode.java:49-478 | a parameter declared `Object` takes every operand, a `BigInteger` parameter takes exactly the Python integers (the implicit cast), and every other parameter takes exactly its own kind |
| ArithmeticRules.GuardHolds | graal/edu.uci.python.nodes/src/edu/uci/python/nodes/expression/BinaryArithmeticNode.java:440-442 | `isLeftPositive` holds on an `int` exactly when it is non-negative; the two storage guards require two lists and never hold together |
| ArithmeticRules.Compute | graal/edu.uci.python.nodes/src/edu/uci/python/nodes/expression/BinaryArithmeticNode.java:49-478 | a rule body throws nothing but `ArithmeticException`, and only the `int` fast paths, the divisions and `BigInteger.mod` throw; the result is delegated exactly for calls outside the model and for `int / int` as `double` |
| ArithmeticRules.AddRules | graal/edu.uci.python.nodes/src/edu/uci/python/nodes/expression/BinaryArithmeticNode.java:47-164 | Add's table: 20 specializations, with only `doInteger` abandoned on `ArithmeticException`, every one with an explicit order, and a `@Generic` |
| ArithmeticRules.SubRules | graal/edu.uci.python.nodes/src/edu/uci/python/nodes/expression/BinaryArithmeticNode.java:166-219 | Sub's table: 10 specializations, with only `doInteger` abandoned on `ArithmeticException`, and no `@Generic` |
| ArithmeticRules.MulRules | graal/edu.uci.python.nodes/src/edu/uci/python/nodes/expression/BinaryArithmeticNode.java:221-328 | Mul's table: 17 specializations, with only `doInteger` abandoned on `ArithmeticException`, and a `@Generic` |
| ArithmeticRules.DivRules | graal/edu.uci.python.nodes/src/edu/uci/python/nodes/expression/BinaryArithmeticNode.java:330-397 | Div's table: 9 specializations, with only `doInteger` abandoned on `ArithmeticException`, and a `@Generic` |
| ArithmeticRules.FloorDivRules | graal/edu.uci.python.nodes/src/edu/uci/python/nodes/expression/BinaryArithmeticNode.java:399-425 | FloorDiv's table: 4 specializations, none abandoned on an exception, only `doPythonObject` with an explicit order, and a `@Generic` |
| ArithmeticRules.ModuloRules | graal/edu.uci.python.nodes/src/edu/uci/python/nodes/expression/BinaryArithmeticNode.java:427-479 | Modulo's table: 6 specializations, none abandoned on an exception, all but `doBigInteger` and `doDouble` with an explicit order, and a `@Generic` |
| Dispatch.FirstIn | graal/edu.uci.python.nodes/src/edu/uci/python/nodes/expression/BinaryArithmeticNode.java:49-163 | the search over installed rules finds one that succeeds; it finds none exactly when no installed rule succeeds |
| Dispatch.FirstFrom | graal/edu.uci.python.nodes/src/edu/uci/python/nodes/expression/BinaryArithmeticNode.java:49-163 | the search of the whole table finds a rule that succeeds; it finds none exactly when no rule from that point succeeds |
| Dispatch.Generic | graal/edu.uci.python.nodes/src/edu/uci/python/nodes/expression/BinaryArithmeticNode.java:160-163 | `@Generic` never returns a value; it throws `TypeError` exactly when the table declares it |
| Dispatch.Selected | graal/edu.uci.python.nodes/src/edu/uci/python/nodes/expression/BinaryArithmeticNode.java:49-163 | the selected rule is one of the table's rules and succeeds; nothing is selected exactly when no rule succeeds |
| Dispatch.Evaluate | graal/edu.uci.python.nodes/src/edu/uci/python/nodes/expression/BinaryArithmeticNode.java:49-163 | the table's answer is an exception other than `ArithmeticException` exactly when no rule succeeds, and a `TypeError` exactly when moreover `@Generic` is declared |
| Dispatch.ChainAnswer | graal/edu.uci.python.nodes/src/edu/uci/python/nodes/expression/BinaryArithmeticNode.java:49-163 | whatever is installed, a node's answer is an exception other than `ArithmeticException` exactly when no rule of the table succeeds, and a `TypeError` exactly when moreover `@Generic` is declared |
| Dispatch.InsertSorted | graal/edu.uci.python.nodes/src/edu/uci/python/nodes/expression/BinaryArithmeticNode.java:49-157 | installing a rule keeps the installed list strictly ascending and adds exactly that rule |
| Dispatch.Rewritten | graal/edu.uci.python.nodes/src/edu/uci/python/nodes/expression/BinaryArithmeticNode.java:49-157 | after a call the installed rules are unchanged when an installed rule succeeds or no rule does; otherwise the selected rule joins them in its sorted place; they stay valid and ascending |
| DispatchProperties.FirstFromIsFirst | graal/edu.uci.python.nodes/src/edu/uci/python/nodes/expression/BinaryArithmeticNode.java:49-157 | the search of the table finds `k` if and only if rule `k` succeeds and no earlier rule does |
| DispatchProperties.SelectedIsFirstSuccess | graal/edu.uci.python.nodes/src/edu/uci/python/nodes/expression/BinaryArithmeticNode.java:49-157 | the selected rule is exactly the first rule by order that applies and is not abandoned |
| DispatchProperties.SelectedNoneIffNoneSucceeds | graal/edu.uci.python.nodes/src/edu/uci/python/nodes/expression/BinaryArithmeticNode.java:49-163 | nothing is selected exactly when no rule of the table succeeds |
| DispatchProperties.EvaluateIsFirstSuccessOrGeneric | graal/edu.uci.python.nodes/src/edu/uci/python/nodes/expression/BinaryArithmeticNode.java:49-163 | the answer is the first succeeding rule's body, or `@Generic` when none succeeds |
| DispatchProperties.ChainAgreesWhenSelectedInstalled | graal/edu.uci.python.nodes/src/edu/uci/python/nodes/expression/BinaryArithmeticNode.java:49-157 | once the selected rule is installed, the node answers as the full table does |
| DispatchProperties.FreshNodeAgrees | graal/edu.uci.python.nodes/src/edu/uci/python/nodes/expression/BinaryArithmeticNode.java:49-163 | a node with nothing installed answers as the full table does and installs the selected rule |
| DispatchProperties.ChainAnswerFromSucceedingRule | graal/edu.uci.python.nodes/src/edu/uci/python/nodes/expression/BinaryArithmeticNode.java:49-163 | whatever is installed, the answer comes from a rule that succeeds on the operands, or from `@Generic` when none does |
| DispatchProperties.RewrittenSettles | graal/edu.uci.python.nodes/src/edu/uci/python/nodes/expression/BinaryArithmeticNode.java:49-157 | a repeated call installs nothing more and gives the same answer; after an installing call that answer is the full table's |
| SpecializationNode.ArithmeticNode.constructor | graal/edu.uci.python.nodes/src/edu/uci/python/nodes/expression/BinaryArithmeticNode.java:47-163 | a new node has nothing installed |
| SpecializationNode.ArithmeticNode.TryRule | graal/edu.uci.python.nodes/src/edu/uci/python/nodes/expression/BinaryArithmeticNode.java:49-52 | running one rule takes the call exactly when the rule succeeds, and yields its body's result |
| SpecializationNode.ArithmeticNode.SearchInstalled | graal/edu.uci.python.nodes/src/edu/uci/python/nodes/expression/BinaryArithmeticNode.java:49-163 | the loop over installed rules computes the installed-rule search |
| SpecializationNode.ArithmeticNode.SearchTable | graal/edu.uci.python.nodes/src/edu/uci/python/nodes/expression/BinaryArithmeticNode.java:49-163 | the loop over the table computes the selected rule, or `@Generic` when none succeeds |
| SpecializationNode.ArithmeticNode.Execute | graal/edu.uci.python.nodes/src/edu/uci/python/nodes/expression/BinaryArithmeticNode.java:49-163 | a call answers as the installed rules and then the table prescribe, and installs the selected rule when no installed one succeeded |
| ArithmeticProperties.AddRulesExact | graal/edu.uci.python.nodes/src/edu/uci/python/nodes/expression/BinaryArithmeticNode.java:49-67 | every Add rule that succeeds on two integers returns their exact sum, and `BigInteger + BigInteger` always succeeds on them |
| ArithmeticProperties.AddNeverWraps | graal/edu.uci.python.nodes/src/edu/uci/python/nodes/expression/BinaryArithmeticNode.java:49-67 | whatever a node has installed, `+` of two integers is their exact sum |
| ArithmeticProperties.AddInts | graal/edu.uci.python.nodes/src/edu/uci/python/nodes/expression/BinaryArithmeticNode.java:49-57 | `int + int` is an `int` when the sum fits; otherwise the overflow moves it to `int + BigInteger`, which gives a `BigInteger` |
| ArithmeticProperties.AddOverflowExample | graal/edu.uci.python.nodes/src/edu/uci/python/nodes/expression/BinaryArithmeticNode.java:49-57 | `2147483647 + 1 == 2147483648` |
| ArithmeticProperties.SubRulesExact | graal/edu.uci.python.nodes/src/edu/uci/python/nodes/expression/BinaryArithmeticNode.java:168-176 | every Sub rule that succeeds on two integers returns their exact difference |
| ArithmeticProperties.SubNeverWraps | graal/edu.uci.python.nodes/src/edu/uci/python/nodes/expression/BinaryArithmeticNode.java:168-176 | whatever a node has installed, `-` of two integers is exact |
| ArithmeticProperties.SubInts | graal/edu.uci.python.nodes/src/edu/uci/python/nodes/expression/BinaryArithmeticNode.java:168-176 | `int - int` is an `int` when it fits, else a `BigInteger` |
| ArithmeticProperties.MulRulesExact | graal/edu.uci.python.nodes/src/edu/uci/python/nodes/expression/BinaryArithmeticNode.java:223-244 | every Mul rule that succeeds on two integers returns their exact product |
| ArithmeticProperties.MulNeverWraps | graal/edu.uci.python.nodes/src/edu/uci/python/nodes/expression/BinaryArithmeticNode.java:223-244 | whatever a node has installed, `*` of two integers is exact |
| ArithmeticProperties.MulInts | graal/edu.uci.python.nodes/src/edu/uci/python/nodes/expression/BinaryArithmeticNode.java:223-233 | `int * int` is an `int` when it fits, else a `BigInteger` |
| ArithmeticProperties.AdjacentMakesStrict | graal/edu.uci.python.nodes/src/edu/uci/python/nodes/expression/BinaryArithmeticNode.java:49-157 | orders that ascend between neighbours ascend across the whole table |
| ArithmeticProperties.TablesStrictlyOrdered | graal/edu.uci.python.nodes/src/edu/uci/python/nodes/expression/BinaryArithmeticNode.java:49-478 | in every table the orders strictly ascend in declaration order, so table position is priority |
| ArithmeticProperties.BodiesNeverThrowTypeError | graal/edu.uci.python.nodes/src/edu/uci/python/nodes/expression/BinaryArithmeticNode.java:49-472 | no specialization body throws `TypeError` |
| ArithmeticProperties.TypeErrorOnlyFromGeneric | graal/edu.uci.python.nodes/src/edu/uci/python/nodes/expression/BinaryArithmeticNode.java:160-163 | a node throws `TypeError` only when the table has `@Generic` and no rule succeeds |
| ArithmeticProperties.AddPythonObjectLast | graal/edu.uci.python.nodes/src/edu/uci/python/nodes/expression/BinaryArithmeticNode.java:154-163 | `doPythonObject` (order 200) is Add's last and highest rule, and it does not apply when `TypeError` is thrown |
| ArithmeticProperties.DivIntByZero | graal/edu.uci.python.nodes/src/edu/uci/python/nodes/expression/BinaryArithmeticNode.java:336-348 | for an `int` divisor of zero the `int` rule throws "divide by zero" and is abandoned, and `doBigInteger` takes the call |
| ArithmeticProperties.DivInts | graal/edu.uci.python.nodes/src/edu/uci/python/nodes/expression/BinaryArithmeticNode.java:336-344 | with a non-zero `int` divisor the `int` rule takes the call |
| ArithmeticProperties.FloorDivInts | graal/edu.uci.python.nodes/src/edu/uci/python/nodes/expression/BinaryArithmeticNode.java:401-404 | `int // int` is Java's truncating, wrapping `/`, with `/ by zero` for a zero divisor |
| ArithmeticProperties.ModuloInts | graal/edu.uci.python.nodes/src/edu/uci/python/nodes/expression/BinaryArithmeticNode.java:429-447 | `int % int` is `left % right` for a non-negative left and `(left + right) % right` otherwise |
| ArithmeticProperties.ModuloExample | graal/edu.uci.python.nodes/src/edu/uci/python/nodes/expression/BinaryArithmeticNode.java:434-437 | `-1 % 3 == 2` |
| ArithmeticProperties.ModuloRange | graal/edu.uci.python.nodes/src/edu/uci/python/nodes/expression/BinaryArithmeticNode.java:429-437 | for `right > 0` and `-right <= left` the result lies in `[0, right)`, and is `left + right` for negative `left` |
| ArithmeticProperties.MulIntString | graal/edu.uci.python.nodes/src/edu/uci/python/nodes/expression/BinaryArithmeticNode.java:298-316 | `int * String` and `String * int` give the same string |
| ArithmeticProperties.MulIntTimesString | graal/edu.uci.python.nodes/src/edu/uci/python/nodes/expression/BinaryArithmeticNode.java:298-306 | `doIntString` takes `int * String` and returns the loop's string |
| ArithmeticProperties.MulStringTimesInt | graal/edu.uci.python.nodes/src/edu/uci/python/nodes/expression/BinaryArithmeticNode.java:308-316 | `doStringInt` takes `String * int` and returns the loop's string |
| ArithmeticProperties.MulStringCopies | graal/edu.uci.python.nodes/src/edu/uci/python/nodes/expression/BinaryArithmeticNode.java:298-316 | `n` copies for `n >= 1`; the string unchanged for `n <= 1` (above the smallest `int`); length `\|s\| * max(n, 1)` |
| ArithmeticProperties.AddStrings | graal/edu.uci.python.nodes/src/edu/uci/python/nodes/expression/BinaryArithmeticNode.java:112-115 | two strings are concatenated |
| ArithmeticProperties.AddIntLists | graal/edu.uci.python.nodes/src/edu/uci/python/nodes/expression/BinaryArithmeticNode.java:117-123 | two `int`-storage lists give the left items, then the right ones |
| ArithmeticProperties.AddObjectLists | graal/edu.uci.python.nodes/src/edu/uci/python/nodes/expression/BinaryArithmeticNode.java:125-131 | the same for object storage |
| ArithmeticProperties.AddNoneInt | graal/edu.uci.python.nodes/src/edu/uci/python/nodes/expression/BinaryArithmeticNode.java:149-152 | `None + int` is the `int` |
| ArithmeticProperties.AddGenericTypeError | graal/edu.uci.python.nodes/src/edu/uci/python/nodes/expression/BinaryArithmeticNode.java:160-163 | a string plus an integer reaches Add's `@Generic`, a `TypeError` |
| ArithmeticProperties.MulGenericTypeError | graal/edu.uci.python.nodes/src/edu/uci/python/nodes/expression/BinaryArithmeticNode.java:324-327 | `None` times a string reaches Mul's `@Generic`, a `TypeError` |
| ArithmeticProperties.DivGenericTypeError | graal/edu.uci.python.nodes/src/edu/uci/python/nodes/expression/BinaryArithmeticNode.java:393-396 | a string over an integer reaches Div's `@Generic`, a `TypeError` |
| ArithmeticProperties.FloorDivGenericTypeError | graal/edu.uci.python.nodes/src/edu/uci/python/nodes/expression/BinaryArithmeticNode.java:421-424 | a string floor-divided by an integer reaches FloorDiv's `@Generic`, a `TypeError` |
| ArithmeticProperties.ModuloGenericTypeError | graal/edu.uci.python.nodes/src/edu/uci/python/nodes/expression/BinaryArithmeticNode.java:475-478 | `None % int` reaches Modulo's `@Generic`, a `TypeError` |
| ArithmeticProperties.SubWithoutGeneric | graal/edu.uci.python.nodes/src/edu/uci/python/nodes/expression/BinaryArithmeticNode.java:166-219 | two strings leave Sub, which declares no `@Generic`, with no rule to run |
| StringRepetition.RepeatLength | graal/edu.uci.python.nodes/src/edu/uci/python/nodes/expression/BinaryArithmeticNode.java:298-316 | `k` copies of `s` have length `\|s\| * k` |
| StringRepetition.RepeatAt | graal/edu.uci.python.nodes/src/edu/uci/python/nodes/expression/BinaryArithmeticNode.java:298-316 | character `\|s\| * q + j` of `k` copies is `s[j]` |
| StringRepetition.LoopTurns | graal/edu.uci.python.nodes/src/edu/uci/python/nodes/expression/BinaryArithmeticNode.java:298-316 | the loop runs `n - 1` turns for `n >= 1`, none for `n` from 0 down to `-2147483647`, and 2147483647 turns for the smallest `int`, whose bound wraps |
| StringRepetition.RepeatAsWritten | graal/edu.uci.python.nodes/src/edu/uci/python/nodes/expression/BinaryArithmeticNode.java:298-316 | the returned string starts with the operand and has one more copy than the loop has turns |
| StringRepetition.RepeatString | graal/edu.uci.python.nodes/src/edu/uci/python/nodes/expression/BinaryArithmeticNode.java:298-306 | the loop yields the operand followed by one copy per turn, with the bound `n - 1` wrapped to 32 bits |
| StringRepetition.RepeatAsWrittenCopies | graal/edu.uci.python.nodes/src/edu/uci/python/nodes/expression/BinaryArithmeticNode.java:298-316 | the loop gives `n` copies for `n >= 1` and one copy for `n <= 1`; for the smallest `int` it runs 2147483647 turns, 2147483648 copies with unbounded strings (see Left out) |
| ListStorage.SequenceStorage.Copy | graal/edu.uci.python.nodes/src/edu/uci/python/nodes/expression/BinaryArithmeticNode.java:119 | `copy()` is a new storage with the same items |
| ListStorage.SequenceStorage.Extend | graal/edu.uci.python.nodes/src/edu/uci/python/nodes/expression/BinaryArithmeticNode.java:121 | `extend` appends the other storage's items |
| ListStorage.ConcatStorages | graal/edu.uci.python.nodes/src/edu/uci/python/nodes/expression/BinaryArithmeticNode.java:117-131 | the new list's storage is fresh and holds left then right, and both operands keep their items, even when they are the same list |
| ListStorage.ConcatIntStorages | graal/edu.uci.python.nodes/src/edu/uci/python/nodes/expression/BinaryArithmeticNode.java:117-123 | the heap operation yields the list value of Add's `doPListInt` |
| ListStorage.ConcatObjectStorages | graal/edu.uci.python.nodes/src/edu/uci/python/nodes/expression/BinaryArithmeticNode.java:125-131 | the heap operation yields the list value of Add's `doPListObject` |
| NodeScenarios.AddSpecializesThenWidens | graal/edu.uci.python.nodes/src/edu/uci/python/nodes/expression/BinaryArithmeticNode.java:49-60 | an Add node installs `doInteger`, then on overflow also `doIntegerBigInteger`, and still answers fitting sums with an `int` |
| NodeScenarios.DivideThenDivideByZero | graal/edu.uci.python.nodes/src/edu/uci/python/nodes/expression/BinaryArithmeticNode.java:336-348 | a Div node installs `doInteger`, then for a zero divisor also `doBigInteger` |
| NodeScenarios.OverflowFirstKeepsBigInteger | graal/edu.uci.python.nodes/src/edu/uci/python/nodes/expression/BinaryArithmeticNode.java:49-60 | an Add node whose first call overflows installs only `doIntegerBigInteger`, and then answers fitting sums with a `BigInteger` where the table gives an `int` |
| PythonArithmetic.FloorModulo | graal/edu.uci.python.nodes/src/edu/uci/python/nodes/expression/BinaryArithmeticNode.java:429-437 | Python `%`: in `[0, b)` for positive `b`, in `(b, 0]` for negative `b` |
| PythonArithmetic.FloorDivModIdentity | graal/edu.uci.python.nodes/src/edu/uci/python/nodes/expression/BinaryArithmeticNode.java:401-437 | `(a // b) * b + a % b == a` for Python's operators |
| PythonArithmetic.FloorDivideRoundsDown | graal/edu.uci.python.nodes/src/edu/uci/python/nodes/expression/BinaryArithmeticNode.java:401-404 | Python `a // b` is the floor of `a / b` |
| PythonArithmetic.AsInteger | graal/edu.uci.python.nodes/src/edu/uci/python/nodes/expression/BinaryArithmeticNode.java:49-67 | an unbounded integer as an `int` or `BigInteger` value of the same number |
| PythonArithmetic.IntendedFloorDiv | graal/edu.uci.python.nodes/src/edu/uci/python/nodes/expression/BinaryArithmeticNode.java:401-404 | intended `int // int`: the exact floor quotient, or `/ by zero` |
| PythonArithmetic.IntendedModulo | graal/edu.uci.python.nodes/src/edu/uci/python/nodes/expression/BinaryArithmeticNode.java:429-437 | intended `int % int`: Python's remainder, or `/ by zero` |
| PythonArithmetic.IntendedRepeat | graal/edu.uci.python.nodes/src/edu/uci/python/nodes/expression/BinaryArithmeticNode.java:298-316 | intended `n * s`: length `\|s\| * n` for positive `n`, empty otherwise |
| PythonArithmetic.IntendedRepeatContents | graal/edu.uci.python.nodes/src/edu/uci/python/nodes/expression/BinaryArithmeticNode.java:298-316 | each copy in the intended repetition is `s` |
| PythonArithmetic.FloorDivAgreesOnNonNegatives | graal/edu.uci.python.nodes/src/edu/uci/python/nodes/expression/BinaryArithmeticNode.java:401-404 | for non-negative operands the `int` rule gives the intended floor quotient |
| PythonArithmetic.ModuloAgreesNearZero | graal/edu.uci.python.nodes/src/edu/uci/python/nodes/expression/BinaryArithmeticNode.java:429-437 | for `right > 0` and `left >= -right` the `int` rules give Python's remainder |
| PythonArithmetic.FloorModuloNearZero | graal/edu.uci.python.nodes/src/edu/uci/python/nodes/expression/BinaryArithmeticNode.java:434-437 | for `-b <= a < 0 < b` Python's `a % b` is `a + b` |
| PythonArithmetic.RepeatAgreesOnPositiveCounts | graal/edu.uci.python.nodes/src/edu/uci/python/nodes/expression/BinaryArithmeticNode.java:298-306 | for a positive count the loop gives the intended repetition |
| PythonArithmetic.TruncationIsFloor | graal/edu.uci.python.nodes/src/edu/uci/python/nodes/expression/BinaryArithmeticNode.java:401-404 | Java's quotient equals the floor quotient exactly when the operands have the same sign or the division is exact |
| PythonArithmetic.JavaDivInInt32 | graal/edu.uci.python.nodes/src/edu/uci/python/nodes/expression/BinaryArithmeticNode.java:401-404 | the quotient of two `int`s fits in an `int` except for `Integer.MIN_VALUE / -1` |
| PythonArithmetic.FloorDivAgreesIff | graal/edu.uci.python.nodes/src/edu/uci/python/nodes/expression/BinaryArithmeticNode.java:401-404 | apart from `Integer.MIN_VALUE // -1`, `int // int` gives Python's result exactly when the operands have the same sign or the division is exact |
| PythonArithmetic.ShiftedRemainder | graal/edu.uci.python.nodes/src/edu/uci/python/nodes/expression/BinaryArithmeticNode.java:434-437 | below `-right`, `(left + right) % right` is Java's `left % right`, which is Python's only when zero |
| PythonArithmetic.ModuloAgreesIffPositiveDivisor | graal/edu.uci.python.nodes/src/edu/uci/python/nodes/expression/BinaryArithmeticNode.java:429-437 | for a positive divisor `int % int` gives Python's result exactly when `left >= -right` or the division is exact |
| PythonArithmetic.ShiftedRemainderNegative | graal/edu.uci.python.nodes/src/edu/uci/python/nodes/expression/BinaryArithmeticNode.java:434-437 | for a negative `left` and `right`, `(left + right) % right` computed exactly is Python's `left % right` |
| PythonArithmetic.RemainderOverNegative | graal/edu.uci.python.nodes/src/edu/uci/python/nodes/expression/BinaryArithmeticNode.java:429-432 | for a non-negative `left` and a negative `right`, Java's `left % right` is Python's only when it is zero |
| PythonArithmetic.ModuloAgreesNegativeDivisor | graal/edu.uci.python.nodes/src/edu/uci/python/nodes/expression/BinaryArithmeticNode.java:429-437 | for a negative divisor, when `left` is non-negative or `left + right` fits in an `int`, the result is Python's exactly when `left` is negative or the division is exact |
| PythonArithmetic.FloorDivTruncates | graal/edu.uci.python.nodes/src/edu/uci/python/nodes/expression/BinaryArithmeticNode.java:401-404 | `-7 // 2` gives `-3` where Python gives `-4` |
| PythonArithmetic.FloorDivOverflows | graal/edu.uci.python.nodes/src/edu/uci/python/nodes/expression/BinaryArithmeticNode.java:401-404 | `-2147483648 // -1` gives `-2147483648` where Python gives `2147483648` |
| PythonArithmetic.ModuloNegativeLeft | graal/edu.uci.python.nodes/src/edu/uci/python/nodes/expression/BinaryArithmeticNode.java:434-437 | `-7 % 3` gives `-1` where Python gives `2` |
| PythonArithmetic.ModuloNegativeRight | graal/edu.uci.python.nodes/src/edu/uci/python/nodes/expression/BinaryArithmeticNode.java:429-432 | `7 % -3` gives `1` where Python gives `-2` |
| PythonArithmetic.ModuloShiftWraps | graal/edu.uci.python.nodes/src/edu/uci/python/nodes/expression/BinaryArithmeticNode.java:434-437 | `-2147483646 % -3` gives `1`, because `left + right` wraps around, where Python gives `0` |
| PythonArithmetic.RepeatZeroKeepsString | graal/edu.uci.python.nodes/src/edu/uci/python/nodes/expression/BinaryArithmeticNode.java:298-306 | `0 * s` gives `s` where Python gives the empty string |
| PythonArithmetic.RepeatSmallestIntWraps | graal/edu.uci.python.nodes/src/edu/uci/python/nodes/expression/BinaryArithmeticNode.java:298-306 | for `-2147483648 * s` the loop runs 2147483647 turns, 2147483648 copies with unbounded strings; for a non-empty `s` that is longer than any Java string, so the loop ends in `OutOfMemoryError`; Python gives the empty string |
| ParseResult.RenamedKey | graal/edu.uci.python.runtime/src/edu/uci/python/runtime/PythonParseResult.java:55 | the renamed key extends the name, so it differs from it |
| ParseResult.WithFunction | graal/edu.uci.python.runtime/src/edu/uci/python/runtime/PythonParseResult.java:53-59 | after registering, the name is a key and the new root is stored; no key is dropped, and a function already under the name keeps it |
| ParseResult.PythonParseResult.constructor | graal/edu.uci.python.runtime/src/edu/uci/python/runtime/PythonParseResult.java:31-35 | a new result has no module, no context and no functions |
| ParseResult.PythonParseResult.SetModule | graal/edu.uci.python.runtime/src/edu/uci/python/runtime/PythonParseResult.java:37-43 | `getModuleRoot` returns the module just set; context and functions are unchanged |
| ParseResult.PythonParseResult.SetContext | graal/edu.uci.python.runtime/src/edu/uci/python/runtime/PythonParseResult.java:45-51 | `getContext` returns the context just set; module and functions are unchanged |
| ParseResult.PythonParseResult.AddParsedFunction | graal/edu.uci.python.runtime/src/edu/uci/python/runtime/PythonParseResult.java:53-59 | the registry after the call is the specified update; module and context are unchanged |
| ParseResult.PythonParseResult.GetFunctionRoots | graal/edu.uci.python.runtime/src/edu/uci/python/runtime/PythonParseResult.java:61-63 | one root per registered key, each the function stored under that key, so the roots are exactly the map's values |
| ParseResult.AddUnderFreshName | graal/edu.uci.python.runtime/src/edu/uci/python/runtime/PythonParseResult.java:56-57 | a free name stores the function under exactly that name, adding one entry |
| ParseResult.AddUnderTakenName | graal/edu.uci.python.runtime/src/edu/uci/python/runtime/PythonParseResult.java:54-55 | a taken name keeps its function; the new one goes under name plus hash code, replacing any entry there |
| ParseResult.AddTouchesOneKey | graal/edu.uci.python.runtime/src/edu/uci/python/runtime/PythonParseResult.java:53-59 | one key gets the function, every other key keeps its entry, and the map grows by at most one |
| ParseResult.RenamedKeysDiffer | graal/edu.uci.python.runtime/src/edu/uci/python/runtime/PythonParseResult.java:55 | different hash codes give different renamed keys |
| ParseResult.TwoFunctionsOneName | graal/edu.uci.python.runtime/src/edu/uci/python/runtime/PythonParseResult.java:53-59 | two functions added under one fresh name are both kept |
| ParseResult.SameHashOverwrites | graal/edu.uci.python.runtime/src/edu/uci/python/runtime/PythonParseResult.java:53-59 | a third function with the second one's hash code silently replaces it |
| JavaDecimal.Digits | graal/edu.uci.python.runtime/src/edu/uci/python/runtime/PythonParseResult.java:55 | the decimal rendering of a number is non-empty and all digits |
| JavaDecimal.ParseDigitsOfDigits | graal/edu.uci.python.runtime/src/edu/uci/python/runtime/PythonParseResult.java:55 | the digits read back as the number |
| JavaDecimal.JavaIntToString | graal/edu.uci.python.runtime/src/edu/uci/python/runtime/PythonParseResult.java:55 | `name + hashCode` appends a non-empty rendering, with a minus sign exactly for negatives |
| JavaDecimal.JavaIntRoundTrip | graal/edu.uci.python.runtime/src/edu/uci/python/runtime/PythonParseResult.java:55 | the rendering of an `int` reads back as that `int` |
| JavaDecimal.JavaIntToStringInjective | graal/edu.uci.python.runtime/src/edu/uci/python/runtime/PythonParseResult.java:55 | distinct `int`s render differently |
| Materialize.Create | graal/com.oracle.graal.virtual/src/com/oracle/graal/virtual/nodes/MaterializeObjectNode.java:39-44 | a new node has exactly `entryCount` empty slots and keeps its virtual object and lock count |
| Materialize.WithValue | graal/com.oracle.graal.virtual/src/com/oracle/graal/virtual/nodes/MaterializeObjectNode.java:46-48 | filling one slot through `values()` changes that slot only |
| Materialize.IsDefault | graal/com.oracle.graal.virtual/src/com/oracle/graal/virtual/nodes/MaterializeObjectNode.java:60-71 | the lock test and the scan compute the specified answer |
| Materialize.LockedIsNotDefault | graal/com.oracle.graal.virtual/src/com/oracle/graal/virtual/nodes/MaterializeObjectNode.java:61-62 | with `lockCount > 0` the answer is `false` |
| Materialize.ScanDefaultIff | graal/com.oracle.graal.virtual/src/com/oracle/graal/virtual/nodes/MaterializeObjectNode.java:64-69 | the scan answers `true` exactly when every slot holds a default constant |
| Materialize.DefaultIff | graal/com.oracle.graal.virtual/src/com/oracle/graal/virtual/nodes/MaterializeObjectNode.java:56-71 | `isDefault` is true exactly when there are no locks and every slot holds a default constant |
| Materialize.EmptyUnlockedIsDefault | graal/com.oracle.graal.virtual/src/com/oracle/graal/virtual/nodes/MaterializeObjectNode.java:60-71 | no slots and no locks give `true` |
| Materialize.ScanDefaultNull | graal/com.oracle.graal.virtual/src/com/oracle/graal/virtual/nodes/MaterializeObjectNode.java:64-69 | the scan throws exactly when an empty slot comes before any non-default value |
| Materialize.FreshNodeThrows | graal/com.oracle.graal.virtual/src/com/oracle/graal/virtual/nodes/MaterializeObjectNode.java:39-69 | an unlocked node whose slots were never filled throws on `isDefault` |
| Materialize.LengthIsEntryCount | graal/com.oracle.graal.virtual/src/com/oracle/graal/virtual/nodes/MaterializeObjectNode.java:51-54 | an array's `length` is its entry count, however its slots are filled |
| Materialize.FillKeepsShape | graal/com.oracle.graal.virtual/src/com/oracle/graal/virtual/nodes/MaterializeObjectNode.java:46-48 | filling slots never changes their number, the virtual object or the lock count |
| Materialize.Canonical | graal/com.oracle.graal.virtual/src/com/oracle/graal/virtual/nodes/MaterializeObjectNode.java:79-85 | the node is deleted exactly when it has no usages, and kept as itself otherwise |

## Left out

- `PowerNode`: it goes through `Math.pow` and `double`, which is floating point.
- Float, complex, tuple, array and set operands are opaque tokens. Rules on them give `Delegated` results naming the computation.
- `doPythonObject`/`doSpecialMethodCall`, `PList.__add__`, `PList`/`PTuple`/`PArray.__mul__`, `PBaseSet.difference`, `FastMathUtil.slowPathDivide` and the Jython string formatting of `%` are calls into code outside this model. They give `Delegated` results.
- `DivNode`'s `int` rule returns `(double) left / right` for a non-zero divisor. That value is floating point and is left as a `Delegated` result.
- The `TypeError` message texts are left out. A `TypeError` records the operator and the operands.
- `CompilerDirectives.transferToInterpreterAndInvalidate` and `@SlowPath` are compiler hints with no effect on results.
- Implicit casts other than `int` to `BigInteger` (for example to `double`) are left out, because the type system declaration is not part of this model.
- SpecializationNode.ArithmeticNode.Execute: it follows the chain policy stated above. The generated code's actual policy, including any capacity limit or collapse into the generic case, is not part of this model.
- Java strings hold at most 2^31 - 1 characters. A repetition or concatenation past that ends in `OutOfMemoryError`, which the model does not capture: its strings are unbounded.
- StringRepetition.RepeatAsWrittenCopies: for the smallest `int` it counts the copies an unbounded string would hold. Java throws `OutOfMemoryError` there for a non-empty operand.
- ListStorage.SequenceStorage.Extend: it appends as sequences do. The storage classes' array growth is not part of this model.
- ParseResult.PythonParseResult.GetFunctionRoots: it returns a snapshot in some order. The live `values()` view, and the `HashMap` iteration order it has, are not modelled.
- A root node's `hashCode()` is a fixed `int` carried by the node.
- `printAST` and `visualizeToNetwork` are console and network output.
- `MaterializeObjectNode.lower` and `virtualize` call graph tools that are not part of this model. The node's stamp and graph are left out too.
- Materialize.Canonical: a node's usages are a parameter (a set of user ids), not read from the graph.
- The test harnesses, the benchmark script, the builtins registration and the JNI glue are not part of this model.

## Findings

| source | as written | input that shows it | evidently intended | confidence | as-written member | corrected member |
|---|---|---|---|---|---|---|
| graal/edu.uci.python.nodes/src/edu/uci/python/nodes/expression/BinaryArithmeticNode.java:401-404 | `left / right` rounds toward zero | `-7 // 2` gives `-3` | `-4`, Python's floor division | medium (assumes the `int` rule is taken for two `int`s); not executed | PythonArithmetic.FloorDivTruncates | PythonArithmetic.IntendedFloorDiv |
| graal/edu.uci.python.nodes/src/edu/uci/python/nodes/expression/BinaryArithmeticNode.java:401-404 | `left / right` wraps around in 32 bits | `-2147483648 // -1` gives `-2147483648` | `2147483648`, as a `BigInteger` | medium; not executed | PythonArithmetic.FloorDivOverflows | PythonArithmetic.IntendedFloorDiv |
| graal/edu.uci.python.nodes/src/edu/uci/python/nodes/expression/BinaryArithmeticNode.java:434-437 | `(left + right) % right` for every negative `left` | `-7 % 3` gives `-1` | `2`, Python's remainder takes the divisor's sign | high; not executed | PythonArithmetic.ModuloNegativeLeft | PythonArithmetic.IntendedModulo |
| graal/edu.uci.python.nodes/src/edu/uci/python/nodes/expression/BinaryArithmeticNode.java:429-432 | `left % right` for a non-negative `left` and a negative `right` | `7 % -3` gives `1` | `-2` | high; not executed | PythonArithmetic.ModuloNegativeRight | PythonArithmetic.IntendedModulo |
| graal/edu.uci.python.nodes/src/edu/uci/python/nodes/expression/BinaryArithmeticNode.java:298-316 | the loop never runs for `n <= 1`, so the operand is returned | `0 * "ab"` gives `"ab"` | `""` | high; not executed | PythonArithmetic.RepeatZeroKeepsString | PythonArithmetic.IntendedRepeat |
| graal/edu.uci.python.nodes/src/edu/uci/python/nodes/expression/BinaryArithmeticNode.java:298-306 | the bound `left - 1` wraps for the smallest `int`: the loop runs 2147483647 turns and for a non-empty operand ends in `OutOfMemoryError` once the string passes 2^31 - 1 characters | `-2147483648 * "ab"` throws `OutOfMemoryError` (with unbounded strings, 2147483648 copies of `"ab"`) | `""` | high; not executed | PythonArithmetic.RepeatSmallestIntWraps | PythonArithmetic.IntendedRepeat |
| graal/edu.uci.python.nodes/src/edu/uci/python/nodes/expression/BinaryArithmeticNode.java:434-437 | `(left + right) % right` wraps around when the sum is below the smallest `int` | `-2147483646 % -3` gives `1` | `0`, since 3 divides 2147483646 | high; not executed | PythonArithmetic.ModuloShiftWraps | PythonArithmetic.IntendedModulo |
