/**
 * The lambda library of the expression-template test (proto/test/lambda.cpp):
 * the arity of a lambda expression is computed by the `grammar::Lambda`
 * transform and the expression is evaluated by `lambda_context`, which
 * substitutes the I-th call argument for placeholder I. The template
 * metaprogramming is modelled by its run-time meaning: an arity is a `nat`,
 * evaluation is a function over an expression tree of `int`s.
 */
module Lambda {
  import opened Wrappers

  /** The operator tags of the non-terminal nodes the test builds. */
  datatype BinaryOp = Plus | Minus | Multiplies | Divides

  /** A lambda expression over `int`: terminals are placeholders and `val(t)` values. */
  datatype Expr =
    | Placeholder(index: nat)
    | Val(value: int)
    | Negate(operand: Expr)
    | Binary(op: BinaryOp, left: Expr, right: Expr)

  /** `_1` and `_2`: placeholders 0 and 1. */
  const Arg1: Expr := Placeholder(0)
  const Arg2: Expr := Placeholder(1)

  function Max(a: nat, b: nat): nat {
    if a < b then b else a
  }

  /** `fold<_, zero(), mpl::max<Lambda, _state>()>` over the children's arities:
      the largest of `state` and every element. */
  function FoldMax(state: nat, xs: seq<nat>): (r: nat)
    ensures state <= r
    ensures forall i :: 0 <= i < |xs| ==> xs[i] <= r
    ensures r == state || exists i :: 0 <= i < |xs| && r == xs[i]
    decreases |xs|
  {
    if xs == [] then
      state
    else
      var r := FoldMax(Max(state, xs[0]), xs[1..]);
      assert forall i :: 0 <= i < |xs| - 1 ==> xs[1..][i] == xs[i + 1];
      r
  }

  /** The immediate children of a node (none for a terminal). */
  function Children(e: Expr): seq<Expr> {
    match e
    case Placeholder(_) => []
    case Val(_) => []
    case Negate(x) => [x]
    case Binary(_, l, r) => [l, r]
  }

  /** `grammar::Lambda`: placeholder I has arity I + 1, any other terminal 0, and a
      node the maximum of its children's arities folded from 0. */
  function Arity(e: Expr): (n: nat)
    ensures e.Negate? ==> Arity(e.operand) <= n
    ensures e.Binary? ==> Arity(e.left) <= n && Arity(e.right) <= n
  {
    match e
    case Placeholder(i) => i + 1
    case Val(_) => 0
    case Negate(x) =>
      var xs := [Arity(x)];
      assert xs[0] == Arity(x);
      FoldMax(0, xs)
    case Binary(_, l, r) =>
      var xs := [Arity(l), Arity(r)];
      assert xs[0] == Arity(l) && xs[1] == Arity(r);
      FoldMax(0, xs)
  }

  /** The placeholder indices that occur in an expression: an independent account of
      which arguments a lambda refers to. */
  function Placeholders(e: Expr): set<nat> {
    match e
    case Placeholder(i) => {i}
    case Val(_) => {}
    case Negate(x) => Placeholders(x)
    case Binary(_, l, r) => Placeholders(l) + Placeholders(r)
  }

  /** A node's arity bounds each child's and, unless it is 0, is one child's arity. */
  lemma ArityOfNode(e: Expr)
    requires Children(e) != []
    ensures forall c :: c in Children(e) ==> Arity(c) <= Arity(e)
    ensures Arity(e) == 0 || exists c :: c in Children(e) && Arity(c) == Arity(e)
  {
  }

  /** The arity is one past the largest placeholder index, and 0 when there is none. */
  lemma {:induction false} ArityIsOnePastLargestPlaceholder(e: Expr)
    ensures forall i :: i in Placeholders(e) ==> i < Arity(e)
    ensures Arity(e) == 0 <==> Placeholders(e) == {}
    ensures Arity(e) > 0 ==> Arity(e) - 1 in Placeholders(e)
  {
    match e
    case Placeholder(_) =>
    case Val(_) =>
    case Negate(x) =>
      ArityIsOnePastLargestPlaceholder(x);
    case Binary(_, l, r) =>
      ArityIsOnePastLargestPlaceholder(l);
      ArityIsOnePastLargestPlaceholder(r);
  }

  function Abs(x: int): nat {
    if x < 0 then -x else x
  }

  /** C++ `/` on `int`: the quotient truncated toward zero, so the remainder
      `a - q * b` is smaller than the divisor in magnitude and has the dividend's sign. */
  function TruncDiv(a: int, b: int): (q: int)
    requires b != 0
    ensures Abs(a - q * b) < Abs(b)
    ensures a - q * b == 0 || (a - q * b < 0 <==> a < 0)
  {
    var n, d := Abs(a), Abs(b);
    var m := n / d;
    assert n == m * d + n % d && 0 <= n % d < d;
    if (a < 0) == (b < 0) then
      assert m * b == if a < 0 then -(m * d) else m * d;
      m
    else
      assert -m * b == if a < 0 then -(m * d) else m * d;
      -m
  }

  lemma AbsOfProduct(k: int, b: int)
    ensures Abs(k * b) == Abs(k) * Abs(b)
  {
    if k < 0 && b < 0 {
      assert k * b == (-k) * (-b);
    } else if k < 0 {
      assert k * b == -((-k) * b);
    } else if b < 0 {
      assert k * b == -(k * (-b));
    }
  }

  lemma NatProductAtLeast(m: nat, n: nat)
    requires m >= 1
    ensures m * n >= n
  {
    assert m * n == (m - 1) * n + n;
  }

  /** A non-zero multiple of `b` is at least as large as `b` in magnitude. */
  lemma MultipleAtLeastDivisor(k: int, b: int)
    requires k != 0
    ensures Abs(k * b) >= Abs(b)
  {
    AbsOfProduct(k, b);
    NatProductAtLeast(Abs(k), Abs(b));
  }

  /** The contract of `TruncDiv` determines the quotient: any `q` whose remainder is
      smaller than the divisor and has the dividend's sign is the truncated quotient. */
  lemma TruncDivUnique(a: int, b: int, q: int)
    requires b != 0
    requires Abs(a - q * b) < Abs(b)
    requires a - q * b == 0 || (a - q * b < 0 <==> a < 0)
    ensures q == TruncDiv(a, b)
  {
    var q0 := TruncDiv(a, b);
    if q != q0 {
      assert (a - q0 * b) - (a - q * b) == (q - q0) * b;
      MultipleAtLeastDivisor(q - q0, b);
    }
  }

  /** Truncating and Euclidean division agree on every non-negative dividend and on
      every exact division; the test's -44 / 4 is exact. */
  lemma TruncDivAgreesWithEuclidean(a: int, b: int)
    requires b != 0 && (a >= 0 || a % b == 0)
    ensures TruncDiv(a, b) == a / b
  {
    assert a == (a / b) * b + a % b && 0 <= a % b < Abs(b);
    TruncDivUnique(a, b, a / b);
  }

  /** They differ on an inexact division of a negative dividend: -45 / 4. */
  lemma TruncDivDiffersFromEuclidean()
    ensures TruncDiv(-45, 4) == -11 && -45 / 4 == -12
  {
  }

  /** Why an evaluation has no value; in C++ both are undefined behaviour. */
  datatype Error = DivisionByZero | IndexOutOfRange

  /** The expression contains no division. */
  predicate NoDivision(e: Expr) {
    match e
    case Placeholder(_) => true
    case Val(_) => true
    case Negate(x) => NoDivision(x)
    case Binary(op, l, r) => op != Divides && NoDivision(l) && NoDivision(r)
  }

  function ApplyBinary(op: BinaryOp, a: int, b: int): (r: Result<int, Error>)
    ensures r.Err? <==> op == Divides && b == 0
  {
    match op
    case Plus => Ok(a + b)
    case Minus => Ok(a - b)
    case Multiplies => Ok(a * b)
    case Divides => if b == 0 then Err(DivisionByZero) else Ok(TruncDiv(a, b))
  }

  /** `proto::eval` with `lambda_context`: placeholder I reads `args[I]`, which exists
      because a lambda is called with at least as many arguments as its arity. */
  function Eval(e: Expr, args: seq<int>): (r: Result<int, Error>)
    requires Arity(e) <= |args|
    ensures NoDivision(e) ==> r.Ok?
    ensures r.Err? ==> r.error == DivisionByZero
  {
    match e
    case Placeholder(i) => Ok(args[i])
    case Val(n) => Ok(n)
    case Negate(x) =>
      (match Eval(x, args)
       case Ok(v) => Ok(-v)
       case Err(err) => Err(err))
    case Binary(op, l, r) =>
      (match Eval(l, args)
       case Err(err) => Err(err)
       case Ok(a) =>
         match Eval(r, args)
         case Err(err) => Err(err)
         case Ok(b) => ApplyBinary(op, a, b))
  }

  /** Placeholder I evaluates to the I-th argument. */
  lemma EvalPlaceholder(i: nat, args: seq<int>)
    requires i < |args|
    ensures Eval(Placeholder(i), args) == Ok(args[i])
  {
  }

  /** Evaluation reads only the first `Arity(e)` arguments. */
  lemma {:induction false} EvalReadsOnlyArityArgs(e: Expr, args1: seq<int>, args2: seq<int>)
    requires Arity(e) <= |args1| && Arity(e) <= |args2|
    requires forall i :: 0 <= i < Arity(e) ==> args1[i] == args2[i]
    ensures Eval(e, args1) == Eval(e, args2)
  {
    match e
    case Placeholder(_) =>
    case Val(_) =>
    case Negate(x) =>
      EvalReadsOnlyArityArgs(x, args1, args2);
    case Binary(_, l, r) =>
      EvalReadsOnlyArityArgs(l, args1, args2);
      EvalReadsOnlyArityArgs(r, args1, args2);
  }

  /** The zero-argument `operator()`: it yields a value only for a nullary lambda
      (arity 0); otherwise its result type is `void`. */
  function CallNullary(e: Expr): (r: Option<Result<int, Error>>)
    ensures r.Some? <==> Arity(e) == 0
  {
    if Arity(e) == 0 then Some(Eval(e, [])) else None
  }

  /** A nullary lambda gives the same value whatever arguments it is called with. */
  lemma NullaryAgreesWithEveryCall(e: Expr, args: seq<int>)
    requires Arity(e) == 0
    ensures CallNullary(e) == Some(Eval(e, args))
  {
    EvalReadsOnlyArityArgs(e, [], args);
  }

  /** The arities the test relies on: `_1` is unary, `_2` binary, `val(t)` nullary. */
  lemma PlaceholderArities(t: int)
    ensures Arity(Arg1) == 1 && Arity(Arg2) == 2 && Arity(Val(t)) == 0
  {
  }

  /** `((_1 + 2) / 4)(42) == 11`, `((-(_1 + 2)) / 4)(42) == -11` and `(val(1) + val(2))() == 3`. */
  lemma TestArithmetic()
    ensures Eval(Binary(Divides, Binary(Plus, Arg1, Val(2)), Val(4)), [42]) == Ok(11)
    ensures Eval(Binary(Divides, Negate(Binary(Plus, Arg1, Val(2))), Val(4)), [42]) == Ok(-11)
    ensures CallNullary(Binary(Plus, Val(1), Val(2))) == Some(Ok(3))
  {
  }

  /** `var(integers)[index] = rhs`: an assignment through a subscript of a referenced array.
      It is kept apart from `Expr` because its value is a store into the array, not an
      `int`; `StoreArity` applies the `grammar::Lambda` rules to its two nodes by hand. */
  datatype Store = Store(index: Expr, rhs: Expr)

  /** The `=` node's children are the `[]` node and `rhs`; the `[]` node's are the
      `var(integers)` terminal, of arity 0, and `index`. */
  function StoreArity(s: Store): (n: nat)
    ensures Arity(s.index) <= n && Arity(s.rhs) <= n
    ensures n == Arity(s.index) || n == Arity(s.rhs)
  {
    var subscript := [0, Arity(s.index)];
    assert subscript[1] == Arity(s.index);
    var assign := [FoldMax(0, subscript), Arity(s.rhs)];
    assert assign[0] == FoldMax(0, subscript) && assign[1] == Arity(s.rhs);
    FoldMax(0, assign)
  }

  /** An assignment lambda is nullary exactly when neither side mentions a placeholder. */
  lemma StoreNullaryWithoutPlaceholders(s: Store)
    ensures StoreArity(s) == 0 <==> Placeholders(s.index) == {} && Placeholders(s.rhs) == {}
  {
    ArityIsOnePastLargestPlaceholder(s.index);
    ArityIsOnePastLargestPlaceholder(s.rhs);
  }

  /** Calling an assignment lambda: evaluate index and right-hand side and store the value
      into the array. A failed evaluation or an index outside the array leaves it unchanged. */
  method ApplyStore(integers: array<int>, s: Store, args: seq<int>) returns (r: Result<int, Error>)
    requires StoreArity(s) <= |args|
    modifies integers
    ensures r.Ok? <==>
      Eval(s.index, args).Ok? && Eval(s.rhs, args).Ok? &&
      0 <= Eval(s.index, args).value < integers.Length
    ensures r.Ok? ==> Eval(s.rhs, args) == r
    ensures r.Ok? ==> integers[..] == old(integers[..])[Eval(s.index, args).value := r.value]
    ensures r.Err? ==> integers[..] == old(integers[..])
  {
    var index := Eval(s.index, args);
    var value := Eval(s.rhs, args);
    if index.Err? {
      r := Err(index.error);
    } else if value.Err? {
      r := Err(value.error);
    } else if index.value < 0 || index.value >= integers.Length {
      r := Err(IndexOutOfRange);
    } else {
      integers[index.value] := value.value;
      r := value;
    }
  }

  /** The array part of the test: from a zeroed array of five, `(var(integers)[2] = 2)()`
      then `(var(integers)[_1] = _1)(3)`. */
  method TestArrayIndexing() returns (integers: array<int>)
    ensures integers[..] == [0, 0, 2, 3, 0]
    ensures integers[2] == 2 && integers[3] == 3
  {
    integers := new int[5](_ => 0);
    var r := ApplyStore(integers, Store(Val(2), Val(2)), []);
    r := ApplyStore(integers, Store(Arg1, Arg1), [3]);
  }
}
