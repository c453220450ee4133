# Finder selection (xpressive) and the proto lambda example, in Dafny

This project models two pieces of the xpressive regular-expression library.

**Finder selection and compile glue** (module `Optimize`, `optimize.dfy`). After a
pattern is parsed, `common_compile` does three things. It links the expression.
It peeks into it: the peeker fills a 256-entry bitset of possible leading
characters, a "must start a line" flag and an optional leading string literal
with its case flag. Then it selects a finder, which lets a search skip
positions where no match can begin. There are three finders, and "no finder"
is the fourth outcome:

- Boyer-Moore: chosen only for random-access iterators, whenever a leading
  literal exists.
- Line-start: chosen next, when the line-start flag is set.
- Hash-peek: chosen next, when the bitset excludes at least one character
  (its count is not 256).
- No finder: chosen otherwise.

The bitset is a `seq<bool>` of length 256 with a popcount `Count`. A finder is
a datatype value that records what it was built from. `common_compile` is a
method over two small classes: `Regex`, whose graph the linker updates, and
`RegexImpl`, whose `finder` and `xpr` fields get assigned. The linker and the
peeker are parameters of that method. The traits object is an opaque type
parameter `Tr`.

**Lambda arity and evaluation** (module `Lambda`, `lambda.dfy`). This is the
expression-template test that builds a small lambda library. The
`grammar::Lambda` transform gives each expression an arity:

- a placeholder with index I has arity I + 1;
- any other terminal has arity 0;
- a node has the maximum of its children's arities, folded from 0.

`lambda_context` evaluates an expression by replacing placeholder I with the
I-th call argument. The model uses an `int` expression tree. C++ integer
division truncates toward zero, so it is written out as `TruncDiv`. The
test's `var(integers)[i] = v` assignments are a method that updates an
`array<int>` in place.

`wrappers.dfy` holds the shared `Option` and `Result` datatypes.

## Model

| member | source | states |
|---|---|---|
| `Optimize.Count` | include/boost/xpressive/detail/core/optimize.hpp:42 | the popcount of a bitset never exceeds its length |
| `Optimize.CountAll` | include/boost/xpressive/detail/core/optimize.hpp:42 | the count equals the table size exactly when every character is set, so `256 != count` means some character is excluded |
| `Optimize.CountOne` | include/boost/xpressive/detail/core/optimize.hpp:70 | a count of one holds exactly when one character is the only set bit |
| `Optimize.CountZero` | include/boost/xpressive/detail/core/optimize.hpp:105 | the count is zero exactly when no bit is set |
| `Optimize.EmptyBitset` | include/boost/xpressive/detail/core/optimize.hpp:105 | the bitset handed to the peeker starts with no bit set (count 0) |
| `Optimize.ConsistentLiteralHasOneLeadingChar` | include/boost/xpressive/detail/core/optimize.hpp:70 | under the assertion, a leading literal implies exactly one possible leading character |
| `Optimize.OptimizeForward` | include/boost/xpressive/detail/core/optimize.hpp:27-51 | forward-only selection never builds Boyer-Moore. With line-start set it gives the line-start finder whatever the bitset. Otherwise it gives hash-peek, carrying that same bitset, exactly when some character is excluded, and no finder exactly when all 256 are possible |
| `Optimize.OptimizeRandom` | include/boost/xpressive/detail/core/optimize.hpp:56-84 | requires the line-70 assertion. With a leading literal it gives Boyer-Moore built from exactly that literal, its case flag and the traits. Without one it gives the forward-only selection |
| `Optimize.RandomDiffersOnlyOnLiteral` | include/boost/xpressive/detail/core/optimize.hpp:56-84 | the two overloads give different finders exactly when a leading literal exists |
| `Optimize.Select` | include/boost/xpressive/detail/core/optimize.hpp:110 | dispatch on the traversal capability. Boyer-Moore only comes with random access and is built from the peeked literal. Line-start only comes when the flag is set. Hash-peek carries the peeked bitset |
| `Optimize.SelectIsMostPreferredApplicable` | include/boost/xpressive/detail/core/optimize.hpp:27-84 | the selected strategy is applicable, and no applicable strategy ranks above it in the order Boyer-Moore, line-start, hash-peek, none |
| `Optimize.CommonCompile` | include/boost/xpressive/detail/core/optimize.hpp:89-112 | the regex graph is linked first. The peeker runs on the linked graph from a fresh empty bitset. `impl.finder` becomes the selection for that peek and traversal capability, and `impl.xpr` becomes the regex |
| `Lambda.FoldMax` | proto/test/lambda.cpp:68 | folding `max` from a start state returns the largest of the state and the elements: at least each, and equal to one of them |
| `Lambda.Arity` | proto/test/lambda.cpp:64-70 | a node's arity is at least each child's arity |
| `Lambda.ArityOfNode` | proto/test/lambda.cpp:68 | a node's arity bounds every child's arity, and unless it is 0 it equals some child's arity |
| `Lambda.ArityIsOnePastLargestPlaceholder` | proto/test/lambda.cpp:64-70 | the arity is one past the largest placeholder index occurring in the expression, and 0 exactly when no placeholder occurs |
| `Lambda.PlaceholderArities` | proto/test/lambda.cpp:155-171 | `_1` has arity 1, `_2` has arity 2, and a `val(t)` terminal has arity 0 |
| `Lambda.TruncDiv` | proto/test/lambda.cpp:175-176 | C++ integer division: the remainder is smaller than the divisor in magnitude and is zero or has the dividend's sign |
| `Lambda.TruncDivUnique` | proto/test/lambda.cpp:175-176 | any quotient whose remainder is smaller than the divisor and has the dividend's sign is `TruncDiv`'s, so its contract determines C++ division uniquely |
| `Lambda.TruncDivAgreesWithEuclidean` | proto/test/lambda.cpp:175-176 | for every non-negative dividend and every exact division, truncating division equals Dafny's Euclidean `/`. That covers the test's 44/4 and -44/4 |
| `Lambda.TruncDivDiffersFromEuclidean` | proto/test/lambda.cpp:175-176 | the two divisions differ on -45/4: -11 against -12 |
| `Lambda.ApplyBinary` | proto/test/lambda.cpp:175-177 | an arithmetic operator fails only for division by zero |
| `Lambda.Eval` | proto/test/lambda.cpp:97-152 | an expression called with at least its arity of arguments evaluates. The only failure is division by zero, and an expression without division always has a value |
| `Lambda.EvalPlaceholder` | proto/test/lambda.cpp:97-106 | placeholder I evaluates to the I-th argument |
| `Lambda.EvalReadsOnlyArityArgs` | proto/test/lambda.cpp:97-106 | two argument lists that agree on the first `Arity(e)` positions give the same result |
| `Lambda.CallNullary` | proto/test/lambda.cpp:120-134 | the zero-argument call gives a value exactly when the arity is 0 |
| `Lambda.NullaryAgreesWithEveryCall` | proto/test/lambda.cpp:120-134 | a nullary lambda gives the same result for every argument list |
| `Lambda.TestArithmetic` | proto/test/lambda.cpp:175-185 | `((_1 + 2) / 4)(42) == 11`, `((-(_1 + 2)) / 4)(42) == -11` and `(val(1) + val(2))() == 3` |
| `Lambda.StoreArity` | proto/test/lambda.cpp:187-190 | an assignment through `var(integers)[index]` has the larger of the index's and the right-hand side's arities, because the `var` terminal contributes 0 |
| `Lambda.StoreNullaryWithoutPlaceholders` | proto/test/lambda.cpp:187-190 | an assignment lambda is nullary exactly when neither its index nor its right-hand side mentions a placeholder |
| `Lambda.ApplyStore` | proto/test/lambda.cpp:188-190 | the call succeeds exactly when index and value evaluate and the index is inside the array. Then the array equals the old one with that one element replaced by the value, and the call returns the value. Otherwise the array is unchanged |
| `Lambda.TestArrayIndexing` | proto/test/lambda.cpp:187-192 | from five zeros, `(var(integers)[2] = 2)()` then `(var(integers)[_1] = _1)(3)` leave `[0, 0, 2, 3, 0]`, so `integers[2] == 2` and `integers[3] == 3` |

## Left out

- The bodies of `boyer_moore_finder`, `line_start_finder`, `hash_peek_finder`, `xpression_linker` and `xpression_peeker` are not part of this model: their files (finder.hpp, linker.hpp, peeker.hpp) are not part of it. Finders are the values they are built from, and link and peek are function parameters of `CommonCompile`.
- `Optimize.Consistent`: the assertion at optimize.hpp:70 is a debug-build assertion about the peeker's output. The model states it as a precondition of `OptimizeRandom`, and of `CommonCompile` under random access, because the peeker that guarantees it is not modelled.
- `intrusive_ptr` reference counting and heap allocation of finders: a finder is a plain `Option` value.
- The traits object (character traits, locale) is an opaque type parameter. Its case folding and line-terminator classes are not modelled.
- `is_random<iterator_type>` is a compile-time type property. Here it is a `bool` parameter.
- The second field of `hash_peek_bitset` (its case flag) is not part of this model. Only the 256-bit table is.
- The template metaprogramming (proto domains, `BOOST_PROTO_EXTENDS`, `mpl` integral types, `fusion` tuples) is modelled by its run-time meaning: arity is a `nat` and arguments are a `seq<int>`.
- `Lambda.Eval`: C++ `int` has at least 16 bits (32 on the usual targets), and signed overflow is undefined behaviour whatever the width. The model uses unbounded integers, so overflow is not modelled. Division by zero, also undefined in C++, is an `Err` result.
- `Lambda.Eval`: the source defines only the placeholders `_1` and `_2` (lambda.cpp:156-157) and only the zero-, one- and two-argument `operator()` (lambda.cpp:129-152). The model goes beyond both limits: it accepts any placeholder index and an argument list of any length at least the arity.
- `Lambda.StoreArity`: the `var(integers)[i] = v` lambda is a separate `Store` datatype, not `Var`, `Subscript` and `Assign` nodes of `Expr`. Its arity applies the fold by hand, with the `var` terminal's arity 0 written as a literal. `ArityIsOnePastLargestPlaceholder` and `CallNullary` are stated for `Expr` only. `StoreNullaryWithoutPlaceholders` gives the placeholder account for `Store`.
- `Lambda.ApplyStore`: subscripting outside a C array is undefined behaviour in C++. The model returns `Err(IndexOutOfRange)` and leaves the array unchanged.
- Lambdas whose arguments are not `int`: the floating-point check `(4 - _2) * 3` with 3.14 (lambda.cpp:177) uses floating point, and streaming into a `std::stringstream` (lambda.cpp:180-182) is I/O.
- Boost.Test suite registration (lambda.cpp:199-206) and the `BOOST_VERSION` preprocessor branches are not modelled.
