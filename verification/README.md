# Verification of the TH8 expression engine, cache, bigint bridge and base64 codec

TH8 is a small Tcl-like interpreter written in C.  This project models its four most
intricate components in Dafny and proves what they are for.  `dafny verify dfyconfig.toml`
checks all of it.

## What is modelled

**Expression engine (`src/th8_expr.c`).**  The engine turns a flat array of tokens into an
operator tree in place, evaluates the tree lazily with guarded 64-bit arithmetic, and
tears it down without recursion.

- `Operators`, `ExprTree`: the precedence table, nodes, and the builder's five phases as
  rewritings of a list of trees (`Build`).
- `ExprGrammar`: the language, stated without the builder: concrete syntax, what may stand
  where (`Expression`), the tokens an expression is written with (`Tokens`) and the tree it
  denotes (`Shape`).
- `ExprShape`: the builder on the tokens of an expression.  `ExprLists`, `ExprConverse`: from
  what the builder leaves back to the expression.  `ExprRows`: a syntactic description of
  every token list the builder accepts.  `ExprPrint`: printing with full parentheses as the
  inverse of building.  `ExprLaws`: the trees that rows of operators build to, with the
  operators written out in groups from the tightest to the loosest.
- `ExprHeap`, `ExprForest`, `ExprSlots`, `ExprSteps`, `ExprBuilder`: the builder as the engine
  runs it, loops over an array of node pointers that rewire nodes and empty slots, proved
  to compute `Build` and to conserve nodes; the rotation teardown.  `ExprRoundTrip`: printing
  a tree with token nodes that are all different, and building them in place.
- `WideInt`: the overflow guards, floor division and the square-and-multiply loop, with
  every guard itself computed in int64.
- `ExprEval`: what a tree means over the unbounded integers: the subterms a lazy evaluation
  visits (`Trace`), what is wrong with each, and the first thing that goes wrong
  (`Meaning`).
- `ExprInterp`: the recursive evaluator over node pointers with its depth counter.
- `ExprValues`: the outcome of every operator in plain arithmetic, from the outcomes of its
  operands.
- `ExprEngine`: build, evaluate and release in one call.
- `ExprPromoted`: the recursive evaluator when results may leave int64.

**Conversion cache and buffer pool (`src/th8_cache.c`).**  `CacheTable` and `Cache` model the
hash-keyed memo table with collision eviction and the one-deep pool of power-of-two
buffers that shares the table.  Both hash functions are arbitrary, so collisions are as
frequent as one likes, and every allocation may fail.  `CacheHistory` says what a run of
operations should answer and who has which buffer.

**Bigint bridge (`src/th8_bigint.c`).**  `BigintText` has decimal rendering, its buffer size
and the parser; `TwosComplement` has encoding, decoding and the smallest width; `Promotion`
has arithmetic that moves between int64 and arbitrary precision.  `RadixText` says what
the parser makes of every text of a number in each radix, and `PromotedValues` gives the
outcome of every operator with promotion in plain arithmetic.  The library's integers
are mathematical integers, and its calls have their mathematical meaning: `mp_div`
truncates, `mp_mod` takes the sign of the divisor, `mp_read_radix` accepts an optional
minus and digits of the radix.  What `mp_expt_n` makes of a negative exponent is left
open: an error, or a number no larger than 1 in magnitude.

**Base64 (`src/th8_base64.c`).**  `Base64` has the encoder with a line break every 76
characters and the decoder that skips whitespace (RFC 4648 section 4, RFC 2045
section 6.8); `Base64Text` says what it comes to with the characters written out.

`Sequences` and `ByteStrings` hold what several modules share.

## Where the code and its documentation differ

The model follows the code.

- The comment at `src/th8_expr.c:2643-2653` and the table entry at 553-555 say that `**`
  groups to the right.  The code scans it left to right like the other binary levels, so
  it groups to the left (`ExprPrint.ExponentGroupsLeft`).
- Leftover tokens are not rejected: `1 2` builds two trees and only the first is evaluated
  (`ExprConverse.LeftoverAccepted`; `ExprConverse.AcceptsExactly` says what the builder does
  accept as one expression, `ExprRows.ReadsExactly` what it accepts at all).
- A lookup of the empty string can hand back a list entry that has no string yet
  (`Cache.ConfusedLookup`), and joining the empty list then spoils that entry: a later join
  of its list comes out empty (`Cache.WrongJoin`).  `FindInCache` says exactly when a lookup
  is confused.  `Run` shows that it does not happen over a run of operations when the table
  starts without such an entry and a list with the hash code of the empty string is always
  joined when it is looked up, with the memory to record its string; other lists, and all
  other shortages of memory, do no harm.
- With promotion enabled, division rounds toward zero instead of down once an operand needs
  more than 63 bits, and the least int64 counts as such an operand
  (`Promotion.DivideExactly`, `Promotion.LeastDividedBy3`); exponents are cast to a 32-bit
  int, and a negative exponent is refused for such operands and gives 0 otherwise
  (`Promotion.ExponentExactly`, `Promotion.PowersBeyondInt`); digits beyond the 511th are
  dropped (`BigintText.ReadsBack`, `BigintText.TenIsCut`).
- With promotion enabled the condition of a ternary must still fit int64, while `&&` and `||`
  take any number for a truth value (`Promotion.PromotionExactly`, `Promotion.WideCondition`).
- The decoder's limit on its input is computed in the size type and wraps around, so it is
  6148914691236517200 instead of something larger (`Base64.Decode`), and a longer encoding is
  not decoded again (`Base64.EncodeThenDecode`).

## Model

| member | source | states |
|---|---|---|
| ExprShape.BracketsFold | src/th8_expr.c:2721-2757 | on the tokens of an expression, phase 1 replaces each parenthesised operand by its tree and moves nothing else |
| ExprShape.PrefixesFold | src/th8_expr.c:2769-2791 | phase 2 folds exactly the prefix constructs, innermost first |
| ExprShape.BinaryLevelsFold | src/th8_expr.c:2798-2823 | phase 3 at levels 2 to 13 folds exactly the constructs of each level, grouping to the left |
| ExprShape.TernariesFold | src/th8_expr.c:2832-2908 | phase 4 folds every ternary with its arms, grouping to the left |
| ExprShape.AssignsFold | src/th8_expr.c:2933-2954 | phase 5 folds assignments, grouping to the right |
| ExprShape.BuildTooDeep | src/th8_expr.c:2705-2708 | an expression whose parentheses nest beyond the limit is rejected |
| ExprShape.BuildExactly | src/th8_expr.c:2690-2977 | for every expression the builder leaves exactly the one tree the grammar gives it, and fails exactly when its parentheses nest beyond the limit |
| ExprShape.UniqueReading | src/th8_expr.c:2690-2977 | the grammar is unambiguous: one token list, one tree, however deeply its parentheses nest |
| ExprPrint.WritesReads | src/th8_expr.c:2690-2977 | the text of a tree with a pair of parentheses, any pair, around every operator is an expression that denotes the tree and nests as deeply as its operators |
| ExprPrint.PrintRoundTrip | src/th8_expr.c:2690-2977 | building that text, whichever brackets it is written with, gives the tree back exactly when its operators nest within the limit, and is rejected otherwise |
| ExprPrint.WrittenWrites | src/th8_expr.c:2690-2977 | every operator tree has such a text, with brackets drawn from any list of pairs that is long enough |
| ExprRoundTrip.WrittenDistinct | src/th8_expr.c:2690-2977 | with as many different pairs of brackets as the tree has operators, no node occurs twice in the text of an unshared tree, so it is a token list the engine can be given |
| ExprRoundTrip.BuildWritten | src/th8_expr.c:2690-2977 | on the token array of such a text the in-place builder leaves the tree alone in the first slot with its nodes linked accordingly, exactly when its operators nest within the limit |
| ExprRoundTrip.Reprint | src/th8_expr.c:2690-2977 | any unshared operator tree, written down with newly made brackets and unlinked nodes and built in place, is back in the heap, exactly when its operators nest within the limit |
| ExprPrint.ShapesAreOperatorTrees | src/th8_expr.c:2690-2977 | expressions denote nothing but operator trees |
| ExprPrint.ExponentGroupsLeft | src/th8_expr.c:2798-2800 | `a ** b ** c` builds `(a ** b) ** c` |
| ExprLaws.ChainBuilds | src/th8_expr.c:2798-2823 | any row of operands and binary operators builds with the last operator of its loosest group on top and the rows on both sides below it; the operators are written out in twelve groups, `**` first, then `* / %`, `+ -`, shifts, orders, equalities, string operators, bitwise and, exclusive or, bitwise or, logical and, logical or; it is rejected exactly when parentheses nest beyond 1000 |
| ExprLaws.TwoOperators | src/th8_expr.c:536-644 | `a x b y c` builds to `(a x b) y c` when x is in the same group as y or in a tighter one, and to `a x (b y c)` otherwise |
| ExprLaws.PrefixFirst | src/th8_expr.c:2769-2791 | `- + ~ !` take their operand before any binary operator does, on either side of it |
| ExprLaws.StatementBuilds | src/th8_expr.c:2832-2954 | `:=` takes whole conditionals and groups to the right, `?:` takes whole rows of binary operators and groups to the left, in token lists of any length |
| ExprLaws.TwoConditionals | src/th8_expr.c:2832-2908 | `a ? b : c ? d : e` builds to `(a ? b : c) ? d : e`, arms in place |
| ExprLaws.TwoAssignments | src/th8_expr.c:2933-2954 | `a := b := c ? d : e` builds to `a := (b := (c ? d : e))` |
| ExprLaws.ParenthesesLimit | src/th8_expr.c:2705-2708 | a literal in n pairs of parentheses builds exactly when n is at most 1000 |
| ExprConverse.AcceptsExactly | src/th8_expr.c:2690-2977 | any token list is an expression within the depth limit if and only if the builder turns it, and every group in it, into a single complete term |
| ExprConverse.LiftBuild | src/th8_expr.c:2690-2977 | from such a build the expression can be recovered: same tokens, same tree |
| ExprConverse.LeftoverAccepted | src/th8_expr.c:2968-2976 | two literals in a row build to themselves although they are no expression, at any nesting |
| ExprLists.LiftOperators | src/th8_expr.c:2769-2954 | whatever phases 2 to 5 leave of a list of operands and operators, complete constructs with the same items in the same order have those trees, beside stray colons and closing brackets |
| ExprRows.RowBuilds | src/th8_expr.c:2690-2977 | a token list that reads as a row of expressions and strays, with rows inside its groups, builds to the trees of its members |
| ExprRows.ReadsExactly | src/th8_expr.c:2690-2977 | any token list builds if and only if it reads as a row within the depth limit, and what it builds to are exactly the trees of the row |
| ExprHeap.NodeHeap.RotateUp | src/th8_expr.c:771-775 | lifts the left child above its parent; every node it reads or writes is still allocated |
| ExprHeap.NodeHeap.FreeTree | src/th8_expr.c:759-785 | the rotation loop terminates and releases every node of the tree exactly once, in symmetric order; it reads, writes and releases nodes only through operations that require the node to be allocated |
| ExprBuilder.TokenArray.IsTermSlot | src/th8_expr.h:178 | the term test: a literal, or an operator that has its left operand |
| ExprBuilder.TokenArray.FindClose | src/th8_expr.c:2724-2738 | finds the bracket that closes the group |
| ExprBuilder.TokenArray.GroupAt | src/th8_expr.c:2721-2757 | builds a group in place, releases its two brackets, and moves the result to the front of the group; conserves nodes on failure too |
| ExprBuilder.TokenArray.OpenGroups | src/th8_expr.c:2721-2757 | phase 1 in place computes the list rewriting, for any tokens, and conserves nodes |
| ExprBuilder.TokenArray.BindPrefixes | src/th8_expr.c:2769-2791 | phase 2 in place computes the list rewriting and keeps the reading order; the next slot is never empty |
| ExprBuilder.TokenArray.BindLevel | src/th8_expr.c:2799-2822 | one binary level in place computes the list rewriting and keeps the reading order |
| ExprBuilder.TokenArray.BindLevels | src/th8_expr.c:2798-2823 | all binary levels in turn |
| ExprBuilder.TokenArray.FindTernary | src/th8_expr.c:2846-2888 | the operands of a `?` are looked for in order, and the search fails exactly when one is missing or incomplete |
| ExprBuilder.TokenArray.BindTernaries | src/th8_expr.c:2832-2908 | phase 4 in place computes the list rewriting and keeps the reading order |
| ExprBuilder.TokenArray.BindAssigns | src/th8_expr.c:2933-2954 | phase 5 in place computes the list rewriting and keeps the reading order |
| ExprBuilder.TokenArray.MoveToFront | src/th8_expr.c:2968-2974 | the first tree moves to the first slot and nothing else changes |
| ExprBuilder.TokenArray.MakeTree | src/th8_expr.c:2690-2977 | on every token array and every outcome: computes `Build`, keeps every node in exactly one slot's tree or released once, never releases anything but brackets, and keeps the reading order of the rest |
| ExprBuilder.TokenArray.ReleaseAll | src/th8_expr.c:3183-3189 | the cleanup leaves no node allocated and has released each exactly once |
| ExprEngine.BuildAndRelease | src/th8_expr.c:3079-3191 | well formed or not, every node of the token array ends up released exactly once |
| ExprEngine.EvalOne | src/th8_expr.c:3079-3191 | build, evaluate and release: the answer is the meaning of the first tree, the depth counter is restored, the literals are substituted in lazy order and none twice, and no node leaks |
| ExprEngine.ExpressionAnswers | src/th8_expr.c:3079-3191 | for a well-formed integer expression the answer is the meaning of the tree its grammar gives it |
| ExprEngine.IntegerShape | src/th8_expr.c:2690-2977 | the tree of an integer expression is one the evaluator handles |
| WideInt.MultiplyGuard | src/th8_expr.c:1502-1510 | the multiplication guard holds exactly when the exact product leaves int64 |
| WideInt.SquareGuard | src/th8_expr.c:1729-1735 | the guard before squaring holds exactly when the square leaves int64 |
| WideInt.RoundedDown | src/th8_expr.c:1550-1553 | the correction of the C quotient gives the floor for all signs |
| WideInt.DivideDown | src/th8_expr.c:1525-1554 | integer division rounds toward negative infinity, without overflow on the way |
| WideInt.ModuloDown | src/th8_expr.c:1556-1575 | the remainder has the sign of the divisor, and the least int64 modulo -1 is 0 |
| WideInt.SquareLeaves | src/th8_expr.c:1729-1738 | stopping at an overflowing square is right: with any factor left, the power is out of range, even for exact -2^63 |
| WideInt.Exponentiate | src/th8_expr.c:1692-1755 | overflow is reported if and only if the power leaves int64, and otherwise the exact power is returned |
| ExprEval.MeaningOperator | src/th8_expr.c:1241-1271 | the meaning of an operator: first operand, then the operand that laziness leaves, then the operator itself |
| ExprEval.ValueWhenNothingFails | src/th8_expr.c:1494-1764 | an evaluation has a value exactly when no visited subterm fails, divides by zero or leaves int64; the value is the unbounded one |
| ExprEval.TriedInLazyOrder | src/th8_expr.c:977-1161 | the literals substituted are the needed ones from left to right, all of them on success and those up to the failure otherwise |
| ExprEval.TooDeepExactly | src/th8_expr.c:826-842 | the depth fault occurs exactly on visited paths too long for the budget, a `:` costing nothing |
| ExprEval.DepthError | src/th8_expr.c:826-842 | a reported depth error means such a path, and such a path means failure |
| ExprInterp.ApplyUnary | src/th8_expr.c:1668-1691 | unary operators: -a, a, -1 - a and 1 for 0, or overflow for the negation of the least int64 |
| ExprInterp.Compare | src/th8_expr.c:1627-1644 | the six comparisons |
| ExprInterp.ApplyStrict | src/th8_expr.c:1494-1764 | strict operators: sum, difference, product, quotient, remainder, power or comparison; a division by zero, or overflow when the exact value leaves int64 |
| ExprInterp.Interp.Eval | src/th8_expr.c:826-842 | one call deeper: the meaning of the tree, the counter restored on every return |
| ExprInterp.Interp.EvalNode | src/th8_expr.c:945-1271 | the meaning of a node, with the counter within its limit |
| ExprInterp.Interp.EvalTernary | src/th8_expr.c:977-1020 | only the selected branch is evaluated, entered past the `:` |
| ExprInterp.Interp.EvalLogical | src/th8_expr.c:1114-1161 | the right side is evaluated only when the left leaves the outcome open |
| ExprInterp.Interp.EvalStrict | src/th8_expr.c:1256-1271 | left then right, then the operator |
| ExprInterp.SubstitutedOnce | src/th8_expr.c:945-1271 | an evaluation substitutes no literal of an unshared tree twice |
| ExprValues.LiteralLaw | src/th8_expr.c:835-838 | 1000 calls deep an evaluation fails; otherwise a literal has the value it stands for, or fails, or overflows beyond 64 bits |
| ExprValues.FailureLaw | src/th8_expr.c:1241-1271 | a failing first operand decides, and so does a failing second one that is needed |
| ExprValues.UnaryLaw | src/th8_expr.c:1668-1691 | `-a` is -a or overflows, `+a` is a, `~a` is -1 - a, `!a` is 1 for 0 and 0 otherwise |
| ExprValues.TernaryLaw | src/th8_expr.c:977-1020 | a condition other than 0 selects the first arm, 0 the second, and the outcome is that of the selected arm |
| ExprValues.LogicalLaw | src/th8_expr.c:1114-1161 | logical and is 0 after a left 0 and logical or is 1 after a left other than 0, whatever the right side is; otherwise the right side decides, as 1 or 0 |
| ExprValues.SumLaw | src/th8_expr.c:1502-1609 | sum, difference and product of the operands, or overflow exactly when that is no 64-bit integer |
| ExprValues.DivisionLaw | src/th8_expr.c:1525-1575 | the quotient rounded down and the remainder with the sign of the divisor, failure for 0, overflow only for the least integer divided by -1 |
| ExprValues.PowerLaw | src/th8_expr.c:1692-1755 | 0 for a negative exponent, otherwise the base multiplied that often, or overflow |
| ExprValues.ComparisonLaw | src/th8_expr.c:1627-1644 | the six comparisons as 1 or 0 |
| ExprValues.SubstitutionLaw | src/th8_expr.c:945-1271 | the literals substituted for an operator are those of its first operand and then those of the operand needed next |
| ExprValues.SumOfProduct | src/th8_expr.c:3079-3191 | from tokens to answer: `a + b * c` is a plus the product, each checked for overflow |
| Cache.ConversionCache.FreeEntry | src/th8_cache.c:284-367 | freeing an entry frees the buffer it owns and nothing else |
| Cache.ConversionCache.FindInCache | src/th8_cache.c:557-702 | a hit changes nothing, a miss or collision leaves a fresh entry; what comes back stands for the string exactly unless the slot holds an unjoined list and the string is empty |
| Cache.ConversionCache.FindListInCache | src/th8_cache.c:953-1151 | what comes back is for exactly these elements; a hit changes nothing |
| Cache.ConversionCache.SetCacheString | src/th8_cache.c:1182-1234 | records a string for an entry once, whatever the string; recording the join keeps what is stored right |
| Cache.ConversionCache.Convert | src/th8_cache.c:557-702 | gives the stored result if there is one and a fresh one otherwise; when what is stored is right and the lookup is not confused, that is the conversion without a cache, and what is stored stays right; unless memory for the slot or the entry runs out the result is stored afterwards, and no other slot changes |
| Cache.ConversionCache.Joined | src/th8_cache.c:953-1234 | gives the recorded string of the list if there is one and the join otherwise; when what is stored is right, that is the join without a cache; with enough memory the list's string is recorded afterwards |
| Cache.ConversionCache.RemoveFromCache | src/th8_cache.c:800-847 | the slot is empty afterwards and no other slot moves |
| Cache.ConversionCache.ClearCache | src/th8_cache.c:491-508 | the table is empty afterwards and exactly the pooled buffers have been freed |
| Cache.ConversionCache.Run | src/th8_cache.c:557-1627 | over every run of conversions, joins, lookups completed later or never, removals, clears and buffer allocations and releases, each with its own shortage of memory, the answers are those of a program without cache and pool, no buffer is in two hands at a time and none is lost; asked of the caller: release a buffer once, start with right contents and without an unjoined list under the hash code of the empty string, and always join such a list, with memory to record its string |
| Cache.ConfusedLookup | src/th8_cache.c:1139-1142 | with such a hash a lookup of the empty string gives an entry without a string |
| Cache.WrongJoin | src/th8_cache.c:1139-1234 | with such a hash, joining the empty list after a lookup of another list makes the join of that list come out empty |
| Cache.BufferClassIndex | src/th8_cache.c:1427-1440 | finds the first of the classes 32, 64, ..., 65536 that is large enough, or none |
| Cache.ClassUnique | src/th8_cache.c:1427-1440 | a request belongs to at most one class |
| Cache.ConversionCache.BufferAlloc | src/th8_cache.c:1509-1563 | a zeroed buffer of the first class that holds n bytes, or of n bytes beyond 65536, that was in no other hand; a pooled one is always used, so the capacity test never fails |
| Cache.ConversionCache.BufferFree | src/th8_cache.c:1595-1627 | the buffer goes into its bin exactly when that is empty and is freed otherwise; every buffer stays in exactly one place |
| BigintText.BitsMeans | src/th8_bigint.c:1229-1234 | the bit count compares a number with a power of two |
| BigintText.RenderingFits | src/th8_bigint.c:689-698 | sign, digits and terminator of every integer fit into bits/3 + 3 bytes |
| BigintText.FromStr | src/th8_bigint.c:591-650 | the parser: blanks, sign, radix prefix, at most 511 digits |
| BigintText.ReadsBack | src/th8_bigint.c:600-650 | rendered text is read back as the same integer exactly when it has at most 511 digits |
| BigintText.TenIsCut | src/th8_bigint.c:633-637 | 10^511 and every larger power of ten is read back as 10^510 |
| RadixText.TextReads | src/th8_bigint.c:591-650 | after any blanks and tabs, with `+`, `-` or no sign, in binary after `0b`, octal after `0o`, hexadecimal after `0x`, prefix and digits in either case, or in decimal, the digits of every number are read back as that number exactly when there are at most 511 of them; otherwise the first 511 are read |
| RadixText.FrontsDivide | src/th8_bigint.c:633-637 | dropping k digits divides by the radix to the power k |
| RadixText.RejectsExactly | src/th8_bigint.c:617-641 | a text is a number exactly when every character read, an inner minus sign aside, is one of the digits of the announced radix, and a prefix has something after it |
| RadixText.RenderedPlain | src/th8_bigint.c:689-698 | a number is rendered as a minus sign if it is negative and its decimal digits |
| TwosComplement.ToTwosComplement | src/th8_bigint.c:1371-1493 | writes the two's complement pattern in the requested byte order, the low byte at the right end of a big-endian field and at the left end of a little-endian one, rejects exactly the values out of range, and leaves the buffer alone when it rejects |
| TwosComplement.ReverseInPlace | src/th8_bigint.c:1475-1485 | the swap loop reverses the buffer |
| TwosComplement.UbinPadded | src/th8_bigint.c:1455-1473 | the shortest form right-aligned over zeros is the fixed-width form |
| TwosComplement.FromTwosComplement | src/th8_bigint.c:1527-1596 | reads the two's complement value in either byte order, the sign from the first byte of a big-endian field and from the last of a little-endian one, 0 for an empty field |
| TwosComplement.FieldRoundTrip | src/th8_bigint.c:1413-1589 | decoding an encoding gives the number back, at every width and byte order |
| TwosComplement.BytesRoundTrip | src/th8_bigint.c:1413-1589 | encoding a decoding gives the bytes back |
| TwosComplement.PatternStores | src/th8_bigint.c:1455-1485 | the byte for 256^i is at place i from the right of a big-endian field and at place i from the left of a little-endian one |
| TwosComplement.DecodedBytes | src/th8_bigint.c:1527-1596 | what is decoded has the bytes of the field at these places, fits the field, and is negative exactly when the top bit of the first byte, for little-endian the last one, is set |
| TwosComplement.ByteAtPlain | src/th8_bigint.c:1455-1485 | that byte of v is v / 256^i modulo 256, for negative v as well |
| TwosComplement.MinBytesExact | src/th8_bigint.c:1664-1701 | a width is enough for a value exactly when it is at least the computed one, including zero and negative powers of two |
| TwosComplement.MinTwosComplementBytes | src/th8_bigint.c:1637-1707 | computes that width |
| Promotion.BigintArith | src/th8_bigint.c:801-978 | the arbitrary-precision operations on the operands as their text is read |
| Promotion.Apply | src/th8_expr.c:1476-1755 | int64 while operands and result fit, arbitrary precision otherwise |
| Promotion.CutIsBigint | src/th8_bigint.c:1229-1234 | an operand whose text is cut still takes the arbitrary-precision path |
| Promotion.RereadExactly | src/th8_bigint.c:633-637 | only operands of more than 511 digits are misread |
| Promotion.Seamless | src/th8_expr.c:1476-1644 | addition, subtraction, multiplication, remainder and comparisons are exact whichever path runs |
| Promotion.DivideExactly | src/th8_bigint.c:860-868 | division is exact precisely when no operand needs more than 63 bits, the signs agree, or nothing is left |
| Promotion.RoundedUp | src/th8_bigint.c:860-868 | in every other case the quotient is one more than the floor |
| Promotion.LeastDividedBy3 | src/th8_bigint.c:860-868 | -2^63 / 3 is one more than its floor |
| Promotion.ExponentExactly | src/th8_bigint.c:908-920 | a power is exact precisely when the exponent fits an int, or fits int64 and the base is -1, 0 or 1; a negative exponent gives the 0 of int64 arithmetic precisely when no operand needs more than 63 bits, and is refused otherwise |
| Promotion.PowersBeyondInt | src/th8_bigint.c:908-920 | 2 to the powers 2^31 and 2^32 comes out wrong, the second as 1 |
| Promotion.PromotionExactly | src/th8_expr.c:826-1764 | with promotion and literals of any size, every visited subterm of a tree has its exact value if and only if no visited literal fails, every visited ternary condition fits int64, every visited operator meets its own condition for exactness, and no visited path is too long for the depth counter |
| Promotion.PromotionIsExact | src/th8_expr.c:826-1764 | a tree without divisions and powers has a value under the same condition and only then, and it is the exact one |
| Promotion.ExactInLazyOrder | src/th8_expr.c:977-1161 | such an evaluation substitutes exactly the literals it needs, from left to right |
| Promotion.WideCondition | src/th8_expr.c:977-990 | a ternary whose condition is 2^63 is refused although it has an exact value |
| Promotion.ApplyUnaryPromoted | src/th8_bigint.c:1009-1070 | unary operators are exact |
| PromotedValues.OperandRead | src/th8_bigint.c:591-650 | an operand is taken as its first 511 decimal digits with its sign |
| PromotedValues.SumPromoted | src/th8_expr.c:1476-1609 | sum, difference and product of the operands, of any size |
| PromotedValues.ComparisonPromoted | src/th8_expr.c:1627-1644 | the six comparisons as 1 or 0 on operands of any size |
| PromotedValues.DivisionPromoted | src/th8_bigint.c:855-880 | the remainder has the sign of the divisor; the quotient rounds down for operands of at most 63 bits and toward zero otherwise; 0 is reported |
| PromotedValues.PowerPromoted | src/th8_bigint.c:908-920 | the power for exponents within int and for the bases -1, 0 and 1 within int64; any other base is raised to the low 32 bits of the exponent as an int; beyond int64 the exponent is refused |
| PromotedValues.UnaryPromoted | src/th8_bigint.c:1009-1070 | the four unary operators on an operand that is read in full |
| PromotedValues.OutcomePromoted | src/th8_expr.c:826-1271 | the outcome of a tree from those of its operands: 1000 calls, failing operands, the selected arm of a ternary with a 64-bit condition, lazy logical operators, strict operators |
| ExprPromoted.PromotingInterp.Eval | src/th8_expr.c:826-842 | one call deeper: the value with promotion of the tree the pointers spell, the counter restored on every return, the literals substituted in order |
| ExprPromoted.PromotingInterp.EvalTernary | src/th8_expr.c:977-1020 | refuses a condition beyond int64, and otherwise enters the selected branch past the `:` |
| ExprPromoted.PromotingInterp.EvalLogical | src/th8_expr.c:1114-1161 | the right side is evaluated only when the left, of any size, leaves the outcome open |
| ExprPromoted.PromotingInterp.EvalStrict | src/th8_expr.c:1256-1271 | left then right, then the operator on int64 or arbitrary precision |
| ExprPromoted.EvalExactly | src/th8_expr.c:826-1764 | running the evaluator on a tree that nothing obstructs gives the unbounded value and substitutes the literals needed from left to right; without divisions and powers there is no value otherwise |
| ExprPromoted.PromotedOnce | src/th8_expr.c:945-1271 | no literal of an unshared tree is substituted twice with promotion either |
| Base64.GroupDecodes | src/th8_base64.c:119-128 | a group of one to three bytes decodes to itself |
| Base64.LinesSymbols | src/th8_base64.c:130-134 | line breaks carry no symbols |
| Base64.RoundTrip | src/th8_base64.c:98-256 | decoding an encoding, the input limit aside, gives every byte string back |
| Base64.EncodeThenDecode | src/th8_base64.c:98-256 | running the encoder and then the decoder gives the bytes back if and only if the text is within the decoder's input limit |
| Base64.SizeClosed | src/th8_base64.c:106-110 | the size is four characters per group and two per line break |
| Base64.EncodedSize | src/th8_base64.c:106-110 | the size computed with overflow checks is the exact size, or none when that does not fit |
| Base64.Encode | src/th8_base64.c:98-142 | writes exactly that many characters and returns the encoding |
| Base64.Decode | src/th8_base64.c:179-256 | returns the decoding or fails, and never writes beyond three bytes for every four characters |
| Base64.FailsExactly | src/th8_base64.c:219-223 | decoding fails exactly on a character outside alphabet, padding and whitespace |
| Base64.IgnoresWhitespace | src/th8_base64.c:218 | texts that agree up to whitespace decode alike |
| Base64.DecodedSize | src/th8_base64.c:230-247 | at most three bytes for every four symbols |
| Base64Text.EncodeTable | src/th8_base64.c:29-30 | the encode table is the alphabet `A`-`Z`, `a`-`z`, `0`-`9`, `+`, `/` |
| Base64Text.DecodeTable | src/th8_base64.c:37-54 | the decode table gives each of these its place, and knows `=`, and as whitespace exactly the codes 9 to 13 and the blank |
| Base64Text.SpaceSkipped | src/th8_base64.c:218 | such a whitespace character makes no difference wherever it is |
| Base64Text.RejectsExactly | src/th8_base64.c:219-223 | decoding fails exactly on a character that is none of these |
| Base64Text.QuadDecodes | src/th8_base64.c:230-247 | four characters decode to three bytes computed from their places in the alphabet, to one fewer for every padding but at least one, followed by what the rest decodes to |
| Base64Text.TooShort | src/th8_base64.c:215-249 | fewer than four characters decode to nothing |
| Base64Text.GroupSpelled | src/th8_base64.c:115-128 | the four letters of a group of three bytes, two or one, by their places in the alphabet, with `=` for what is missing |
| Base64Text.LinesWrapped | src/th8_base64.c:130-134 | the encoding is the plain one with a line break after every 76 characters that are not the last |

## Left out

- The tokenizer `th8ExprParse`, math functions and the comma splitter: the model starts from tokens.
- Doubles, string operators, bitwise and/or/xor, shifts and `:=` in the evaluator: the
  evaluator is modelled on the operators listed in `ExprEval.IntegerTree`; the builder on all.
- ExprEngine.EvalOne: its tokens must build to a tree over those operators; which of the two
  error messages a rejection carries is not distinguished, and a result in another radix is
  not rewritten in decimal, because values are integers and not text.
- Literals: substituting one yields an integer or fails, as a function of the node; each is
  substituted at most once per evaluation (`ExprInterp.SubstitutedOnce`).
- Evaluation with overflow checking switched off: the C code then has undefined behaviour.
- ExprBuilder.TokenArray.MakeTree: readiness checks for cancellation and step limits always pass.
- Borrowed cache pointers: an entry is named by its key, so a pointer kept after its entry was
  evicted is not modelled.
- Cache.ConversionCache.Run: an entry is completed after its lookup only if it is still in the
  table, and what clients write into their buffers is not modelled.
- The 12-byte encoding of cache keys, mutexes, counters and fault hooks: a key is a pair.
- TwosComplement.ToTwosComplement: the bit count of fields of 2^28 bytes and more overflows
  an int in the source and is unbounded here.
- TwosComplement.FromTwosComplement: so is the one it works with.
- Promotion.BigintArith: the arbitrary-precision shifts and bitwise operations are left out, and
  so is the memory a huge power would need.
- BigintText.FromStr: whether the library accepts a line break after the digits is not part of
  this model.
- Legacy octal text such as `010`, which the int64 parser reads as 8: operands here are
  decimal renderings.
- Base64.Decode: allocation succeeds.
- Taint and sensitivity bits in lengths: lengths are raw.
