# Verified model of the expression and relational engine

The library evaluates SQL expressions sent as byte code, streams tuples through chains of relational
operators, and prints doubles and decimals. This project models three parts of it in Dafny and proves
what they promise, for all inputs.

**Printing doubles.** `Ieee754` says what a double is worth, what lies half way to its neighbours, and
what reading with round-to-nearest means (sections 3.4 and 4.3.1 of IEEE 754-2019). `ShortestDecimal`
says what the shortest decimal is: inside the rounding interval, no coarser decimal inside it, none of
the same coarseness nearer. No decimal inside the interval has fewer digits; one that reads back has
fewer exactly when the double is even and the decimal is one of the two midpoints, which the code leaves
out: it never prints 1e23, although that reads as the double below. `RyuInterval`, `RyuScaling`,
`DigitRemoval`, `DigitLoops` and `Ryu` follow the conversion from the interval to the digits, with its
exactness flags and both digit-removal loops, and prove that it returns that decimal. `ToChars` writes
it into a buffer with the source's digit pairs and bit-wise moves; `DecimalText` has the plain layouts
and an independent reader, and `TextForm` says what form a text has apart from its value.
`ShortestPrint` puts it together: every double printed reads back as itself, and a NaN as a NaN.

**The query engine.** `Operands` and `Operators` are the values and the operators; `Calculations` and
`Entries` say what each table entry calculates, by name. `Codec` and `Wire` decode operator vectors, and
encode them again; `Bytecode` writes out what each byte stands for. `Expressions` has trees, their SQL
meaning with Kleene's logic, a type checker for operator vectors, and compiler correctness;
`StackMachine` has the stack and the runner as objects. `Pipeline` is the chain of stages on values,
with tandems and their `Put` and `Get`; `Grouping` and `PipelineMeaning` say what a chain computes,
`GroupingRuns` what a grouped stage holds when puts and gets are mixed, `CommandRuns` that a client's
answers are a run of the chain, and `OrderIndependence` when the order of the hash maps does not show;
`TypedPipeline` carries the types through. `RelOps` has the relational operators as objects over a
memory of tuples in which every tuple is owned by the caller, cached or freed; `ChainWire` and
`RelationalRunner` decode chains; `WholeRuns` is any client's run of one, and `TypedQueries` leads from
the bytes of typed trees to the rows they mean.

**Printing decimals.** `DecimalRounding` models printing in full and rounded to a scale, and proves
exactly when the rounded text is right, for scales of either sign. In three families of inputs it is
not: 9.99 to one place prints as 1.0, 0.6 to no places as 0, and with a negative scale 123 to the nearest
ten prints as 1202 and 12000 to the nearest hundred throws.

Where code and documentation disagree the model follows the code: aggregate stages have no trailing
end marker, although the repository's README.md (lines 293-300) gives them one.

## Conventions

A double, or a float, is its bit pattern; `Exp` is a power with a real value. Integer widths are written
out. Code that fails returns `Err` with a `Fault`; contracts speak of runs that do not fail and say
exactly when a run fails. A library function that throws, such as a substring past the end or a number
out of range, is the fault `LibraryFault`. The order in which a hash map gives up its entries is a
parameter, `Order`, restricted only to choosing an entry that is there; a counter lets the choice differ
each time.

## Model

| member | source | states |
|---|---|---|
| `Ieee754.InsideRoundsTo` | src/expr/calc/casting.cc:584-611 | a value strictly between the two midpoints around a double is rounded to that double, subnormals and powers of two included |
| `Ieee754.RoundsToIff` | src/expr/calc/casting.cc:584-611 | exactly which values read as a double: those between the midpoints, and both midpoints when it is even |
| `Ieee754.RoundingIsUnique` | src/expr/calc/casting.cc:584-611 | round-to-nearest, ties to even, has one result |
| `ShortestDecimal.ShortestIsUnique` | src/expr/calc/casting.cc:732-859 | a double has at most one shortest and closest decimal, so a conversion that returns one is fully determined |
| `ShortestDecimal.ShortestRoundTrips` | src/expr/calc/casting.cc:732-859 | reading the shortest decimal with round-to-nearest gives back the double |
| `ShortestDecimal.NoTrailingZero` | src/expr/calc/casting.cc:1112-1140 | the shortest decimal never ends in zero, which is why only small integers are stripped |
| `ShortestDecimal.NoFewerDigits` | src/expr/calc/casting.cc:732-859 | no decimal inside the interval has fewer digits |
| `ShortestDecimal.FewestDigits` | src/expr/calc/casting.cc:596-601 | a decimal with fewer digits reads back if and only if the double is even and one of its midpoints is a decimal with fewer digits: what leaving the bounds out costs |
| `ShortestDecimal.ShorterTie` | src/expr/calc/casting.cc:596-601 | it happens at 0x44B52D02C7E14AF6, which 1e23 reads as, while its shortest decimal inside the interval has more than one digit |
| `RyuInterval.IntervalEnds` | src/expr/calc/casting.cc:584-611 | mv, mp and mm are the double and the midpoints to both neighbours, and mmShift is 0 exactly when the double below is nearer than the one above |
| `RyuInterval.SeventeenDigits` | src/expr/calc/casting.cc:861-867 | the shortest decimal has at most 17 digits, as the length function demands |
| `RyuScaling.Pow5Factor` | src/expr/calc/casting.cc:531-548 | terminates with the largest power of five that divides the value |
| `RyuScaling.MultipleOfPowerOf5` | src/expr/calc/casting.cc:551-558 | true exactly for multiples of that power |
| `RyuScaling.UpperUp` | src/expr/calc/casting.cc:635-664 | for e2 >= 0 the decrement of vp excludes an upper bound that is a candidate, also where the code skips the divisibility test |
| `RyuScaling.ExactUp` | src/expr/calc/casting.cc:635-664 | for e2 >= 0 the trailing-zeros flag says whether vr was cut exactly, wherever that can matter |
| `RyuScaling.UpperDown` | src/expr/calc/casting.cc:681-720 | for e2 < 0 the upper bound is never a candidate |
| `RyuScaling.ExactDown` | src/expr/calc/casting.cc:681-720 | for e2 < 0 testing divisibility by 2^(q-1) instead of 2^q is enough, because an odd half leaves a removed digit of 2 or 7 |
| `DigitRemoval.RemovalTest` | src/expr/calc/casting.cc:735-754 | the loop test on the scaled quotients holds exactly while a coarser decimal fits the interval |
| `DigitRemoval.OutputIsInside` | src/expr/calc/casting.cc:789-849 | the rounded output stays strictly inside the interval: rounding up never overshoots |
| `DigitRemoval.OutputIsClosest` | src/expr/calc/casting.cc:789-849 | no multiple of the same power of ten inside the interval is nearer, and a tie goes to even |
| `DigitRemoval.TieIff` | src/expr/calc/casting.cc:747-783 | what was removed is exactly half a unit if and only if the flags and the last removed digit say so |
| `DigitLoops.StripGeneral` | src/expr/calc/casting.cc:732-790 | the general loop returns the coarsest, closest digits |
| `DigitLoops.StripCommon` | src/expr/calc/casting.cc:791-850 | the two-digits-first loop returns digits that satisfy the same specification |
| `Ryu.ScaleUp` | src/expr/calc/casting.cc:619-666 | step 3 for e2 >= 0: quotients, exponent and flags that describe the interval |
| `Ryu.ScaleDown` | src/expr/calc/casting.cc:667-721 | step 3 for e2 < 0: the same |
| `Ryu.StrippedIsShortest` | src/expr/calc/casting.cc:732-859 | coarsest and closest in scaled integers is shortest and closest as a decimal |
| `Ryu.D2D` | src/expr/calc/casting.cc:579-859 | the conversion of every finite nonzero double is its shortest decimal |
| `ToChars.DecimalLength` | src/expr/calc/casting.cc:861-933 | the number of decimal digits |
| `ToChars.DigitTable` | src/expr/calc/casting.cc:473-484 | entry c of the table is c in two digits |
| `ToChars.WriteLowDigits` | src/expr/calc/casting.cc:991-1033 | the 8- and 4-digit chunk writes put the low digits in place and leave the rest of the buffer alone |
| `ToChars.MoveByBits` | src/expr/calc/casting.cc:1046-1076 | the 8/4/2/1 moves shift exactly the digits before the point |
| `ToChars.InsertPoint` | src/expr/calc/casting.cc:1046-1088 | the digits with a point after the first nexp |
| `ToChars.ToCharsDf` | src/expr/calc/casting.cc:935-1088 | the fixed layout, character by character, for every mantissa of up to 17 digits |
| `ToChars.StripTrailingZeros` | src/expr/calc/casting.cc:1128-1140 | the stripping loop, with its test of the low bit, drops all trailing zeros and keeps the length in step |
| `ToChars.WriteScientific` | src/expr/calc/casting.cc:1142-1262 | the scientific layout with its sign and two- or three-digit exponent |
| `ToChars.ToCharsSigned` | src/expr/calc/casting.cc:1090-1262 | sign and layout, for every exponent of up to three digits; which layout, and its form, is `TextForm.PlainTextForm` |
| `TextForm.PlainTextForm` | src/expr/calc/casting.cc:1104-1140 | the text has no exponent if and only if the value is at least 10^-4 and below 10^15; no superfluous zeros in front or behind; an exponent has two digits, or three from 100 on |
| `DecimalText.FixedTextReads` | src/expr/calc/casting.cc:935-1088 | a fixed-layout text reads as the value it was made from |
| `DecimalText.ScientificTextReads` | src/expr/calc/casting.cc:1142-1262 | a scientific-layout text reads as exactly its digits and exponent |
| `ShortestPrint.D2DSmallInt` | src/expr/calc/casting.cc:66-107 | succeeds exactly on whole numbers below 2^53, and then exactly |
| `ShortestPrint.PlainTextReads` | src/expr/calc/casting.cc:1090-1262 | every mantissa of up to 17 digits, with every exponent of up to three digits, printed reads as mantissa times the power of ten |
| `ShortestPrint.ExponentRange` | src/expr/calc/casting.cc:1237-1259 | the exponent of a shortest decimal fits the two or three digits written |
| `ShortestPrint.CopySpecialStr` | src/expr/calc/casting.cc:109-127 | NaN, Infinity and zero with their signs |
| `ShortestPrint.DoubleToShortestDecimalBufn` | src/expr/calc/casting.cc:1264-1292 | for each of the 2^64 bit patterns, the text read with round-to-nearest is the same double, sign included (zeros, infinities and NaNs have their fixed texts); a small integer prints exactly, any other finite nonzero double as its shortest decimal; it has an exponent exactly when the double is below 10^-4 or not below 10^15, and no superfluous digit |
| `ShortestPrint.SameSideBelow` | src/expr/calc/casting.cc:1104-1110 | a shortest decimal is on the same side of 10^-4 as its double, although no double is 10^-4 |
| `ShortestPrint.PrintedReads` | src/expr/calc/casting.cc:1264-1292 | a text of the shortest decimal, with its sign, is read as the double by round-to-nearest |
| `Codec.DecodeVarint` | src/expr/codec.cc:27-38 | the shift-and-or loop reads base-128 digits |
| `Codec.VarintRoundTrip` | src/expr/codec.cc:27-38 | a varint is read back wherever it stands, and nothing after it (Base 128 Varints of the Protocol Buffers encoding guide) |
| `Codec.BigEndianRoundTrip` | src/expr/codec.cc:70-82 | big-endian words read back |
| `Codec.CountedRoundTrip` | src/expr/codec.cc:84-99 | length-prefixed bytes read back, whatever they contain |
| `Wire.OperatorVector.Decode` | src/expr/operator_vector.cc:97-422 | the decoder's loop leaves the operators up to the end marker, and returns the position after it |
| `Wire.InstrRoundTrip` | src/expr/operator_vector.cc:97-456 | every instruction of the byte code decodes to its operator, an identity cast to none, and a decimal whose text the library refuses to that fault |
| `Wire.ExpressionRoundTrip` | src/expr/operator_vector.cc:97-422 | an encoded expression and its end marker decode to its operators, or to the fault of the first decimal text refused, and decoding stops exactly at what follows, even with zero bytes inside immediates |
| `Bytecode.TypedOpcodes` | src/expr/operator_vector.cc:25-96 | the operator of each opcode and type byte, written out |
| `Bytecode.NumberOpcodes` | src/expr/operator_vector.cc:25-96 | integers, negated integers, dates, timestamps and columns by their opcodes |
| `Bytecode.PlainOpcodes` | src/expr/operator_vector.cc:25-96 | NULLs, truth constants, NOT, AND, OR and the end marker |
| `Bytecode.LiteralOpcodes` | src/expr/operator_vector.cc:25-96 | floating-point words and decimal texts |
| `Bytecode.StringOpcode` | src/expr/operator_vector.cc:25-96 | counted strings |
| `Bytecode.CastOpcodes` | src/expr/operator_vector.cc:25-96 | casts, destination before source, checked and unchecked |
| `Bytecode.FunctionOpcode` | src/expr/operator_vector.cc:25-96 | numbered functions |
| `Bytecode.WordPlaces` | src/expr/codec.cc:70-82 | the first byte of a word counts most |
| `Bytecode.StringComparison` | src/expr/runner.h:30-44 | the program 17 03 61 62 63 17 01 61 93 07, 'abc' > 'a', is true |
| `Bytecode.Widening` | src/expr/runner.h:30-44 | the program 11 15 F0 21, int64(21), is 21 |
| `Bytecode.DoubleSum` | src/expr/runner.h:30-44 | the program 35 00 35 01 83 05 adds two columns of doubles |
| `Calculations.RemainderIsTruncated` | src/expr/calc/arithmetic.h:75-81 | the remainder is what division truncated toward zero leaves, smaller than the divisor and with the dividend's sign |
| `Calculations.BytesTransitive` | src/expr/calc/mathematic.cc:23-41 | the order of strings is transitive |
| `Calculations.FirstDifferenceDecides` | src/expr/calc/mathematic.cc:23-41 | the order of strings is lexicographic, prefixes first |
| `Calculations.StringExtremes` | src/expr/calc/mathematic.cc:23-41 | MIN and MAX of strings are one of the two and bound both |
| `Entries.CompareIsOrder` | src/expr/expr_string.h:63-85 | the comparison of strings is the order in which a proper prefix comes first and otherwise the first byte that differs decides |
| `Entries.StringEntries` | src/expr/operators.cc:215-411 | the comparisons of strings are that order and equality, first operand first; MIN and MAX the earlier and the later; ADD and SUB both concatenation |
| `Entries.BoolEntries` | src/expr/operators.cc:271-411 | comparisons, MIN and MAX of truth values, false before true |
| `Entries.FloatEntries` | src/expr/operators.cc:193-433 | each FLOAT entry is the primitive of its name on its operands in their order; division is NULL for a zero divisor |
| `Entries.DoubleEntries` | src/expr/operators.cc:193-433 | likewise DOUBLE |
| `Entries.DecimalEntries` | src/expr/operators.cc:193-433 | likewise DECIMAL |
| `Entries.MixedDivision` | src/expr/operator.h:141-171 | DIV of DOUBLE on two integers divides them as doubles |
| `Entries.TypedEntriesExist` | src/expr/operators.cc:193-433 | which types each operator has |
| `Entries.CastsExist` | src/expr/operators.cc:44-191 | which types can be cast to which |
| `Entries.WholeCasts` | src/expr/calc/casting.h:25-28 | casts among integers and truth values keep the number: widening exactly, a truth value as 0 or 1, a number true when it is not 0 |
| `Entries.NarrowingCast` | src/expr/calc/casting.cc:1667-1674 | 64 to 32 bits: kept when it fits; otherwise refused by the checked cast, and made the one congruent integer by the unchecked one |
| `Entries.OtherCasts` | src/expr/operators.cc:44-191 | every other cast is the library's of that name, or its exception |
| `Entries.TruthTests` | src/expr/calc/special.cc:19-37 | IS_TRUE is false and IS_FALSE true of 0, of false and of every string; a decimal is tested alike by both |
| `Entries.TestsOfNull` | src/expr/calc/special.h:23-41 | IS_NULL tells NULL from every value; NULL is neither true nor false |
| `Entries.FunctionEntries` | src/expr/operators.cc:438-493 | each numbered function is the library's of that number, given all its arguments in order |
| `Calculations.IntegerEntries` | src/expr/operators.cc:27-493 | every table entry for 32- and 64-bit integers, dates and timestamps calculates what its name says, first operand first: exact, or refused, or undefined, just where the source is; a zero divisor gives NULL and integer DIV a double |
| `Calculations.EntriesCheck` | src/expr/operators.cc:27-493 | every table entry is accepted by the type checker on operands of its type, with the result type the engine documents; integer DIV gives DOUBLE |
| `Calculations.CastsAndFunctionsCheck` | src/expr/operators.cc:27-493 | so is every cast and every numbered function |
| `Calculations.LeavesAndLogicCheck` | src/expr/operator.h:39-120 | so are NULLs, constants, columns of the schema, NOT, AND and OR, and DIV of DOUBLE on integers |
| `Operators.ExecAppend` | src/expr/runner.cc:21-26 | running concatenated code is running one piece after the other |
| `Expressions.OperatorSound` | src/expr/operator.h:88-198 | on operands the checker accepts, each operator has its SQL meaning (Kleene's AND, OR, NOT; NULL in, NULL out) and the predicted type |
| `Expressions.MachineSound` | src/expr/operator.h:88-198 | accepted code never pops an empty stack, reads a wrong variant or misses a column; it fails only because of its data: by overflow, or in a library function that throws |
| `Expressions.CompilerCorrect` | src/expr/runner.cc:21-32 | the postfix code of a well-typed tree pushes the tree's SQL value on any stack, or fails as the tree does |
| `Expressions.ConcatenationCorrect` | src/expr/runner.cc:21-32 | concatenated expressions leave their values in order |
| `Expressions.CompiledCodeChecks` | src/expr/operator_vector.cc:424-456 | the checker accepts the code of every well-typed tree |
| `Expressions.NullMonotone` | src/expr/operator.h:121-174 | without NULL tests, filling in NULLs fails or leaves every non-null value as it was |
| `StackMachine.Execute` | src/expr/operator.h:88-198 | an operator's pops and push, last operand first, as the specification of one step |
| `StackMachine.Runner.Decode` | src/expr/runner.h:30-32 | the runner's vector is the decoded one |
| `StackMachine.Runner.Run` | src/expr/runner.cc:21-26 | clears the stack and runs the vector, stopping at the first fault |
| `StackMachine.PostfixCompiles` | src/expr/operator_vector.cc:424-456 | decoding a tree's instructions gives its compiled code, identity casts dropped |
| `StackMachine.BytesToValue` | src/expr/runner.h:30-44 | the bytes of a well-typed tree, decoded and run, compute its SQL value |
| `Pipeline.PutAddsOneRow` | src/rel/op/tandem_op.cc:27-33 | a tuple adds to the weight of the cached rows at most that of one row before the first stage, and nothing if a result comes out |
| `Pipeline.PutCachesOneRow` | src/rel/op/tandem_op.cc:27-33 | a tuple adds at most one cached row in all stages together, and none if a result comes out |
| `Pipeline.Get` | src/rel/op/tandem_op.cc:35-44 | the drain loop ends: every result lowers the weight of the cached rows, and no result means nothing is cached anywhere |
| `Grouping.KeyColumns` | src/expr/utils.cc:71-77 | a key is the columns at the indices in order, and exists when they all do |
| `Grouping.KeysCompareExactly` | src/rel/op/grouped_agg_op.h:39 | keys without a floating-point or decimal column (`ExactKeys`) are equal to the hash map exactly when they are the same, NULLs included, so that its groups are those of the lemmas below |
| `Grouping.GroupOneMore` | src/rel/op/grouped_agg_op.cc:34-40 | the caches after one more tuple are the group-by with that tuple, NULL keys together; it fails exactly when some group cannot be folded (the source's groups under `ExactKeys`) |
| `Grouping.DrawnOnce` | src/rel/op/grouped_agg_op.cc:42-51 | each group is given up exactly once (the source's groups under `ExactKeys`) |
| `Grouping.OrderIrrelevant` | src/rel/op/grouped_agg_op.cc:42-51 | two orders of the hash map give the same rows |
| `Grouping.FoldIsPointwise` | src/rel/op/agg_op.cc:29-37 | each column of a cache is its own aggregate's fold |
| `Grouping.CountMeaning` | src/rel/op/agg.h:51-68 | COUNT is the number of non-null values, and NULL for none |
| `Grouping.CountAllMeaning` | src/rel/op/agg.cc:19-24 | COUNT_ALL is the number of tuples |
| `Grouping.FoldSkipsNulls` | src/rel/op/agg.h:70-88 | SUM, MAX and MIN of any type combine the non-null values of the column in order |
| `Grouping.FoldMeaning` | src/rel/op/agg.h:70-88 | SUM, MAX and MIN of a column of 32- or 64-bit integers, dates or timestamps are the exact sum, largest and smallest of its non-null values, and NULL for none; they fail exactly when a partial sum leaves the width, with that width's fault |
| `Grouping.ExtremesFit` | src/rel/op/agg.h:90-97 | MAX and MIN of such a column never do |
| `Grouping.FoldTexts` | src/rel/op/agg.h:90-97 | MAX and MIN of a column of strings are one of its non-null values and bound them all in byte order, and NULL for none |
| `Grouping.Extremes` | src/rel/op/agg.h:90-97 | the largest and smallest are elements and bound the others |
| `Grouping.GroupsPartition` | src/rel/op/grouped_agg_op.cc:34-40 | every tuple is in exactly one group (the source's groups under `ExactKeys`) |
| `Grouping.CountsAddUp` | src/rel/op/grouped_agg_op.cc:34-51 | COUNT_ALL over all groups drained adds up to the tuples put in |
| `PipelineMeaning.DrainedIsFresh` | src/rel/op/tandem_op.cc:35-44 | a drained chain is as freshly decoded and keeps returning nothing |
| `PipelineMeaning.DrainTandem` | src/rel/op/tandem_op.cc:35-44 | draining a tandem is draining the input into the output, then the output |
| `PipelineMeaning.TandemComposes` | src/rel/op/tandem_op.cc:27-44 | a run of a tandem is a run of the output on the run of the input, from any states |
| `PipelineMeaning.GroupedRun` | src/rel/op/grouped_agg_op.cc:34-51 | tuples put one after the other into a group-by leave the group-by of them all, and fail exactly when it cannot be folded (the source's groups under `ExactKeys`) |
| `GroupingRuns.DroppedGroups` | src/rel/op/grouped_agg_op.cc:42-51 | giving up a group leaves the group-by of the tuples without that group's |
| `GroupingRuns.InterleavedRun` | src/rel/op/grouped_agg_op.cc:34-51 | in every state reached by any sequence of Put and Get, the caches are the group-by of the tuples whose group has not been given up since they were put (the source's groups under `ExactKeys`) |
| `GroupingRuns.CountsConserved` | src/rel/op/grouped_agg_op.cc:34-51 | in every such state COUNT_ALL over the rows given up and the rows still cached adds up to the tuples put |
| `PipelineMeaning.RunMeaning` | src/rel/op/tandem_op.cc:27-44 | everything a chain gives out, at once and when drained, is the composition of its stages' list functions, for every order of every hash map; the run fails exactly when the composition does |
| `PipelineMeaning.TandemsAssociate` | src/rel/op/tandem_op.cc:27-44 | left- and right-nested tandems answer every sequence of Put and Get alike, failures included |
| `PipelineMeaning.ChainRun` | src/rel/rel_runner.cc:103-117 | a freshly decoded chain, nested to the left, applies its stages first to last |
| `CommandRuns.GetAnswers` | src/rel/op/tandem_op.cc:35-44 | asking for results until there is none gives exactly the drained rows; as many calls as the weight of the cached rows and one more are enough |
| `CommandRuns.CommandsAreTheRun` | src/rel/rel_runner.cc:103-109 | tuples put and results then asked for until there is none: the answers that are not null are the run's results, and with enough calls all answers are good exactly when the run is |
| `OrderIndependence.OrdersDoNotShow` | src/rel/op/grouped_agg_op.cc:42-51 | two chains that differ only in the orders of their hash maps give the same multiset of rows whenever both runs succeed, if all aggregates behind the first grouped stage are counts, integer sums, or extremes of integers, dates, timestamps or strings |
| `OrderIndependence.OrdersDoNotFail` | src/rel/op/grouped_agg_op.cc:42-51 | without sums there, one run succeeds if and only if the other does |
| `OrderIndependence.SumsMayFail` | src/rel/op/agg.h:70-88 | with sums not: the same values can overflow in one order and not in another |
| `TypedPipeline.FilterMeaning` | src/rel/op/filter_op.cc:29-38 | a compiled filter keeps the tuples on which its SQL value is true, and not those where it is NULL |
| `TypedPipeline.ProjectMeaning` | src/rel/op/project_op.cc:28-33 | a compiled projection gives the SQL values of its expressions in order |
| `TypedPipeline.FilterMonotone` | src/rel/op/filter_op.cc:29-38 | filling in NULLs cannot lose a tuple that a filter without NULL tests accepts |
| `TypedPipeline.PutSound` | src/rel/op/tandem_op.cc:27-33 | typed chains keep every cache and result of the predicted types at every Put |
| `TypedPipeline.GetSound` | src/rel/op/tandem_op.cc:35-44 | and at every Get |
| `TypedPipeline.RunSound` | src/rel/rel_runner.cc:103-109 | a run of a typed chain gives tuples of the predicted schema, or fails because of its data: by overflow, or in a library function that throws |
| `TypedPipeline.KeyTypesExist` | src/expr/utils.cc:71-77 | the type checker accepts a key exactly when its columns exist |
| `TypedPipeline.AggTypesExist` | src/rel/op/agg.h:51-88 | and aggregates exactly when each column exists and, for sums and extremes, has the aggregate's type |
| `RelOps.AddToCache` | src/rel/op/agg_op.cc:29-37 | folds a tuple into its cache in place, makes a cache if there is none, and frees the tuple |
| `RelOps.MapTupleNew` | src/expr/utils.cc:71-77 | a new tuple of the columns at the indices |
| `RelOps.FilterOp.Put` | src/rel/op/filter_op.cc:29-38 | hands the tuple back or frees it, by the filter's verdict |
| `RelOps.ProjectOp.Put` | src/rel/op/project_op.cc:28-33 | frees the tuple and allocates the projected one |
| `RelOps.UngroupedAggOp.Put` | src/rel/op/ungrouped_agg_op.cc:26-29 | refines the stage on values and accounts for every tuple |
| `RelOps.UngroupedAggOp.Get` | src/rel/op/ungrouped_agg_op.cc:31-38 | hands over the cache; over no rows there is none |
| `RelOps.GroupedAggOp.Put` | src/rel/op/grouped_agg_op.cc:34-40 | refines the stage on values, frees the key and the tuple, and owns the cache |
| `RelOps.GroupedAggOp.Get` | src/rel/op/grouped_agg_op.cc:42-51 | gives up one entry as a new tuple and frees its cache |
| `RelOps.GroupedAggOp.Destroy` | src/rel/op/grouped_agg_op.cc:27-32 | frees every remaining cache once |
| `RelOps.TandemOp.Put` | src/rel/op/tandem_op.cc:27-33 | refines the tandem on values and conserves tuples: each is the caller's, cached or freed |
| `RelOps.TandemOp.Get` | src/rel/op/tandem_op.cc:35-44 | the drain loop refines the tandem on values, ends, and conserves tuples |
| `RelOps.TandemOp.Destroy` | src/rel/op/tandem_op.cc:22-25 | frees what both parts cache, once |
| `RelOps.ValidElsewhere` | src/rel/op/tandem_op.cc:19-20 | an operator does not depend on tuples it does not own |
| `ChainWire.DecodeElements` | src/expr/codec.h:67-78 | fills the container or reports missing elements when the code ends |
| `ChainWire.DecodeCounted` | src/expr/codec.h:80-95 | a count, then that many elements |
| `ChainWire.AggRoundTrip` | src/rel/rel_runner.cc:123-233 | every aggregate that exists reads back from its code |
| `Bytecode.AggregateBytes` | src/rel/rel_runner.cc:123-233 | the aggregate each byte stands for, written out, and that no other byte does |
| `Bytecode.StageMarkers` | src/rel/rel_runner.cc:51-101 | the stage each marker stands for |
| `ChainWire.StageRoundTrip` | src/rel/rel_runner.cc:57-95 | every stage reads back, or a refused decimal text in it is the fault; filters and projections end with the marker, aggregates do not |
| `ChainWire.ChainRoundTrip` | src/rel/rel_runner.cc:51-101 | the code of a chain decodes to its stages, or to the fault of the first decimal text refused, and is used up |
| `RelationalRunner.RelRunner.Decode` | src/rel/rel_runner.cc:51-101 | releases the old chain, freeing what it cached, and leaves a fresh, left-nested chain of the decoded stages |
| `RelationalRunner.RelRunner.AppendOp` | src/rel/rel_runner.cc:111-117 | nests the chain so far as the input of a tandem |
| `RelationalRunner.RelRunner.Put` | src/rel/rel_runner.cc:103-105 | answers as the decoded chain on values, and conserves tuples |
| `RelationalRunner.RelRunner.Get` | src/rel/rel_runner.cc:107-109 | likewise; a chain with nothing cached answers null |
| `RelationalRunner.RelRunner.Release` | src/rel/rel_runner.h:39-42 | frees what the chain caches |
| `WholeRuns.CodeToResults` | src/rel/rel_runner.cc:51-117 | the bytes of a chain, decoded and run, give the composition of its stages' list functions |
| `WholeRuns.Session` | src/rel/rel_runner.cc:44-109 | for every sequence of commands the objects answer as the pipeline on values; after a run without failure and the release, the tuples given hold the results in their order, each a tuple of its own, and of all that was put in or made inside only they are still allocated |
| `WholeRuns.Query` | src/rel/rel_runner.cc:51-109 | code decoded, tuples put and results asked for until there is none: when nothing fails the results are the composition of the stages' list functions, the tuples given hold them, and only they are still allocated |
| `TypedQueries.QueryComputes` | src/rel/rel_runner.cc:51-117 | the bytes of a chain of typed trees, decoded and run, give exactly the rows of its list functions over the trees' SQL values: rows on which a condition is true, values of the projections, groups, aggregates; or fail as these do |
| `TypedQueries.NodeSound` | src/rel/op/project_op.cc:28-33 | each such list function makes rows of its schema from rows of the schema before |
| `DecimalRounding.ToString` | src/types/decimal/decimal.cc:76-131 | the text is the plain layout of the library's digits, with no superfluous zeros in front or behind |
| `DecimalRounding.PlainTextIsExact` | src/types/decimal/decimal.cc:76-131 | that text denotes exactly the number |
| `DecimalRounding.ToStringScaled` | src/types/decimal/decimal.cc:133-254 | the branches and loops write the cut, incremented and padded digits, for scales of either sign, or throw; the form is `ScaledTextForm` |
| `DecimalRounding.ScaledTextForm` | src/types/decimal/decimal.cc:187-254 | no point at scale 0 and otherwise exactly `scale` places, with as many digits before the point as the number has, or one zero; a number below a tenth is not padded |
| `DecimalRounding.RepeatedTextForm` | src/types/decimal/decimal.cc:241-249 | at a negative scale: no point, twice the digits kept, and exactly which number |
| `DecimalRounding.RoundIsNearest` | src/types/decimal/decimal.cc:133-254 | what rounding to a scale means for numbers of either sign: no multiple of the last place is nearer, halves go away from zero |
| `DecimalRounding.RoundedCut` | src/types/decimal/decimal.cc:163-185 | cutting the digits and looking at the first one cut is rounding half away from zero |
| `DecimalRounding.CutTextValue` | src/types/decimal/decimal.cc:163-254 | when digits are cut and none is printed twice, the text denotes the rounded value, or a tenth of it when the increment carries out of all nines |
| `DecimalRounding.ScaledTextIsRounded` | src/types/decimal/decimal.cc:133-254 | the text denotes the rounded value if and only if the increment is not lost (not all nines kept before a cut digit of at least 5, and not no digit kept before one) and, at a negative scale with digits left, their number is half of the digits before the point |
| `DecimalRounding.CarryThrows` | src/types/decimal/decimal.cc:191-249 | a carry at a negative scale leaves one digit, and then the code throws unless two digits stand before the point |
| `DecimalRounding.CarryLost` | src/types/decimal/decimal.cc:177-185 | 9.99 to one place prints as 1.0 |
| `DecimalRounding.UnitLost` | src/types/decimal/decimal.cc:164-166 | 0.6 to no places prints as 0 |
| `DecimalRounding.DigitsRepeated` | src/types/decimal/decimal.cc:241-249 | 123 to the nearest ten prints as 1202 |
| `DecimalRounding.ScaleThrows` | src/types/decimal/decimal.cc:241-249 | 12000 to the nearest hundred starts a substring behind the end and throws |

## Left out

- Power-of-five tables and the 128-bit products of `mulShift`: step 3 uses the exact quotients they are
  built to give; `log10Pow2` and `log10Pow5` are taken by what they return, the floor of a logarithm.
- The source's `acceptBounds` is constantly false, so the loop for trailing zeros of vm never runs and is
  not modelled. Masks and shifts are written as remainders and divisions by powers of two.
- `Cast<String>(double)`: the buffer that the shortest printing fills is overwritten by a library call,
  so nothing is claimed about it; `d2s_strfromd` and the formatted output functions are library formatting.
- Floating-point and decimal arithmetic, trigonometric and string functions, and casts through text are
  parameters (`Prims`), which may throw; nothing is claimed about what they return.
- Grouping.GroupOneMore: groups by the model's values, floats by bit pattern and decimals as unexamined
  ones, where the source takes -0.0 and 0.0 as one key, each NaN as a key of its own, and decimals by their
  text; `ExactKeys` is the case without such key columns, and there the two agree.
- Codec.DecodeVarint: makes a value past the target type a `Malformed` fault, where the source wraps around
  or shifts by more than the width.
- Unchecked 32-bit overflow, and the remainder of the least integer by -1, are one fault, `Undefined`;
  so is a count that leaves 64 bits.
- Truncated code is the fault `Malformed`, where the source reads on past the end; so is a missing array
  tag, which the source asserts.
- The least 32- and 64-bit integers have no encoding, because constants are sent as negated magnitudes.
- WholeRuns.Session: says nothing about what is allocated after a failure, where the source leaves the tuple
  at hand to nobody, and does not model the release of a chain that has failed.
- RelOps.FilterOp.Put: binds the value of the tuple to the operand stack, so the pointer that the source
  leaves there after the tuple is freed is not modelled; the same holds of projections.
- ShortestPrint.DoubleToShortestDecimalBufn: does not tell NaNs apart, because they all print as NaN.
- Operators, aggregates and runners are not freed in the model; only tuples are accounted for.
- `Cast` of decimals, `IsFalse` of decimals (it tests like IS_TRUE, and the model follows it), the unary
  decimal operators, `toString1`, hexadecimal helpers and adaptors.
- `get_str` of the decimal library is taken by what it returns, and the increment of the kept digits as
  exact, which it is while they fit the library's precision; the number of digits wanted, exponent plus
  scale, fits the `int` it is kept in.
