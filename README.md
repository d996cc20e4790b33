# Pastel core, modelled in Dafny

This project models the core of Pastel, a C++ library of data structures,
computational geometry, arbitrary-precision arithmetic and image handling,
and proves properties of that model. Each Dafny module follows one C++
header or a closely related group of them:

- `Wrappers`, `Bits`, `Divisibility`: shared helpers: `Option`, powers of two and bit fields, divisibility facts
- `MultiIntegerWords`, `MultiIntegerBits`, `MultiIntegers`, `MultiIntegerShifts`, `MultiIntegerDivision`, `MultiIntegerConversion`: `MultiInteger<N, Signed>`: a fixed-width two's-complement integer kept in 16-bit words, with its bit operations, comparisons, arithmetic, shifts, division and conversions
- `Integers`: the older `Integer<N, Signed>`, which keeps the same word array
- `BigDigits`, `BigIntegers`, `BigIntegerProducts`, `BigIntegerDivision`, `BigIntegerShifts`, `BigIntegerText`: `BigInteger`: sign and magnitude over base-2^16 digits, with addition, subtraction, multiplication, division, shifts and decimal text
- `Rationals`: `Rational<Integer>` over extended reals: infinities, NaN, normalisation, arithmetic, comparison, floor and ceiling
- `Tuples`, `ArrayIndexing`, `Arrays`: `Tuple<Type, N>` and the multi-dimensional `Array<Type, N>` with its storage orders, strides and positions
- `AutomatonMarks`, `Automata`, `AutomataLegacy`: the finite automaton (states, transitions, start and final marks, the counters of epsilon and ambiguous transitions), in its current and its older header
- `FastLists`: `FastList`, a doubly linked list with splicing, sorting, merging, `unique` and `reverse`
- `Trees`: `Tree`, a binary tree with a sentinel, insertion, detaching, rotation and erasure
- `RefinablePartitions`, `RefinablePartitionSets`: the refinable partition of Hopcroft's minimisation: sets, marks, splitting
- `UnorderedTables`: `UnorderedBase`, the hash table with bucket runs in one list, insertion, erasure and rehashing
- `KdTrees`: `KdTree`: subdivision, insertion of objects, clearing, refinement
- `TemporalKdTree`: `TdTree`: the temporal kd-tree's points, time index and construction choices
- `MaximumBipartiteMatchings`: Hopcroft-Karp maximum bipartite matching
- `MaximumCliqueAlignedBox`: the sweep that finds the maximum clique of aligned boxes
- `Drawing`, `FloodFill`: pixel drawing of lines and boxes, and the scanline flood fill
- `PcxLoad`, `PcxSave`: the PCX image loader and saver: header, run-length scanlines, palettes and planes

Operations that change an object in place are methods of a Dafny class
with the object's fields; algorithms that work through a loop are methods
with loop invariants; the rest are functions. Each method is stated
against a specification function, and lemmas prove what the C++ promises
of that function: round trips, invariants kept, values computed.

Where the C++ code does not do what its documentation or its tests say,
the project keeps two members: one that follows the code as written, with
a lemma exhibiting the input that shows the difference, and a corrected
one, which the rest of the model uses. Those pairs are listed under
"## Findings".

## Model

| member | source | states |
|---|---|---|

| ArrayIndexing.OrderNameOf | pastel/sys/array.hpp:618-626 | storageOrder() reads back the order setStorageOrder() set, except that one axis cannot tell the two orders apart |
| ArrayIndexing.OrderInvolution | pastel/sys/array.hpp:594-615 | both order_ vectors are permutations of the axes that undo themselves |
| ArrayIndexing.ArrangeTwice | pastel/sys/array.hpp:711-735 | arranging the axes in storage order twice restores them |
| ArrayIndexing.ProdArrange | pastel/sys/array.hpp:711-735 | the number of elements does not depend on the storage order |
| ArrayIndexing.IndexHorner | pastel/sys/array.hpp:564-571 | index(position), the dot product with the stride, is the mixed-radix value of the position in storage order |
| ArrayIndexing.IndexInBuffer | pastel/sys/array.hpp:564-571 | every position inside the extent has an index inside the buffer |
| ArrayIndexing.StrideByOrder | pastel/sys/array.hpp:711-735 | the stride computeStride() builds, each axis in storage order stepping over the ones before it, is StrideFor |
| ArrayIndexing.PositionOfIndex | pastel/sys/array.hpp:554-571 | position(index(p)) == p for every p inside the extent, so no two positions share an element |
| ArrayIndexing.IndexOfPosition | pastel/sys/array.hpp:554-571 | index(position(k)) == k for every k inside the buffer |
| Arrays.CopyByPosition | pastel/sys/array.hpp:789-892 | every position of the new extent receives the element of the source at the same position, or the default outside the source's extent |
| Arrays.SingleAxisStride | pastel/sys/array.hpp:711-735 | on one axis both storage orders give the stride [1] |
| Arrays.Array.Init | pastel/sys/array.hpp:19-29 | Array() has no elements, a zero extent, and row-major order |
| Arrays.Array.Filled | pastel/sys/array.hpp:48-73 | Array(extent, defaultData, order) holds defaultData everywhere, in the given order |
| Arrays.Array.Copy | pastel/sys/array.hpp:75-94 | Array(that) and Array(that, order) have that's extent and the same element at every position, laid out in the given order |
| Arrays.Array.Larger | pastel/sys/array.hpp:103-126 | Array(that, extent, defaultData, order) keeps that's element at positions inside both extents and holds defaultData elsewhere |
| Arrays.Array.ComputeStride | pastel/sys/array.hpp:711-735 | computeStride() sets the stride for the extent and order and changes nothing else |
| Arrays.Array.SetStorageOrder | pastel/sys/array.hpp:594-615 | setStorageOrder() sets the order vector and the matching stride and keeps extent and data |
| Arrays.Array.StorageOrderOf | pastel/sys/array.hpp:618-626 | storageOrder() names an order whose order vector and stride are the current ones |
| Arrays.Array.Clear | pastel/sys/array.hpp:135-148 | clear() leaves no elements, a zero extent and stride, and the same order |
| Arrays.Array.Swap | pastel/sys/array.hpp:151-159 | swap() exchanges extent, stride, order, size and buffer |
| Arrays.Array.SetExtent | pastel/sys/array.hpp:162-186 | setExtent() with no elements clears; otherwise positions inside both extents keep their element and new positions hold the default |
| Arrays.Array.Reshape | pastel/sys/array.hpp:195-210 | reshape() to an extent of the same size keeps the buffer and order and sets the extent (an empty array stays as it is) |
| Arrays.Array.Empty | pastel/sys/array.hpp:213-216 | empty() holds exactly when no position lies inside the extent |
| Arrays.Array.AtIndex | pastel/sys/array.hpp:308-321 | operator()(index) returns the element of the position stored at that index |
| Arrays.Array.IndexOf | pastel/sys/array.hpp:564-571 | index(position) lies in the buffer and maps back to the position |
| Arrays.Array.PositionOf | pastel/sys/array.hpp:554-561 | position(index) lies inside the extent and maps back to the index |
| Arrays.Array.AtPosition | pastel/sys/array.hpp:324-338 | operator()(position) returns the element at the position |
| Arrays.Array.Assign | pastel/sys/array.hpp:232-249 | operator=(Array) gives this array that's extent and that's element at every position, in this array's storage order |
| Arrays.Array.AssignElements | pastel/sys/array.hpp:283-305 | assign() copies the elements of an array with the same extent, position by position when the orders differ |
| Arrays.Array.AssignList | pastel/sys/array.hpp:265-271 | operator=(initializer_list) overwrites the first min(size, size of list) elements of the buffer |
| Arrays.Array.Fill | pastel/sys/array.hpp:274-280 | operator=(Type) makes every element x |
| Automata.Targets | pastel/sys/automaton/automaton.h:1122-1134 | branchMap(state, symbol) holds exactly the targets of the transitions from the state with the symbol |
| Automata.InBranches | pastel/sys/automaton/automaton.h:774-779 | a (state, symbol) pair has an entry in the branch map exactly when its branch-set is non-empty |
| Automata.BranchesAdd | pastel/sys/automaton/automaton.h:641-747 | adding a transition adds its (state, symbol) pair to the branch map and nothing else |
| Automata.AmbiguityAdd | pastel/sys/automaton/automaton.h:661-713 | a new transition adds one ambiguous transition exactly when its branch-set was already non-empty |
| Automata.AmbiguityRemove | pastel/sys/automaton/automaton.h:757-785 | removing a transition removes one ambiguous transition exactly when its branch-set keeps another target |
| Automata.BranchesBound | pastel/sys/automaton/automaton.h:1084-1090 | there are at most as many branch-sets as transitions, and as many exactly when no branch-set holds two targets |
| Automata.EpsilonsAdd | pastel/sys/automaton/automaton.h:701-706 | a new transition with the empty symbol adds one epsilon-transition, any other adds none |
| Automata.EpsilonsRemove | pastel/sys/automaton/automaton.h:767-770 | removing a transition with the empty symbol removes one epsilon-transition, any other removes none |
| Automata.CountsUnion | pastel/sys/automaton/automaton.h:946-974 | the epsilon and ambiguous counts of two automata with disjoint states add up in their merge |
| Automata.SingleTargetsSizes | pastel/sys/automaton/automaton.h:1087-1090 | no two transitions share a branch-set exactly when each transition's branch-set holds only its own target |
| Automata.EpsilonsEmpty | pastel/sys/automaton/automaton.h:1077-1080 | the epsilon count is zero exactly when every transition has a symbol |
| Automata.Automaton.constructor | pastel/sys/automaton/automaton.h:71-78 | Automaton() has no states, transitions or marks and zero counters |
| Automata.Automaton.Copy | pastel/sys/automaton/automaton.h:88-139 | the copy has the same states, transitions, start and final lists and the same counters |
| Automata.Automaton.CopyTransitions | pastel/sys/automaton/automaton.h:111-121 | adding the transitions one by one rebuilds exactly the transition set, with counters that agree with it |
| AutomatonMarks.CopyMarks | pastel/sys/automaton/automaton.h:123-138 | marking the states of a repetition-free list one by one rebuilds the same list |
| Automata.Automaton.Clear | pastel/sys/automaton/automaton.h:184-194 | clear() removes every state, transition and mark and zeroes both counters |
| Automata.Automaton.ClearTransitions | pastel/sys/automaton/automaton.h:206-214 | clearTransitions() removes every transition, zeroes both counters and keeps states and marks |
| Automata.Automaton.ClearStart | pastel/sys/automaton/automaton.h:226-234 | clearStart() empties the start list and changes nothing else |
| Automata.Automaton.ClearFinal | pastel/sys/automaton/automaton.h:246-254 | clearFinal() empties the final list and changes nothing else |
| Automata.Automaton.Swap | pastel/sys/automaton/automaton.h:264-276 | swap() exchanges states, transitions, mark lists and both counters |
| Automata.Automaton.AddState | pastel/sys/automaton/automaton.h:288-304 | addState() returns a state that was not there and adds only it |
| Automata.Automaton.RemoveState | pastel/sys/automaton/automaton.h:314-341 | removeState() removes the state, every transition touching it and its marks, keeping the counters in agreement |
| AutomatonMarks.Marked | pastel/sys/automaton/automaton.h:364-389 | marking keeps the list free of repetitions and leaves it holding the state |
| AutomatonMarks.Unmarked | pastel/sys/automaton/automaton.h:399-414 | unmarking leaves the other entries in order and the state absent |
| AutomatonMarks.MarksAppend | pastel/sys/automaton/automaton.h:968-973 | the start and final lists spliced by merge() hold the states of both lists |
| AutomatonMarks.DistinctAppend | pastel/sys/automaton/automaton.h:968-973 | two repetition-free lists over disjoint states splice into a repetition-free list |
| AutomatonMarks.MarkedIdempotent | pastel/sys/automaton/automaton.h:367-370 | marking an already marked state changes nothing |
| AutomatonMarks.MarkedDistinct | pastel/sys/automaton/automaton.h:364-389 | marking keeps a repetition-free list repetition-free |
| AutomatonMarks.UnmarkedAbsent | pastel/sys/automaton/automaton.h:402-405 | unmarking a state that is not marked changes nothing |
| AutomatonMarks.UnmarkedDistinct | pastel/sys/automaton/automaton.h:399-414 | unmarking removes exactly one entry from a repetition-free list that holds the state |
| AutomatonMarks.UnmarkMarked | pastel/sys/automaton/automaton.h:364-414 | unmarking undoes the marking of a state that was not marked |
| AutomatonMarks.UnmarkedAppend | pastel/sys/automaton/automaton.h:398-412 | removeStart() of a state last pushed onto a start list that did not hold it erases that one entry and gives the earlier list back |
| Automata.Automaton.AddStart | pastel/sys/automaton/automaton.h:364-389 | addStart() appends the state to the start list unless it is there and changes nothing else |
| Automata.Automaton.RemoveStart | pastel/sys/automaton/automaton.h:399-414 | removeStart() erases the state from the start list, if present, and changes nothing else |
| Automata.Automaton.AddFinal | pastel/sys/automaton/automaton.h:476-501 | addFinal() appends the state to the final list unless it is there and changes nothing else |
| Automata.Automaton.RemoveFinal | pastel/sys/automaton/automaton.h:511-527 | removeFinal() erases the state from the final list, if present, and changes nothing else |
| Automata.Automaton.AddTransition | pastel/sys/automaton/automaton.h:641-747 | addTransition() adds the transition when the customization allows it, returns it, and raises each counter exactly when the new transition is an epsilon one or joins a non-empty branch-set |
| Automata.Automaton.RemoveTransition | pastel/sys/automaton/automaton.h:757-785 | removeTransition(), corrected: the ambiguous count drops whenever the branch-set keeps another target, so the counters keep agreeing with the transitions |
| Automata.Automaton.RemoveTransitionAsWritten | pastel/sys/automaton/automaton.h:757-785 | removeTransition() as written: the ambiguous count drops only when exactly one target is left |
| Automata.RemovalsAsWrittenLeaveAmbiguity | pastel/sys/automaton/automaton.h:772-777 | after removing the three transitions of one branch-set as written, an automaton with no transitions and no start state is reported non-deterministic |
| Automata.Automaton.Merge | pastel/sys/automaton/automaton.h:946-974 | merge(), corrected: the states, transitions and mark lists of both automata are joined, that automaton is emptied, and both keep counters that agree with their transitions |
| Automata.Automaton.MergeAsWritten | pastel/sys/automaton/automaton.h:946-974 | merge() as written: the same joining, but neither automaton's counters change |
| Automata.Automaton.MergeStructure | pastel/sys/automaton/automaton.h:950-973 | the branch maps, graph and mark lists of the two automata are joined and that automaton is left empty |
| Automata.MergeAsWrittenLosesEpsilon | pastel/sys/automaton/automaton.h:946-974 | merging in an automaton with an epsilon-transition as written leaves an automaton that holds one and is reported deterministic |
| Automata.Automaton.EpsilonTransitions | pastel/sys/automaton/automaton.h:1077-1080 | epsilonTransitions() is the number of transitions with the empty symbol |
| Automata.Automaton.AmbiguousTransitions | pastel/sys/automaton/automaton.h:1087-1090 | ambiguousTransitions() is never negative and is zero exactly when no branch-set holds two targets |
| Automata.Automaton.Useful | pastel/sys/automaton/automaton.h:981-985 | useful() holds exactly when there is a start state and a final state |
| Automata.Automaton.Deterministic | pastel/sys/automaton/automaton.h:1102-1107 | deterministic() holds exactly when there is at most one start state, no epsilon-transition and no branch-set with two targets |
| Automata.Automaton.FindTransition | pastel/sys/automaton/automaton.h:1033-1046 | findTransition(from, symbol) returns a transition of the branch-set, or none exactly when it is empty |
| Automata.Automaton.FindTransitionTo | pastel/sys/automaton/automaton.h:1053-1069 | findTransition(from, symbol, to) returns the transition exactly when it is present |
| Automata.Automaton.ExistsTransition | pastel/sys/automaton/automaton.h:1006-1012 | existsTransition(from, symbol) holds exactly when some transition leaves from with the symbol |
| Automata.Automaton.ExistsTransitionTo | pastel/sys/automaton/automaton.h:1019-1026 | existsTransition(from, symbol, to) holds exactly when that transition is present |
| BigDigits.SubtractAsWritten | pastel/math/biginteger.cpp:769-818 | subtract() as written, when its borrow search stays inside the digits, returns a digit vector no longer than the left operand, trimmed when the right operand has digits |
| BigDigits.TrimDigitsValue | pastel/math/biginteger.cpp:13-34 | dropping zero top digits keeps the value and the digit range |
| BigDigits.Trim | pastel/math/biginteger.cpp:13-34 | trim() leaves no zero top digit and keeps the value |
| BigDigits.Add | pastel/math/biginteger.cpp:710-767 | add() of digit vectors yields the sum of the magnitudes, at most one digit longer, the carry digit being 1 |
| BigDigits.Borrow | pastel/math/biginteger.cpp:791-802 | the borrow takes one unit from the lowest non-zero digit above i and fills the zeros between with 0xFFFF, so the value drops by exactly 0x10000^(i+1) and digits up to i are untouched |
| BigDigits.Subtract | pastel/math/biginteger.cpp:769-818 | the corrected subtract() yields the difference of the magnitudes, trimmed, no longer than the left operand |
| BigDigits.SubtractLosesBorrow | pastel/math/biginteger.cpp:769-818 | subtract() as written on [0, 2] - [1, 1] yields [0xFFFF, 1] = 131071 instead of 65535: the borrow taken from digit 1 is overwritten by left[1] - right[1] |
| BigDigits.AbsoluteLessThan | pastel/math/biginteger.cpp:686-708 | absoluteLessThan() compares lengths first and then digits top-down; on trimmed vectors it holds exactly when the first magnitude is smaller |
| BigDigits.AbsoluteEqual | pastel/math/biginteger.cpp:665-684 | absoluteEqual() holds exactly when the digit vectors are equal |
| BigDigits.MagInjective | pastel/math/biginteger.cpp:665-684 | trimmed digit vectors of equal value are equal, so absoluteEqual() is equality of magnitudes |
| BigDigits.ShiftDigitsLeft | pastel/math/biginteger.cpp:820-842 | shiftDigitsLeft() multiplies the value by 0x10000^byDigits and leaves zero alone |
| BigDigits.ShiftDigitsRight | pastel/math/biginteger.cpp:844-871 | shiftDigitsRight() divides the value by 0x10000^byDigits, rounding down |
| BigIntegers.SignsClassify | pastel/math/biginteger.cpp:122-135 | zero(), positive() and negative() hold exactly when the value is zero, positive or negative |
| BigIntegers.ValueInjective | pastel/math/biginteger.cpp:403-406 | two valid BigIntegers with the same value have the same sign and digits |
| BigIntegers.Neg | pastel/math/biginteger.cpp:274-282 | unary minus negates the value and keeps the digits; zero stays non-negative |
| BigIntegers.NegInvolution | pastel/math/biginteger.cpp:274-282 | negating twice gives the same number back |
| BigIntegers.Plus | pastel/math/biginteger.cpp:284-365 | operator+ yields a valid number whose value is the sum, using the corrected subtract() |
| BigIntegers.Minus | pastel/math/biginteger.cpp:391-394 | operator- yields the difference |
| BigIntegers.Equal | pastel/math/biginteger.cpp:403-406 | operator== holds exactly when the values are equal |
| BigIntegers.Less | pastel/math/biginteger.cpp:408-430 | operator< holds exactly when the first value is smaller |
| BigIntegers.FromInteger | pastel/math/biginteger.cpp:84-102 | the corrected constructor from an integer has exactly that value |
| BigIntegers.FromIntegerAsWrittenSmall | pastel/math/biginteger.cpp:84-102 | below 2^32 in magnitude the constructor as written agrees with the corrected one |
| BigIntegers.FromIntegerAsWrittenTruncates | pastel/math/biginteger.cpp:84-102 | the constructor as written turns 2^32 into digits [0, 0] of value 0: the upper bits are cut to one 16-bit digit |
| BigIntegers.AsNative | pastel/math/biginteger.cpp:165-201 | asNative() is the value when it fits in 32 bits and saturates to the largest or smallest integer otherwise |
| BigIntegerDivision.TruncatedDivision | pastel/math/biginteger.cpp:482-526 | the quotient rounded toward zero leaves a remainder smaller than the divisor with the sign of the dividend |
| BigIntegerDivision.Divide | pastel/math/biginteger.cpp:482-526 | operator/= yields the quotient rounded toward zero |
| BigIntegerDivision.Modulo | pastel/math/biginteger.cpp:374-389 | operator% yields abs(a) mod abs(b) (the magnitude less the quotient times the divisor) |
| BigIntegerDivision.DivideModulo | pastel/math/biginteger.cpp:374-389 | quotient and remainder recombine to abs(a), and to a for non-negative a |
| BigIntegerProducts.ShiftedProductValue | pastel/math/biginteger.cpp:645-663 | the digit constructor BigInteger(value, digitShift) stands for value * 0x10000^digitShift for a value below 2^32 |
| BigIntegerProducts.ShiftedProductAsWrittenSmall | pastel/math/biginteger.cpp:645-663 | below 2^31 the int32 constructor as written agrees with the corrected one |
| BigIntegerProducts.ShiftedProductAsWritten | pastel/math/biginteger.cpp:645-663 | the int32 constructor as written takes the sign from value >= 0 and lays out digitShift zero digits followed by one or two digits |
| BigIntegerProducts.DigitProductOverflows | pastel/math/biginteger.cpp:465-480 | multiply() as written forms 0xFFFF * 0xFFFF in int32, which wraps to -131071 and becomes a negative digit product |
| BigIntegerProducts.MultiplyDigit | pastel/math/biginteger.cpp:465-480 | the corrected multiply(d) multiplies the magnitude by the digit d |
| BigIntegerProducts.Times | pastel/math/biginteger.cpp:432-463 | operator*= yields the product, zero when either side is zero |
| BigIntegerProducts.TimesValue | pastel/math/biginteger.cpp:452-453 | the result sign !(negative() xor that.negative()) gives the signed product |
| BigIntegerShifts.ShiftBitsUp | pastel/math/biginteger.cpp:551-568 | the bit-carry loop of operator<<= multiplies the magnitude by 2^offset |
| BigIntegerShifts.ShiftLeft | pastel/math/biginteger.cpp:535-580 | operator<<= multiplies the value by 2^byBits |
| BigIntegerShifts.ShiftBitsDown | pastel/math/biginteger.cpp:599-613 | the bit-carry loop of operator>>= divides the magnitude by 2^offset, rounding down |
| BigIntegerShifts.ShiftRight | pastel/math/biginteger.cpp:582-632 | operator>>= divides the magnitude by 2^byBits and keeps the sign |
| BigIntegerShifts.ShiftRightValue | pastel/math/biginteger.cpp:582-625 | shifting by whole digits and then by the remaining bits is a shift by byBits |
| BigIntegerText.StringValue | pastel/math/biginteger.cpp:44-82 | the corrected string constructor succeeds exactly when the first token, after its sign, is all decimal digits, and then yields a valid number |
| BigIntegerText.StringValueAsWritten | pastel/math/biginteger.cpp:44-82 | the string constructor as written: the same acceptance, with the sign set before the digits are read |
| BigIntegerText.ParseAsWritten | pastel/math/biginteger.cpp:44-82 | the digit loop as written (times ten, then add the digit) computes the as-written value |
| BigIntegerText.ParseString | pastel/math/biginteger.cpp:44-82 | the corrected loop computes the corrected value |
| BigIntegerText.DecimalTextValue | pastel/math/biginteger.cpp:67-78 | reading the decimal text of n gives n back |
| BigIntegerText.ParseDecimalText | pastel/math/biginteger.cpp:44-82 | the corrected constructor inverts decimal printing, with or without a leading minus |
| BigIntegerText.NegativeTextLosesSign | pastel/math/biginteger.cpp:58-78 | as written, "-n" parses to +n: operator*= on the initial zero resets the sign |
| BigIntegerText.LoneMinusAsWritten | pastel/math/biginteger.cpp:58-64 | as written, "-" parses to a negative zero, which is not a valid BigInteger |
| MaximumCliqueAlignedBox.CompareType | pastel/geometry/maximum_clique_alignedbox.hpp:40-113 | compareType() is the enum order with ClosedMin and ClosedMax swapped, a strict total order on where endpoints take effect |
| MaximumCliqueAlignedBox.EventLess | pastel/geometry/maximum_clique_alignedbox.hpp:140-160 | Event::operator< orders by position, then by compareType, then by box index |
| MaximumCliqueAlignedBox.EventLessStrictTotal | pastel/geometry/maximum_clique_alignedbox.hpp:140-160 | Event::operator< is irreflexive, transitive and total on distinct events, as std::sort and the tree need |
| MaximumCliqueAlignedBox.Weight | pastel/geometry/maximum_clique_alignedbox.hpp:216-250 | a starting endpoint counts +1 and an ending endpoint -1 |
| MaximumCliqueAlignedBox.MaxPrefix | pastel/geometry/maximum_clique_alignedbox.hpp:174-190 | maxCliqueSize of a subtree is -1 when it is empty and never below -1 |
| MaximumCliqueAlignedBox.SumAppend | pastel/geometry/maximum_clique_alignedbox.hpp:239-242 | actives adds up over the left subtree, the node and the right subtree |
| MaximumCliqueAlignedBox.MaxPrefixAtLeastSum | pastel/geometry/maximum_clique_alignedbox.hpp:206-288 | the largest prefix sum is at least the whole sum |
| MaximumCliqueAlignedBox.MaxPrefixAppend | pastel/geometry/maximum_clique_alignedbox.hpp:244-282 | the largest prefix sum of a joined sequence is the larger of the first part's and the first part's sum plus the second's |
| MaximumCliqueAlignedBox.PrefixSumAtMost | pastel/geometry/maximum_clique_alignedbox.hpp:206-288 | every prefix sum is at most maxCliqueSize |
| MaximumCliqueAlignedBox.MaxPrefixAttained | pastel/geometry/maximum_clique_alignedbox.hpp:206-288 | some prefix sum attains maxCliqueSize |
| MaximumCliqueAlignedBox.UpdatePropagation | pastel/geometry/maximum_clique_alignedbox.hpp:206-288 | updatePropagation() sums actives and gives a maxCliqueSize at least the prefix through the node |
| MaximumCliqueAlignedBox.PropagationIsPrefixMaximum | pastel/geometry/maximum_clique_alignedbox.hpp:206-288 | at every node actives is the sum of the subtree's weights in order and maxCliqueSize its largest prefix sum |
| MaximumCliqueAlignedBox.RootCliqueSize | pastel/geometry/maximum_clique_alignedbox.hpp:636-639 | the root's maxCliqueSize depends only on the events in the tree, not on its shape |
| MaximumCliqueAlignedBox.CliqueCandidates | pastel/geometry/maximum_clique_alignedbox.hpp:290-341 | at every node one of cliqueHere, cliqueOnLeft, cliqueOnRight holds, and each names where the maximum prefix ends |
| MaximumCliqueAlignedBox.FollowSplits | pastel/geometry/maximum_clique_alignedbox.hpp:351-385 | following a path splits the in-order events into those before, the subtree and those after |
| MaximumCliqueAlignedBox.FollowStep | pastel/geometry/maximum_clique_alignedbox.hpp:373-381 | one more step down extends the events before the subtree by the skipped part |
| MaximumCliqueAlignedBox.DescendStep | pastel/geometry/maximum_clique_alignedbox.hpp:453-466 | stepping into a candidate subtree keeps the descent on a maximum prefix |
| MaximumCliqueAlignedBox.DescentEnds | pastel/geometry/maximum_clique_alignedbox.hpp:413-470 | where the descent stops, the node ends a maximum prefix of the whole tree |
| MaximumCliqueAlignedBox.Candidates | pastel/geometry/maximum_clique_alignedbox.hpp:420-442 | the candidate set holds exactly the directions where a maximum lies, and at least one |
| MaximumCliqueAlignedBox.FindSomeMaximumClique | pastel/geometry/maximum_clique_alignedbox.hpp:388-471 | findSomeMaximumClique() returns a node that ends a maximum prefix and the path of Left/Right steps to it |
| MaximumCliqueAlignedBox.FindMaximumClique | pastel/geometry/maximum_clique_alignedbox.hpp:351-385 | findMaximumClique() returns the node at the end of the recorded path |
| MaximumCliqueAlignedBox.MinEvent | pastel/geometry/maximum_clique_alignedbox.hpp:612-619 | the starting x-event of a box has its minimum coordinate and its index |
| MaximumCliqueAlignedBox.MaxEvent | pastel/geometry/maximum_clique_alignedbox.hpp:621-627 | the ending x-event of a box has its maximum coordinate and its index |
| MaximumCliqueAlignedBox.SweepEvents | pastel/geometry/maximum_clique_alignedbox.hpp:534-566 | the event list holds, for each box in turn, its starting and then its ending y-event |
| MaximumCliqueAlignedBox.InsertMembers | pastel/geometry/maximum_clique_alignedbox.hpp:629-631 | tree.insert() adds exactly the event |
| MaximumCliqueAlignedBox.EraseMembers | pastel/geometry/maximum_clique_alignedbox.hpp:697-703 | tree.erase() removes the event from an ordered tree and adds nothing |
| MaximumCliqueAlignedBox.InsertIncreasing | pastel/geometry/maximum_clique_alignedbox.hpp:629-631 | insertion keeps the tree's events in order |
| MaximumCliqueAlignedBox.EraseIncreasing | pastel/geometry/maximum_clique_alignedbox.hpp:697-703 | erasure keeps the tree's events in order |
| MaximumCliqueAlignedBox.ActiveIncreasing | pastel/geometry/maximum_clique_alignedbox.hpp:597-704 | the tree's events are in order after every y-event |
| MaximumCliqueAlignedBox.BestSize | pastel/geometry/maximum_clique_alignedbox.hpp:636-679 | the recorded clique size is 0 or above 1 |
| MaximumCliqueAlignedBox.BestSizeBounds | pastel/geometry/maximum_clique_alignedbox.hpp:636-679 | the recorded size is at least every root maxCliqueSize above 1 seen at a starting y-event |
| MaximumCliqueAlignedBox.BestSizeAttained | pastel/geometry/maximum_clique_alignedbox.hpp:636-679 | a non-zero recorded size is the root maxCliqueSize at some starting y-event |
| MaximumCliqueAlignedBox.SearchPhase | pastel/geometry/maximum_clique_alignedbox.hpp:597-704 | the search phase over a prefix of the events records BestSize |
| MaximumCliqueAlignedBox.SearchStep | pastel/geometry/maximum_clique_alignedbox.hpp:603-704 | one y-event inserts or erases the box's two x-events and updates the recorded size only for a larger clique at a starting event |
| MaximumCliqueAlignedBox.EventList | pastel/geometry/maximum_clique_alignedbox.hpp:534-566 | there are two y-events per box, its start and then its end |
| MaximumCliqueAlignedBox.EventListIndexed | pastel/geometry/maximum_clique_alignedbox.hpp:534-566 | every event of the list belongs to a box |
| MaximumCliqueAlignedBox.SortedIndexed | pastel/geometry/maximum_clique_alignedbox.hpp:567-570 | the sorted events still belong to boxes, two per box |
| MaximumCliqueAlignedBox.IncreasingFromNeighbours | pastel/geometry/maximum_clique_alignedbox.hpp:567-570 | a list whose neighbours are in order is increasing |
| MaximumCliqueAlignedBox.BestSizeAtEnd | pastel/geometry/maximum_clique_alignedbox.hpp:697-704 | an ending y-event never changes the recorded size |
| MaximumCliqueAlignedBox.MaximumCliqueSizeAsWritten | pastel/geometry/maximum_clique_alignedbox.hpp:597 | the search phase as written visits only the first n of the 2n events and records that prefix's best size |
| MaximumCliqueAlignedBox.ThreeBoxesBest | pastel/geometry/maximum_clique_alignedbox.hpp:597-679 | for the three-box example the first three y-events record no clique and the fourth records size 2 |
| MaximumCliqueAlignedBox.AsWrittenMissesClique | pastel/geometry/maximum_clique_alignedbox.hpp:597 | three boxes, two of which overlap at (5, 3.5): the search phase as written records size 0 where all 2n events give 2 |
| MaximumCliqueAlignedBox.MaximumCliqueSize | pastel/geometry/maximum_clique_alignedbox.hpp:597-704 | maximumClique(), corrected: the search phase sweeps all 2n events and records the largest clique size above 1 |
| Drawing.DrawPixel | pastel/gfx/drawing.hpp:30-53 | a pixel inside the image becomes mix(old, colour); every other pixel, and every pixel when the position is outside, keeps its old value |
| Drawing.MixSpan | pastel/gfx/drawing.hpp:845-851 | exactly the pixels xMin <= x < xMax of row y are mixed with the colour, all others unchanged |
| Drawing.DrawHorizontalLine | pastel/gfx/drawing.hpp:805-864 | after culling and clipping, exactly the in-image pixels of row y with xMin <= x < xMax are mixed; nothing else changes |
| Drawing.DrawVerticalLine | pastel/gfx/drawing.hpp:866-926 | a column outside [0, width) leaves the image unchanged; otherwise exactly the in-image pixels of column floor(x) with yMin <= y < yMax are mixed |
| Drawing.DrawBox | pastel/gfx/drawing.hpp:928-975 | exactly the pixels of the box intersected with the image rectangle are mixed, each once; nothing else changes |
| FloodFill.Fill | pastel/gfx/drawing.hpp:977-1108 | a pixel becomes the new colour exactly when it is 4-connected to the seed through pixels of the seed's old colour; every other pixel keeps its value; a seed outside the image or of the new colour changes nothing |
| FloodFill.FillStep | pastel/gfx/drawing.hpp:1007-1107 | one pass of the stack loop keeps the fill invariant (stack entries and painted pixels are connected to the seed, every unpainted free pixel next to the painted set is covered by a stack entry) and either paints more pixels or shrinks the stack |
| FloodFill.ScanLeft | pastel/gfx/drawing.hpp:1022-1034 | paints the maximal free run left of the seed pixel and stops at the image edge or at the first pixel that is not of the source colour |
| FloodFill.ScanRight | pastel/gfx/drawing.hpp:1036-1047 | paints the seed pixel and the maximal free run to its right, stopping at the image edge or the first non-source pixel |
| FloodFill.PushRow | pastel/gfx/drawing.hpp:1051-1076 | scanning xLeft <= x < xRight of a neighbouring row pushes one seed for each stretch of free pixels, so every free pixel of the span is covered by a pushed seed |
| FloodFill.PushBoth | pastel/gfx/drawing.hpp:1049-1106 | the row above is scanned only when y < height - 1 and the row below only when y > 0; every free pixel touching the painted run is covered |
| FloodFill.FillEnd | pastel/gfx/drawing.hpp:1007-1008 | when the stack is empty, a pixel is painted if and only if it is connected to the seed |
| FloodFill.PaintShrinks | pastel/gfx/drawing.hpp:1007-1047 | painting a run through an unpainted pixel strictly shrinks the set of unpainted pixels, so the stack loop terminates |
| FastLists.ReverseLoopAsWritten | pastel/sys/fastlist.hpp:963-969 | the loop of reverse() as written leaves current where it was after any number of iterations, its body being the empty statement |
| FastLists.SortedOrdered | pastel/sys/fastlist.hpp:892-955 | in a list sorted by sort() every element's key is at most every later one's |
| FastLists.SortedCons | pastel/sys/fastlist.hpp:849-873 | an element no greater than the head of a sorted list can go in front of it |
| FastLists.WithKey | pastel/sys/fastlist.hpp:892-955 | the elements with one key, the subsequence stability is about, are no more than the list |
| FastLists.WithKeyAppend | pastel/sys/fastlist.hpp:876-877 | the elements with a key of a joined list are those of the first part followed by those of the second |
| FastLists.WithKeyCount | pastel/sys/fastlist.hpp:892-955 | each value occurs among the elements with its key as often as in the whole list |
| FastLists.StablySortedPermutes | pastel/sys/fastlist.hpp:892-955 | a stable sort is a permutation of the list |
| FastLists.Merged | pastel/sys/fastlist.hpp:838-878 | merge(that) produces as many elements as the two lists hold |
| FastLists.MergedHead | pastel/sys/fastlist.hpp:849-873 | the first element of a merge is the head of one of the two lists |
| FastLists.MergedSorted | pastel/sys/fastlist.hpp:838-878 | merging two sorted lists gives a sorted list |
| FastLists.MergedStable | pastel/sys/fastlist.hpp:863-873 | merging keeps each list's order and puts this list's elements before the equal ones of that list |
| FastLists.WithKeyAbove | pastel/sys/fastlist.hpp:849-873 | a sorted list whose head is above a key holds no element with that key |
| FastLists.MergedStablySorted | pastel/sys/fastlist.hpp:923-934 | merging stable sorts of two consecutive stretches stably sorts the whole stretch |
| FastLists.MergeStepThis | pastel/sys/fastlist.hpp:863-873 | a step of merge() that keeps this list's element leaves the merge of the rest unchanged |
| FastLists.MergeStepThat | pastel/sys/fastlist.hpp:856-862 | a step of merge() that splices in the head of that list leaves the merge of the rest unchanged |
| FastLists.MergeTail | pastel/sys/fastlist.hpp:876-877 | once one list is used up, merge() appends the rest of that list |
| FastLists.RemoveIfStep | pastel/sys/fastlist.hpp:734-751 | a step of remove_if() erases the next original element exactly when it satisfies the predicate |
| FastLists.UniqueStep | pastel/sys/fastlist.hpp:765-794 | a step of unique() erases the next original element exactly when it is equal to the last retained one |
| FastLists.Kept | pastel/sys/fastlist.hpp:734-751 | remove_if() never lengthens the list |
| FastLists.KeptMembers | pastel/sys/fastlist.hpp:734-751 | remove_if() keeps exactly the elements that fail the predicate |
| FastLists.Uniqued | pastel/sys/fastlist.hpp:765-794 | unique() keeps the first element, leaves an empty list empty and never lengthens the list |
| FastLists.UniquedAdjacent | pastel/sys/fastlist.hpp:765-794 | after unique() no retained element is equal to the one before it |
| FastLists.UniquedElements | pastel/sys/fastlist.hpp:754-759 | unique() with equality keeps every value of the list |
| FastLists.Reversed | pastel/sys/fastlist.hpp:958-970 | reverse() keeps the number of elements |
| FastLists.ReversedIndex | pastel/sys/fastlist.hpp:958-970 | element k of the reversed list is element size - 1 - k of the list |
| FastLists.ReversedTwice | pastel/sys/fastlist.hpp:958-970 | reversing twice restores the list |
| FastLists.ReverseAsWrittenNeverEnds | pastel/sys/fastlist.hpp:962-969 | on a non-empty list, the loop of reverse() as written still has current on the first node, not the end node, after any number of iterations |
| FastLists.LexLessIrreflexive | pastel/sys/fastlist.hpp:361-369 | operator< never holds between a list and itself |
| FastLists.LexLessTransitive | pastel/sys/fastlist.hpp:361-369 | operator< is transitive |
| FastLists.LexLessAsymmetric | pastel/sys/fastlist.hpp:361-369 | no two lists precede each other |
| FastLists.LexLessPrefix | pastel/sys/fastlist.hpp:361-369 | a proper prefix precedes the list |
| FastLists.Moved | pastel/sys/fastlist.hpp:816-823 | splice() within one list keeps the same elements |
| FastLists.FastList.constructor | pastel/sys/fastlist.hpp:249-263 | FastList() is empty |
| FastLists.FastList.Fill | pastel/sys/fastlist.hpp:266-284 | FastList(count, value) holds count copies of the value |
| FastLists.FastList.FromRange | pastel/sys/fastlist.hpp:290-326 | FastList(first, last) and the copy constructor hold the elements of the range in order |
| FastLists.FastList.IsEmpty | pastel/sys/fastlist.hpp:481-486 | empty() holds exactly when there are no elements |
| FastLists.FastList.Equal | pastel/sys/fastlist.hpp:351-358 | operator== holds exactly when the two lists have the same elements in the same order |
| FastLists.FastList.Less | pastel/sys/fastlist.hpp:361-369 | operator< is asymmetric and never holds between equal lists |
| FastLists.FastList.Front | pastel/sys/fastlist.hpp:567-582 | front() of a non-empty list is one of its elements |
| FastLists.FastList.Back | pastel/sys/fastlist.hpp:585-600 | back() of a non-empty list is one of its elements |
| FastLists.FastList.Insert | pastel/sys/fastlist.hpp:629-636 | insert(there, value) puts the value before position there and returns its position |
| FastLists.FastList.Erase | pastel/sys/fastlist.hpp:663-672 | erase(there) removes that element and returns the position of the next one |
| FastLists.FastList.PushFront | pastel/sys/fastlist.hpp:603-607 | push_front() puts the value first |
| FastLists.FastList.PushBack | pastel/sys/fastlist.hpp:616-620 | push_back() puts the value last |
| FastLists.FastList.PopFront | pastel/sys/fastlist.hpp:610-613 | pop_front() removes the first element |
| FastLists.FastList.PopBack | pastel/sys/fastlist.hpp:623-626 | pop_back() removes the last element |
| FastLists.FastList.InsertFill | pastel/sys/fastlist.hpp:639-645 | insert(there, count, value) puts count copies of the value before there |
| FastLists.FastList.InsertRange | pastel/sys/fastlist.hpp:649-660 | insert(there, first, last) puts the range, in order, before there |
| FastLists.FastList.EraseRange | pastel/sys/fastlist.hpp:675-691 | erase(first, last) removes exactly that stretch and returns the position after it |
| FastLists.FastList.Clear | pastel/sys/fastlist.hpp:705-718 | clear() leaves the list empty |
| FastLists.FastList.Assign | pastel/sys/fastlist.hpp:375-387 | assign(first, last) leaves exactly the range in the list |
| FastLists.FastList.AssignFill | pastel/sys/fastlist.hpp:390-398 | assign(count, value) leaves exactly count copies of the value |
| FastLists.FastList.Resize | pastel/sys/fastlist.hpp:531-564 | resize(n, value) leaves n elements: a prefix of the old list, or the old list followed by copies of the value |
| FastLists.FastList.Swap | pastel/sys/fastlist.hpp:694-702 | swap() exchanges the contents of the two lists |
| FastLists.FastList.RemoveIf | pastel/sys/fastlist.hpp:734-751 | remove_if() leaves exactly the elements that fail the predicate, in order |
| FastLists.FastList.Remove | pastel/sys/fastlist.hpp:721-728 | remove(value) leaves the other elements in order and no copy of the value |
| FastLists.FastList.Unique | pastel/sys/fastlist.hpp:765-794 | unique(compare) leaves the first element and each one not equal to the last retained, in order |
| FastLists.FastList.UniqueEqual | pastel/sys/fastlist.hpp:754-759 | unique() keeps every value and leaves no two neighbours equal |
| FastLists.FastList.Reverse | pastel/sys/fastlist.hpp:958-970 | reverse(), corrected: the list ends up in the opposite order |
| FastLists.FastList.Splice | pastel/sys/fastlist.hpp:797-803 | splice(there, that) moves every element of that list before there and leaves that list empty |
| FastLists.FastList.SpliceOne | pastel/sys/fastlist.hpp:806-813 | splice(there, that, i) moves one element before there, from the other list or within this one |
| FastLists.FastList.SpliceRange | pastel/sys/fastlist.hpp:816-823 | splice(there, that, first, last) moves the stretch before there, from the other list or within this one |
| FastLists.FastList.Merge | pastel/sys/fastlist.hpp:826-878 | merge(that) leaves the merge of the two lists here and that list empty |
| FastLists.FastList.Sort | pastel/sys/fastlist.hpp:881-955 | sort() leaves a stable sort of the list: sorted, a permutation, and equal keys in their old order |
| FastLists.BinSort | pastel/sys/fastlist.hpp:899-954 | the bin-based sort of a list of two or more elements returns a stable sort of it |
| FastLists.FillBins | pastel/sys/fastlist.hpp:912-944 | after every element has been carried through the bins, the bins hold stable sorts of consecutive stretches of the list |
| FastLists.AddToBins | pastel/sys/fastlist.hpp:916-943 | carrying one more element through the bins keeps them stable sorts of consecutive stretches |
| FastLists.EmptyBinsValid | pastel/sys/fastlist.hpp:902-910 | the MaxBins + 1 empty bins start the loop in a valid state |
| FastLists.BinsSet | pastel/sys/fastlist.hpp:932-943 | a bin may be replaced by a stable sort of a new stretch without breaking the bins |
| FastLists.CarryStep | pastel/sys/fastlist.hpp:920-925 | merging the carried list into a full bin and swapping keeps the carry loop's state |
| FastLists.PlaceLast | pastel/sys/fastlist.hpp:932-935 | when every bin is full the carried list is merged into the last bin |
| FastLists.PlaceEmpty | pastel/sys/fastlist.hpp:936-943 | otherwise the carried list lands in the first empty bin |
| FastLists.MergeUpStep | pastel/sys/fastlist.hpp:946-950 | merging each bin into the next one up keeps the final loop's state |
| FastLists.MergeUpDone | pastel/sys/fastlist.hpp:952-953 | after the final loop the top bin holds a stable sort of the whole list |
| FastLists.MergeBins | pastel/sys/fastlist.hpp:946-953 | the final loop returns a stable sort of the stretches the bins hold |
| FastLists.StackedPlace | pastel/sys/fastlist.hpp:936-943 | adding a stretch to the lowest non-empty bin appends it to the stacked stretches |
| FastLists.StackedShift | pastel/sys/fastlist.hpp:946-950 | moving a bin onto the next one leaves the stacked stretches unchanged |
| FastLists.ShortSorted | pastel/sys/fastlist.hpp:897-899 | a list of fewer than two elements is its own stable sort |
| Integers.CarryLost | pastel/sys/integer.h:659-671 | operator+= as written loses the carry when a word of that is 0xFFFF and the incoming carry is 1: [0xFFFF, 0, 0] + [1, 0xFFFF, 0] gives 0 instead of 2^32 |
| Integers.CarryAsWritten | pastel/sys/integer.h:659-671 | the carry operator+= as written passes from word to word is 0 or 1 |
| Integers.SumAsWritten | pastel/sys/integer.h:659-671 | operator+= as written leaves one 16-bit word per word of the operands |
| Integers.BorrowAsWritten | pastel/sys/integer.h:678-690 | the borrow operator-= as written passes from word to word is 0 or 1 |
| Integers.BorrowLost | pastel/sys/integer.h:678-690 | operator-= as written loses the borrow the same way: [0, 0, 1] - [1, 0xFFFF, 0] gives 2^32 + 0xFFFF instead of 0xFFFF |
| Integers.DifferenceValue | pastel/sys/integer.h:678-690 | word-wise subtraction with a borrow out of the top word is subtraction modulo 2^N |
| Integers.PaddingPrinted | pastel/sys/integer.h:858-884 | toString() as written on a 20-bit integer with value 1 prints the 12 padding bits of the top word and drops the low bits |
| Integers.TopWordSign | pastel/sys/integer.h:1032-1038 | the top bit of the last word of a valid signed integer is set exactly when the value is negative |
| Integers.AbsOfSmallest | pastel/sys/integer.h:1020-1024 | abs() of the smallest signed value is that value again: its negation wraps |
| Integers.Integer.SignExtend | pastel/sys/integer.h:918-933 | signExtend() sets the padding of the last word to copies of bit N - 1 (signed) or to zero (unsigned) and keeps the value |
| Integers.Integer.Zero | pastel/sys/integer.h:114-117 | Integer() is zero |
| Integers.Integer.Copy | pastel/sys/integer.h:195-198 | the copy constructor copies the words and the value |
| Integers.Integer.AddAsWritten | pastel/sys/integer.h:659-671 | operator+= as written stores the sign-extended words of the carry loop with its (wordSet_[i] < before) carry test |
| Integers.Integer.SubtractAsWritten | pastel/sys/integer.h:678-690 | operator-= as written stores the sign-extended words of the borrow loop with its (wordSet_[i] > before) borrow test |
| Integers.Integer.Add | pastel/sys/integer.h:659-671 | the corrected operator+= stores the sum modulo 2^N in the integer's signed or unsigned range |
| Integers.Integer.Subtract | pastel/sys/integer.h:678-690 | the corrected operator-= stores the difference modulo 2^N |
| Integers.Integer.FlipBits | pastel/sys/integer.h:339-349 | flipBits() stores -1 - x modulo 2^N |
| Integers.Integer.Increment | pastel/sys/integer.h:697-719 | operator++ stores x + 1 modulo 2^N; the loop stops at the first word that does not wrap to zero |
| Integers.Integer.Negate | pastel/sys/integer.h:766-770 | negate() stores -x modulo 2^N |
| Integers.Integer.ToStringAsWritten | pastel/sys/integer.h:858-884 | toString() as written: N characters, character k being physical bit 16 * words - 1 - k, padding bits included |
| Integers.Integer.ToString | pastel/sys/integer.h:858-884 | the corrected toString() spells the N bits of the value, most significant first |
| Integers.IsZero | pastel/sys/integer.h:1059-1065 | zero() holds exactly when the value is zero |
| Integers.IsNegative | pastel/sys/integer.h:1032-1038 | negative() holds exactly when the value is negative |
| Integers.IsPositive | pastel/sys/integer.h:1046-1049 | positive() holds exactly when the value is positive |
| Integers.IsOdd | pastel/sys/integer.h:996-999 | odd() holds exactly when the value is odd |
| Integers.Abs | pastel/sys/integer.h:1020-1024 | abs() yields abs(x) modulo 2^N, so the smallest signed value maps to itself |
| KdTrees.LeafWordRoundTrip | pastel/geometry/kdtree.hpp:52-92 | a leaf's word (objects << 1) + 1 reads as a leaf and gives back its object count |
| KdTrees.DecodeAxis | pastel/geometry/kdtree.hpp:188-196 | the split axis reassembled from the low bits of the two words is below 8 |
| KdTrees.DecodePointer | pastel/geometry/kdtree.hpp:198-207 | positive() and negative() clear the two low bits, giving an aligned pointer |
| KdTrees.PositiveWordNotLeaf | pastel/geometry/kdtree.hpp:223-234 | the word encodePositive() builds from an aligned pointer does not read as a leaf |
| KdTrees.LowPointersRoundTrip | pastel/geometry/kdtree.hpp:198-234 | positive() and negative() give back the aligned child pointers the constructor packed |
| KdTrees.LowAxisRoundTrip | pastel/geometry/kdtree.hpp:168-249 | the packed axis reads back modulo 8, so exactly for the dimensions up to 8 the packing serves |
| KdTrees.HighNodeIsIntermediate | pastel/geometry/kdtree.hpp:269-296 | IntermediateNode_High stores the aligned positive pointer itself, which reads as a non-leaf |
| KdTrees.LeafEndCounts | pastel/geometry/kdtree.hpp:350-364 | the half-open range from begin() to end() of a leaf holds exactly its objects |
| KdTrees.ClassifyMeets | pastel/geometry/kdtree.h:437-453 | for a proper extent, an object goes to the negative side exactly when it starts below the plane, and to the positive side exactly when it reaches the plane |
| KdTrees.NegativePart | pastel/geometry/kdtree.hpp:864-873 | the objects a fuzzy partition sends to the negative child are no more than the objects |
| KdTrees.PositivePart | pastel/geometry/kdtree.hpp:864-873 | the objects a fuzzy partition sends to the positive child are no more than the objects |
| KdTrees.NegativePartMembers | pastel/geometry/kdtree.hpp:857-885 | the negative part is exactly the objects not lying wholly on the positive side |
| KdTrees.PositivePartMembers | pastel/geometry/kdtree.hpp:857-893 | the positive part is exactly the objects not lying wholly on the negative side |
| KdTrees.PartsElements | pastel/geometry/kdtree.hpp:857-893 | the two parts together hold every object, each on a side it meets |
| KdTrees.PartitionCounts | pastel/geometry/kdtree.hpp:864-873 | every object goes to at least one side, those across the plane to both |
| KdTrees.LeafCount | pastel/geometry/kdtree.hpp:590-593 | a tree always has a leaf |
| KdTrees.ReplaceLeafCount | pastel/geometry/kdtree.hpp:739-755 | replacing a node changes the leaf count by the difference of the two subtrees |
| KdTrees.ReplaceKeeps | pastel/geometry/kdtree.hpp:739-751 | replacing a node by one with the same objects, axes in range and objects placed keeps all three for the whole tree |
| KdTrees.SubdividedKeeps | pastel/geometry/kdtree.hpp:683-756 | a subdivided leaf has two leaves, keeps its objects and places each on a side it meets |
| KdTrees.SpliceInsertKeeps | pastel/geometry/kdtree.hpp:818-895 | spliceInsert() keeps the leaves, adds every new object and places it in agreement with every plane on its way |
| KdTrees.ClearLeavesKeeps | pastel/geometry/kdtree.hpp:796-815 | clearObjects(cursor) keeps the subdivision and leaves no object in the tree |
| KdTrees.RefineLeafKeeps | pastel/geometry/kdtree.hpp:910-952 | refining a leaf keeps its objects, axes and placement and leaves no leaf above maxDepth with more than maxObjects objects |
| KdTrees.RefineNodeKeeps | pastel/geometry/kdtree.hpp:899-955 | refining a subtree keeps its objects, axes and placement and bounds its shallow leaves |
| KdTrees.RefineNodeDepthZero | pastel/geometry/kdtree.hpp:617-621 | with maxDepth 0, refinement changes nothing |
| KdTrees.ConsistentEmpty | pastel/geometry/kdtree.hpp:557-560 | in a consistent tree, no object is in the leaves exactly when the object count is zero |
| KdTrees.StaleObjectCount | pastel/geometry/kdtree.hpp:673-678 | emptying the leaves without resetting a positive object count leaves a state no history of insertions explains |
| KdTrees.KdTree.constructor | pastel/geometry/kdtree.hpp:463-483 | KdTree(dimension, objectPolicy) is one empty leaf with no objects |
| KdTrees.KdTree.Empty | pastel/geometry/kdtree.hpp:557-560 | empty() holds exactly when the object count is zero |
| KdTrees.KdTree.Clear | pastel/geometry/kdtree.hpp:658-670 | clear() leaves one empty leaf, a leaf count of 1 and no objects |
| KdTrees.KdTree.Subdivide | pastel/geometry/kdtree.hpp:629-639 | subdivide(cursor, position, axis) turns the leaf into an intermediate node over its two parts and adds one leaf |
| KdTrees.KdTree.Insert | pastel/geometry/kdtree.hpp:643-647 | insert(begin, end) splices the objects into the leaves and adds their number to the object count |
| KdTrees.KdTree.ClearObjectsAsWritten | pastel/geometry/kdtree.hpp:673-678 | clearObjects() as written empties the leaves but keeps the object count, so a non-empty tree is left inconsistent |
| KdTrees.KdTree.ClearObjects | pastel/geometry/kdtree.hpp:673-678 | clearObjects(), corrected: the subdivision stays, the objects and their count go |
| KdTrees.KdTree.Refine | pastel/geometry/kdtree.hpp:609-626 | refine() keeps every object, changes nothing when maxDepth is 0 and leaves no leaf above maxDepth with more than maxObjects objects |
| AutomataLegacy.JoinsUnion | pastel/sys/automaton.h:766-782 | transitions between the states of two automata remain between the states of their merge |
| AutomataLegacy.Automaton.constructor | pastel/sys/automaton.h:55-60 | Automaton() has no states, transitions or marks |
| AutomataLegacy.Automaton.Copy | pastel/sys/automaton.h:70-119 | the copy has the same states, the same transitions with their multiplicities, and the same start and final lists |
| AutomataLegacy.Automaton.CopyTransitions | pastel/sys/automaton.h:90-100 | adding the edges one by one rebuilds exactly the transition multiset |
| AutomataLegacy.Automaton.Clear | pastel/sys/automaton.h:162-169 | clear() removes every state, transition and mark |
| AutomataLegacy.Automaton.ClearTransitions | pastel/sys/automaton.h:181-186 | clearTransitions() removes every transition and keeps states and marks |
| AutomataLegacy.Automaton.ClearStart | pastel/sys/automaton.h:198-206 | clearStart() empties the start list and changes nothing else |
| AutomataLegacy.Automaton.ClearFinal | pastel/sys/automaton.h:218-226 | clearFinal() empties the final list and changes nothing else |
| AutomataLegacy.Automaton.Swap | pastel/sys/automaton.h:236-242 | swap() exchanges states, transitions and mark lists |
| AutomataLegacy.Automaton.AddState | pastel/sys/automaton.h:254-270 | addState() returns a state that was not there and adds only it |
| AutomataLegacy.Automaton.RemoveState | pastel/sys/automaton.h:280-307 | removeState() removes the state, every edge touching it and its marks |
| AutomataLegacy.Automaton.AddStart | pastel/sys/automaton.h:330-355 | addStart() appends the state to the start list unless it is there and changes nothing else |
| AutomataLegacy.Automaton.RemoveStart | pastel/sys/automaton.h:365-380 | removeStart() erases the state from the start list, if present, and changes nothing else |
| AutomataLegacy.Automaton.AddFinal | pastel/sys/automaton.h:442-467 | addFinal() appends the state to the final list unless it is there and changes nothing else |
| AutomataLegacy.Automaton.RemoveFinal | pastel/sys/automaton.h:477-493 | removeFinal() erases the state from the final list, if present, and changes nothing else |
| AutomataLegacy.Automaton.AddTransition | pastel/sys/automaton.h:607-633 | addTransition() adds one more edge when the customization allows it, even beside an equal one, and returns it |
| AutomataLegacy.Automaton.RemoveTransition | pastel/sys/automaton.h:643-649 | removeTransition() removes one edge and changes nothing else |
| AutomataLegacy.Automaton.Merge | pastel/sys/automaton.h:766-782 | merge() joins states, transitions and mark lists and leaves that automaton empty |
| MaximumBipartiteMatchings.Matched | pastel/sys/maximum_bipartite_matching/maximum_bipartite_matching.hpp:381-384 | a vertex is matched exactly when its pair is not the sentinel |
| MaximumBipartiteMatchings.UnvisitsKeepReach | pastel/sys/maximum_bipartite_matching/maximum_bipartite_matching.hpp:208-211 | unvisiting the dead ends a failed flip found keeps every layered path to the sentinel |
| MaximumBipartiteMatchings.UnvisitsChain | pastel/sys/maximum_bipartite_matching/maximum_bipartite_matching.hpp:182-211 | the unvisits of two failed flips in a row are unvisits of dead ends |
| MaximumBipartiteMatchings.FailedEdge | pastel/sys/maximum_bipartite_matching/maximum_bipartite_matching.hpp:192-206 | a recursive flip that failed leaves only unvisits, and its vertex had no layered path to begin with |
| MaximumBipartiteMatchings.LevelFrameKeeps | pastel/sys/maximum_bipartite_matching/maximum_bipartite_matching.hpp:192-206 | a flip changes the levels of deeper vertices only |
| MaximumBipartiteMatchings.AugmentStep | pastel/sys/maximum_bipartite_matching/maximum_bipartite_matching.hpp:199-208 | once the flip from the partner of v's neighbour succeeded, pairing the neighbour with v extends the augmenting path to v and keeps a matching |
| MaximumBipartiteMatchings.VisitOne | pastel/sys/maximum_bipartite_matching/maximum_bipartite_matching.hpp:365-369 | visiting an unvisited vertex removes exactly it from the unvisited ones |
| MaximumBipartiteMatchings.ParentsKept | pastel/sys/maximum_bipartite_matching/maximum_bipartite_matching.hpp:150-165 | visiting a new vertex one level below a visited left vertex keeps every visited vertex reachable from an unmatched left vertex |
| MaximumBipartiteMatchings.VisitStep | pastel/sys/maximum_bipartite_matching/maximum_bipartite_matching.hpp:150-165 | one visit of the search keeps the levels, the queue and the reachability facts and never adds unvisited work |
| MaximumBipartiteMatchings.SentinelReached | pastel/sys/maximum_bipartite_matching/maximum_bipartite_matching.hpp:174-177 | a visited vertex with a layered path leads back to an unmatched left vertex with one |
| MaximumBipartiteMatchings.Matcher.constructor | pastel/sys/maximum_bipartite_matching/maximum_bipartite_matching.hpp:355-363 | every vertex starts unmatched, at level 0 |
| MaximumBipartiteMatchings.Matcher.SetPairs | pastel/sys/maximum_bipartite_matching/maximum_bipartite_matching.hpp:202-205 | right.setPair(left) and left.setPair(right) pair the two vertices and change nothing else |
| MaximumBipartiteMatchings.Matcher.Flip | pastel/sys/maximum_bipartite_matching/maximum_bipartite_matching.hpp:182-211 | flipPossibleAugmentingPath(v) succeeds from the sentinel, flips a layered augmenting path when one exists and otherwise changes no pair and has no layered path |
| MaximumBipartiteMatchings.Matcher.FlipEdges | pastel/sys/maximum_bipartite_matching/maximum_bipartite_matching.hpp:190-208 | the edge loop of flipPossibleAugmentingPath() flips along the first edge that leads to the sentinel, or finds v a dead end |
| MaximumBipartiteMatchings.Matcher.FlipAll | pastel/sys/maximum_bipartite_matching/maximum_bipartite_matching.hpp:60-75 | a round of flips from every unmatched left vertex keeps a matching, never unmatches a vertex and matches a new one when an augmenting path existed |
| MaximumBipartiteMatchings.Matcher.FindAugmentingPaths | pastel/sys/maximum_bipartite_matching/maximum_bipartite_matching.hpp:98-178 | findAugmentingPaths() leaves the pairs alone and returns whether the breadth-first search reached the sentinel, and then an augmenting path exists |
| MaximumBipartiteMatchings.Matcher.VisitEdges | pastel/sys/maximum_bipartite_matching/maximum_bipartite_matching.hpp:140-170 | the edge loop of the search keeps its facts and never adds unvisited work |
| MaximumBipartiteMatchings.Matcher.Visit | pastel/sys/maximum_bipartite_matching/maximum_bipartite_matching.hpp:153-165 | nextLeft.visit(left.level() + 1), queueing nextLeft unless it is the sentinel, keeps the search's facts |
| MaximumBipartiteMatchings.Matcher.ResetLevels | pastel/sys/maximum_bipartite_matching/maximum_bipartite_matching.hpp:100-121 | unmatched left vertices start at level 0 and queued, all other vertices unvisited |
| MaximumBipartiteMatchings.MatchedGrows | pastel/sys/maximum_bipartite_matching/maximum_bipartite_matching.hpp:60-75 | a round that matches a new vertex and unmatches none matches strictly more vertices |
| MaximumBipartiteMatchings.Run | pastel/sys/maximum_bipartite_matching/maximum_bipartite_matching.hpp:60-75 | the rounds end with a matching from which the search cannot reach the sentinel |
| MaximumBipartiteMatchings.IdentifyLeft | pastel/sys/maximum_bipartite_matching/maximum_bipartite_matching.hpp:255-270 | a left object keeps its id, or gets the next id and is listed as a left vertex |
| MaximumBipartiteMatchings.IdentifyRight | pastel/sys/maximum_bipartite_matching/maximum_bipartite_matching.hpp:272-288 | a right object keeps its id, or gets the next id |
| MaximumBipartiteMatchings.Identify | pastel/sys/maximum_bipartite_matching/maximum_bipartite_matching.hpp:247-297 | every input pair is identified and contributes its edge in both directions |
| MaximumBipartiteMatchings.IdentifyStep | pastel/sys/maximum_bipartite_matching/maximum_bipartite_matching.hpp:290-296 | the two directed edges of one pair keep the identification facts |
| MaximumBipartiteMatchings.CountMultiset | pastel/sys/maximum_bipartite_matching/maximum_bipartite_matching.hpp:299-300 | the count of an edge is its multiplicity |
| MaximumBipartiteMatchings.NeighboursFrom | pastel/sys/maximum_bipartite_matching/maximum_bipartite_matching.hpp:326-334 | the targets of a vertex's interval of sorted edges are its neighbours in ascending order |
| MaximumBipartiteMatchings.CountNeighbours | pastel/sys/maximum_bipartite_matching/maximum_bipartite_matching.hpp:326-334 | each neighbour occurs in the interval as often as its edge does |
| MaximumBipartiteMatchings.SortedFrom | pastel/sys/maximum_bipartite_matching/maximum_bipartite_matching.hpp:299-300 | the sorted edges out of a range of vertices come from those vertices |
| MaximumBipartiteMatchings.SortedFromSorted | pastel/sys/maximum_bipartite_matching/maximum_bipartite_matching.hpp:299-300 | the edges are ordered by source and then by target, as std::pair orders them |
| MaximumBipartiteMatchings.CountSortedFrom | pastel/sys/maximum_bipartite_matching/maximum_bipartite_matching.hpp:299-300 | sorting keeps every edge with its multiplicity |
| MaximumBipartiteMatchings.SortEdges | pastel/sys/maximum_bipartite_matching/maximum_bipartite_matching.hpp:299-300 | std::sort of the edges is a permutation of them in pair order |
| MaximumBipartiteMatchings.Adjacency | pastel/sys/maximum_bipartite_matching/maximum_bipartite_matching.hpp:317-346 | the adjacency list of each vertex is the ascending list of its neighbours |
| MaximumBipartiteMatchings.Interval | pastel/sys/maximum_bipartite_matching/maximum_bipartite_matching.hpp:326-334 | the inner loop takes the targets of exactly the edges of vertex i |
| MaximumBipartiteMatchings.NeighboursHas | pastel/sys/maximum_bipartite_matching/maximum_bipartite_matching.hpp:326-334 | every edge's target is in its source's adjacency list |
| MaximumBipartiteMatchings.NoNeighbours | pastel/sys/maximum_bipartite_matching/maximum_bipartite_matching.hpp:336-341 | a vertex without edges, the sentinel, gets an empty adjacency list |
| MaximumBipartiteMatchings.JoinsSides | pastel/sys/maximum_bipartite_matching/maximum_bipartite_matching.hpp:290-292 | the two ends of an input pair are a left and a right vertex, neither the sentinel |
| MaximumBipartiteMatchings.EdgeOrigin | pastel/sys/maximum_bipartite_matching/maximum_bipartite_matching.hpp:293-296 | every directed edge comes from an input pair |
| MaximumBipartiteMatchings.Initialize | pastel/sys/maximum_bipartite_matching/maximum_bipartite_matching.hpp:218-347 | initialize() builds a bipartite graph over the input pairs, with the sentinel 0 without edges and every other vertex on an edge |
| MaximumBipartiteMatchings.InitializeGraph | pastel/sys/maximum_bipartite_matching/maximum_bipartite_matching.hpp:218-347 | the built graph is bipartite and its edges are exactly the input pairs |
| MaximumBipartiteMatchings.GraphEdges | pastel/sys/maximum_bipartite_matching/maximum_bipartite_matching.hpp:293-296 | every edge joins a left vertex and a right vertex, neither the sentinel |
| MaximumBipartiteMatchings.SentinelAlone | pastel/sys/maximum_bipartite_matching/maximum_bipartite_matching.hpp:339-341 | the sentinel has no edges and is not a left vertex |
| MaximumBipartiteMatchings.InputEdgesKept | pastel/sys/maximum_bipartite_matching/maximum_bipartite_matching.hpp:293-334 | every input pair is an edge of the graph |
| MaximumBipartiteMatchings.VerticesUsed | pastel/sys/maximum_bipartite_matching/maximum_bipartite_matching.hpp:336-341 | every vertex but the sentinel has an edge |
| MaximumBipartiteMatchings.ReportedEdge | pastel/sys/maximum_bipartite_matching/maximum_bipartite_matching.hpp:78-94 | a matched left vertex and its pair, as the input's objects, are an input pair |
| MaximumBipartiteMatchings.Report | pastel/sys/maximum_bipartite_matching/maximum_bipartite_matching.hpp:78-94 | the reported pairs are input pairs, one for every matched left vertex, no object twice |
| MaximumBipartiteMatchings.ReportDone | pastel/sys/maximum_bipartite_matching/maximum_bipartite_matching.hpp:78-94 | after the reporting loop the pairs are input pairs, cover the matching and share no object |
| MaximumBipartiteMatchings.ReportMatched | pastel/sys/maximum_bipartite_matching/maximum_bipartite_matching.hpp:85-93 | reporting a matched left vertex keeps the loop's facts |
| MaximumBipartiteMatchings.ReportUnmatched | pastel/sys/maximum_bipartite_matching/maximum_bipartite_matching.hpp:85 | passing over an unmatched left vertex keeps the loop's facts |
| MaximumBipartiteMatchings.ReportDistinct | pastel/sys/maximum_bipartite_matching/maximum_bipartite_matching.hpp:78-94 | pairs reported for distinct left vertices of a matching share no object |
| MaximumBipartiteMatchings.MatchPairs | pastel/sys/maximum_bipartite_matching.hpp:39-91 | maximumBipartiteMatching(range, reporter) reports input pairs with no left or right object twice |
| MaximumBipartiteMatchings.Match | pastel/sys/maximum_bipartite_matching/maximum_bipartite_matching.hpp:38-96 | maximumBipartiteMatching(leftRange, rightRange, reporter) refuses ranges of different sizes and otherwise reports pairs taken in step with no object twice |
| MultiIntegerWords.WordCount | pastel/sys/integer/multi_integer/multi_integer.h:88-95 | Words is the number of 16-bit words that hold N bits, rounded up |
| MultiIntegerWords.Reduce | pastel/sys/integer/multi_integer/multi_integer.h:1261-1276 | the value an N-bit integer takes: in the signed or unsigned range and congruent to x modulo 2^N |
| MultiIntegerWords.ReduceInRange | pastel/sys/integer/multi_integer/multi_integer.h:1261-1276 | a value already in range is kept by reduction |
| MultiIntegerWords.SignFilled | pastel/sys/integer/multi_integer/multi_integer.h:186-197 | the value the word loop reads a native of a whole number of words as: the native itself, or, exactly when its top bit is set, the native less 2^width |
| MultiIntegerWords.UnsignedTopBitSignFilled | pastel/sys/integer/multi_integer/multi_integer.h:181-199 | for an unsigned native narrower than N with its top bit set, mod(that, 2^N) is that, while the sign-filled words hold that + 2^N - 2^width, a different value: (uint32)0x80000000 gives 2^64 - 2^31 in 64 bits |
| MultiIntegerWords.ExtensionInjective | pastel/sys/integer/multi_integer/multi_integer.h:703-706 | two in-range values have the same words exactly when they are equal |
| MultiIntegerBits.SignExtended | pastel/sys/integer/multi_integer/multi_integer.h:1261-1276 | signExtend() changes only the last word, and only when N is not a multiple of 16 |
| MultiIntegerBits.SignExtendedValue | pastel/sys/integer/multi_integer/multi_integer.h:1261-1276 | after signExtend() the words hold the N-bit value extended to whole words, and the N-bit value is unchanged |
| MultiIntegerBits.SetRangeBits | pastel/sys/integer/multi_integer/multi_integer.h:435-498 | setting the bit range [b, e) to v changes exactly the bits in the range, to v |
| MultiIntegerBits.ComplementBits | pastel/sys/integer/multi_integer/multi_integer.h:383-393 | every bit of -1 - x is the opposite of x's bit |
| MultiIntegerBits.SetBitsValue | pastel/sys/integer/multi_integer/multi_integer.h:435-498 | the N-bit value whose bits are those of x with [b, e) set to v is SetRange(x, b, e, v) reduced to N bits |
| MultiIntegers.NegationCancels | pastel/sys/integer/multi_integer/multi_integer.h:1093-1097 | x + negate(x) is zero modulo 2^N |
| MultiIntegers.ComplementTwice | pastel/sys/integer/multi_integer/multi_integer.h:1076-1079 | ~~x == x |
| MultiIntegers.InfinityWraps | pastel/sys/integer/multi_integer/multi_integer.h:126-135 | Infinity + 1 wraps to the smallest value (signed) or to zero (unsigned) |
| MultiIntegers.SquareOfThree | pastel/sys/integer/multi_integer/multi_integer.h:743-765 | 3 * 3 is 9 in every integer of at least 5 bits, where x *= x as written gives 0 |
| MultiIntegers.SetBitsBreaksPadding | pastel/sys/integer/multi_integer/multi_integer.h:435-498 | setBits(7, 8) as written on an 8-bit signed zero leaves the word 0x80, whose padding is not the sign extension of -128 |
| MultiIntegers.PaddingCounted | pastel/sys/integer/multi_integer/multi_integer.h:1326-1334 | numberOfOneBits() as written counts 32 one-bits for the 20-bit -1, which has 20 |
| MultiIntegers.BitRangeBreaksPadding | pastel/sys/integer/multi_integer/multi_integer.h:266-289 | the bit-range constructor as written on the 20-bit -1 over [0, 20) leaves the last word 0x000F, not its sign extension |
| MultiIntegers.MultiInteger.SignExtend | pastel/sys/integer/multi_integer/multi_integer.h:1261-1276 | signExtend() keeps the value and makes the words its extension |
| MultiIntegers.MultiInteger.Zero | pastel/sys/integer/multi_integer/multi_integer.h:121-124 | MultiInteger() is zero |
| MultiIntegers.MultiInteger.FromNative | pastel/sys/integer/multi_integer/multi_integer.h:173-232 | the constructors from a native integer (unsigned, bool or signed), corrected: they hold mod(that, 2^N), as their documentation states, an unsigned native being zero-filled |
| MultiIntegers.MultiInteger.FromUnsignedAsWritten | pastel/sys/integer/multi_integer/multi_integer.h:181-199 | the unsigned constructor as written holds the sign-filled native reduced to N bits, because arithmeticShiftRight copies the native's top bit into the higher words |
| MultiIntegers.MultiInteger.Copy | pastel/sys/integer/multi_integer/multi_integer.h:239-242 | the copy constructor copies the words and the value |
| MultiIntegers.MultiInteger.FromWords | pastel/sys/integer/multi_integer/multi_integer.h:159-172 | the initializer-list constructor holds the number the words spell, most significant first, reduced to N bits |
| MultiIntegers.MultiInteger.BitRangeAsWritten | pastel/sys/integer/multi_integer/multi_integer.h:266-289 | the bit-range constructor as written keeps the bits [b, e) of that and clears the others, without sign-extending the last word |
| MultiIntegers.MultiInteger.BitRange | pastel/sys/integer/multi_integer/multi_integer.h:266-289 | the corrected bit-range constructor keeps bits [b, e), clears the rest below N, and keeps the class invariant |
| MultiIntegers.MultiInteger.Bit | pastel/sys/integer/multi_integer/multi_integer.h:600-613 | bit(i) is bit i of the two's-complement value |
| MultiIntegers.MultiInteger.LastBit | pastel/sys/integer/multi_integer/multi_integer.h:644-647 | lastBit() is bit N - 1, which for a signed integer says whether it is negative |
| MultiIntegers.MultiInteger.SetBits | pastel/sys/integer/multi_integer/multi_integer.h:435-498 | the corrected setBits(b, e, v) sets the bits [b, e) below N to v, keeps the others and keeps the class invariant |
| MultiIntegers.MultiInteger.SetBitsAsWritten | pastel/sys/integer/multi_integer/multi_integer.h:435-498 | setBits() as written: the same bits, but a range within one word is written without signExtend() |
| MultiIntegers.MultiInteger.ClearBits | pastel/sys/integer/multi_integer/multi_integer.h:559-563 | clearBits(b, e) clears exactly the bits [b, e) |
| MultiIntegers.MultiInteger.SetBit | pastel/sys/integer/multi_integer/multi_integer.h:505-518 | setBit(i) sets exactly bit i |
| MultiIntegers.MultiInteger.ClearBit | pastel/sys/integer/multi_integer/multi_integer.h:570-583 | clearBit(i) clears exactly bit i |
| MultiIntegers.MultiInteger.SetBitTo | pastel/sys/integer/multi_integer/multi_integer.h:525-540 | setBit(i, value) makes bit i equal to value and keeps the others |
| MultiIntegers.MultiInteger.FlipBit | pastel/sys/integer/multi_integer/multi_integer.h:400-413 | flipBit(i) inverts exactly bit i |
| MultiIntegers.MultiInteger.SetAllBits | pastel/sys/integer/multi_integer/multi_integer.h:420-425 | setBits() makes every bit 1, the value -1 reduced to N bits |
| MultiIntegers.MultiInteger.ClearAllBits | pastel/sys/integer/multi_integer/multi_integer.h:547-552 | clearBits() makes the value zero |
| MultiIntegers.MultiInteger.FlipBits | pastel/sys/integer/multi_integer/multi_integer.h:383-393 | flipBits() stores -1 - x modulo 2^N |
| MultiIntegers.MultiInteger.Infinity | pastel/sys/integer/multi_integer/multi_integer.h:126-135 | Infinity is the largest value, 2^(N-1) - 1 signed or 2^N - 1 unsigned |
| MultiIntegers.MultiInteger.MinusInfinity | pastel/sys/integer/multi_integer/multi_integer.h:137-148 | MinusInfinity is the negated Infinity, 1 - 2^(N-1) |
| MultiIntegers.MultiInteger.Add | pastel/sys/integer/multi_integer/multi_integer.h:713-726 | operator+= stores the sum modulo 2^N |
| MultiIntegers.MultiInteger.Subtract | pastel/sys/integer/multi_integer/multi_integer.h:733-736 | operator-= stores the difference modulo 2^N |
| MultiIntegers.MultiInteger.Increment | pastel/sys/integer/multi_integer/multi_integer.h:1024-1046 | operator++ stores x + 1 modulo 2^N |
| MultiIntegers.MultiInteger.Decrement | pastel/sys/integer/multi_integer/multi_integer.h:1053-1069 | operator-- stores x - 1 modulo 2^N |
| MultiIntegers.MultiInteger.Negate | pastel/sys/integer/multi_integer/multi_integer.h:1093-1097 | negate() stores -x modulo 2^N |
| MultiIntegers.MultiInteger.Multiply | pastel/sys/integer/multi_integer/multi_integer.h:743-765 | the corrected operator*= (operands copied first) stores the product modulo 2^N |
| MultiIntegers.MultiInteger.SquareAsWritten | pastel/sys/integer/multi_integer/multi_integer.h:743-765 | x *= x as written gives 0 for every x: right aliases the result words that clearBits() zeroed |
| MultiIntegers.MultiInteger.Equal | pastel/sys/integer/multi_integer/multi_integer.h:703-706 | operator== holds exactly when the values are equal |
| MultiIntegers.MultiInteger.Less | pastel/sys/integer/multi_integer/multi_integer.h:654-696 | the corrected operator< holds exactly when the value is smaller |
| MultiIntegers.MultiInteger.LessAsWritten | pastel/sys/integer/multi_integer/multi_integer.h:654-696 | operator< as written is right unless both are negative, and then holds exactly when the value is larger |
| MultiIntegers.MultiInteger.ShiftLeft | pastel/sys/integer/multi_integer/multi_integer.h:1113-1142 | operator<<= multiplies by 2^amount modulo 2^N, and clears everything for amount >= N |
| MultiIntegers.MultiInteger.ShiftRight | pastel/sys/integer/multi_integer/multi_integer.h:1149-1178 | the corrected operator>>= is the arithmetic shift, the floor of x / 2^amount, and clears everything for amount >= N |
| MultiIntegers.MultiInteger.IsZero | pastel/sys/integer/multi_integer/multi_integer.h:847-852 | zero() holds exactly when the value is zero |
| MultiIntegers.MultiInteger.IsNegative | pastel/sys/integer/multi_integer/multi_integer.h:859-861 | negative() holds exactly when the value is negative |
| MultiIntegers.MultiInteger.Assign | pastel/sys/integer/multi_integer/multi_integer.h:303-310 | assignment copies the words and the value |
| MultiIntegers.MultiInteger.HighestBit | pastel/sys/integer/multi_integer/multi_integer.h:902-906 | highestBit() is -1 for zero and otherwise the r with 2^r <= x < 2^(r+1) |
| MultiIntegers.MultiInteger.DivideMagnitudes | pastel/sys/integer/multi_integer/multi_integer.h:891-950 | the shift-and-subtract loop of operator/= stores the floor quotient of two non-negative values |
| MultiIntegers.MultiInteger.DivideInfinity | pastel/sys/integer/multi_integer/multi_integer.h:875 | divideInfinity(k) is floor(2^(N-1) / k) |
| MultiIntegers.MultiInteger.Divide | pastel/sys/integer/multi_integer/multi_integer.h:843-960 | operator/= stores the quotient truncated toward zero, reduced to N bits (-2^(N-1) / -1 wraps); a zero dividend is returned at once, whatever the divisor |
| MultiIntegers.MultiInteger.DivideSmallest | pastel/sys/integer/multi_integer/multi_integer.h:861-882 | the -2^(N-1) branch: by +-1 the dividend is kept, otherwise -divideInfinity(abs(that)), negated for a negative divisor; this is the truncated quotient |
| MultiIntegers.MultiInteger.DivideByNative | pastel/sys/integer/multi_integer/multi_integer.h:968-1004 | operator/= by a native integer stores the truncated quotient by that integer as the type sees it |
| MultiIntegers.MultiInteger.Remainder | pastel/sys/integer/multi_integer/multi_integer.h:778-784 | operator%= stores a - (a / b) * b, the remainder of truncated division (sign of the dividend) |
| MultiIntegers.MultiInteger.RemainderByNative | pastel/sys/integer/multi_integer/multi_integer.h:788-823 | operator%= by a native integer stores the truncated remainder |
| MultiIntegers.MultiInteger.Complement | pastel/sys/integer/multi_integer/multi_integer.h:1076-1079 | operator~ returns a new integer holding -1 - x modulo 2^N |
| MultiIntegers.MultiInteger.Negated | pastel/sys/integer/multi_integer/multi_integer.h:1103-1106 | unary operator- returns a new integer holding -x modulo 2^N |
| MultiIntegers.MultiInteger.AsNative | pastel/sys/integer/multi_integer/multi_integer.h:1186-1210 | asNative() is the value reduced to the native type's width and signedness |
| MultiIntegers.MultiInteger.NumberOfOneBits | pastel/sys/integer/multi_integer/multi_integer.h:1326-1334 | numberOfOneBits() as written is the one-bits of the value plus, for a negative value, the padding bits of the last word |
| MultiIntegers.MultiInteger.OneBits | pastel/sys/integer/multi_integer/multi_integer.h:357-376 | oneBits() is the number of one-bits among the N bits of the value |
| MultiIntegers.MultiInteger.AsString | pastel/sys/integer/multi_integer/multi_integer.h:1347-1394 | asString(base) is the numeral of the value in that base, with a minus sign for a negative value |
| MultiIntegerShifts.ShiftedUpValue | pastel/sys/integer/multi_integer/multi_integer.h:1113-1142 | the words shifted up and sign-extended hold x * 2^amount reduced to N bits |
| MultiIntegerShifts.ShiftedDownValue | pastel/sys/integer/multi_integer/multi_integer.h:1149-1178 | the words shifted down with the sign as padding hold the floor of x / 2^amount |
| MultiIntegerShifts.ShiftRightAsWritten | pastel/sys/integer/multi_integer/multi_integer.h:1149-1178 | operator>>= as written: the top shifted word takes zeros, and the padding is read from lastBit() after the shift |
| MultiIntegerShifts.ShiftRightLosesSign | pastel/sys/integer/multi_integer/multi_integer.h:1149-1178 | as written, the 16-bit -2 shifted right by 1 gives 32767 instead of -1 |
| MultiIntegerConversion.AsNativeValue | pastel/sys/integer/multi_integer/multi_integer.h:1186-1210 | reading the low words of the integer, padded with ones for a negative value, gives the value reduced to the native width |
| MultiIntegerConversion.DigitsRoundTrip | pastel/sys/integer/multi_integer/multi_integer.h:1381-1385 | the digits asString() collects read back, least significant first, as the number |
| MultiIntegerConversion.NumeralRoundTrip | pastel/sys/integer/multi_integer/multi_integer.h:1347-1394 | the numeral asString() writes reads back as the value, sign included |
| MultiIntegerDivision.TruncDivision | pastel/sys/integer/multi_integer/multi_integer.h:771-777 | a == (a / b) * b + a % b with the remainder smaller than b in magnitude and of the sign of a |
| MultiIntegerDivision.QuotientInRange | pastel/sys/integer/multi_integer/multi_integer.h:843-960 | the truncated quotient of two N-bit values is an N-bit value unless the dividend is -2^(N-1) |
| MultiIntegerDivision.InfinityQuotient | pastel/sys/integer/multi_integer/multi_integer.h:875 | divideInfinity's floor((2^B - k) / k) + 1 is floor(2^B / k) |
| MultiIntegerDivision.RemainderValue | pastel/sys/integer/multi_integer/multi_integer.h:778-784 | a - (a / b) * b computed in N bits is the truncated remainder |
| MultiIntegerDivision.NativeDivisor | pastel/sys/integer/multi_integer/multi_integer.h:968-1004 | the divisor a native integer becomes: itself when its magnitude reaches 2^B, otherwise its value reduced to N bits as the corrected constructor gives it, which is the native itself or, for an unsigned type, a negative native plus 2^N |
| RefinablePartitions.Remove | pastel/sys/refinable_partition/refinable_partition.h:533 | erasing a node shortens the list by at most one |
| RefinablePartitions.RemoveMembers | pastel/sys/refinable_partition/refinable_partition.h:533 | after erasing x from a list, y is listed exactly when it was listed before and is not x |
| RefinablePartitions.RemoveAt | pastel/sys/refinable_partition/refinable_partition.h:521-537 | in a list without repetitions, erasing x removes exactly the entry at x's position, so the entries around it keep their order |
| RefinablePartitions.RemoveAbsent | pastel/sys/refinable_partition/refinable_partition.h:616 | erasing an entry that is not listed leaves the list unchanged |
| RefinablePartitions.RemoveDistinct | pastel/sys/refinable_partition/refinable_partition.h:533 | erasing keeps a list free of repetitions and removes one entry when x was listed |
| RefinablePartitions.Keep | pastel/sys/refinable_partition/refinable_partition.h:253-259 | dropping entries never lengthens a list |
| RefinablePartitions.KeepMembers | pastel/sys/refinable_partition/refinable_partition.h:253-259 | after dropping a set of entries, y is listed exactly when it was listed and was not dropped |
| RefinablePartitions.KeepMore | pastel/sys/refinable_partition/refinable_partition.h:255-259 | erasing the members one at a time ends in the same list as dropping them all at once |
| RefinablePartitions.KeepDistinct | pastel/sys/refinable_partition/refinable_partition.h:253-259 | dropping entries keeps a list free of repetitions |
| RefinablePartitions.EmptyWf | pastel/sys/refinable_partition/refinable_partition.h:65-71 | the empty partition is well formed and has no elements and no sets |
| RefinablePartitions.UnsplitUnmarked | pastel/sys/refinable_partition/refinable_partition.h:589-600 | an element whose set is not in the split-set is unmarked: a set enters the split-set with its first marked element |
| RefinablePartitions.AddSetKeeps | pastel/sys/refinable_partition/refinable_partition.h:194-205 | addSet appends a fresh, empty set with the given data to the set-sequence, keeps the partition well formed and changes no other set's members and no mark |
| RefinablePartitions.InsertOneWf | pastel/sys/refinable_partition/refinable_partition.h:425-455 | insertOne keeps the partition well formed |
| RefinablePartitions.InsertOneKeeps | pastel/sys/refinable_partition/refinable_partition.h:425-455 | insertOne appends a fresh, unmarked element of s to the element-sequence; every other set keeps its members and every other element its mark |
| RefinablePartitions.InsertOneMembers | pastel/sys/refinable_partition/refinable_partition.h:431-446 | the new element is fresh and joins exactly the set s |
| RefinablePartitions.InsertAllInto | pastel/sys/refinable_partition/refinable_partition.h:473-510 | inserting a sequence of data items changes no set and no pending split and uses one fresh identifier per item |
| RefinablePartitions.InsertAllWf | pastel/sys/refinable_partition/refinable_partition.h:473-510 | insert keeps the partition well formed |
| RefinablePartitions.InsertAllKeeps | pastel/sys/refinable_partition/refinable_partition.h:473-510 | insert appends one fresh, unmarked element of s per data item to the element-sequence, in order, each with its item, and leaves every earlier element as it was |
| RefinablePartitions.SplitWfAfterMarks | pastel/sys/refinable_partition/refinable_partition.h:583-619 | pushing a set on the split-set when it gets its first mark and removing it when it loses its last keeps the split-set exactly the sets with a marked element |
| RefinablePartitions.MarkWf | pastel/sys/refinable_partition/refinable_partition.h:571-620 | mark keeps the partition well formed, the split-set included |
| RefinablePartitions.MarkKeeps | pastel/sys/refinable_partition/refinable_partition.h:571-620 | after mark(e, markIt) e has the requested mark, every other element keeps its mark, set and data, the marked members of e's set gain or lose e, and marking an element that already has the mark changes nothing |
| RefinablePartitions.MemberList | pastel/sys/refinable_partition/refinable_partition.h:99-101 | the members the copy constructor walks for a set all belong to that set |
| RefinablePartitions.CopyMember | pastel/sys/refinable_partition/refinable_partition.h:103-111 | copying one member adds one element and keeps the sets and the set-sequence |
| RefinablePartitions.CopyMembers | pastel/sys/refinable_partition/refinable_partition.h:99-112 | copying a set's members adds one element per member and keeps the sets and the set-sequence |
| RefinablePartitions.CopySets | pastel/sys/refinable_partition/refinable_partition.h:90-113 | after k sets the copy has k sets |
| RefinablePartitions.CopyMemberShape | pastel/sys/refinable_partition/refinable_partition.h:103-111 | insertOne followed by mark appends one element with the original's mark and data to the element-sequence |
| RefinablePartitions.CopyMemberWf | pastel/sys/refinable_partition/refinable_partition.h:103-111 | copying one member keeps the partition well formed |
| RefinablePartitions.CopyMemberKeeps | pastel/sys/refinable_partition/refinable_partition.h:103-111 | copying one member appends its mark and data to the copied set's members and changes no other set's members |
| RefinablePartitions.CopyMembersKeeps | pastel/sys/refinable_partition/refinable_partition.h:99-112 | copying a list of members appends their marks and data, in order, to the copied set |
| RefinablePartitions.CopySetStep | pastel/sys/refinable_partition/refinable_partition.h:90-113 | one round of the set loop keeps the copy well formed and extends the copied sets by the next set, with its data and its members' marks and data |
| RefinablePartitions.CopySetsKeeps | pastel/sys/refinable_partition/refinable_partition.h:88-113 | after k sets the copy is well formed, and its first k sets carry the data of the original's first k sets and their members' marks and data in the original element order |
| RefinablePartitions.CopyOfKeeps | pastel/sys/refinable_partition/refinable_partition.h:81-116 | the copy is well formed and has the original's sets in order, each with its data and its members' marks and data |
| RefinablePartitions.ProfileIsRecords | pastel/sys/refinable_partition/refinable_partition.h:99-101 | the marks and data of a set's members, in element order, are the records of the member list the copy walks |
| RefinablePartitions.EraseElementWf | pastel/sys/refinable_partition/refinable_partition.h:521-537 | erasing an element keeps the partition well formed |
| RefinablePartitions.EraseElementsWf | pastel/sys/refinable_partition/refinable_partition.h:533-536 | removing an element's record and its list entry keeps the element list exact |
| RefinablePartitions.EraseElementEffect | pastel/sys/refinable_partition/refinable_partition.h:521-537 | erasing e takes it out of its set, changes no other element's set or mark and removes no set, even one that becomes empty |
| RefinablePartitions.EraseElementOrder | pastel/sys/refinable_partition/refinable_partition.h:533-536 | erasing e closes the gap in the element-sequence, and the element returned is the one that followed e, if any |
| RefinablePartitions.EraseElementKeeps | pastel/sys/refinable_partition/refinable_partition.h:521-537 | erase(element) keeps the partition well formed, takes the element out of its set and of the element-sequence, keeps the order of the rest and returns the element that followed it |
| RefinablePartitions.EraseSetWf | pastel/sys/refinable_partition/refinable_partition.h:248-263 | erasing a set keeps the partition well formed |
| RefinablePartitions.EraseSetKeeps | pastel/sys/refinable_partition/refinable_partition.h:248-263 | erase(set) removes the set and exactly its members, leaves every other set and mark as it was, closes the gap in the set-sequence and returns the set that followed it |
| RefinablePartitions.KeepNone | pastel/sys/refinable_partition/refinable_partition.h:253-255 | before the member loop nothing has been dropped |
| RefinablePartitions.ErasingSetStart | pastel/sys/refinable_partition/refinable_partition.h:253-255 | before the member loop of erase(set) nothing has been erased |
| RefinablePartitions.ErasingSetStep | pastel/sys/refinable_partition/refinable_partition.h:255-259 | each pass of the member loop erases one more member from the element list and the records |
| RefinablePartitions.ErasingSetRemaining | pastel/sys/refinable_partition/refinable_partition.h:255-262 | the member loop runs while members remain; when none do, removing the set gives the result of erase(set) |
| RefinablePartitions.EraseSetAsWrittenStale | pastel/sys/refinable_partition/refinable_partition.h:248-263 | as written, erase(set) leaves the set in the split-set whenever it had a marked element, so the split-set names a set that no longer exists; for a set without marks both versions agree |
| RefinablePartitions.SplitSetRecords | pastel/sys/refinable_partition/refinable_partition.h:296-344 | a split changes only the records of the set's members: they lose their marks and the moved part goes to the new set, which is appended to the set-sequence unless every member was marked |
| RefinablePartitions.SplitSetWf | pastel/sys/refinable_partition/refinable_partition.h:288-344 | splitting the popped set restores a well-formed partition |
| RefinablePartitions.SplitSetRefines | pastel/sys/refinable_partition/refinable_partition.h:296-344 | after a split two elements share a set exactly when they shared one before and, if that set was the one split, had the same mark |
| RefinablePartitions.SplitSetKeepsData | pastel/sys/refinable_partition/refinable_partition.h:316-344 | a split unmarks the set's members, leaves every other record as it was, keeps every element's data, and gives the new set a copy of the split set's data |
| RefinablePartitions.SplitSetSmaller | pastel/sys/refinable_partition/refinable_partition.h:310-340 | the new set is the smaller of the marked and unmarked parts, the marked part on a tie, so it is no larger than what stays |
| RefinablePartitions.SplitStepPopped | pastel/sys/refinable_partition/refinable_partition.h:288-289 | popping the back of the split-set leaves it exact for every other set |
| RefinablePartitions.SplitProgressStart | pastel/sys/refinable_partition/refinable_partition.h:285-286 | before the split loop, the partition is its own starting point |
| RefinablePartitions.SplitProgressPairs | pastel/sys/refinable_partition/refinable_partition.h:286-350 | the loop invariant of split(): elements share a set exactly when they shared one at the start and either their set is still pending or they had the same mark |
| RefinablePartitions.SplitStepWf | pastel/sys/refinable_partition/refinable_partition.h:286-350 | one pass of the split loop keeps the partition well formed and pops exactly the set at the back of the split-set |
| RefinablePartitions.SplitStepEffect | pastel/sys/refinable_partition/refinable_partition.h:286-350 | one pass of the split loop separates the marked from the unmarked members of the popped set, keeps the data and leaves every other set alone |
| RefinablePartitions.PrefixKept | pastel/sys/refinable_partition/refinable_partition.h:316-335 | new sets only go to the back of the set-sequence, so the sets there before keep their positions |
| RefinablePartitions.SplitProgressStep | pastel/sys/refinable_partition/refinable_partition.h:286-350 | one pass of the split loop keeps the partition well formed, keeps the loop invariant and shortens the split-set by one |
| RefinablePartitions.SplitAllProgress | pastel/sys/refinable_partition/refinable_partition.h:286-350 | running the split loop to the end empties the split-set and keeps the loop invariant |
| RefinablePartitions.SplitAllKeeps | pastel/sys/refinable_partition/refinable_partition.h:283-353 | after split() the split-set is empty and no element is marked; the elements, their order and data are kept, and two elements share a set exactly when they shared one before and had the same mark |
| RefinablePartitions.SplitDoneUnmarked | pastel/sys/refinable_partition/refinable_partition.h:286-294 | when the split-set is empty no element is marked |
| RefinablePartitions.RefinablePartition.constructor | pastel/sys/refinable_partition/refinable_partition.h:65-71 | a new partition has no elements, no sets and nothing to split |
| RefinablePartitions.RefinablePartition.Copy | pastel/sys/refinable_partition/refinable_partition.h:81-116 | the copy constructor rebuilds the partition set by set with addSet, insertOne and mark, and ends in the partition CopyOf describes |
| RefinablePartitions.RefinablePartition.CopyMembersFrom | pastel/sys/refinable_partition/refinable_partition.h:99-112 | the inner loop of the copy constructor inserts each listed member into the copied set, marked like the original, and ends in the partition CopyMembers describes |
| RefinablePartitions.RefinablePartition.Clear | pastel/sys/refinable_partition/refinable_partition.h:160-166 | clear() leaves no elements, no sets and nothing to split |
| RefinablePartitions.RefinablePartition.Become | pastel/sys/refinable_partition/refinable_partition.h:145-150 | assignment replaces the whole state by the given one |
| RefinablePartitions.RefinablePartition.AddSet | pastel/sys/refinable_partition/refinable_partition.h:194-205 | addSet returns a fresh, empty set at the back of the set-sequence and keeps the partition well formed |
| RefinablePartitions.RefinablePartition.InsertOne | pastel/sys/refinable_partition/refinable_partition.h:425-455 | insertOne returns a fresh, unmarked element of s appended to the element-sequence |
| RefinablePartitions.RefinablePartition.Insert | pastel/sys/refinable_partition/refinable_partition.h:473-510 | insert adds one fresh element of s per data item, in order, and keeps the partition well formed |
| RefinablePartitions.RefinablePartition.Mark | pastel/sys/refinable_partition/refinable_partition.h:571-620 | mark sets the element's mark and keeps the split-set exact |
| RefinablePartitions.RefinablePartition.EraseElement | pastel/sys/refinable_partition/refinable_partition.h:521-537 | erase(element) removes the element and returns the one that followed it |
| RefinablePartitions.RefinablePartition.EraseSet | pastel/sys/refinable_partition/refinable_partition.h:248-263 | erase(set) removes the set and its members and returns the set that followed it; the set also leaves the split-set |
| RefinablePartitions.RefinablePartition.EraseMembers | pastel/sys/refinable_partition/refinable_partition.h:253-259 | the member loop of erase(set) erases every member of the set and nothing else |
| RefinablePartitions.RefinablePartition.Split | pastel/sys/refinable_partition/refinable_partition.h:283-353 | split() performs every pending split and returns the first set it created, if it created any |
| RefinablePartitionSets.CEndAt | pastel/sys/refinable_partition_set.h:100-103 | cend() of a non-empty set is the position after its last member |
| RefinablePartitionSets.MoveToMarkedKeeps | pastel/sys/refinable_partition_set.h:267-288 | moveToMarked keeps the set's members in one block with the marked part first |
| RefinablePartitionSets.MoveToUnmarkedKeeps | pastel/sys/refinable_partition_set.h:299-320 | moveToUnmarked keeps the set's members in one block with the marked part first |
| RefinablePartitionSets.ShrinkToUnmarkedKeeps | pastel/sys/refinable_partition_set.h:244-256 | after shrinkToUnmarked the set is its former unmarked part, with nothing marked |
| RefinablePartitionSets.ShrinkToMarkedKeeps | pastel/sys/refinable_partition_set.h:213-234 | after shrinkToMarked the set is its former marked part, with nothing marked |
| RefinablePartitionSets.NewMarkedPart | pastel/sys/refinable_partition/refinable_partition.h:316-320 | the set that split() creates from the marked part holds exactly that part |
| RefinablePartitionSets.NewUnmarkedPart | pastel/sys/refinable_partition/refinable_partition.h:330-335 | the set that split() creates from the unmarked part holds exactly that part |
| RefinablePartitionSets.EraseAt | pastel/sys/refinable_partition/refinable_partition.h:533 | erasing a member node shortens the member list by one |
| RefinablePartitionSets.EraseAtDistinct | pastel/sys/refinable_partition/refinable_partition.h:533 | erasing a node keeps the member list free of repetitions and removes its entry |
| RefinablePartitionSets.EraseKeeps | pastel/sys/refinable_partition_set.h:386-411 | erasing an unmarked member keeps the set's bookkeeping exact for the remaining members, with the unmarked part moved on when the first unmarked member goes |
| RefinablePartitionSets.EraseAsWrittenDangles | pastel/sys/refinable_partition_set.h:403-410 | as written, erasing the first unmarked member of a set with other members leaves the unmarked part starting at the erased node |
| RefinablePartitionSets.EraseAsWrittenExample | pastel/sys/refinable_partition_set.h:386-411 | erasing the first of two unmarked members leaves the unmarked part starting at the erased node 1 |
| RefinablePartitionSets.InsertBefore | pastel/sys/refinable_partition/refinable_partition.h:440-443 | emplacing a node lengthens the member list by one |
| RefinablePartitionSets.InsertNode | pastel/sys/refinable_partition/refinable_partition.h:440-443 | insertOne adds one node to the member list |
| RefinablePartitionSets.InsertNodeAt | pastel/sys/refinable_partition/refinable_partition.h:440-443 | the new node goes right after the set's block, or at the end of the list for an empty set |
| RefinablePartitionSets.InsertDistinct | pastel/sys/refinable_partition/refinable_partition.h:440-443 | inserting a fresh node keeps the member list free of repetitions |
| RefinablePartitionSets.InsertUnmarkedKeeps | pastel/sys/refinable_partition_set.h:353-375 | inserting a new unmarked member keeps the set's bookkeeping exact, with the node appended to the unmarked part |
| RefinablePartitionSets.InsertUnmarkedAsWrittenMisplaced | pastel/sys/refinable_partition_set.h:362-374 | as written, inserting into a non-empty set whose members are all marked leaves the new node outside the unmarked part |
| RefinablePartitionSets.InsertUnmarkedAsWrittenExample | pastel/sys/refinable_partition_set.h:353-375 | inserting into a one-member set whose member is marked makes the marked part that split() would cut cover both nodes |
| PcxLoad.HeaderError | pastel/gfx/image_file/pcx/loadpcx.hpp:59-102 | the header is accepted exactly when its encoding is 1, its depth is 1, 2, 4 or 8 bits, it has 1 or 3 planes, and 3 planes come with 8 bits; otherwise the first failing check is reported |
| PcxLoad.HeaderPalette | pastel/gfx/loadpcx.cpp:97-162 | the palette has 2^bitsPerPixel entries: black and white for 1-bit images, the header's 16-colour palette for 2- and 4-bit images, the VGA palette otherwise |
| PcxLoad.LoadHeader | pastel/gfx/image_file/pcx/loadpcx.hpp:27-173 | an empty file name fails with NoFileName, an unsupported header with its HeaderError, and loading succeeds exactly when neither happens, returning the header's palette |
| PcxLoad.DecodeAt | pastel/gfx/image_file/pcx/loadpcx.hpp:183-219 | run-length decoding of a scanline yields at least the bytes asked for and advances past at least one input byte whenever bytes are asked for |
| PcxLoad.DecodeAtShift | pastel/gfx/loadpcx.cpp:177-213 | decoding from position j of a suffix gives the same bytes as decoding from the matching position of the whole file, so a scanline decodes independently of what precedes it |
| PcxLoad.LoadScanlineOverrun | pastel/gfx/image_file/pcx/loadpcx.hpp:198-210 | a run packet may repeat its byte more times than the scanline has room for: the packet 0xFF 0x07 decodes 63 bytes when one was asked for |
| PcxLoad.WriteRun | pastel/gfx/image_file/pcx/loadpcx.hpp:206-210 | the repetition loop writes the run byte to the positions of the run that lie inside the buffer and changes nothing else |
| PcxLoad.LoadPacket | pastel/gfx/image_file/pcx/loadpcx.hpp:186-218 | one packet of the decoder advances the input, writes exactly the decoded bytes it covers into the scanline buffer, and keeps the rest of the decoding unchanged |
| PcxLoad.LoadScanline | pastel/gfx/loadpcx.cpp:169-214 | the scanline buffer holds the first `amount` decoded bytes, the bytes past `amount` are untouched, and the input position ends where the decoding ends |
| PcxLoad.Scanline | pastel/gfx/image_file/pcx/loadpcx.hpp:256-258 | every decoded scanline has exactly bytesPerScanline bytes |
| PcxLoad.PixelsPerByte | pastel/gfx/image_file/pcx/loadpcx.hpp:264-407 | a byte holds 8, 4, 2 or 1 pixels at depths 1, 2, 4 and 8 |
| PcxLoad.BytesToReadBounds | pastel/gfx/image_file/pcx/loadpcx.hpp:264-378 | (width + 7) / 8, (width + 3) / 4 and (width + 1) / 2 bytes hold all `width` pixels, and every byte but the last is full |
| PcxLoad.SubPixel | pastel/gfx/image_file/pcx/loadpcx.hpp:271-285 | a shifted and masked sub-pixel is below 2^bitsPerPixel, so it indexes the palette |
| PcxLoad.PixelOf | pastel/gfx/image_file/pcx/loadpcx.hpp:262-418 | every pixel value read from a packed scanline is below 2^bitsPerPixel |
| PcxLoad.PixelPosition | pastel/gfx/image_file/pcx/loadpcx.hpp:267-287 | the pixel at x = i * p + k is sub-pixel k of byte i, the order in which the loop advances xPos |
| PcxLoad.UnpackByte | pastel/gfx/image_file/pcx/loadpcx.hpp:289-330 | unpacking one byte writes its first `count` pixels at their positions in the row, most significant bits first, and nothing else |
| PcxLoad.UnpackPacked | pastel/gfx/image_file/pcx/loadpcx.hpp:262-404 | the full bytes and the guarded last byte together write exactly pixels 0 to width - 1 of the row, each the packed value at its position |
| PcxLoad.UnpackRow | pastel/gfx/image_file/pcx/loadpcx.hpp:260-419 | for every supported depth the row holds the first `width` pixels of the scanline and is unchanged past them |
| PcxLoad.StoreRow | pastel/gfx/image_file/pcx/loadpcx.hpp:254-419 | writing a row changes row y of the image to the row's pixels and no other row |
| PcxLoad.LoadIndexedRow | pastel/gfx/loadpcx.cpp:253-415 | one pass of the scanline loop sets row y to the pixels of the scanline stored (height - 1 - y)-th in the file and leaves the input at the next scanline |
| PcxLoad.LoadIndexedRows | pastel/gfx/image_file/pcx/loadpcx.hpp:246-420 | the image is width by height and pixel (x, y) is pixel x of scanline height - 1 - y: scanlines are stored bottom row first |
| PcxLoad.LoadIndexedPcx | pastel/gfx/image_file/pcx/loadpcx.hpp:224-431 | loading an indexed image fails exactly when the header fails or has more than one plane, with that error; on success it returns the header's palette and the decoded indices |
| PcxLoad.LookUpColors | pastel/gfx/image_file/pcx/loadpcx.hpp:466-622 | each pixel's colour is the palette entry its index names |
| PcxLoad.PlanesToColors | pastel/gfx/image_file/pcx/loadpcx.hpp:625-641 | pixel x of a three-plane scanline takes red, green and blue from byte x of the first, second and third plane |
| PcxLoad.RowColors | pastel/gfx/image_file/pcx/loadpcx.hpp:462-641 | every pixel of the row gets the colour that its scanline gives for the image's plane count |
| PcxLoad.LoadColorRow | pastel/gfx/loadpcx.cpp:454-637 | one pass of the colour scanline loop sets row y to the colours of the matching scanline and changes no other row |
| PcxLoad.LoadPcx | pastel/gfx/image_file/pcx/loadpcx.hpp:433-647 | loading fails exactly when the file name is empty or the header is unsupported, with that error; otherwise the image is width by height and each pixel has the colour its scanline and the header's palette give |
| PcxSave.RunLength | pastel/gfx/image_file/pcx/savepcx.hpp:35-43 | the run that the writer scans is non-empty, consists of equal bytes and stops at a different byte or at the end of the row |
| PcxSave.RunLengthUnique | pastel/gfx/image_file/pcx/savepcx.hpp:38-43 | any maximal run of equal bytes has exactly the length RunLength reports |
| PcxSave.RunPairsWellFormed | pastel/gfx/image_file/pcx/savepcx.hpp:48-58 | a long run is written as pairs whose count byte lies in 0xC1..0xFF, each followed by the repeated byte |
| PcxSave.Packets | pastel/gfx/image_file/pcx/savepcx.hpp:45-63 | a single byte that does not look like a run byte is written alone; everything else is written as run pairs |
| PcxSave.EncodeRun | pastel/gfx/image_file/pcx/savepcx.hpp:33-64 | the encoding from a run's start is that run's packets followed by the encoding from the run's end |
| PcxSave.EncodeFrom | pastel/gfx/image_file/pcx/savepcx.hpp:33-64 | the bytes written so far, plus the next run's packets, plus the encoding of the rest, equal the encoding of the whole row: the loop invariant of saveScanline |
| PcxSave.ShortRunPairs | pastel/gfx/image_file/pcx/savepcx.hpp:54-58 | a run of at most 63 bytes becomes the single pair (0xC0 + k, b) |
| PcxSave.SaveRun | pastel/gfx/image_file/pcx/savepcx.hpp:45-63 | the repetition loop writes exactly the packets of the run |
| PcxSave.FindRunEnd | pastel/gfx/image_file/pcx/savepcx.hpp:35-43 | the inner scan stops past xPos, at the width or at the first byte that differs from the run's byte, and every byte it passes equals that byte |
| PcxSave.SaveScanline | pastel/gfx/image_file/pcx/savepcx.hpp:28-65 | saveScanline writes exactly the run-length encoding of the first `width` bytes of the scanline |
| PcxSave.DecodeRunPair | pastel/gfx/image_file/pcx/loadpcx.hpp:191-211 | the loader reads a pair (0xC0 + c, b) as c copies of b and goes on two bytes later |
| PcxSave.DecodeLiteral | pastel/gfx/image_file/pcx/loadpcx.hpp:212-218 | the loader reads a byte below 0xC0 as itself and goes on one byte later |
| PcxSave.DecodeRunPairs | pastel/gfx/image_file/pcx/savepcx.hpp:48-58 | the loader reads the pairs written for a run back as the run, whatever follows |
| PcxSave.DecodePackets | pastel/gfx/image_file/pcx/savepcx.hpp:45-63 | the loader reads whatever the writer emits for a run back as that run |
| PcxSave.EncodeRoundTrip | pastel/gfx/image_file/pcx/savepcx.hpp:28-65 | loading a saved scanline gives the row back and stops exactly at the end of its encoding, whatever follows |
| PcxSave.DecodeFirstRun | pastel/gfx/image_file/pcx/savepcx.hpp:33-64 | the round trip holds for a row once it holds for the row after its first run |
| PcxSave.FirstRunStep | pastel/gfx/image_file/pcx/savepcx.hpp:33-64 | the inductive step of the round trip, for the first run and the rest of the row |
| PcxSave.DecodeRunThen | pastel/gfx/image_file/pcx/savepcx.hpp:45-63 | decoding a run's packets followed by the encoding of t gives the run followed by t |
| PcxSave.RunSplit | pastel/gfx/image_file/pcx/savepcx.hpp:35-43 | a row is its first run followed by the rest |
| PcxSave.PrefixRun | pastel/gfx/image_file/pcx/savepcx.hpp:38-43 | a row that starts with k copies of b is those copies followed by the rest |
| PcxSave.FileRowsAppend | pastel/gfx/image_file/pcx/savepcx.hpp:138-158 | writing one more scanline appends its encoding to what the row loop has written |
| PcxSave.FileRowsStart | pastel/gfx/image_file/pcx/loadpcx.hpp:256-258 | in a saved file the loader's r-th scanline starts where the encodings of the first r rows end |
| PcxSave.ScanlineAfter | pastel/gfx/image_file/pcx/loadpcx.hpp:256-258 | the loader's r-th scanline of a saved file decodes to row r and stops where row r + 1 begins |
| PcxSave.DecodeAfter | pastel/gfx/image_file/pcx/savepcx.hpp:28-65 | an encoded row decodes to itself from wherever it starts in the file |
| PcxSave.FileRowsSplit | pastel/gfx/image_file/pcx/savepcx.hpp:138-158 | the saved body splits at any scanline into the rows before, that row's encoding and the rows after |
| PcxSave.FileRowsRoundTrip | pastel/gfx/image_file/pcx/savepcx.hpp:243-251 | loading scanline r of a saved body gives written row r back |
| PcxSave.RoundUpToEven | pastel/gfx/image_file/pcx/savepcx.hpp:93-94 | the bytes per plane are even and at most one more than needed |
| PcxSave.Palette16Bytes | pastel/gfx/image_file/pcx/savepcx.hpp:217-233 | the header's 16-colour palette holds 48 bytes |
| PcxSave.Palette16RoundTrip | pastel/gfx/image_file/pcx/savepcx.hpp:217-233 | the loader reads entry i of the written 16-colour palette back as palette colour i, black where the palette has none |
| PcxSave.BinaryPalette16 | pastel/gfx/image_file/pcx/savepcx.hpp:115-130 | the binary writer's 16-colour palette holds 48 bytes, black and white first |
| PcxSave.StoredExtent | pastel/gfx/image_file/pcx/savepcx.hpp:102-105 | the margins (int16)(width - 1) and (int16)(height - 1) give back the image's extent exactly when it is at most 32768 |
| PcxSave.WrittenHeadersLoad | pastel/gfx/image_file/pcx/savepcx.hpp:96-111 | for extents the int16 margins hold, every header that a writer fills in is one the loader accepts, with room for a row in each scanline |
| PcxSave.BitsValue | pastel/gfx/image_file/pcx/savepcx.hpp:142-151 | the value of i shifted-in bits is below 2^i |
| PcxSave.BitsValueBit | pastel/gfx/image_file/pcx/savepcx.hpp:144-151 | the k-th shifted-in pixel ends up as bit i - 1 - k of the value |
| PcxSave.PackFits | pastel/gfx/image_file/pcx/savepcx.hpp:152 | shifting the packed bits to the top of the byte keeps them below 256 |
| PcxSave.PackBytePixel | pastel/gfx/image_file/pcx/savepcx.hpp:140-155 | the loader reads sub-pixel k of a packed byte back as the k-th packed pixel |
| PcxSave.PackedRow | pastel/gfx/image_file/pcx/savepcx.hpp:140-155 | a packed row has exactly bytesPerScanlinePerPlane bytes |
| PcxSave.PackedRowPixel | pastel/gfx/image_file/pcx/savepcx.hpp:140-155 | the loader reads pixel x of a packed row back as 1 for a set pixel and 0 for a clear one |
| PcxSave.PackPixels | pastel/gfx/image_file/pcx/savepcx.hpp:142-152 | the byte loop packs up to eight pixels, the first in the most significant bit, the unused low bits 0 |
| PcxSave.ShiftIn | pastel/gfx/image_file/pcx/savepcx.hpp:146-150 | shifting in one more pixel doubles the value and adds the pixel, and no bit leaves the byte |
| PcxSave.PackRow | pastel/gfx/image_file/pcx/savepcx.hpp:140-155 | the scanline buffer holds the packed row, and its bytes after the last pixel stay 0 |
| PcxSave.ByteOfPixel | pastel/gfx/image_file/pcx/savepcx.hpp:140-154 | byte j of the scanline is written exactly when 8 j is below the width |
| PcxSave.PackedRowPadding | pastel/gfx/image_file/pcx/savepcx.hpp:137-155 | the bytes of a packed row after its last pixel are 0 |
| PcxSave.BinaryScanlines | pastel/gfx/image_file/pcx/savepcx.hpp:138-158 | there is one scanline per image row, each bytesPerScanlinePerPlane long |
| PcxSave.SaveBinaryPcx | pastel/gfx/image_file/pcx/savepcx.hpp:69-165 | an empty file name writes nothing; otherwise the file holds the binary header and the packed rows, bottom row first, each run-length encoded |
| PcxSave.SaveBinaryRows | pastel/gfx/image_file/pcx/savepcx.hpp:137-158 | the row loop writes the encodings of the packed rows from the bottom row up |
| PcxSave.SaveBinaryRow | pastel/gfx/image_file/pcx/savepcx.hpp:140-157 | one pass of the row loop writes the encoding of the packed row and leaves the buffer's padding 0 |
| PcxSave.SaveLoadBinary | pastel/gfx/image_file/pcx/savepcx.hpp:69-165 | for extents up to 32768, loading what saveBinaryPcx wrote gives palette index 1 (white) for every set pixel and 0 (black) for every clear one |
| PcxSave.BinaryScanlineOfRow | pastel/gfx/image_file/pcx/savepcx.hpp:138-158 | the scanline stored (height - 1 - y)-th in the file is image row y |
| PcxSave.PaddedRow | pastel/gfx/image_file/pcx/savepcx.hpp:242-248 | a padded row is bpl bytes long, starts with the row and is 0 after it |
| PcxSave.CopyRow | pastel/gfx/image_file/pcx/savepcx.hpp:245-248 | the copy loop puts the row's bytes at the start of the buffer and leaves the rest unchanged |
| PcxSave.SaveIndexedRow | pastel/gfx/image_file/pcx/savepcx.hpp:245-250 | one pass of the row loop writes the encoding of the zero-padded row and keeps the padding 0 |
| PcxSave.IndexedScanlines | pastel/gfx/image_file/pcx/savepcx.hpp:243-251 | there is one scanline per image row, each bpl bytes long |
| PcxSave.PaletteBytes | pastel/gfx/image_file/pcx/savepcx.hpp:258-279 | the palette trailer holds 3 bytes per colour |
| PcxSave.PaletteBytesAt | pastel/gfx/image_file/pcx/savepcx.hpp:258-279 | triple i of the trailer is colour i of the palette, black where the palette has none |
| PcxSave.WriteVgaPalette | pastel/gfx/image_file/pcx/savepcx.hpp:253-279 | the trailer is the byte 12 followed by 256 colour triples |
| PcxSave.SaveIndexedPcx | pastel/gfx/image_file/pcx/savepcx.hpp:175-286 | an empty file name writes nothing; otherwise the file holds the indexed header, the zero-padded rows bottom row first, each run-length encoded, and the palette trailer |
| PcxSave.SaveIndexedRows | pastel/gfx/image_file/pcx/savepcx.hpp:242-251 | the row loop writes the encodings of the padded rows from the bottom row up |
| PcxSave.BytePixel | pastel/gfx/image_file/pcx/loadpcx.hpp:405-418 | at 8 bits per pixel, pixel x is byte x |
| PcxSave.BytePixelAt | pastel/gfx/image_file/pcx/loadpcx.hpp:405-418 | at 8 bits per pixel, pixel (x, y) is byte x of its scanline |
| PcxSave.PaddedRowAt | pastel/gfx/image_file/pcx/savepcx.hpp:245-248 | byte x of a padded row is pixel x of the row |
| PcxSave.SaveLoadIndexed | pastel/gfx/image_file/pcx/savepcx.hpp:175-286 | for extents up to 32768, loading what saveIndexedPcx wrote gives every palette index back |
| PcxSave.IndexedScanlineOfRow | pastel/gfx/image_file/pcx/savepcx.hpp:243-251 | the scanline stored (height - 1 - y)-th in the file is image row y padded |
| PcxSave.SaveLoadVgaPalette | pastel/gfx/image_file/pcx/savepcx.hpp:253-279 | the loader reads the written trailer back as the palette, black where the palette has no colour |
| PcxSave.Plane | pastel/gfx/image_file/pcx/savepcx.hpp:349-360 | each plane of a planar row is bpl bytes long |
| PcxSave.PlanarRow | pastel/gfx/image_file/pcx/savepcx.hpp:346-360 | a planar row is 3 bpl bytes long |
| PcxSave.PlanePixel | pastel/gfx/image_file/pcx/savepcx.hpp:353-359 | every scanline byte belongs to a pixel position below bpl |
| PcxSave.FillPlanes | pastel/gfx/image_file/pcx/savepcx.hpp:349-360 | the fill loop puts the red, green and blue of pixel x at x, x + bpl and x + 2 bpl and leaves the padding unchanged |
| PcxSave.SaveRgbRow | pastel/gfx/image_file/pcx/savepcx.hpp:349-362 | one pass of the row loop writes the encoding of the planar row and keeps the padding 0 |
| PcxSave.PlanarRowAt | pastel/gfx/image_file/pcx/savepcx.hpp:349-360 | byte i of a planar row is the component that the fill loop puts there, 0 in the padding |
| PcxSave.PlanarRowPixel | pastel/gfx/image_file/pcx/loadpcx.hpp:625-641 | the loader's planar colour of pixel x of a planar row is pixel x of the row |
| PcxSave.RgbScanlines | pastel/gfx/image_file/pcx/savepcx.hpp:347-363 | there is one scanline per image row, each 3 bpl bytes long |
| PcxSave.SavePcx | pastel/gfx/image_file/pcx/savepcx.hpp:297-370 | an empty file name writes nothing; otherwise the file holds the RGB header and the planar rows, bottom row first, each run-length encoded |
| PcxSave.SaveRgbRows | pastel/gfx/image_file/pcx/savepcx.hpp:346-363 | the row loop writes the encodings of the planar rows from the bottom row up |
| PcxSave.SaveLoadRgb | pastel/gfx/image_file/pcx/savepcx.hpp:297-370 | for extents up to 32768, loading what savePcx wrote gives every colour back |
| PcxSave.RgbScanlineOfRow | pastel/gfx/image_file/pcx/savepcx.hpp:347-363 | the scanline stored (height - 1 - y)-th in the file is the planar form of image row y |
| Divisibility.GcdDivides | pastel/sys/rational.hpp:461-480 | the gcd used by simplify() divides both numerator and denominator (unless both are zero) |
| Divisibility.GcdGreatest | pastel/sys/rational.hpp:461-480 | every common divisor divides the gcd, so simplify() leaves lowest terms |
| Divisibility.CoprimeQuotients | pastel/sys/rational.hpp:461-480 | dividing both by the gcd leaves coprime numbers |
| Rationals.Denote | pastel/sys/rational.hpp:483-514 | the value a pair stands for: 0/0 is NaN, n/0 is +infinity or -infinity by the sign of n, anything else the real n/d |
| Rationals.NormalizeCanonical | pastel/sys/rational.hpp:461-480 | simplify() leaves a canonical pair: coprime, denominator non-negative, infinities as +-1/0, NaN as 0/0 |
| Rationals.NormalizeValue | pastel/sys/rational.hpp:461-480 | simplify() keeps the value, including the sign of an infinity |
| Rationals.NormalizeCanonicalFixed | pastel/sys/rational.hpp:461-480 | simplify() is the identity on canonical pairs (idempotence) |
| Rationals.CanonicalUnique | pastel/sys/rational.hpp:461-480 | two canonical pairs of the same value are identical, so componentwise equality is value equality |
| Rationals.ClassifyValue | pastel/sys/rational.hpp:483-514 | classify() returns NaN, Infinity, MinusInfinity, Zero or Normal exactly when the value is of that kind (both directions) |
| Rationals.AddValue | pastel/sys/rational.hpp:288-343 | operator+= yields a canonical pair whose value is the extended-real sum; NaN and +inf + -inf give NaN |
| Rationals.NegValue | pastel/sys/rational.hpp:425-428 | unary minus negates the value and keeps the pair canonical |
| Rationals.SubValue | pastel/sys/rational.hpp:346-352 | operator-= yields the extended-real difference |
| Rationals.MulValue | pastel/sys/rational.hpp:355-412 | operator*= yields the extended-real product: NaN absorbs, zero times an infinity is zero as the C++ branches order it, signs of infinities multiply |
| Rationals.InverseValue | pastel/sys/rational.hpp:653-659 | inverse() gives the reciprocal; 1/0 is +infinity and 1/infinity is zero |
| Rationals.DivValue | pastel/sys/rational.hpp:415-422 | operator/= multiplies by the reciprocal |
| Rationals.DivByZero | pastel/sys/rational.hpp:415-422 | dividing a non-zero value by zero gives +infinity for a positive value and -infinity for a negative one |
| Rationals.EqualValue | pastel/sys/rational.hpp:517-526 | equal() holds exactly when both canonical pairs have the same value, NaN equal to NaN |
| Rationals.LessThanValue | pastel/sys/rational.hpp:529-584 | lessThan() holds exactly when the first value is below the second in the extended order |
| Rationals.SignValue | pastel/sys/rational.hpp:671-691 | negative(), positive() and the corrected zero() hold exactly for negative, positive and zero values |
| Rationals.MabsValue | pastel/sys/rational.hpp:750-759 | mabs() is the absolute value and canonical |
| Rationals.ScaledValue | pastel/sys/rational.hpp:719-732 | multiplying the numerator by a positive integer and simplifying multiplies the value |
| Rationals.ShrunkValue | pastel/sys/rational.hpp:735-747 | multiplying the denominator by a positive integer and simplifying divides the value |
| Rationals.MultiplyByPowerOfTwoValue | pastel/sys/rational.hpp:719-732 | multiplyByPowerOfTwo() multiplies the value by 2^power |
| Rationals.DivideByPowerOfTwoValue | pastel/sys/rational.hpp:735-747 | divideByPowerOfTwo() divides the value by 2^power |
| Rationals.FloorValue | test/pastel/sys/test_rational.cpp:190-214 | the corrected floor() is the greatest integer not above the value and leaves infinities and NaN unchanged |
| Rationals.CeilValue | test/pastel/sys/test_rational.cpp:216-240 | the corrected ceil() is the least integer not below the value and leaves infinities and NaN unchanged |
| Rationals.FloorAsWrittenOffByOne | pastel/sys/rational.hpp:619-648 | for every negative non-integer, floor() and ceil() as written are one above the true floor and ceiling |
| Rationals.FloorAsWrittenOnInfinity | pastel/sys/rational.hpp:619-629 | floor() as written divides by zero on +-infinity and gives -1 for -4/3, where the corrected floor gives the infinities back and -2 |
| Rationals.ZeroAsWrittenOnNaN | pastel/sys/rational.hpp:687-691 | zero() as written holds for NaN (0/0), which is not zero; the corrected zero() does not |
| Rationals.Rational.constructor | pastel/sys/rational.hpp:12-17 | the default constructor makes the canonical zero 0/1 |
| Rationals.Rational.FromInteger | pastel/sys/rational.hpp:35-44 | Rational(wholes) is wholes/1, canonical |
| Rationals.Rational.FromPair | pastel/sys/rational.hpp:46-58 | Rational(n, d) stores the simplified pair, canonical and of the value n/d |
| Rationals.Rational.Raw | pastel/sys/rational.hpp:438-445 | the SkipSimplify constructor stores the pair as given |
| Rationals.Rational.Swap | pastel/sys/rational.hpp:255-263 | swap() exchanges the two pairs |
| Rationals.Rational.Set | pastel/sys/rational.hpp:265-273 | set(n, d) stores the simplified pair |
| Rationals.Rational.SetRaw | pastel/sys/rational.hpp:447-458 | set(n, d, SkipSimplify()) stores the pair as given |
| Rationals.Rational.Simplify | pastel/sys/rational.hpp:460-480 | simplify() replaces the pair by its normal form |
| Rationals.Rational.AddAssign | pastel/sys/rational.hpp:287-343 | operator+= stores the sum that AddValue relates to extended-real addition |
| Rationals.Rational.SubAssign | pastel/sys/rational.hpp:345-352 | operator-= stores the difference |
| Rationals.Rational.MulAssign | pastel/sys/rational.hpp:354-412 | operator*= stores the product |
| Rationals.Rational.DivAssign | pastel/sys/rational.hpp:414-422 | operator/= stores the quotient |
| TemporalKdTree.Times | pastel/geometry/tdtree/tdtree.h:160-164 | the time sequence has one entry per stored point, the point's time |
| TemporalKdTree.SimpleStart | pastel/geometry/tdtree/tdtree.h:475-500 | for times in arithmetic progression from an integer start with an integer step, the first time and the first difference are integers equal to the start and the step |
| TemporalKdTree.IsSimple | pastel/geometry/tdtree/tdtree.h:461-516 | isSimple returns true exactly when the times are t0 + i * delta for integers t0 and delta: no times, one integer time, or an integer start and step that every later time follows |
| TemporalKdTree.NotSimple | pastel/geometry/tdtree/tdtree.h:475-495 | a non-integer first time, or a non-integer first difference, makes the times not simple |
| TemporalKdTree.Mismatch | pastel/geometry/tdtree/tdtree.h:505-513 | a time that differs from start + i * delta makes the times not simple |
| TemporalKdTree.BinarySearch | pastel/geometry/tdtree/tdtree.h:420-432 | on non-decreasing times the binary search returns the first index whose time is at least the given time |
| TemporalKdTree.Ceil | pastel/geometry/tdtree/tdtree.h:451 | std::ceil gives the least integer not below x |
| TemporalKdTree.SimpleIndex | pastel/geometry/tdtree/tdtree.h:434-451 | for simple times and a time inside their range, the step is positive and ceil((time - tBegin) / tDelta) is the first index whose time is at least the given time |
| TemporalKdTree.StepsBetween | pastel/geometry/tdtree/tdtree.h:443-451 | rounding (time - tBegin) / tDelta up gives an index whose time is at least the given time while the one before it is earlier |
| TemporalKdTree.CeilBelow | pastel/geometry/tdtree/tdtree.h:449-451 | any index whose progression time is at least the given time is no less than the rounded-up quotient |
| TemporalKdTree.Earlier | pastel/geometry/tdtree/tdtree.h:443-447 | with a positive step, a smaller index has an earlier time |
| TemporalKdTree.ChooseShape | pastel/geometry/tdtree/tdtree.h:564-593 | a node of at most three points is a leaf; a larger node splits on the rule's axis at the rule's position, and construction fails exactly when the axis is not an axis of the bound or the position lies outside the bound on it |
| TemporalKdTree.CountBelow | pastel/geometry/tdtree/tdtree.h:550-554 | the cascade index never exceeds the child's point count |
| TemporalKdTree.CountBelowSplits | pastel/geometry/tdtree/tdtree.h:546-557 | in a time-ordered child, the entries before the cascade index are earlier than the parent entry's time and those from it on are not |
| TemporalKdTree.CountBelowNone | pastel/geometry/tdtree/tdtree.h:550-554 | when the child's first time is not earlier, the cascade index is 0 |
| TemporalKdTree.CountBelowMonotone | pastel/geometry/tdtree/tdtree.h:546-557 | a later parent time never gets a smaller cascade index |
| TemporalKdTree.CascadeLinks | pastel/geometry/tdtree/tdtree.h:539-561 | the fractional cascading links of a parent: entry i links to the first child entry whose time is not earlier than entry i's time, and the sentinel links to the child's point count |
| TemporalKdTree.LinksNonDecreasing | pastel/geometry/tdtree/tdtree.h:542-561 | the cascade links of a time-ordered parent are non-decreasing |
| TemporalKdTree.TdTree.constructor | pastel/geometry/tdtree/tdtree.h:73-81 | the default tree has no points, simple times and the end node as its root |
| TemporalKdTree.TdTree.FromPoints | pastel/geometry/tdtree/tdtree.h:125-191 | the tree stores one point per pair of a point and a time, as many as the shorter of the two sets gives, in order, and records whether their times are simple |
| TemporalKdTree.TdTree.Clear | pastel/geometry/tdtree/tdtree.h:230-236 | clear() leaves no points, simple times and the end node as the root |
| TemporalKdTree.TdTree.IsEmpty | pastel/geometry/tdtree/tdtree.h:243-246 | empty() holds exactly when the root is the end node |
| TemporalKdTree.TdTree.Size | pastel/geometry/tdtree/tdtree.h:253-256 | points() is the number of stored points |
| TemporalKdTree.TdTree.TimeToIndex | pastel/geometry/tdtree/tdtree.h:399-452 | timeToIndex returns the first index whose time is at least the given time: 0 for no points or a time not after the first, points() for a time after the last, by binary search or in constant time for simple times |
| Trees.CountIds | pastel/sys/tree.h:938-951 | the node count of a tree with distinct nodes is the number of its nodes |
| Trees.ExtremumIn | pastel/sys/tree.h:884-902 | the extremum of an empty subtree is the sentinel, and of a non-empty one a node of it |
| Trees.ExtremumInOrder | pastel/sys/tree.h:884-902 | the leftmost node is the first in in-order and the rightmost node the last |
| Trees.SentinelAbsent | pastel/sys/tree.h:52-59 | the sentinel is never a node of the tree |
| Trees.Leaf | pastel/sys/tree.h:1067-1074 | a freshly allocated node is a one-node tree that is its own leftmost and rightmost node |
| Trees.FindFacts | pastel/sys/tree.h:692-697 | the node named lies in the tree, its subtree lies inside it, and its parent is the sentinel exactly when it is the root |
| Trees.ReplaceIds | pastel/sys/tree.h:724-731 | replacing a subtree removes exactly its nodes and adds the new subtree's |
| Trees.ReplaceCount | pastel/sys/tree.h:751-752 | replacing a subtree changes the node count by the difference of the two subtrees' sizes |
| Trees.ReplaceRoot | pastel/sys/tree.h:733-737 | replacing the root's subtree changes the root; replacing any other leaves it |
| Trees.ReplaceUnique | pastel/sys/tree.h:724-731 | replacing a subtree by one with fresh nodes keeps the nodes distinct |
| Trees.AttachExtremum | pastel/sys/tree.h:505-524 | attaching a subtree on side i of the extremal node on that side makes the subtree's extremum the new extremum, and leaves the other side's extremum unchanged |
| Trees.CutExtremum | pastel/sys/tree.h:739-749 | cutting off a subtree that holds the extremum on side i makes the cut node's parent the new extremum |
| Trees.ReplaceInOrder | pastel/sys/tree.h:769-803 | replacing a subtree by one with the same in-order sequence keeps the in-order sequence of the tree |
| Trees.RotationKeepsOrder | pastel/sys/tree.h:769-803 | a rotation puts the child R of the node in its place and keeps the in-order sequence, the nodes and their count |
| Trees.AttachCut | pastel/sys/tree.h:692-755 | detaching a subtree that was just attached gives back the original tree |
| Trees.ExtremumInside | pastel/sys/tree.h:710-711 | a tree's extremum lies in a subtree exactly when it is that subtree's extremum |
| Trees.RotatedAsWrittenLosesNodes | pastel/sys/tree.h:786-803 | as written, rotating a node other than the root leaves the node that should move up linked from nowhere, losing it and its child R subtree while the size still counts them |
| Trees.RotatedAsWrittenAtRoot | pastel/sys/tree.h:799-802 | at the root, rotate as written is the rotation |
| Trees.RotatedAsWrittenExample | pastel/sys/tree.h:769-803 | rotating node 2 of the chain 1, 2, 3 with 3's left child 4 leaves three linked nodes where the size counts four, while the rotation links 3 in 2's place |
| Trees.TransferOwned | pastel/sys/tree.h:116-126 | moving nodes to another tree gives that tree exactly the moved nodes and leaves the rest where they were |
| Trees.OwnedDisjoint | pastel/sys/tree.h:116-126 | two trees own disjoint sets of nodes |
| Trees.CutLinked | pastel/sys/tree.h:692-755 | after a subtree is cut off, the root, leftmost, rightmost and size fields of both parts agree with their nodes |
| Trees.AttachLinked | pastel/sys/tree.h:600-667 | after a subtree is attached, the root, leftmost, rightmost and size fields agree with the combined nodes |
| Trees.Allocator.constructor | pastel/sys/tree.h:1067-1074 | a new allocator owns nothing and hands out identifiers after the sentinel |
| Trees.Tree.constructor | pastel/sys/tree.h:52-59 | a new tree is empty and well formed |
| Trees.Tree.Empty | pastel/sys/tree.h:242-245 | empty() holds exactly when the tree has no nodes |
| Trees.Tree.Allocate | pastel/sys/tree.h:1067-1074 | allocate hands out a fresh node owned by this tree and counts it in the size |
| Trees.Tree.InsertRoot | pastel/sys/tree.h:450-467 | insertRoot fails on a non-empty tree and otherwise makes the new node the root, leftmost and rightmost node, with size 1 |
| Trees.Tree.Insert | pastel/sys/tree.h:480-527 | insert refuses a bad child index, the sentinel or an occupied child and changes nothing then; otherwise it attaches a fresh leaf as child i and counts it, keeping the tree well formed |
| Trees.Tree.InsertAsWritten | pastel/sys/tree.h:480-527 | as written, a refused insertion into an occupied child leaves the tree's nodes as they were but its size one larger, so the tree is no longer well formed |
| Trees.Tree.EraseSubtree | pastel/sys/tree.h:1019-1057 | destroying a subtree moves leftmost and rightmost to its parent when they lay in it, the root to the sentinel when it did, and reduces the size by the subtree's node count |
| Trees.Tree.Erase | pastel/sys/tree.h:992-1009 | erase removes the node's subtree, exactly its nodes and their count, keeping the tree well formed |
| Trees.Tree.Clear | pastel/sys/tree.h:268-278 | clear() leaves a well-formed empty tree |
| Trees.Tree.ExtremumSubtree | pastel/sys/tree.h:912-927 | extremumSubtree returns the extremal node of the subtree on the given side, a node of it |
| Trees.Tree.ExtremumOf | pastel/sys/tree.h:884-902 | extremum returns the extremal node of the subtree on the given side |
| Trees.Tree.SizeOf | pastel/sys/tree.h:938-982 | size(node) counts the nodes of the subtree, no more than the tree's size |
| Trees.Tree.Detach | pastel/sys/tree.h:692-755 | detach moves the subtree into a fresh tree and removes it from this one; both are well formed and their sizes add up to the old size |
| Trees.Tree.CutOff | pastel/sys/tree.h:724-752 | unlinking the detached subtree keeps the fields of the rest consistent and subtracts the detached size |
| Trees.Tree.Forget | pastel/sys/tree.h:1173-1179 | forget() leaves an empty tree without destroying the nodes |
| Trees.Tree.MoveAssign | pastel/sys/tree.h:190-214 | move assignment from itself changes nothing; otherwise this tree takes over the other's nodes and size and the other becomes empty |
| Trees.Tree.InsertMove | pastel/sys/tree.h:600-667 | inserting a moved tree attaches its nodes as child i, empties the moved tree and counts its nodes; a refused insertion changes nothing |
| Trees.Tree.CopyChildren | pastel/sys/tree.h:1094-1115 | copyConstruct copies the children of a node below the given node with fresh nodes of the same shape and data, adding their count to the size |
| Trees.Tree.CopyChild | pastel/sys/tree.h:1094-1115 | copying one child subtree attaches a fresh copy of the same shape and data as child i |
| Trees.Tree.InsertCopy | pastel/sys/tree.h:540-583 | inserting a copy of a tree attaches fresh nodes of the same shape and data as child i and leaves the source tree as it was; a refused insertion changes nothing |
| Trees.Tree.Rotate | pastel/sys/tree.h:769-803 | rotate succeeds exactly when the rotated-up child has a child on the rotation side, and then replaces the subtree by its rotation, keeping the in-order sequence and the nodes |
| Tuples.DynamicAbsorbs | pastel/sys/tuple/tuple.h:19-26 | AddN and SubN leave the Dynamic dimension Dynamic |
| Tuples.AddSubInverse | pastel/sys/tuple/tuple.h:19-26 | for a static dimension, AddN adds and SubN undoes it |
| Tuples.AssignedIdempotent | pastel/sys/tuple/tuple.h:239-245 | assigning the same initializer list twice is assigning it once |
| Tuples.AssignedLongList | pastel/sys/tuple/tuple.h:239-245 | a list at least as long as the tuple overwrites every element with the list's prefix |
| Tuples.ResizedSame | pastel/sys/tuple/tuple.h:666-672 | resizing to the current size changes nothing |
| Tuples.ResizedRestores | pastel/sys/tuple/tuple.h:666-672 | growing and shrinking back restores the original elements |
| Tuples.ResizedShrinks | pastel/sys/tuple/tuple.h:666-672 | shrinking in two steps is shrinking once |
| Tuples.Fill | pastel/sys/tuple/tuple.h:263-266 | std::fill sets exactly the elements from lo on to x |
| Tuples.CopyFrom | pastel/sys/tuple/tuple.h:139-143 | std::copy_n copies exactly the first n elements |
| Tuples.EqualPrefix | pastel/sys/tuple/tuple.h:384-389 | std::equal holds exactly when the first \|s\| elements equal s |
| Tuples.StaticTuple.Filled | pastel/sys/tuple/tuple.h:133-153 | Tuple(that) and Tuple(dimension, that) hold N copies of that |
| Tuples.StaticTuple.FromElements | pastel/sys/tuple/tuple.h:139-173 | Tuple(const Type*), Tuple(dimension, Copy) and Tuple(dimension, Alias) hold the first N elements given |
| Tuples.StaticTuple.Set | pastel/sys/tuple/tuple.h:263-266 | set(x) makes every element x |
| Tuples.StaticTuple.AssignList | pastel/sys/tuple/tuple.h:239-245 | assigning a list overwrites the first min(N, size of list) elements |
| Tuples.StaticTuple.Swap | pastel/sys/tuple/tuple.h:247-255 | swap exchanges the elements of the two tuples |
| Tuples.StaticTuple.Empty | pastel/sys/tuple/tuple.h:328-331 | a static tuple is never empty |
| Tuples.StaticTuple.At | pastel/sys/tuple/tuple.h:333-357 | at(i) and [i] return element i |
| Tuples.StaticTuple.Equals | pastel/sys/tuple/tuple.h:384-389 | operator== holds exactly when the N elements equal the first N of that |
| Tuples.DynamicTuple.Filled | pastel/sys/tuple/tuple.h:500-519 | Tuple(dimension, that) holds dimension copies of that |
| Tuples.DynamicTuple.FromElements | pastel/sys/tuple/tuple.h:614-625 | Tuple(dimension, Copy) holds the first dimension elements given |
| Tuples.DynamicTuple.Copy | pastel/sys/tuple/tuple.h:521-538 | the copy constructor holds the same elements in a fresh buffer |
| Tuples.DynamicTuple.Resizing | pastel/sys/tuple/tuple.h:540-560 | Tuple(that, dimension, x) keeps the first min(size, dimension) elements and fills the rest with x |
| Tuples.DynamicTuple.CopyConstruct | pastel/sys/tuple/tuple.h:856-898 | copyConstruct copies the first minSize elements and fills the rest with the default |
| Tuples.DynamicTuple.Assign | pastel/sys/tuple/tuple.h:640-649 | copy assignment between tuples of one size copies the elements |
| Tuples.DynamicTuple.AssignList | pastel/sys/tuple/tuple.h:651-657 | assigning a list overwrites the first min(size, size of list) elements |
| Tuples.DynamicTuple.Resize | pastel/sys/tuple/tuple.h:659-672 | setSize and resize keep the first min(old size, size) elements and fill the rest with x |
| Tuples.DynamicTuple.Swap | pastel/sys/tuple/tuple.h:674-679 | swap exchanges the buffers |
| Tuples.DynamicTuple.Set | pastel/sys/tuple/tuple.h:681-684 | set(x) makes every element x |
| Tuples.DynamicTuple.Empty | pastel/sys/tuple/tuple.h:750-753 | empty() holds exactly when there are no elements |
| Tuples.DynamicTuple.Front | pastel/sys/tuple/tuple.h:686-696 | front() returns the first element of a non-empty tuple |
| Tuples.DynamicTuple.Back | pastel/sys/tuple/tuple.h:698-708 | back() returns the last element of a non-empty tuple |
| Tuples.DynamicTuple.At | pastel/sys/tuple/tuple.h:755-779 | at(i) and [i] return element i |
| Tuples.DynamicTuple.Equals | pastel/sys/tuple/tuple.h:806-811 | operator== on tuples of one size holds exactly when the elements are equal |
| UnorderedTables.SlotOf | pastel/sys/unorderedbase.hpp:680-683 | a key's bucket index is below the bucket count |
| UnorderedTables.Put | pastel/sys/unorderedbase.hpp:226-248 | storing a value adds exactly that value to the value list and keeps the bucket count |
| UnorderedTables.PutPosition | pastel/sys/unorderedbase.hpp:226-248 | a new value goes at the front of its bucket's run, or at the end of the list for an empty bucket |
| UnorderedTables.RunsApart | pastel/sys/unorderedbase.hpp:226-248 | the runs of two different non-empty buckets do not overlap |
| UnorderedTables.PutLaid | pastel/sys/unorderedbase.hpp:226-248 | after a value is stored, every bucket's run still holds exactly the values that hash to it, contiguously |
| UnorderedTables.PutHolds | pastel/sys/unorderedbase.hpp:226-248 | storing a value keeps each bucket's run exact, the target bucket's run grown by the new value |
| UnorderedTables.Remove | pastel/sys/unorderedbase.hpp:329-359 | erasing position at removes exactly that value from the list and keeps the bucket count |
| UnorderedTables.RemoveLaid | pastel/sys/unorderedbase.hpp:329-359 | after an erase, every bucket's run still holds exactly the values that hash to it, contiguously |
| UnorderedTables.RemoveHolds | pastel/sys/unorderedbase.hpp:336-350 | the bucket update of erase keeps each bucket's run exact: a one-value run empties, a first or last value moves the run's end inward |
| UnorderedTables.PutUnique | pastel/sys/unorderedbase.hpp:237-247 | storing a value whose key is new keeps the keys distinct |
| UnorderedTables.PositionsInPut | pastel/sys/unorderedbase.hpp:237-247 | two positions of the list after storing a new key hold different keys |
| UnorderedTables.RemoveUnique | pastel/sys/unorderedbase.hpp:355 | erasing a value keeps the keys distinct |
| UnorderedTables.Interval | pastel/sys/unorderedbase.hpp:660-673 | the positions from first to last form a set of last + 1 - first positions |
| UnorderedTables.UnorderedBase.constructor | pastel/sys/unorderedbase.hpp:39-56 | a new table is empty, with the given hash and the requested number of empty buckets and a maximum load factor of 1 |
| UnorderedTables.UnorderedBase.Copy | pastel/sys/unorderedbase.hpp:88-103 | the copy holds the same values with the same key extraction, hash and maximum load factor |
| UnorderedTables.UnorderedBase.Bucket | pastel/sys/unorderedbase.hpp:680-683 | bucket(key) is an index below bucket_count() |
| UnorderedTables.UnorderedBase.BucketSize | pastel/sys/unorderedbase.hpp:660-673 | bucket_size(n) is the number of values whose key hashes to bucket n |
| UnorderedTables.UnorderedBase.LocalRange | pastel/sys/unorderedbase.hpp:690-751 | begin(n) and end(n) bound exactly the positions of the values that hash to bucket n |
| UnorderedTables.UnorderedBase.SetMaxLoadFactor | pastel/sys/unorderedbase.hpp:772-775 | max_load_factor(f) sets the maximum load factor and changes no value and no bucket |
| UnorderedTables.UnorderedBase.IsEmpty | pastel/sys/unorderedbase.hpp:147-150 | empty() holds exactly when the table holds no values |
| UnorderedTables.UnorderedBase.ScanRun | pastel/sys/unorderedbase.hpp:513-525 | the bucket scan returns the first position of the run whose key equals the given key, or one past the run when none does |
| UnorderedTables.UnorderedBase.Find | pastel/sys/unorderedbase.hpp:500-526 | find returns the position of the value with the key, or the end exactly when no value has it |
| UnorderedTables.UnorderedBase.NotInKeys | pastel/sys/unorderedbase.hpp:504-507 | an empty bucket holds no value with a key that hashes to it |
| UnorderedTables.UnorderedBase.Count | pastel/sys/unorderedbase.hpp:566-574 | count is 1 exactly when some value has the key and 0 otherwise |
| UnorderedTables.UnorderedBase.EqualRange | pastel/sys/unorderedbase.hpp:586-603 | equal_range bounds exactly the positions whose key equals the given key |
| UnorderedTables.UnorderedBase.Insert | pastel/sys/unorderedbase.hpp:218-263 | insert returns the position of a value with the key; it stores the value exactly when the key is new and otherwise changes nothing; after a store the load factor is within the maximum |
| UnorderedTables.UnorderedBase.InsertNew | pastel/sys/unorderedbase.hpp:226-262 | storing a value with a new key adds exactly that value and rehashes when the load factor grows past the maximum |
| UnorderedTables.UnorderedBase.Store | pastel/sys/unorderedbase.hpp:226-250 | the value goes in front of its bucket's run, or at the end for an empty bucket, and the table stays well formed |
| UnorderedTables.UnorderedBase.FoundIsValue | pastel/sys/unorderedbase.hpp:259 | after a rehash, finding the inserted key gives back the inserted value |
| UnorderedTables.UnorderedBase.InsertRange | pastel/sys/unorderedbase.hpp:291-322 | inserting a range adds the range's keys, no value from outside the table and the range, and for distinct keys into an empty table exactly the range's values |
| UnorderedTables.UnorderedBase.InsertedKeys | pastel/sys/unorderedbase.hpp:308-313 | each pass of the range loop adds the key of the item to the table's keys |
| UnorderedTables.UnorderedBase.NewKey | pastel/sys/unorderedbase.hpp:291-313 | a key that first appears at position i of a range is not among the earlier keys |
| UnorderedTables.UnorderedBase.Rehash | pastel/sys/unorderedbase.hpp:780-842 | rehash keeps the same values, makes at least the requested number of buckets and brings the load factor within the maximum |
| UnorderedTables.UnorderedBase.Clear | pastel/sys/unorderedbase.hpp:452-459 | clear() leaves no values, one empty bucket and a maximum load factor of 1 |
| UnorderedTables.UnorderedBase.Swap | pastel/sys/unorderedbase.hpp:464-473 | swap exchanges the key extraction, hash, values, buckets, size and maximum load factor of the two tables |
| UnorderedTables.UnorderedBase.Erase | pastel/sys/unorderedbase.hpp:329-359 | erase(position) removes exactly that value and returns the position of the one after it |
| UnorderedTables.UnorderedBase.EraseKey | pastel/sys/unorderedbase.hpp:401-413 | erase(key) returns 1 and removes the value with the key when there is one, and returns 0 and changes nothing otherwise |
| UnorderedTables.UnorderedBase.ErasedKey | pastel/sys/unorderedbase.hpp:401-413 | after erase(key) the table holds exactly the values it held whose key differs |
| UnorderedTables.UnorderedBase.EraseRange | pastel/sys/unorderedbase.hpp:419-430 | erase(first, last) removes exactly the values in the range and returns its end |
| UnorderedTables.NewBucketCount | pastel/sys/unorderedbase.hpp:784-786 | the new bucket count is at least the requested one and keeps the load factor below the maximum |
| UnorderedTables.DividedBelow | pastel/sys/unorderedbase.hpp:784-786 | a size divided by the load factor, plus one, gives a bucket count that keeps the load factor below the maximum |
| UnorderedTables.Rebuild | pastel/sys/unorderedbase.hpp:788-838 | the rebuilt list holds the same values, laid out in the new number of buckets, each bucket's values contiguous |
| UnorderedTables.FreshKey | pastel/sys/unorderedbase.hpp:812-836 | a value's key is not yet among those already moved to the rebuilt list |

## Left out

- MultiIntegerWords.WordCount: the word is fixed at 16 bits, while `Word` is a template parameter of `MultiInteger` (pastel/sys/integer/multi_integer/multi_integer.h:73) and of `Integer` (pastel/sys/integer.h:66, 80). Every property is stated on the value modulo 2^N and in terms of the words' value, so none of them depends on the word width; a 16-bit word keeps word arithmetic small enough for the solver.
- UnorderedTables.NewBucketCount: the bucket count that rehash() computes is not rounded up to the next prime (pastel/sys/unorderedbase.hpp:784-786), and the constructor keeps the requested count where the C++ takes the following prime (pastel/sys/unorderedbase.hpp:54-55). The prime table of primes.h is not part of this model. The count is still at least the requested one and keeps the load factor within the maximum, but bucket indices, and so bucket(k) and bucket_size(n), can differ from the C++.
- UnorderedTables.UnorderedBase: the allocator, the insertion hints, the const overloads of find, begin and end, max_size(), max_bucket_count() and the iterator types are not modelled; positions in the value list stand for iterators.
- Drawing.DrawHorizontalLine, Drawing.DrawBox: take integer pixel coordinates that are already converted; the rounding of real coordinates by toPixelSpanPoint and of an AlignedBox2 (pastel/gfx/drawing.hpp:806-826, 940-950) is not modelled, nor are the other drawing routines of drawing.hpp (triangles, circles, textured shapes), which use floating point.
- PcxLoad: a file is the sequence of bytes after the 128-byte header, with the header already parsed; a byte read past the end of the data reads as 0, where the C++ reads whatever the stream returns after end of file. File opening, the stream and error logging are not modelled.
- PcxLoad.LoadScanline: stops writing at the `amount` bytes it is asked for (it requires only that the buffer holds them); the run-length overrun of the C++ past that point is shown by PcxLoad.LoadScanlineOverrun (see "## Findings").
- PcxLoad.LoadIndexedRow, PcxLoad.LoadIndexedRows, PcxLoad.LoadIndexedPcx, PcxLoad.LoadColorRow, PcxLoad.LoadPcx: require ScanlineFits, that is, that a row's pixels fit the scanline the header declares; with a header that declares a shorter scanline the C++ indexes its scanline vector past the end (pastel/gfx/image_file/pcx/loadpcx.hpp:246-291), which the model does not follow.
- PcxSave.SaveBinaryPcx, PcxSave.SaveIndexedPcx, PcxSave.SavePcx: the written header holds the image's width and height; the C++ stores the margins (int16)(width - 1) and (int16)(height - 1) (pastel/gfx/image_file/pcx/savepcx.hpp:104-105, 207-214, 329-336), so past 32768 the extents it reports wrap, as PcxSave.StoredExtent states; bytesPerScanlinePerPlane passes through (int16)(width + 1) or (int16)width and is taken here as the unsigned 16-bit field value. How pcxheader.h turns margins into width() and height() is not part of this model.
- PcxSave.WrittenHeadersLoad, PcxSave.SaveLoadBinary, PcxSave.SaveLoadIndexed, PcxSave.SaveLoadRgb: stated only for extents the int16 margins hold, up to 32768; past that the C++ file does not load back as the image.
- PcxLoad, PcxSave: colours are byte triples rather than Color values scaled by 1/255, and the colour adapters are the identity.
- Integers: the operations of pastel/sys/integer.h that share their code with pastel/sys/integer/multi_integer/multi_integer.h are modelled once, in MultiIntegers; the README rows cite both headers where they do.
- MultiIntegers.MultiInteger.Divide: for a signed type, accepts the divisor -2^(N-1) only with a zero dividend, which operator/= returns before it looks at the divisor. With any other dividend the C++ negates that divisor, which leaves it negative: for the dividend -2^(N-1) the still-negative abs(that) goes to divideInfinity (pastel/sys/integer/multi_integer/multi_integer.h:875), whose result for a negative argument is not modelled, and for every other dividend the assertion iRight <= iLeft (multi_integer.h:908) fails, the negated divisor's highest bit lying above the dividend's. The wrapping quotient -2^(N-1) / -1 is modelled.
- MultiIntegers.MultiInteger.Remainder: accepts the same divisors as MultiIntegers.MultiInteger.Divide, since operator%= divides first (multi_integer.h:778-784).
- MultiIntegerDivision.NativeDivisor: converts a native divisor by its value, as the corrected MultiIntegers.MultiInteger.FromNative does; the C++ converts it with the constructor as written, which sign-fills an unsigned native whose top bit is set (see "## Findings"), so for such a divisor narrower than N bits the C++ divides by that + 2^N - 2^width instead. The same holds for the native remainder, MultiIntegers.MultiInteger.RemainderByNative.
- MultiIntegers.MultiInteger.FromUnsignedAsWritten: models native widths that are a whole number of 16-bit words; a uint8 native is not modelled as written.
- Rationals: `Integer` is the unbounded integer of Dafny. Rational<Integer> is also instantiated with fixed-width integers that wrap (native integers, MultiInteger); the overflow of their products and sums in normalisation, arithmetic and comparison is not modelled, so every property holds as stated only while the integer type does not overflow.
- Rationals: the constructors from floating point, asString, hashing and stream output are not modelled; they use floating point or I/O.
- Arrays: the alias constructor over foreign memory and the move operations are not modelled; an array owns a sequence of elements.
- Automata, AutomataLegacy: the customisation hooks are modelled as an `allowed` predicate passed to each operation; exception rollback and the iterator types are not modelled.
- FastLists: allocators, iterator types and max_size() are not modelled; positions in the element sequence stand for iterators.
- Trees: iterators, the reference count of the shared sentinel, the allocator, the copy and move constructors, swap(), exception rollback and setRightMost() are not modelled; node identities are natural numbers.
- RefinablePartitions.RefinablePartition.Copy: walks each set's members in the order of the element-sequence, while the C++ walks the set's own member list, marked members first (pastel/sys/refinable_partition/refinable_partition.h:99-101), which the value model does not record; the copy's element order within a set and the order in which its sets join the split-set can therefore differ from the C++. Each copied set's members are stated up to that order's source: the same marks and data in the original's element order.
- RefinablePartitions: swap(), the move constructor, iterator types, exception rollback and type() are not modelled.
- TemporalKdTree.TdTree.FromPoints: requires the points' times to be non-decreasing. The C++ constructor stable-sorts only its list of iterators (pastel/geometry/tdtree/tdtree.h:170-183), not the point set that timeToIndex() searches, so the time index is only meaningful for sorted times; the default time of each point is its index, which is increasing.
- TemporalKdTree, KdTrees: the C++ `Real` (double in the instantiations) is modelled as an exact Dafny `real`. Rounding is not modelled: isSimple's test (integer)that == that (pastel/geometry/tdtree/tdtree.h:472) is exact integrality here, timeToIndex's std::ceil (tdtree.h:451) is the exact ceiling, and the kd-tree's split positions and object bounds compare without rounding.
- TemporalKdTree: the node hierarchy, the bounding box and the recursion of construct() are not modelled beyond the split choice (ChooseShape) and the fractional-cascading links (CascadeLinks).
- KdTrees: bound_, the AlignedBox type and reserveBound(), the node allocator, the copy constructor and swap() are not modelled; erase() is not modelled because the C++ stops with ENSURE(false) (pastel/geometry/kdtree.hpp).
- MaximumBipartiteMatchings: that the matching found is maximum (Berge's theorem) and that the breadth-first search finds every shortest augmenting path are not proved; the model proves that the result is a matching and that the loop terminates. Hashing of vertices is replaced by maps. The older header pastel/sys/maximum_bipartite_matching.hpp runs the same algorithm and is modelled by MatchPairs.
- MaximumCliqueAlignedBox: the random tie-break, the area and size tie-breaks, the reconstruction of the clique's box, the reporting of the active set and the coordinates of the box are not modelled; the order std::sort gives the events is a parameter.
- BigIntegers.Plus, BigIntegers.Minus: use the corrected BigDigits.Subtract, not subtract() as written (see "## Findings").
- BigIntegers.FromInteger: the corrected constructor from an integer; the constructor as written truncates (see "## Findings").
- BigIntegerProducts.MultiplyDigit: the corrected digit product; the product as written overflows int32 (see "## Findings").
- BigIntegerText.StringValue: the corrected string constructor; as written it loses the sign (see "## Findings").
- Rationals.FloorValue, Rationals.CeilValue: state the floor and ceiling that the tests expect; floor() and ceil() as written truncate toward zero (see "## Findings").
- Rationals.SignValue: states the corrected zero(), which is false for NaN (see "## Findings").
- Integers.Integer.Add, Integers.Integer.Subtract, Integers.Integer.ToString: the corrected operators; as written they lose a carry or borrow and print padding bits (see "## Findings").
- MultiIntegers.MultiInteger.FromNative: the corrected constructor, which zero-fills an unsigned native; as written an unsigned native with its top bit set is sign-filled, as MultiIntegers.MultiInteger.FromUnsignedAsWritten models and MultiIntegerWords.UnsignedTopBitSignFilled exhibits (see "## Findings").
- MultiIntegers.MultiInteger.Multiply, MultiIntegers.MultiInteger.Less, MultiIntegers.MultiInteger.SetBits, MultiIntegers.MultiInteger.BitRange, MultiIntegers.MultiInteger.OneBits, MultiIntegers.MultiInteger.ShiftRight: the corrected members (see "## Findings").
- Automata.Automaton.RemoveTransition, Automata.Automaton.Merge: the corrected members, whose counters stay in agreement (see "## Findings").
- KdTrees.KdTree.ClearObjects: the corrected clearObjects(), which also resets the object count (see "## Findings").
- MaximumCliqueAlignedBox.MaximumCliqueSize: the corrected search phase over all 2n events (see "## Findings").
- FastLists.FastList.Reverse: the corrected reverse(); as written its loop never advances (see "## Findings").
- Trees.Tree.Rotate, Trees.Tree.Insert: the corrected members (see "## Findings").
- RefinablePartitions.RefinablePartition.EraseSet: the corrected erase(set), which also removes the set from the split-set (see "## Findings").
- RefinablePartitionSets.EraseKeeps, RefinablePartitionSets.InsertUnmarkedKeeps: state the corrected erase() and insertUnmarked() of a set (see "## Findings").

## Findings

| source | as written | input that shows it | evidently intended | confidence | as-written member | corrected member |
|---|---|---|---|---|---|---|
| pastel/math/biginteger.cpp:769-818 | subtract() overwrites the borrow taken from the next digit | [0, 2] - [1, 1] gives 131071 | the difference 65535 | not executed | BigDigits.SubtractLosesBorrow | BigDigits.Subtract |
| pastel/math/biginteger.cpp:84-102 | the constructor from an integer keeps only one 16-bit digit above the low one | 2^32 becomes 0 | the integer's own value | not executed | BigIntegers.FromIntegerAsWrittenTruncates | BigIntegers.FromInteger |
| pastel/math/biginteger.cpp:465-480 | multiply() forms the digit product in int32 | 0xFFFF * 0xFFFF wraps to -131071 | the product 4294836225 | not executed | BigIntegerProducts.DigitProductOverflows | BigIntegerProducts.MultiplyDigit |
| pastel/math/biginteger.cpp:58-78 | operator*= on the initial zero resets the sign set before the digits | "-5" parses to 5 | -5 | not executed | BigIntegerText.NegativeTextLosesSign | BigIntegerText.StringValue |
| pastel/math/biginteger.cpp:58-64 | a lone "-" is accepted | "-" gives a negative zero | an invalid number rejected, or zero | not executed | BigIntegerText.LoneMinusAsWritten | BigIntegerText.StringValue |
| pastel/sys/rational.hpp:619-648 | floor() and ceil() truncate toward zero | floor(-4/3) gives -1 | -2, as test/pastel/sys/test_rational.cpp:190-240 expects | not executed | Rationals.FloorAsWrittenOffByOne | Rationals.FloorValue |
| pastel/sys/rational.hpp:619-629 | floor() divides by the zero denominator of an infinity | floor(+infinity) divides by zero | the infinity itself | not executed | Rationals.FloorAsWrittenOnInfinity | Rationals.FloorValue |
| pastel/sys/rational.hpp:687-691 | zero() tests only the numerator | NaN (0/0) is reported zero | false for NaN | not executed | Rationals.ZeroAsWrittenOnNaN | Rationals.SignValue |
| pastel/sys/integer.h:659-671 | operator+= tests the carry by wordSet_[i] < before | [0xFFFF, 0, 0] + [1, 0xFFFF, 0] gives 0 | 2^32 | not executed | Integers.CarryLost | Integers.Integer.Add |
| pastel/sys/integer.h:678-690 | operator-= tests the borrow by wordSet_[i] > before | [0, 0, 1] - [1, 0xFFFF, 0] gives 2^32 + 0xFFFF | 0xFFFF | not executed | Integers.BorrowLost | Integers.Integer.Subtract |
| pastel/sys/integer.h:858-884 | toString() prints the top bits of the word array, padding included | the 20-bit 1 prints 12 padding bits | the 20 bits of 1 | not executed | Integers.PaddingPrinted | Integers.Integer.ToString |
| pastel/sys/integer/multi_integer/multi_integer.h:743-765 | x *= x reads right through the words clearBits() just zeroed | 3 *= 3 gives 0 | 9 | not executed | MultiIntegers.SquareOfThree | MultiIntegers.MultiInteger.Multiply |
| pastel/sys/integer/multi_integer/multi_integer.h:654-696 | operator< reverses the order of two negative values | -2 < -1 is false | true | not executed | MultiIntegers.MultiInteger.LessAsWritten | MultiIntegers.MultiInteger.Less |
| pastel/sys/integer/multi_integer/multi_integer.h:435-498 | setBits() within one word skips signExtend() | setBits(7, 8) on the 8-bit signed 0 leaves word 0x80 | padding that sign-extends -128 | not executed | MultiIntegers.SetBitsBreaksPadding | MultiIntegers.MultiInteger.SetBits |
| pastel/sys/integer/multi_integer/multi_integer.h:266-289 | the bit-range constructor does not sign-extend | the 20-bit -1 over [0, 20) leaves word 0x000F | padding that sign-extends -1 | not executed | MultiIntegers.BitRangeBreaksPadding | MultiIntegers.MultiInteger.BitRange |
| pastel/sys/integer/multi_integer/multi_integer.h:1326-1334 | numberOfOneBits() counts the padding of the last word | the 20-bit -1 counts 32 | 20 | not executed | MultiIntegers.PaddingCounted | MultiIntegers.MultiInteger.OneBits |
| pastel/sys/integer/multi_integer/multi_integer.h:1149-1178 | operator>>= fills the top word with zeros and reads the padding after the shift | the 16-bit -2 >> 1 gives 32767 | -1 | not executed | MultiIntegerShifts.ShiftRightLosesSign | MultiIntegers.MultiInteger.ShiftRight |
| pastel/sys/integer/multi_integer/multi_integer.h:181-199 | the unsigned constructor shifts the native with arithmeticShiftRight, which copies its top bit into the higher words | (uint32)0x80000000 into a 64-bit unsigned MultiInteger gives 2^64 - 2^31 | mod(that, 2^N) = 2^31, as the constructor's documentation states | not executed | MultiIntegerWords.UnsignedTopBitSignFilled | MultiIntegers.MultiInteger.FromNative |
| pastel/sys/automaton/automaton.h:757-785 | removeTransition() lowers the ambiguous count only when one target is left | removing the three transitions of one branch-set leaves a count of 1 | a count of 0 | not executed | Automata.RemovalsAsWrittenLeaveAmbiguity | Automata.Automaton.RemoveTransition |
| pastel/sys/automaton/automaton.h:946-974 | merge() does not add the other automaton's counters | merging in an epsilon-transition reports a deterministic automaton | the counters of both | not executed | Automata.MergeAsWrittenLosesEpsilon | Automata.Automaton.Merge |
| pastel/gfx/image_file/pcx/loadpcx.hpp:198-210 | a run is written in full whatever room is left | the packet 0xFF 0x07 writes 63 bytes into a one-byte scanline | writes stop at the scanline's end | not executed | PcxLoad.LoadScanlineOverrun | PcxLoad.LoadScanline |
| pastel/geometry/maximum_clique_alignedbox.hpp:597 | the search loop runs over n of the 2n events | three boxes, two overlapping at (5, 3.5), give size 0 | size 2 | not executed | MaximumCliqueAlignedBox.AsWrittenMissesClique | MaximumCliqueAlignedBox.MaximumCliqueSize |
| pastel/geometry/kdtree.hpp:673-678 | clearObjects() empties the leaves but keeps objects_ | a tree with one object reports one object after clearObjects() | 0 objects | not executed | KdTrees.StaleObjectCount | KdTrees.KdTree.ClearObjects |
| pastel/sys/fastlist.hpp:962-969 | a stray semicolon makes the while loop's body empty | reverse() on any non-empty list never ends | the list reversed | not executed | FastLists.ReverseAsWrittenNeverEnds | FastLists.FastList.Reverse |
| pastel/sys/tree.h:786-803 | rotate() does not relink the parent's child to the node moving up | rotating node 2 left in the chain 1, 2, 3, where 3 has the left child 4, loses node 3 | 3 linked in 2's place | not executed | Trees.RotatedAsWrittenExample | Trees.Tree.Rotate |
| pastel/sys/tree.h:494-501 | insert() allocates the node before it refuses an occupied child | inserting below an occupied child grows the size by one | the size unchanged | not executed | Trees.Tree.InsertAsWritten | Trees.Tree.Insert |
| pastel/sys/refinable_partition/refinable_partition.h:248-263 | erase(set) leaves the set in the split-set | erasing a set that holds a marked element leaves it in the split-set | the set gone from the split-set | not executed | RefinablePartitions.EraseSetAsWrittenStale | RefinablePartitions.RefinablePartition.EraseSet |
| pastel/sys/refinable_partition_set.h:403-410 | erase() does not advance unmarkedBegin_ past the erased node | erasing the first of two unmarked members | the unmarked part starts at the next member | not executed | RefinablePartitionSets.EraseAsWrittenExample | RefinablePartitionSets.EraseKeeps |
| pastel/sys/refinable_partition_set.h:362-374 | insertUnmarked() into a set whose members are all marked puts the node in the marked part | a one-member set whose member is marked | the new node unmarked | not executed | RefinablePartitionSets.InsertUnmarkedAsWrittenExample | RefinablePartitionSets.InsertUnmarkedKeeps |
