# Verified models of the chain library, its compiler builtins, RANDPA finality and the reflection checker

This project models the parts of the node software whose correctness is hardest to see from
reading them, and proves what they are meant to guarantee. `dafny verify dfyconfig.toml` checks
everything.

**128-bit floating point builtins** (`libraries/builtins`). Integers are modelled as numbers and
their bits as quotients and remainders (`Bits`). Encodings stand for real numbers (`Ieee754`), so
the theorems are about values: the conversions from 128-bit integers to `double` return *the*
nearest double, ties to even, for every input (`Rounding`, `FloatSpec`, `CorrectRounding`,
`FloatTi`); the six conversions back truncate and saturate (`FixTi`); and the two directions
compose as they should (`FloatFix`). The signed conversions to integer are *not* correct
everywhere: in `[2^127, 2^128)` they shift into the sign bit instead of saturating. The model keeps
that, the theorems say exactly for which encodings the result is right, and `SignedOverflowWraps`
and `GreatestIntegerWraps` give inputs at which it is not. On integers the limits are closed forms: by way
of a double, the signed round trip fails from `2^127 - 2^73` on and the unsigned one saturates from
`2^128 - 2^74` on.

**The reflection checker** (`tools/validate_reflection.py`). The loop that compares the fields of
a class with those of its `FC_REFLECT` macro is a state machine over the two lists
(`ReflectionOrder`), driven by an object that is updated in place (`ReflectionValidator`). The
main theorem characterises acceptance completely. The checker means to turn down swap annotations that
are not needed, and catches some of them (`ReflectionSwaps`): in a faithful list a swap is caught exactly
when the field before it in the reflection is not swapped (or it comes first) and in the class only
swapped fields that are reflected later lie between that field (or the start) and it. What is caught is never needed;
`SwapAfterSwap` and `SwapAfterIgnore` are swaps that are not needed and are accepted. `ReflectionDiagnosis`
says what is reported for each single mistake.

**Assets and symbols** (`libraries/chain`). Packing of symbols (`Symbol`), parsing and printing of
amounts (`Decimal`, `Asset`), what is trimmed off (`Trimming`), what well-formed text stands for
(`AssetText`), and exactly which strings are accepted, well-formed or not (`AssetGrammar`). Parsing undoes printing exactly when the symbol has a
name. The number of fraction digits is narrowed to eight bits before it is checked, so a fraction of
256 digits is accepted as one of none; and a fraction may have a sign of its own.

**Merkle trees** (`libraries/chain`). The batch root (`Merkle`), the bit tricks for the depth of a
tree (`TreeDepth`), the order and depth of the leaves (`MerkleOrder`), and the incremental tree, which keeps only the roots of complete subtrees
(`IncrementalMerkle`): after any sequence of appends it has the batch root of all leaves, up to the
last count that 64 bits can hold. Above `2^63` rounding up to a power of two wraps around to zero, and
the depth still comes out right.
`clz_power_2` is documented as counting leading zeros; the code counts trailing zeros, and
the depth computation needs it to. The model follows the code.

**Block headers and producer schedules.** Block numbers stored in block ids, the order of header
extensions (`BlockHeader`), the rotation of producers (`ProducerSchedule`).

**Names and undo** (`unittests/misc_tests.cpp`). The suffix of an account name by shifts
and masks (`NameSuffix`), and a visitor that undoes by truncation (`PermissionVisitor`).

**RANDPA finality** (`plugins/randpa_plugin`). The tree of blocks in which prevotes are counted
(`PrefixTree`, `Confirmations`), a round as a state machine over its messages (`RandpaRound`), the
same round and tree as objects updated in place (`RandpaNode`), the invariant of every run
(`RandpaInvariant`), what each message and each end of prevoting does (`RandpaEffects`), agreement between nodes with fewer than a third of the producers faulty
(`RandpaSafety`), what the election of the best block means (`RandpaElection`), what the end of prevoting
puts into the proof and when the precommits are a quorum (`RandpaClosing`, `RandpaFair`), and the finality
proof: when it is handed out, when another node accepts it, and what an accepted proof is worth
(`RandpaProof`). The theorems about runs hold for every sequence of messages and blocks.

A finished round does not always have a quorum behind it. The counted precommits come from more than two
thirds of the producers of the best block exactly when all of them are from such producers and, when
prevoting was closed, no own key that was going to count had precommitted already (`QuorumExactly`). Both
conditions can fail (`RandpaMiscounts`): in `OwnKeyTwice` a precommit with the own key arrives, and the key
is counted again when the node closes prevoting; in `LaterProducersCount` producers of a later block are
counted for an earlier one. Nodes that finish with a quorum finalise one block (`Agreement`).

Nor does it always convince other nodes. Its proof is accepted exactly when prevoting was closed, in a
state in which all voters of the best block were its producers, and the own keys that were going to count
were among the voters and had not precommitted already (`ProofIsAccepted`). So both runs above end in a
proof that is refused. There are two more ways (`RandpaSteps`, `RandpaRuns`): in `EarlyQuorum` the precommits reach their
supermajority before this node closes prevoting, and the round is done without a proof to hand out; in
`StrayPrecommit` the own key precommits to a block it did not vote for. When every vote starts at the root
of the tree the last cannot happen, because the block elected is confirmed by every key that has prevoted
so far (`ElectedByAll`, `RootedProofIsAccepted`).

## Conventions

- Library calls that are not part of this model are given by what they are documented to do:
  `fc::trim` removes white space at both ends; `fc::to_int64` reads up to the first null character an
  optional sign and digits, and fails on anything else and outside 64 bits; `safe<int64_t>` fails on overflow and underflow;
  `fc::endian_reverse_u32` reverses four bytes; `__builtin_clzll` counts leading zeros of a
  nonzero word.
- Hash functions, digests and extension decoders are parameters. Digital signatures appear
  as the keys they yield.
- Signed overflow in the conversions to integer is two's-complement wrap-around.
- In `PermissionVisitor`, popping reads the last size before testing that there is one, so a caller
  must have pushed; the state machine gives no result otherwise.
- RANDPA block ids and keys are numbers; the tree is a list of nodes in insertion order, each with
  the index of its parent. A block offered under a second predecessor gets a second node, and its id then
  leads to the newest one, as in the index of the source. The zero-initialised fields of a fresh proof
  are zero.
- A run of RANDPA starts from a tree without votes, on a node whose own keys are different. Nothing is
  assumed of the events that follow.
- The block number of an id is a function given as a parameter, with number 0 for the zero id.

## Model

| member | source | states |
|---|---|---|
| `FloatTi.ClzTi2` | libraries/builtins/int_t.h:45-52 | the branch-free count for two words is 128 minus the bit length, so the top bit sits where the callers assume |
| `FloatTi.Align` | libraries/builtins/floatuntidf.c:43-53 | the three cases of the switch leave a number whose two extra bits decide the rounding of the whole input: finishing it is half-even rounding |
| `FloatTi.RoundInPlace` | libraries/builtins/floatuntidf.c:31-70 | significand and exponent of the input rounded half to even to 53 bits, including the carry into the next power of two, for any width and precision |
| `FloatTi.PackedIsFloat` | libraries/builtins/floatuntidf.c:71-75 | or-ing sign, exponent and the two halves of the significand, and masking the hidden bit, is the encoding of the rounded value |
| `FloatTi.FloatUnTiDf` | libraries/builtins/floatuntidf.c:26-76 | for every 128-bit number the result encodes its half-even rounding and no finite double is nearer; on a tie the fraction is even |
| `FloatTi.TakeAbsolute` | libraries/builtins/floattidf.c:30-32 | xor and subtraction with the sign mask give the magnitude, for the most negative number too |
| `FloatTi.FloatTiDf` | libraries/builtins/floattidf.c:26-79 | the same nearest-even guarantee for every signed 128-bit number |
| `Rounding.SqueezeRounds` | libraries/builtins/floatuntidf.c:50-57 | rounding after the sticky squeeze is rounding before it, for any number of dropped bits |
| `Rounding.StickySqueezeLosesNothing` | libraries/builtins/floatuntidf.c:50-58 | squeeze, sticky bit, increment and shift together are rounding to the given number of bits |
| `Rounding.NearestMultiple` | libraries/builtins/floatuntidf.c:54-58 | the rounded multiple is nearest among all multiples of the unit, and if another is as near, it is even |
| `FloatSpec.FloatFields` | libraries/builtins/floatuntidf.c:71-75 | the encoding has the intended sign, biased exponent and fraction, and is finite |
| `FloatSpec.FloatMagnitude` | libraries/builtins/floatuntidf.c:71-75 | the encoded magnitude is the integer rounded half to even, in exact units |
| `CorrectRounding.FloatIsCorrectlyRounded` | libraries/builtins/floattidf.c:15-19 | correct rounding in real numbers against every finite encoding of the format, for either sign |
| `FixTi.SplitReadsFields` | libraries/builtins/fp64.h:7-24 | the masks and shifts read sign, exponent and significand of the encoding |
| `FixTi.FixUnsignedTruncates` | libraries/builtins/fixunsdfti.c:15-37 | every encoding, of any format: the value truncated toward zero and clamped to 128 unsigned bits |
| `FixTi.FixSignedTruncates` | libraries/builtins/fixdfti.c:16-41 | the value truncated and clamped to 128 signed bits, if and only if the exponent is not 127 or the value is exactly -2^127 |
| `FixTi.SignedOverflowWraps` | libraries/builtins/fixdfti.c:30-39 | 2^127 as a double has exponent 127 and is converted to the least signed integer |
| `FixTi.FixUnsSfTi` | libraries/builtins/fixunssfti.c:19-41 | truncation with saturation, from single precision |
| `FixTi.FixUnsDfTi` | libraries/builtins/fixunsdfti.c:15-37 | truncation with saturation, from double precision |
| `FixTi.FixUnsTfTi` | libraries/builtins/fixunstfti.c:18-40 | truncation with saturation, from quadruple precision |
| `FixTi.FixSfTi` | libraries/builtins/fixsfti.c:16-40 | truncation with saturation exactly when the exponent is not 127 or the value is -2^127, from single precision |
| `FixTi.FixDfTi` | libraries/builtins/fixdfti.c:16-41 | the same from double precision |
| `FixTi.FixTfTi` | libraries/builtins/fixtfti.c:13-37 | the same from quadruple precision |
| `FixTi.FixIsFormatIndependent` | libraries/builtins/fp128.h:8-23 | encodings of one real value in any two formats convert to the same integers, signed and unsigned |
| `Ieee754.TruncatedIsIntegerPart` | libraries/builtins/fixdfti.c:26-39 | the reference truncation is the integer of the same sign next to the real value toward zero |
| `Ieee754.OneInEachFormat` | libraries/builtins/fp32.h:7-24 | the encodings of one in single, double and quadruple precision stand for one |
| `FloatFix.UnsignedRoundTrip` | libraries/builtins/fixunsdfti.c:15-37 | to floating point and back gives the half-even rounding, except that a carry to 2^128 saturates |
| `FloatFix.SignedRoundTrip` | libraries/builtins/fixdfti.c:16-41 | to floating point and back gives the signed rounding if and only if it is not +2^127 |
| `FloatFix.RoundsUpExactly` | libraries/builtins/floatuntidf.c:54-70 | rounding carries to the next power of two exactly from half a unit of the last place below it on, for any precision |
| `FloatFix.UnsignedSaturates` | libraries/builtins/fixunsdfti.c:15-37 | the unsigned round trip as a closed form of the integer, for any format |
| `FloatFix.SignedFails` | libraries/builtins/fixdfti.c:16-41 | the signed round trip is right exactly for negative numbers and below a limit given in closed form, for any format |
| `FloatFix.DoubleUnsignedRoundTrip` | libraries/builtins/fixunsdfti.c:15-37 | by way of a double: saturated from 2^128 - 2^74 on, below it the half-even rounding to 53 bits |
| `FloatFix.DoubleSignedRoundTrip` | libraries/builtins/fixdfti.c:16-41 | by way of a double: right exactly below 2^127 - 2^73 |
| `FloatFix.GreatestIntegerWraps` | libraries/builtins/fixdfti.c:16-41 | the greatest signed integer, converted to double and back, becomes the least |
| `FloatFix.ShortIntegersRoundTrip` | libraries/builtins/floatuntidf.c:66-70 | integers that fit the precision survive unchanged |
| `FloatFix.FloatIsMonotone` | libraries/builtins/floattidf.c:26-79 | conversion preserves order, across signs |
| `FloatFix.SignIsJoined` | libraries/builtins/floattidf.c:73-78 | a negative result is the result for the magnitude with the sign bit added |
| `FloatFix.DoubleIsNormalised` | libraries/builtins/floatuntidf.c:54-75 | results are finite normal doubles with biased exponent between 1023 and 1151 |
| `ReflectionOrder.AcceptedExactly` | tools/validate_reflection.py:631-694 | the check accepts if and only if the fields are reflected faithfully and no swapped field directly follows, but for swapped fields reflected later, the field it follows in the class; a faithful list with such a swap is rejected for that reason |
| `ReflectionOrder.AcceptedRunIsFaithful` | tools/validate_reflection.py:631-694 | from any state the loop can reach, acceptance means every field is reflected, ignored or swapped, in order |
| `ReflectionOrder.RedundantRunIsRejected` | tools/validate_reflection.py:645-652 | from any state before it, a swap of a field that directly follows an unswapped field (or the start) on both sides, but for swapped fields reflected later, is not accepted |
| `ReflectionSwaps.CaughtSwapIsUnneeded` | tools/validate_reflection.py:645-652 | a swap that is turned down in a faithful list is not needed: the list is faithful without it |
| `ReflectionSwaps.SwapAfterSwap` | tools/validate_reflection.py:645-652 | after an exchange that one swap explains, an additional swap of the next field is accepted although not needed |
| `ReflectionSwaps.SwapAfterIgnore` | tools/validate_reflection.py:645-667 | a swap of the field right after an ignored one is accepted although not needed |
| `ReflectionDiagnosis.NoAnnotations` | tools/validate_reflection.py:631-694 | without annotations: accepted exactly if the lists are equal, unknown fields if the reflection goes on after the class, a mismatch otherwise |
| `ReflectionDiagnosis.OneAnnotation` | tools/validate_reflection.py:645-692 | in a reflection that needs no annotation, one ignore or swap is reported, as superfluous for a field of the class and as erroneous for another |
| `ReflectionDiagnosis.FirstComplaint` | tools/validate_reflection.py:681-692 | of several mistakes erroneous ignores are reported first, then unknown fields, then erroneous swaps |
| `ReflectionDiagnosis.NotReflected` | tools/validate_reflection.py:645-676 | a class field left out of the reflection: a mismatch, accepted if ignored, reported as not reflected if swapped |
| `ReflectionDiagnosis.ChainbaseId` | tools/validate_reflection.py:624-630 | a class reflected without its `id` is accepted without annotations exactly when it is a chainbase object |
| `ReflectionDiagnosis.NotInClass` | tools/validate_reflection.py:653-694 | a swapped field that only the reflection has: reported as not in the class, or as unknown if nothing follows it |
| `ReflectionDiagnosis.IgnoredTurnsUp` | tools/validate_reflection.py:660-667 | an ignored field that is reflected later is reported |
| `ReflectionDiagnosis.AlwaysProvided` | tools/validate_reflection.py:682-694 | the complaint that a swapped field of the class is never reflected cannot be raised |
| `ReflectionOrder.BothWaysIsRejected` | tools/validate_reflection.py:645-667 | a field annotated both as ignored and as swapped is never accepted |
| `ReflectionOrder.ExchangedNeighbours` | tools/validate_reflection.py:19-24 | two exchanged neighbours: naming either one is accepted, naming both or none is not |
| `ReflectionValidator.Reflection.constructor` | tools/validate_reflection.py:382-388 | an empty, valid reflection |
| `ReflectionValidator.Reflection.AddField` | tools/validate_reflection.py:533-537 | a new field is appended, a repeated one refused without change |
| `ReflectionValidator.Reflection.AddIgnoreSwaps` | tools/validate_reflection.py:510-530 | names are added if and only if they are distinct and not yet ignored or swapped |
| `ReflectionValidator.Reflection.Validate` | tools/validate_reflection.py:624-694 | with the ignored fields, and `id` for a chainbase object that does not reflect it, the in-place loop computes the outcome of the state machine, accepts exactly the faithful lists without a swap of the kind that is caught, and uses up the swap and ignore lists |
| `Symbol.SymbolRoundTrip` | libraries/chain/include/eosio/chain/symbol.hpp:40-53 | packing precision and name and reading them back are inverse, both ways |
| `Symbol.PackedBytes` | libraries/chain/include/eosio/chain/symbol.hpp:40-53 | the lowest byte holds the decimals, the bytes above it the letters in order, then zeros |
| `Symbol.PackedFits` | libraries/chain/include/eosio/chain/symbol.hpp:40-53 | seven letters and a precision fit 64 bits |
| `Symbol.ValidNameLength` | libraries/chain/include/eosio/chain/symbol.hpp:108-119 | a 64-bit symbol holds at most seven letters |
| `Symbol.StringToSymbol` | libraries/chain/include/eosio/chain/symbol.hpp:40-53 | the shifting loop packs precision and letters, and fails on any character that is not an upper-case letter |
| `Symbol.Name` | libraries/chain/include/eosio/chain/symbol.hpp:108-119 | the loop reads back the packed letters |
| `Symbol.Precision` | libraries/chain/include/eosio/chain/symbol.hpp:97-107 | the loop computes the power of ten of the decimals, or fails above 18 |
| `Asset.ToString` | libraries/chain/asset.cpp:23-33 | padding by adding the precision and erasing the leading digit prints sign, whole part, exactly as many fraction digits as decimals, and the name |
| `Trimming.SpaceCharacters` | libraries/chain/asset.cpp:38-43 | white space is tab, line feed, vertical tab, form feed, carriage return and space |
| `Trimming.TrimTakesOff` | libraries/chain/asset.cpp:38-43 | white space around a text without white space at its ends comes off, all of it |
| `Trimming.TrimLeaves` | libraries/chain/asset.cpp:38-43 | nothing else comes off: what is left with white space around it is the whole text |
| `Trimming.CStringExactly` | libraries/chain/include/eosio/chain/symbol.hpp:72-85 | what C code sees of a string is what comes before its first null character |
| `AssetText.SpacedSplits` | libraries/chain/asset.cpp:35-45 | white space before the amount, after the name and behind the separating space makes no difference |
| `AssetText.ParsedExactly` | libraries/chain/asset.cpp:35-80 | for every well-formed text, however spaced: rejected for precision exactly when the number of fraction digits modulo 256 exceeds 18, otherwise accepted exactly when the value is below 2^62, with exactly that value, and otherwise refused for the first limit it exceeds |
| `AssetText.UnitsAreTheDigits` | unittests/misc_tests.cpp:189-278 | with at most 18 fraction digits the value is the decimal number written |
| `AssetText.TwoSpacesAreAccepted` | unittests/currency_tests.cpp:356-363 | `1000000000.00000  CUR` is accepted with its value and five decimals |
| `AssetText.Limits` | libraries/chain/include/eosio/chain/asset.hpp:23-30 | the largest amount is 2^62 - 1, and 10^18 is the greatest power of ten in a signed 64-bit number |
| `AssetText.LongFractionIsAccepted` | libraries/chain/include/eosio/chain/symbol.hpp:72-85 | a fraction of 256 zeros is accepted with no decimals |
| `AssetText.PrintThenParse` | libraries/chain/asset.cpp:23-80 | parsing the printed form gives the asset back if and only if its symbol has a name |
| `AssetText.NamelessIsRejected` | libraries/chain/asset.cpp:35-80 | text without a name is rejected for the missing space |
| `AssetGrammar.ReadExactly` | libraries/chain/asset.cpp:63-71 | a number is read as `v` if and only if, up to the first null character, it is an optional sign and digits for `v` within 64 bits |
| `AssetGrammar.AcceptedExactly` | libraries/chain/asset.cpp:35-80 | for every string: it is accepted as an asset if and only if it spells it, by a grammar of white space, amount, space, white space, name and white space, with every range condition |
| `AssetGrammar.MissingSpaceExactly` | libraries/chain/asset.cpp:38-42 | the separating space is missed exactly when there is none within the trimmed text |
| `AssetGrammar.MissingFractionExactly` | libraries/chain/asset.cpp:46-50 | digits after the point are missed exactly when the first point ends the amount |
| `AssetGrammar.SignedFraction` | libraries/chain/asset.cpp:65-68 | `1.-5 CUR` is accepted as 95 hundredths |
| `Merkle.ComputeRoot` | libraries/chain/merkle.cpp:35-50 | the halving loop computes the recursively defined root of every list, empty included |
| `MerkleOrder.LeavesInOrder` | libraries/chain/merkle.cpp:35-50 | with concatenation for the hash, the root of any list begins with all leaves in order and has as many parts as the next power of two, so all leaves are at one depth |
| `TreeDepth.SmearFills` | libraries/chain/include/eosio/chain/incremental_merkle.hpp:17-27 | six shift-and-or steps set every bit below the highest of a 64-bit number |
| `TreeDepth.ClzOfPower` | libraries/chain/include/eosio/chain/incremental_merkle.hpp:38-50 | the seven mask tests find the exponent of every power of two |
| `TreeDepth.MaxDepthIsLevels` | libraries/chain/include/eosio/chain/incremental_merkle.hpp:59-65 | for every 64-bit count the depth is one more than the number of halvings; the power of two found is the least one, or zero where it would not fit |
| `IncrementalMerkle.Collapse` | libraries/chain/include/eosio/chain/incremental_merkle.hpp:168-226 | one append turns the roots of complete subtrees of the leaves into those of the leaves with one more, ending in the root |
| `IncrementalMerkle.Tree.Append` | libraries/chain/include/eosio/chain/incremental_merkle.hpp:168-226 | after any appends the result is the batch root of all leaves so far |
| `IncrementalMerkle.Tree.GetRoot` | libraries/chain/include/eosio/chain/incremental_merkle.hpp:233-239 | the stored root is the batch root of all leaves |
| `IncrementalMerkle.SingleCompleteRoot` | libraries/chain/include/eosio/chain/incremental_merkle.hpp:81-93 | when all leaves form one complete subtree its root is the root of the tree |
| `BlockHeader.EndianReverseTwice` | libraries/chain/block_header.cpp:17-20 | reversing the bytes of a 32-bit number twice gives it back |
| `BlockHeader.EndianReverseBytes` | libraries/chain/block_header.cpp:17-20 | byte by byte, the four bytes come out in the opposite order |
| `BlockHeader.Id` | libraries/chain/block_header.cpp:22-29 | the four lowest bytes of the id are those of the block number, highest first; the number can be read back, and every other bit of the digest is kept |
| `BlockHeader.ValidateAndExtract` | libraries/chain/block_header.cpp:31-69 | succeeds exactly on ascending, known extensions without repeated unique ones, all decoded in order; otherwise names the first fault and its kind, order before support |
| `BlockHeader.NeighboursSuffice` | libraries/chain/block_header.cpp:40-66 | comparing each entry with the one before it decides order, support and uniqueness over all pairs |
| `ProducerSchedule.PositionIsPeriodic` | unittests/producer_schedule_tests.cpp:25-28 | the producer of a slot repeats every round |
| `ProducerSchedule.EveryRoundIsFair` | unittests/producer_schedule_tests.cpp:25-28 | in any window of one round, from any start, each producer has exactly its repetitions |
| `ProducerSchedule.TurnsInOrder` | unittests/producer_schedule_tests.cpp:25-28 | in every round the producers take their turns in the order of the schedule, twelve slots each |
| `ProducerSchedule.EveryProducerHasItsTurns` | unittests/producer_schedule_tests.cpp:25-28 | in any window of one round every producer of a schedule without repetition is expected exactly twelve times |
| `ProducerSchedule.NextRoundFirstBlock` | unittests/producer_schedule_tests.cpp:42-49 | the least later block that starts a round |
| `NameSuffix.SuffixDotMeaning` | unittests/misc_tests.cpp:90-108 | the dot found is the last one with only dots behind the last character and a nonempty run in between |
| `NameSuffix.CharsEncode` | unittests/misc_tests.cpp:94-96 | the thirteen characters of an encoded name are read back |
| `NameSuffix.ComputeSuffix` | unittests/misc_tests.cpp:90-118 | the loop, mask and shifts give the encoding of the characters after that dot, for every 64-bit name |
| `NameSuffix.NameSuffixIsIdempotent` | unittests/misc_tests.cpp:122-138 | the suffix of a suffix is itself |
| `PermissionVisitor.RunRefines` | unittests/misc_tests.cpp:280-315 | truncating to stored sizes behaves as restoring stored copies, over every run, failures included |
| `PermissionVisitor.RunRecordsVisits` | unittests/misc_tests.cpp:280-291 | as long as nothing is undone the list holds what was visited, in order, without repeats that are only reported |
| `PermissionVisitor.BalancedRun` | unittests/misc_tests.cpp:280-315 | balanced undo sessions never fail and keep what was there before |
| `PermissionVisitor.PushPopAndPushSquash` | unittests/misc_tests.cpp:294-313 | push, any balanced body, pop restores the state; push, body, squash is the body |
| `PermissionVisitor.Visitor.PopUndo` | unittests/misc_tests.cpp:300-307 | the object takes the pop step of the state machine |
| `PrefixTree.BranchRoundTrip` | plugins/randpa_plugin/include/eosio/randpa_plugin/prefix_chain_tree.hpp:161-173 | following the blocks of a branch from the root ends at the node it was taken from |
| `PrefixTree.BranchConfirmsAncestors` | plugins/randpa_plugin/include/eosio/randpa_plugin/prefix_chain_tree.hpp:239-258 | a vote for a branch, started at the root, confirms exactly the ancestors of its last node |
| `PrefixTree.InsertedExactly` | plugins/randpa_plugin/include/eosio/randpa_plugin/prefix_chain_tree.hpp:208-237 | an accepted block on a known predecessor is its child afterwards and is found; a new one is the last node, with its producers and no votes; otherwise nothing changes |
| `PrefixTree.InsertedIsVotable` | plugins/randpa_plugin/include/eosio/randpa_plugin/prefix_chain_tree.hpp:208-258 | from then on a vote for the branch of the predecessor and the block ends at the block |
| `PrefixTree.PathIsLongest` | plugins/randpa_plugin/include/eosio/randpa_plugin/prefix_chain_tree.hpp:239-258 | a vote confirms the longest stretch of its blocks that are children of one another, and stops there |
| `PrefixTree.StartsAtFirstKnown` | plugins/randpa_plugin/include/eosio/randpa_plugin/prefix_chain_tree.hpp:175-192 | a vote starts at its base if that is known, otherwise at the first of its blocks that is |
| `PrefixTree.ChecksLastKnown` | plugins/randpa_plugin/include/eosio/randpa_plugin/round.hpp:310-321 | a vote is checked against the last of its blocks that is known |
| `PrefixTree.KnownVoteIsInsertable` | plugins/randpa_plugin/include/eosio/randpa_plugin/round.hpp:266-269 | a vote that passes the search for its last known block always finds a place to be recorded |
| `PrefixTree.MostConfirmed` | plugins/randpa_plugin/include/eosio/randpa_plugin/prefix_chain_tree.hpp:243-257 | the last node of the path with the most confirmations |
| `Confirmations.VoteKeepsInv` | plugins/randpa_plugin/include/eosio/randpa_plugin/prefix_chain_tree.hpp:94-106 | a first vote keeps: each key confirms one branch only, and only blocks its vote names |
| `Confirmations.InsertKeepsInv` | plugins/randpa_plugin/include/eosio/randpa_plugin/prefix_chain_tree.hpp:117-129 | an accepted block keeps the same, a known block under a second predecessor too |
| `Confirmations.MoreThanTwoThirds` | plugins/randpa_plugin/include/eosio/randpa_plugin/round.hpp:323-329 | the threshold in integer division is exactly more than two thirds |
| `Confirmations.SupermajoritiesMeet` | plugins/randpa_plugin/include/eosio/randpa_plugin/round.hpp:323-329 | two sets over the threshold share a key outside any set of fewer than a third |
| `Confirmations.SupermajoritiesAreOnOneBranch` | plugins/randpa_plugin/include/eosio/randpa_plugin/round.hpp:323-325 | two blocks with a supermajority of prevotes are on one branch |
| `RandpaInvariant.StartEstablishesInv` | plugins/randpa_plugin/include/eosio/randpa_plugin/round.hpp:166-184 | a new round with its own prevotes satisfies the invariant |
| `RandpaInvariant.StepKeepsInv` | plugins/randpa_plugin/include/eosio/randpa_plugin/round.hpp:91-151 | every message and event keeps the invariant, whatever it carries |
| `RandpaInvariant.ValidPrevoteCountsOnce` | plugins/randpa_plugin/include/eosio/randpa_plugin/round.hpp:199-228 | a prevote that validates reaches a node, raises the count of exactly the nodes on its path by one, and does not validate again |
| `RandpaInvariant.RunKeepsInv` | plugins/randpa_plugin/include/eosio/randpa_plugin/round.hpp:21-28 | at every point of every run: the best block holds a supermajority of prevotes, precommits are for it and from keys that voted for it or are this node's own, and the announced proof is the one that reached the threshold |
| `RandpaInvariant.BestIsStable` | plugins/randpa_plugin/include/eosio/randpa_plugin/round.hpp:278-285 | once chosen, the best block and its producers never change |
| `RandpaEffects.PrevotesTakenExactly` | plugins/randpa_plugin/include/eosio/randpa_plugin/round.hpp:91-110 | a prevote message counts exactly its keys that are producers of its last known block and have not prevoted, at exactly the nodes of its path; of another round, or once prevoting is over, it changes nothing |
| `RandpaEffects.PrecommitsTakenExactly` | plugins/randpa_plugin/include/eosio/randpa_plugin/round.hpp:112-130 | a precommit message counts exactly its keys that voted for the best block and have not precommitted, once each and for that block; of another round, or in another phase, it changes nothing |
| `RandpaEffects.ElectedExactly` | plugins/randpa_plugin/include/eosio/randpa_plugin/round.hpp:261-286 | a vote elects exactly when nothing is elected and the last most confirmed node of its path has more than two thirds of its producers, and it elects that node |
| `RandpaEffects.StartConfirmsBranch` | plugins/randpa_plugin/include/eosio/randpa_plugin/round.hpp:166-184 | a round starts with every own key at exactly the nodes from the root to the head |
| `RandpaEffects.StartWithoutHead` | plugins/randpa_plugin/include/eosio/randpa_plugin/round.hpp:166-174 | without a block of the primary the node does not vote |
| `RandpaEffects.AcceptedIsInserted` | plugins/randpa_plugin/include/eosio/randpa_plugin/randpa.hpp:676-690 | a block accepted during a round on a known predecessor is in the tree from then on, and nothing else of the round changes |
| `RandpaEffects.OverIsOver` | plugins/randpa_plugin/include/eosio/randpa_plugin/round.hpp:91-130 | a round that is done or has failed counts nothing any more, in every run |
| `RandpaEffects.EndsInFailure` | plugins/randpa_plugin/include/eosio/randpa_plugin/round.hpp:132-142 | ending prevoting without a block just elected fails the round for good |
| `RandpaEffects.ProofHasItsRound` | plugins/randpa_plugin/include/eosio/randpa_plugin/round.hpp:144-148 | in every run the proof, announced or not, carries the number of its round from the closing of prevoting on |
| `RandpaSafety.OwnVoteIsInsertable` | plugins/randpa_plugin/include/eosio/randpa_plugin/round.hpp:166-184 | a node's own vote can be recorded whatever has been recorded before |
| `RandpaSafety.RunsAreSound` | plugins/randpa_plugin/include/eosio/randpa_plugin/round.hpp:91-151 | at every point of every run the invariant holds, and until prevoting is closed no key is counted twice |
| `RandpaSafety.HonestKeyPrecommitsOnce` | plugins/randpa_plugin/include/eosio/randpa_plugin/round.hpp:186-197 | a node that follows the protocol precommits to one block per round |
| `RandpaSafety.Agreement` | plugins/randpa_plugin/include/eosio/randpa_plugin/round.hpp:288-308 | two nodes that finish a round with a quorum of the same producers finalise the same block when fewer than a third of them are faulty |
| `RandpaSafety.BestBlocksShareAVote` | plugins/randpa_plugin/include/eosio/randpa_plugin/round.hpp:261-286 | the best blocks of two nodes, when their voters are producers, are both on a branch that one correct producer voted for |
| `RandpaElection.ElectedByAll` | plugins/randpa_plugin/include/eosio/randpa_plugin/round.hpp:261-286 | when all votes start at the root, the block elected is confirmed by exactly the keys that have prevoted so far |
| `RandpaElection.OwnVotesStand` | plugins/randpa_plugin/include/eosio/randpa_plugin/round.hpp:166-184 | in such a run every own key confirms the best block from its election on |
| `RandpaClosing.ClosedFrom` | plugins/randpa_plugin/include/eosio/randpa_plugin/round.hpp:132-151 | in every run, from the closing event on the proof holds the prevotes of the best block at that moment, the precommits held before, then the own ones in order |
| `RandpaClosing.EndedWasClosed` | plugins/randpa_plugin/include/eosio/randpa_plugin/round.hpp:144-148 | in every run a proof with prevotes stems from a closing event |
| `RandpaClosing.QuorumExactly` | plugins/randpa_plugin/include/eosio/randpa_plugin/round.hpp:186-197 | for every finished run: the counted precommits come from more than two thirds of the producers of the best block if and only if all are from its producers and no own key that was going to count had precommitted when prevoting was closed |
| `RandpaFair.FairHasQuorum` | plugins/randpa_plugin/include/eosio/randpa_plugin/round.hpp:288-308 | both conditions hold when all blocks have the same producers and no precommit with an own key arrives before the node precommits |
| `RandpaClosing.AnnouncedVoters` | plugins/randpa_plugin/include/eosio/randpa_plugin/round.hpp:186-197 | the announced precommits all come from voters of the best block if and only if, before closing, every own key that was going to count had voted for it |
| `RandpaProof.ValidateProof` | plugins/randpa_plugin/include/eosio/randpa_plugin/randpa.hpp:530-574 | the nested loops accept exactly the proofs with a supermajority of precommits, each by an active producer who voted for the block |
| `RandpaProof.AcceptedMessage` | plugins/randpa_plugin/include/eosio/randpa_plugin/randpa.hpp:497-574 | in an accepted message every signed prevote is for a branch with the block, every signed precommit is for the block, all signers are its producers, and the committers are voters and more than two thirds |
| `RandpaProof.ProofIsAccepted` | plugins/randpa_plugin/include/eosio/randpa_plugin/randpa.hpp:530-574 | for every finished run: a node that knows the best block accepts the proof if and only if prevoting was closed in a state in which all voters of the block were its producers, and the own keys that were going to count were voters and had not precommitted |
| `RandpaProof.AcceptedHasQuorumBehind` | plugins/randpa_plugin/include/eosio/randpa_plugin/randpa.hpp:530-574 | a run whose proof is accepted has a quorum of the producers of its best block |
| `RandpaProof.RootedProofIsAccepted` | plugins/randpa_plugin/include/eosio/randpa_plugin/randpa.hpp:530-574 | when all votes start at the root, accepted if and only if the voters are producers and prevoting was closed with no own key that was going to count precommitted already |
| `RandpaProof.HandedOutExactly` | plugins/randpa_plugin/include/eosio/randpa_plugin/randpa.hpp:837-858 | a finished round hands its proof out if and only if prevoting was closed and the best block is above the last irreversible one |
| `RandpaProof.AcceptedProofsAgree` | plugins/randpa_plugin/include/eosio/randpa_plugin/randpa.hpp:606-651 | two proofs that any two nodes accept name one block when fewer than a third of the producers are faulty and the precommits, as they stand in the messages, are not forged |
| `RandpaProof.AcceptedProofNamesBest` | plugins/randpa_plugin/include/eosio/randpa_plugin/randpa.hpp:606-651 | and it is the best block of every node that finished the round itself with a quorum |
| `RandpaProof.EarlyProofIsRejected` | plugins/randpa_plugin/include/eosio/randpa_plugin/round.hpp:112-130 | a proof finished before prevoting is closed is accepted by nobody |
| `RandpaRuns.EarlyQuorum` | plugins/randpa_plugin/include/eosio/randpa_plugin/round.hpp:112-130 | a run of a node with one of four keys in which precommits finish the round before prevoting is closed: nothing is handed out and nobody would accept the proof |
| `RandpaRuns.StrayPrecommit` | plugins/randpa_plugin/include/eosio/randpa_plugin/round.hpp:186-197 | a run in which the own key precommits to a block it did not vote for, and the proof of the finished round is refused |
| `RandpaMiscounts.OwnKeyTwice` | plugins/randpa_plugin/include/eosio/randpa_plugin/round.hpp:186-197 | a run in which an own key is counted twice: two of four producers finish the round, and its proof is refused |
| `RandpaMiscounts.LaterProducersCount` | plugins/randpa_plugin/include/eosio/randpa_plugin/round.hpp:199-228 | a run in which producers of a later block are counted: one of four producers and two others finish the round, and its proof is refused |
| `RandpaNode.PrefixChainTree.AddConfirmations` | plugins/randpa_plugin/include/eosio/randpa_plugin/prefix_chain_tree.hpp:94-106 | walking the tree in place records the vote along its path and returns the most confirmed node of the path |
| `RandpaNode.PrefixChainTree.Follow` | plugins/randpa_plugin/include/eosio/randpa_plugin/prefix_chain_tree.hpp:239-258 | the loop stops at the first block that is not a child, having confirmed exactly the path |
| `RandpaNode.PrefixChainTree.InsertBlock` | plugins/randpa_plugin/include/eosio/randpa_plugin/prefix_chain_tree.hpp:208-237 | a known predecessor gets the block as a child, once, wherever else the block may be; otherwise nothing changes |
| `RandpaNode.PrefixChainTree.GetBranch` | plugins/randpa_plugin/include/eosio/randpa_plugin/prefix_chain_tree.hpp:161-173 | the blocks above the root up to the node, oldest first |
| `RandpaNode.VotingRound.constructor` | plugins/randpa_plugin/include/eosio/randpa_plugin/round.hpp:50-71 | a new round in the start state of the state machine, own prevotes cast |
| `RandpaNode.VotingRound.OnPrevote` | plugins/randpa_plugin/include/eosio/randpa_plugin/round.hpp:91-110 | the loop over the keys of a message takes the step of the state machine |
| `RandpaNode.VotingRound.OnPrecommit` | plugins/randpa_plugin/include/eosio/randpa_plugin/round.hpp:112-130 | the same for precommits |
| `RandpaNode.VotingRound.EndOfPrevote` | plugins/randpa_plugin/include/eosio/randpa_plugin/round.hpp:132-151 | closing prevoting fills the proof and casts this node's precommits, or fails the round |

## Left out

- IncrementalMerkle.Tree.Append: stated as long as the number of leaves fits the 64-bit counter of the tree.
- Symbol.StringToSymbol: the eighth letter of a name would be shifted by 64 bits, which C++ leaves undefined; the model reports an error there.
- ReflectionOrder.AcceptedExactly: stated for classes whose fields have distinct names, which the C++ language guarantees, and for reflected lists without repetition, which `AddField` guarantees.
- RandpaSafety.Agreement: for nodes that finish with a quorum of the same producers, which `QuorumExactly` characterises, and within one round; agreement across rounds depends on block production and the choice of the last irreversible block. Blocks finalised from received proofs are covered by `AcceptedProofsAgree` and `AcceptedProofNamesBest`.
- RandpaSafety.BestBlocksShareAVote: for best blocks with the same producers that only producers voted for; `LaterProducersCount` is a run in which others did.
- RandpaProof.ProofIsAccepted: for an accepting node that has the same producers at the best block.
- Parsing of C++ source text by the reflection checker, its file handling and its command line.
- Pruning of the RANDPA tree when a block becomes irreversible, proofs received from other nodes ending a round early, and `get_final_chain_head`, which only tests use.
- The RANDPA driver: message queues, caches, peers, handshakes, synchronisation and freezing.
- Merkle proofs of membership and the canonical left and right marks of digests, which only enter the hash given as a parameter.
- Comparison and arithmetic operators of assets and symbols, and JSON conversion.
- Signing, hashing and serialisation of block headers.
- The controller, databases, plugins other than RANDPA, the virtual machine and the wallet.
