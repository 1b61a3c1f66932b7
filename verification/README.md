# Verified models of Contiki components

This project models the hardest algorithms of Contiki's applications and tools in Dafny and proves what
they are for:

- **Antelope**, the database: the one-pass compiler for WHERE clauses, the virtual machine that runs its
  code, the derivation of value ranges, index search, selection, the resumable join, and the MaxHeap index.
- **Erbium CoAP**: the message codec with its in-place option merging, blockwise transfers in both
  directions, the windowed link-format generator, and retransmission.
- **Code propagation**: both protothreads, and the whole protocol over an unreliable channel.
- **tunslip**: the Internet checksum, on hosts of either byte order.
- **JSON**: the printer with its explicit stack, and the pull parser.

Code that changes state step by step is modelled by classes and methods that do the same; each of them is
proved against a function of the old state, and the promises of the system are theorems about these
functions. `dafny verify dfyconfig.toml` checks everything.

| files | part of the system |
|---|---|
| `LogicVm`, `Conditions`, `WhereCompiler`, `CompilerCorrectness` | compiler and virtual machine |
| `Relation`, `RangeDerivation`, `InlineIndex`, `Selection`, `IndexedSelect`, `EquiJoin` | queries |
| `MaxHeapIndex` | the MaxHeap index |
| `CoapOptions`, `CoapMessage`, `CoapRoundTrip`, `CoapSerializer`, `CoapParser`, `CoapTransfer`, `CoapWire` | CoAP messages |
| `WellKnownCore`, `Blockwise` | CoAP transfers |
| `LinkedList`, `CoapTransactions` | the list library, and CoAP retransmission |
| `CodePropagation`, `CodePropagationSafety` | code propagation |
| `SlipChecksum` | checksums of tunslip |
| `JsonTree`, `JsonParser`, `JsonRoundTrip`, `JsonBackslash`, `JsonText` | JSON |
| `Common` | bytes, words, options, powers of two |

## Where the code does less than it seems

Each of these is a theorem: a condition under which the code does what is expected, exact in both directions
unless noted, or an input for which it does not.

- The code of a chain or a clause is that of what its text denotes exactly when no chain in it has more than two
  operands; in a longer one the operator goes in front of its second operand only
  (`CompilerCorrectness.PrefixCodeIffShort`, `WhereCodeIffShort`). What such a clause is executed as is given for
  every clause (`RunsWhere`): `1 + 2 + 3 = 6` is executed as `1 + 2 = 3 + 6` (`SumOfThreeIsMiscompiled`), and
  cells that are left over before a connective are an error.
- An expression that begins with a parenthesis needs a second closing one, because the loop of the inner
  expression consumes the first (`WhereCompiler.Parser.ParseExpr`).
- Range derivation ignores the order of operands and keeps ranges that only one side of an OR constrains
  (`RangeDerivation.ConstantFirstSoundIff`, `DisjunctionSoundIff`).
- An equality of two constants constrains an unrelated variable (`RangeDerivation.TwoConstantsSoundIff`).
- `select_index` is described as choosing the attribute with the smallest range
  (`apps/antelope/relation.c:646-647`). It never lowers `min_range`, so it chooses the last candidate; the
  model follows the code (`Selection.NarrowestIffLast`, `NotTheNarrowest`). It also stores the bounds as longs
  and marks them as ints, so that the search reads their low bits: the range searched is the derived one exactly
  when both bounds fit an `int` (`Selection.NarrowedIff`), and where an `int` is shorter than 32 bits, a range
  without an upper bound is lost on every column that starts at 0 or above
  (`IndexedSelect.OpenRangeIsLostIff`, `GreaterThanFiveIsLost`).
- A search for a value below the first one leaves the relation, because `max = center - 1` is unsigned; and
  a range that ends in a repeated value is complete only if the search happens to land on the first, or the
  last, of its rows (`InlineIndex.FindRowCorrect`, `RangeCoversIff`, `RangeCoversByPosition`,
  `EqualRangeCoversIff`, `RepeatedValuesAreMissed`). A join through this index is therefore complete exactly when
  no value of the right column is repeated (`EquiJoin.InlineIndexIff`).
- The bucket cache of the MaxHeap index goes stale exactly when it holds the bucket that is appended to, and
  then the new key is not found (`MaxHeapIndex.MaxHeap.InsertItem`, `InsertThenGet`, `StaleRun`). Entries stay
  where they are when a bucket is split: only later insertions go to the new buckets.
- A variable that is not in the table is written to, and compiled as, its first free slot, and that counts as
  success (`LogicVm.Lvm.SetVariableValue`, `SetVariable`).
- Splitting a path or query into options does not examine the character behind a separator
  (`CoapOptions.SplitThenMerge`).
- A payload that waits behind a head of exactly `COAP_MAX_HEADER_SIZE` bytes in the same buffer loses its
  first byte to the payload marker (`CoapTransfer.SendAndReceive`).
- A CoAP transaction keeps the callback that its pool slot had before (`CoapTransactions.Transactions.NewTransaction`).
  After its last retransmission it times out at once, without another wait.
- A transaction that gives up leaves the list, which clears its next pointer, while the list is being walked:
  the check ends there, and expired transactions behind it are neither sent nor called back before another
  check comes (`CoapTransactions.Transactions.CheckTransactions`, `OneCheckIsEnough`, `SecondIsSkipped`). One
  check for each expired timer makes up for it (`CheckRepeatedly`).
- A client takes the word of any reply for whether there are more blocks: a reply with another block than the
  one that was asked for can end the transfer, without an error and without the rest
  (`Blockwise.BlockingRequestAny`, `WrongBlockEnds`).
- A receiver of code adopts a newer image from whatever packet it hears first: `send_nack` overwrites the
  address that the loop tests. The bytes of that packet are stored at address 0
  (`CodePropagationSafety.StoredPrefix`, `SecondPacketIsAdopted`).
- tunslip tests the don't-fragment flag on the field in host byte order
  (`SlipChecksum.Tunnel.FlagDependsOnHost`), and an IP header of eight bytes is spoilt by the new
  identification (`SlipChecksum.ShortHeaderIsSpoilt`, `ShortHeaderIff`).
- A string with a backslash does not come back from the JSON printer, nor does any tree that has one
  (`JsonRoundTrip.StringSurvives`, `JsonBackslash.PrintedParsesIff`).
- The JSON parser accepts arrays with commas at their beginning or one behind the other, and nested arrays, or
  strings, without a comma between them (`JsonText.LooseCommas`, `StringIsRead`).

## Model

| member | source | states |
|---|---|---|
| LogicVm.Lvm.JumpToOperand | apps/antelope/lvm.c:314-327 | a slot of two cells is reserved at the end of the code, unless the buffer is full, which is an error |
| LogicVm.Lvm.ShiftForOperator | apps/antelope/lvm.c:329-348 | the tail of the code moves up by one operator slot, everything in front of it stays, and the write position is the slot; a full buffer, or a position behind the code, is an error that changes nothing |
| LogicVm.Lvm.RegisterVariable | apps/antelope/lvm.c:441-460 | a new name goes to the end of the variable table, a known one changes nothing, a full table is an error |
| LogicVm.Lvm.SetVariableValue | apps/antelope/lvm.c:462-473 | exactly the named variable gets the value; an unknown name writes the first free slot and succeeds, and is an error only when the table is full |
| LogicVm.Lvm.SetVariable | apps/antelope/lvm.c:475-488 | the operand of a variable is emitted behind the code, that of the first free slot for an unknown name, and nothing when the table is full |
| LogicVm.Lvm.EvalExpr | apps/antelope/lvm.c:165-219 | running code from the instruction pointer gives status, value and new pointer of the specification, for any code |
| LogicVm.Lvm.EvalLogic | apps/antelope/lvm.c:221-298 | the same for logical code, with its comparison and connective cases and its errors |
| LogicVm.Lvm.Execute | apps/antelope/lvm.c:379-404 | a run from cell 0 has the status of the specification for the current variables |
| Conditions.RunsExpr | apps/antelope/lvm.c:165-219 | the prefix code of an expression evaluates to its value, or to MATH_ERROR exactly when a division in it is by zero, and all of it is consumed |
| Conditions.RunsComparison | apps/antelope/lvm.c:221-298 | the same for a comparison of two expressions |
| Conditions.RunsCondition | apps/antelope/lvm.c:221-298 | the same for a right-nested condition, with the truth value as status |
| Conditions.ExecutionMeansCondition | apps/antelope/lvm.c:379-404 | executing the code of a condition gives TRUE, FALSE or MATH_ERROR exactly as the condition means, for every assignment |
| Conditions.ExprCodeWeight | apps/antelope/lvm.c:329-348 | code of an expression is balanced at its end and at no earlier cell: no code is a proper beginning of another |
| Conditions.PrefixCodeUnique | apps/antelope/lvm.c:165-219 | with the same variable table, cells that begin with the code of an expression begin with that of no other, so that different expressions over known variables have different code |
| Conditions.ConditionCodeUnique | apps/antelope/lvm.c:221-298 | the same for whole conditions: a program is the code of one condition at most |
| WhereCompiler.Parser.Next | apps/antelope/aql-parser.c:111-140 | the next token, with the position to return to |
| WhereCompiler.Parser.ParseOperand | apps/antelope/aql-parser.c:267-288 | an operand is registered and emitted behind the code so far; a new name for which the table is full is accepted and emits nothing; anything else is a syntax error, except strings and floats |
| WhereCompiler.Parser.ParseExpr | apps/antelope/aql-parser.c:290-348 | a chain of operands and parenthesised chains is consumed, including a closing parenthesis, and its code, built by shifting and patching, is appended |
| WhereCompiler.Parser.ParseComparison | apps/antelope/aql-parser.c:350-400 | both sides of a comparison are compiled behind the slot that then takes the relation |
| WhereCompiler.Parser.ParseWhere | apps/antelope/aql-parser.c:402-447 | every comparison and connective is consumed, all variables are registered in order, and the code is that of the right-nested clause |
| CompilerCorrectness.WhereCodeIsPrefixCode | apps/antelope/aql-parser.c:290-447 | when no chain has more than two operands, the emitted code is the prefix code of the condition that the text denotes |
| CompilerCorrectness.PrefixCodeIffShort | apps/antelope/aql-parser.c:312-346 | for every chain, the code is that of the expression it denotes, grouped to the left, if and only if no chain in it has more than two operands |
| CompilerCorrectness.WhereCodeIffShort | apps/antelope/aql-parser.c:402-447 | for every clause, the code is that of the condition it denotes if and only if no chain in it has more than two operands |
| CompilerCorrectness.SomeCodeIff | apps/antelope/aql-parser.c:312-346 | the code of a chain is that of some expression if and only if its last argument, and the last argument of each chain that ends it, stands behind at most one operator |
| CompilerCorrectness.RunsWhere | apps/antelope/lvm.c:221-298 | for every clause, long chains included, the virtual machine answers what the clause is read as: operators that are pending on the left of a relation go to its right side, those behind the last comparison are never looked at, and those in front of another one are an error |
| CompilerCorrectness.ShortOutcome | apps/antelope/aql-parser.c:402-447 | for clauses without long chains this answer is the truth value of what the clause denotes, or MATH_ERROR exactly when a divisor in it is zero |
| CompilerCorrectness.SumOfThreeIsMiscompiled | apps/antelope/aql-parser.c:322-327 | the clause 1 + 2 + 3 = 6 denotes a true condition; compiled and executed, it is not true |
| CompilerCorrectness.WhereMeans | apps/antelope/aql-parser.c:290-447 | for every clause, the condition that it denotes is what its tokens say about integers: operators from left to right, `>` greater, `<` less and so on, AND and OR grouped to the right |
| CompilerCorrectness.TruncDivIff | apps/antelope/lvm.c:195-214 | of x and y there is exactly one quotient unless y is 0: without signs, x is q times y and a rest below y, and q is negative only when the signs differ; it is what the machine computes |
| CompilerCorrectness.PlainComparison | apps/antelope/aql-parser.c:369-388 | the tokens `l rel r` are answered TRUE iff a > b, a >= b, a < b, a <= b, a == b or a != b, as the token says, for the values a and b of the operands |
| CompilerCorrectness.OneOperation | apps/antelope/aql-parser.c:322-345 | the same for `x op y rel z`, with the sum, difference, product or quotient of x and y; MATH_ERROR exactly when the divisor is 0 |
| CompilerCorrectness.TwoOperations | apps/antelope/aql-parser.c:312-346 | `x op y op' z rel u` is answered as the relation between `x op y` and `z op' u`, for any operators |
| CompilerCorrectness.TwoComparisons | apps/antelope/aql-parser.c:402-447 | two comparisons joined by AND are answered TRUE iff both hold, joined by OR iff one does |
| CompilerCorrectness.CompileAndExecute | apps/antelope/aql-parser.c:402-447 | compiling any clause into an empty buffer and executing it gives the answer above; without long chains, it is TRUE iff what the tokens say about integers holds, and MATH_ERROR exactly when they divide by zero |
| RangeDerivation.CreateIntersection | apps/antelope/lvm.c:496-537 | every range becomes the intersection, or the only one that is derived |
| RangeDerivation.CreateUnion | apps/antelope/lvm.c:539-580 | every range becomes the hull, or the only one that is derived |
| RangeDerivation.DeriveRelation | apps/antelope/lvm.c:582-684 | abstract interpretation of any code from the instruction pointer gives status, ranges and pointer of the specification |
| RangeDerivation.DerivesCondition | apps/antelope/lvm.c:582-684 | on the code of a condition, derivation succeeds exactly when every comparison has a supported relation and compares a variable and a constant, or two constants of which the second has a low byte below the number of ranges; and it gives the specified ranges |
| RangeDerivation.ConjunctionExact | apps/antelope/lvm.c:496-537 | for conditions that only use AND, the condition holds if and only if every derived variable lies in its range |
| RangeDerivation.DerivationSound | apps/antelope/lvm.c:582-684 | when both sides of each OR constrain the same variables, a condition that holds has every derived variable in its range |
| RangeDerivation.ConstantFirstSoundIff | apps/antelope/lvm.c:638-647 | a comparison with the constant first is derived soundly if and only if its relation is equality, or its constant is the end of the value range on the right side |
| RangeDerivation.DisjunctionSoundIff | apps/antelope/lvm.c:539-580 | comparisons joined by OR, any number of them, each satisfiable and with a constant inside the value range, are derived soundly if and only if they constrain a single variable or no derived range excludes a value |
| RangeDerivation.TwoDisjunctsSoundIff | apps/antelope/lvm.c:547-552 | two comparisons, with constants that are not the ends of the value range, are derived soundly if and only if they constrain the same variable |
| RangeDerivation.UnionIsLeast | apps/antelope/lvm.c:556-566 | the union of two ranges with values is the least range that holds all of their values |
| RangeDerivation.DisjunctionHull | apps/antelope/lvm.c:539-580 | for comparisons joined by OR, on any variables, the bounds derived for a variable are the least and the greatest value for which one of its comparisons holds |
| RangeDerivation.OneVariableHull | apps/antelope/lvm.c:539-580 | with a single variable, both bounds are values that satisfy the condition, and every value that does lies between them |
| RangeDerivation.TwoConstantsSoundIff | apps/antelope/lvm.c:638-647 | an equality of two constants constrains the variable that the lowest byte of the second one names; this is sound exactly when the equality is false or there is no such variable |
| InlineIndex.BinarySearch | apps/antelope/index-inline.c:103-151 | the halving loop ends with the row, the miss or the wrap-around that the specification gives |
| InlineIndex.FindRowCorrect | apps/antelope/index-inline.c:103-151 | on a column in order, with any repetitions, the search wraps around if and only if the column is empty or starts above the target; otherwise it ends on a row of the target, or, when there is none, within one row of where it belongs |
| InlineIndex.RepeatedValuesAreMissed | apps/antelope/index-inline.c:103-181 | three rows with the same value, of which the range found for it holds the middle one only |
| InlineIndex.RangeCovers | apps/antelope/index-inline.c:153-181 | every row with a value between the bounds is in the range found, and an empty answer means that there is none |
| InlineIndex.RangeCoversIff | apps/antelope/index-inline.c:153-181 | on any column in order, the range found is complete if and only if the row found for the lower bound is the first of its run and that for the upper bound the last, as far as any row has these values |
| InlineIndex.RangeCoversByPosition | apps/antelope/index-inline.c:103-181 | the same by the positions of the runs alone: the search lands where the halving of all rows first enters a run, and that has to be its first row for the lower bound and its last one for the upper bound |
| InlineIndex.EqualRangeCoversIff | apps/antelope/index-inline.c:153-181 | the rows of one value are all found if and only if there is only one of them |
| InlineIndex.IterationCovers | apps/antelope/index.c:304-330 | successive calls visit the rows of the range one after the other, each once, and then report the end |
| InlineIndex.Iterator.GetNext | apps/antelope/index-inline.c:201-227 | one call of the iterator is one step of that specification |
| Selection.SelectIndex | apps/antelope/relation.c:630-672 | the last indexed attribute with a derived range is chosen, with its bounds, of which the search gets the low bits |
| Selection.AsIntIff | apps/antelope/attribute.h:73-86 | a long read as an int of any width has the same low bits, and the same value if and only if it fits |
| Selection.NarrowedIff | apps/antelope/relation.c:658-660 | the range that is searched is the derived one if and only if both bounds fit an int |
| Selection.NarrowestIffLast | apps/antelope/relation.c:646-663 | the chosen attribute is the one with the smallest range if and only if no candidate before it has a smaller one, for any attributes and ranges |
| Selection.NotTheNarrowest | apps/antelope/relation.c:646-663 | two candidates of which the wider one is chosen |
| Selection.ProjectCells | apps/antelope/relation.c:793-822 | a result row has one cell for each attribute that is stored, in the order of the attribute map, with the value of the column that it names, and no other cells |
| Selection.Handle.Process | apps/antelope/relation.c:734-870 | one call takes the next row from the index or the relation, binds its values, and produces the projected row when the condition says so |
| Selection.Handle.SelectAll | apps/antelope/relation.c:734-870 | all calls together produce the matching rows of the range of rows that the index gives, or of the whole relation, in order |
| IndexedSelect.SelectedRowsInRange | apps/antelope/lvm.c:582-710 | a row that satisfies the condition has, in every column with a derived range, a value in that range |
| IndexedSelect.SearchIsScanIff | apps/antelope/relation.c:734-870 | for any column and bounds, the rows that come through the index are those of the full scan if and only if the iterator comes to every row that satisfies the condition |
| IndexedSelect.IndexEqualsScan | apps/antelope/relation.c:674-709 | with the derived bounds, not repeated in an ordered column, the rows that come through the index are the sequence that a scan of all rows produces, unless the search leaves the relation |
| IndexedSelect.Select | apps/antelope/relation.c:674-870 | for any condition, column and width of an int: which index is chosen, and the result and the rows for the bounds as an int reads them; the search leaves an ordered relation exactly when that is empty or starts above one of these; otherwise the result is the full scan if the derived bounds fit an int and are not repeated and the derivation is sound, and in any case exactly when every selected row is visited |
| IndexedSelect.SelectEither | apps/antelope/relation.c:674-870 | the query `x = a OR x = b` on an ordered, indexed column that holds both values once, with values that fit an int, uses the index and returns exactly the rows with a or b, in order |
| IndexedSelect.OpenRangeIsLostIff | apps/antelope/result.c:151-163 | with an int of fewer than 32 bits, the search for a range without an upper bound leaves an ordered relation if and only if that is empty, starts at 0 or above, or above the lower bound as read; likewise for a missing lower bound |
| IndexedSelect.GreaterThanFiveIsLost | apps/antelope/relation.c:658-660 | `x > 5` on the values 0 and 7: the derived range finds the row with 7, and the range that an int of 4 to 31 bits makes of it is lost |
| EquiJoin.Handle.Process | apps/antelope/relation.c:961-1056 | one call, re-entered in the inner loop unless the step flag is set, produces the next joined row, whose cells are those of the left and the right row in the order of the source map, or skips left rows without matches, or reports the end |
| EquiJoin.Handle.JoinAll | apps/antelope/relation.c:961-1056 | repeated calls produce exactly the joined rows of the pairs that nested loops visit, cell by cell, and then DB_FINISHED |
| EquiJoin.PairsAreEquiJoin | apps/antelope/relation.c:975-1053 | with a correct index these pairs are the equi-join: in left-row order, none repeated, and a pair is there if and only if its values match |
| EquiJoin.InlineIndexIff | apps/antelope/index-inline.c:153-227 | on a right column in order, what the iterator of the inline index answers for single values is a correct index if and only if no value is repeated; the search is lost exactly for values below the first |
| MaxHeapIndex.HalvesAreChildren | apps/antelope/index-maxheap.c:416-445 | the two halves that a split computes are exactly the ranges of the two children of the node |
| MaxHeapIndex.MaxHeap.HeapInsert | apps/antelope/index-maxheap.c:225-260 | the range of a node ends up at that node if it is free, and nowhere otherwise |
| MaxHeapIndex.MaxHeap.HeapFind | apps/antelope/index-maxheap.c:262-292 | the next node on the path of the hashed key is found, at or behind the iterator |
| MaxHeapIndex.MaxHeap.BucketSplit | apps/antelope/index-maxheap.c:416-445 | a full node gets both children or none; the shape of the tree is kept, and no used node changes |
| MaxHeapIndex.MaxHeap.BucketAppend | apps/antelope/index-maxheap.c:394-414 | an entry is appended to a bucket with room, the contents grow by exactly that entry, and the cache goes stale exactly when it holds this bucket |
| MaxHeapIndex.MaxHeap.InsertItem | apps/antelope/index-maxheap.c:447-492 | a successful insertion adds the pair to a bucket on the path of its key and changes nothing else; a refused one changes no bucket and happens only on the last usable level, in the bucket of a node whose range holds the hashed key |
| MaxHeapIndex.SplitKeepsShape | apps/antelope/index-maxheap.c:416-445 | using both children of a full node keeps the shape: ranges by position, children in pairs, and only below full buckets |
| MaxHeapIndex.MaxHeap.ChainComplete | apps/antelope/index-maxheap.c:690-709 | the chain of buckets that a lookup visits contains every bucket in which a key with this hash can be |
| MaxHeapIndex.MaxHeap.GetFirst | apps/antelope/index-maxheap.c:668-750 | the first lookup of a key, with any cache: what is found is the deepest hit in the buckets as the search sees them, the last of its chain as it is in the cache; with a fresh cache it finds a value stored under the key if and only if there is one |
| MaxHeapIndex.MaxHeap.InsertThenGet | apps/antelope/index-maxheap.c:344-492 | for any state of the cache, a new key that is inserted and looked up is missed if and only if its bucket is the cached one and no cached entry has the key; when the cache was up to date, only the place of the new entry can have it |
| MaxHeapIndex.StaleRun | apps/antelope/index-maxheap.c:344-492 | for any hash function and any two keys: insert the first, look it up, insert the second, look it up; it is stored, and not found |
| SlipChecksum.Ip4Sum | tools/tunslip.c:339-361 | the checksum loop computes the sum of all words modulo 65535, with 65535 for every nonzero multiple, also for odd lengths |
| SlipChecksum.FoldTwice | tools/tunslip.c:339-361 | summing in two steps is summing at once |
| SlipChecksum.TotalConcat | tools/tunslip.c:339-361 | the sum over an even prefix and the rest is the sum over both |
| SlipChecksum.SwapScales | tools/tunslip.c:339-361 | exchanging the bytes of a word is multiplication by 256 in this arithmetic |
| SlipChecksum.ByteOrderIndependence | tools/tunslip.c:642-655 | end-around addition commutes with the exchange of bytes |
| SlipChecksum.CheckIp | tools/tunslip.c:363-412 | a packet is accepted if and only if version and length are right and all its sums are zero in one's complement arithmetic; the other codes name the first check that fails |
| SlipChecksum.HeaderErrorIsDetected | tools/tunslip.c:363-385 | an accepted packet with one word of its header changed, by more than the two forms of zero, is not accepted |
| SlipChecksum.DataErrorIsDetectedIff | tools/tunslip.c:386-411 | the same behind the header, for TCP, ICMP, and UDP with a checksum; a packet of another protocol, or a UDP packet whose checksum becomes 0, is still accepted |
| SlipChecksum.IdentificationKeepsAcceptance | tools/tunslip.c:642-655 | an accepted packet with identification 0 and both fields in its header is accepted again with any identification and the corrected checksum |
| SlipChecksum.ShortHeaderIsSpoilt | tools/tunslip.c:642-655 | with a header of eight bytes the corrected packet has a right header sum if and only if the identification is 0 or 65535 |
| SlipChecksum.ShortHeaderIff | tools/tunslip.c:642-655 | with a header of fewer than twelve bytes and at least twelve bytes in all, the corrected packet is accepted again if and only if the header has not eight bytes or the identification is 0 or 65535 |
| SlipChecksum.Tunnel.CorrectionIsPortable | tools/tunslip.c:642-655 | the corrected checksum has the same bytes on hosts of either byte order |
| SlipChecksum.Tunnel.FlagDependsOnHost | tools/tunslip.c:642 | the flag test looks at the flag on big-endian hosts only, and at a bit of the fragment offset on the others |
| SlipChecksum.Tunnel.WriteToSerial | tools/tunslip.c:626-661 | a packet without identification gets the next one, with a corrected checksum; the packet is passed on if and only if it is accepted before and after, which with a header of twelve bytes or more is the same, and with a shorter one fails only for eight bytes and an identification other than 0 and 65535 |
| SlipChecksum.FilledIsAccepted | tools/tunslip.c:297-327 | the two checksums that are filled in make the reply acceptable, also when the UDP sum is 65535 already |
| SlipChecksum.Tunnel.FillChecksums | tools/tunslip.c:318-327 | only the two checksum fields change, the packet is accepted, and the UDP checksum is not 0 |
| SlipChecksum.Tunnel.RelayDhcpToClient | tools/tunslip.c:227-330 | every reply, for any addresses and any length of options, is accepted and passed on as built: from port 67 of the relay to port 68, with the bytes of the reply except for one hop more and no relay address, and then the options |
| CodePropagation.Receiver.Resume | apps/codeprop/codeprop.c:273-352 | the receiving thread from one wait to the next, for any packet and timer, with the nack it sends and the program start it posts |
| CodePropagation.NackAsksFor | apps/codeprop/codeprop.c:286-340 | a receiver asks for its own address when its timer runs out or a packet from further on comes, for the start when it adopts an image from another packet than the first, and otherwise for nothing |
| CodePropagation.Source.Resume | apps/codeprop/codeprop.c:224-262 | the sending thread from one wait to the next: data packets in order, and only nacks for lower addresses rewind |
| CodePropagation.NackRewinds | apps/codeprop/codeprop.c:239-255 | after a nack for an address not above the current one the next packet carries the image from that address on; any other packet leaves the address alone |
| CodePropagation.Source.SendUdpData | apps/codeprop/codeprop.c:198-221 | a data packet carries the next bytes of the image, at most 32 |
| CodePropagation.Source.StartBroadcast | apps/codeprop/codeprop-tmp.c:442-450 | a new image gets the next id and is sent from its beginning, wherever the sending thread waits |
| CodePropagationSafety.StepKeeps | apps/codeprop/codeprop.c:198-354 | every step of the source, of a receiver or of the channel keeps the invariant, and no id decreases |
| CodePropagationSafety.StoredPrefix | apps/codeprop/codeprop.c:273-354 | after any run, a receiver with id k has addr <= len and has stored image k below addr, up to the bytes of the packet it adopted the image from; so the prefix is right if and only if that packet carried the first bytes |
| CodePropagationSafety.StartedPrograms | apps/codeprop/codeprop.c:340-350 | in any run, a started program is the published image of its id if and only if it was adopted from the right bytes, and always when the adopted packet had address 0 |
| CodePropagationSafety.IdsNeverDecrease | apps/codeprop/codeprop.c:286-312 | between any two states of a run no id decreases and no image is withdrawn |
| CodePropagationSafety.SecondPacketIsAdopted | apps/codeprop/codeprop.c:286-303 | for every image of 64 bytes with different halves, losing the first packet makes a receiver start the second half twice |
| CodePropagationSafety.BroadcastCanSucceed | apps/codeprop/codeprop.c:198-354 | from every reachable state an idle receiver can be brought to start any image that is published next |
| CodePropagationSafety.LossIsRecovered | apps/codeprop/codeprop.c:198-354 | in every reachable state in which a receiver collects the current image, adopted from its first packet, and the source is sending and not behind it, whatever was lost: the nack that the receiver then sends carries its own address, and there is a run that begins with it reaching the source and ends with the receiver starting the image |
| CoapOptions.HeaderRoundTrip | apps/er-coap/er-coap.c:109-132 | an option header with extended delta and length is read back as it was written, whatever follows |
| CoapOptions.SetOptionHeader | apps/er-coap/er-coap.c:109-132 | exactly the bytes of the header are written |
| CoapOptions.IntRoundTrip | apps/er-coap/er-coap.c:84-95 | the shortest big-endian form of a 32-bit number is read back as that number |
| CoapOptions.SerializeIntOption | apps/er-coap/er-coap.c:135-170 | an integer option is written in its shortest form, and nothing else changes |
| CoapOptions.SerializeArrayOption | apps/er-coap/er-coap.c:173-217 | a string is written as one option, or as one option for each part that the splitting loop finds |
| CoapOptions.SplitThenMerge | apps/er-coap/er-coap.c:186-239 | splitting a string and merging the parts restores it if and only if it does not begin with a separator and does not end in an odd number of them |
| CoapMessage.BlockRoundTrip | apps/er-coap/er-coap.h:163-173 | a block option of a 20-bit number is read back with number, flag, the largest power of two not above the size, and the offset that goes with them |
| CoapMessage.ComputeLog2 | apps/er-coap/er-coap.c:71-81 | the loop computes the binary logarithm |
| CoapMessage.ScanEncoded | apps/er-coap/er-coap.c:490-531 | encoded options and payload are read back one by one, whatever lies behind the message |
| CoapRoundTrip.FieldRoundTrip | apps/er-coap/er-coap.c:534-681 | every option that is not a string gives its value back |
| CoapRoundTrip.PacketIsCarried | apps/er-coap/er-coap.c:349-388 | the options of any packet without proxy options, read one by one, give its fields, decoded blocks and merged strings |
| CoapRoundTrip.PacketRoundTrip | apps/er-coap/er-coap.c:310-696 | of these packets, exactly those are read back unchanged whose block sizes are powers of two and whose strings are restorable |
| CoapSerializer.SerializeOptions | apps/er-coap/er-coap.c:349-388 | all options are written in the order of their numbers |
| CoapSerializer.SerializeMessage | apps/er-coap/er-coap.c:310-423 | header, token, options, marker and payload are written; an empty message is its header only, and a head above the limit is refused with 0 |
| CoapParser.MergeMultiOption | apps/er-coap/er-coap.c:220-239 | merging in the buffer gives destination, separator and option, and writes only between the end of the destination and the end of the option |
| CoapParser.Parser.StoreString | apps/er-coap/er-coap.c:584-640 | one more string option leaves earlier strings and unread bytes as they are and extends the packet as the pure merge does |
| CoapParser.Parser.ParseOptions | apps/er-coap/er-coap.c:490-691 | the loop over the receive buffer refines scanning the bytes as they were received and absorbing the options one by one |
| CoapParser.Parser.ParseMessage | apps/er-coap/er-coap.c:442-696 | a wrong version or token length is refused; otherwise status, packet and payload, cut off at the chunk size, are those of the pure parser |
| CoapTransfer.MessageIsScanned | apps/er-coap/er-coap.c:442-531 | the bytes of a serialized message, with at least one byte behind them, are parsed into its header, token, options and payload |
| CoapTransfer.SendAndReceive | apps/er-coap/er-coap.c:390-402 | what is serialized is parsed without error into the carried packet; a payload in the same buffer loses its first byte exactly when the head fills the room in front of it and the byte is not 255 |
| CoapTransfer.Transfer | apps/er-coap/er-coap.c:310-696 | a packet arrives as it was sent, with its payload, if and only if it is transparent |
| CoapTransfer.BarePacketFits | apps/er-coap/er-coap.c:310-349 | a packet without options always fits and is transparent |
| CoapWire.SegmentsAreSent | apps/er-coap/er-coap.c:186-217 | a path of segments without '/' is sent as exactly one option 11, or 8, for each segment, in order; a query of arguments without '&' as options 15, or 20 |
| CoapWire.SegmentsArrive | apps/er-coap/er-coap.c:599-640 | these options, absorbed one by one, give the string back, joined with '/' or '&', and change nothing else |
| CoapWire.TransparentMeans | apps/er-coap/er-coap.c:364-381 | what a packet has to satisfy to arrive as it was, string by string, with the separators |
| CoapWire.UnknownOption | apps/er-coap/er-coap.c:676-684 | an option with an unknown number is refused iff the number is odd, and otherwise changes nothing; of the known ones, 35 and 39 are refused |
| CoapWire.FieldsAreSent | apps/er-coap/er-coap.c:349-388 | each field is sent under its number, as it is, as the shortest integer, or as a block of number, flag and size exponent |
| CoapWire.FieldsArrive | apps/er-coap/er-coap.c:534-681 | what each option that is not a string puts into the packet, for any value: tags are cut to 8 bytes, 16-bit fields wrap |
| CoapWire.IntegerArrives | apps/er-coap/er-coap.c:84-95 | integers are in network order |
| CoapWire.OptionOnTheWire | apps/er-coap/er-coap.c:109-132 | an option is one byte of delta and length, the extended delta, the extended length, and its value, with the ranges of section 3.1 of RFC 7252 |
| CoapWire.TwoSegmentMessage | apps/er-coap/er-coap.c:310-349 | the bytes of a message with the path a/b: version, type and token length, code, message id, token, and two options |
| CoapTransactions.Transactions.NewTransaction | apps/er-coap/er-coap-transactions.c:70-87 | a free slot is taken and listed, unless there is none; the callback of the slot stays |
| CoapTransactions.Transactions.SendTransaction | apps/er-coap/er-coap-transactions.c:89-139 | one more transmission; then the doubled wait, or the slot is freed: at once if not confirmable, and with its callback after 1 + COAP_MAX_RETRANSMIT transmissions and waits of initial * (2^COAP_MAX_RETRANSMIT - 1) |
| CoapTransactions.Transactions.ClearTransaction | apps/er-coap/er-coap-transactions.c:141-151 | the slot is freed and leaves the list, which stays exactly the allocated slots |
| LinkedList.List.Remove | core/lib/list.c:239-262 | an element is unlinked from wherever it is, and its own pointer is cleared; the others stay in order |
| LinkedList.List.Add | core/lib/list.c:142-160 | an element becomes the last one, wherever it was before |
| CoapTransactions.Transactions.CheckTransactions | apps/er-coap/er-coap-transactions.c:166-178 | the walk over the next pointers sends every expired transaction once more, up to and including the first that gives up; that one leaves the list and is called back; those behind it, and their timers, stay as they are |
| CoapTransactions.OneCheckIsEnough | apps/er-coap/er-coap-transactions.c:166-178 | one check sends all expired transactions if and only if none of them lies behind one that gives up |
| CoapTransactions.Transactions.CheckRepeatedly | apps/er-coap/er-coap-engine.c:345-353 | as many checks as timers have run out send each of these transactions exactly once, and call back those that give up once each, in the order of the list |
| CoapTransactions.TwoInARow | apps/er-coap/er-coap-transactions.c:166-178 | two expired transactions: if the first gives up, the second is untouched |
| CoapTransactions.SecondIsSkipped | apps/er-coap/er-coap-transactions.c:89-178 | two unanswered messages whose timers run out together: the check in which both time out calls back the first only, the next one the second |
| CoapTransactions.DoublingSum | apps/er-coap/er-coap-transactions.c:101-113 | the k-th interval is initial * 2^k, and n of them add up to initial * (2^n - 1) |
| CoapTransactions.SendUnanswered | apps/er-coap/er-coap-transactions.c:89-178 | the whole life of a confirmable message without an answer, while no other timer runs out |
| WellKnownCore.AddString | apps/er-coap/er-coap-res-well-known-core.c:60-75 | a string is offered to the window: what of it falls inside is in the buffer, and the position tells whether it ran over |
| WellKnownCore.TwoLinks | apps/er-coap/er-coap-res-well-known-core.c:154-170 | the description of a resource is `</url>`, with `;attributes` when it has some, and there is a comma between two |
| WellKnownCore.AddLink | apps/er-coap/er-coap-res-well-known-core.c:154-177 | the loop stops in a link if and only if the window ends before the link does |
| WellKnownCore.GetHandler | apps/er-coap/er-coap-res-well-known-core.c:79-204 | the buffer holds the slice of the full description at the offset, and the new offset is -1 if and only if that slice reaches the end |
| Blockwise.RequestedSize | apps/er-coap/er-coap.h:58-67 | the size that a client's request for its chunk size arrives with is the block size of the server |
| Blockwise.Respond | apps/er-coap/er-coap-engine.c:125-205 | the answer to a request for a block is that block of the resource, whether the resource knows about blocks or not, with the right flag, or BlockOutOfScope |
| Blockwise.BlockingRequest | apps/er-coap/er-coap-engine.c:390-432 | when every answer is the block that was asked for, what the client loop receives is the beginning of the resource, and all of it when the loop ends by itself |
| Blockwise.BlockingRequestAny | apps/er-coap/er-coap-engine.c:390-432 | with replies that carry any blocks of the resource, what is kept is a beginning of it; when the loop ends by itself, it is all of it if and only if the last reply is the one asked for |
| Blockwise.WrongBlockEnds | apps/er-coap/er-coap-engine.c:390-432 | a reply with the last block instead of the second one ends the transfer with the first block only |
| Blockwise.Block1Handler | apps/er-coap/er-coap-block1.c:79-119 | the payload goes to its offset, if there is a target, or the request is refused without a change: no payload, or beyond the limit |
| Blockwise.Assemble | apps/er-coap/er-coap-block1.c:79-119 | blocks fed in any order and any number of times leave the data in the target; only the last block is answered 0 |
| JsonTree.Printer.PrintNext | apps/json/jsontree.c:136-273 | one step moves characters from what is pending to what is printed, with the stack in bounds, and one call less is left |
| JsonTree.Printer.WriteString | apps/json/jsontree.c:66-79 | a string is printed in quotes, with its quotes escaped |
| JsonTree.Printer.WriteUint | apps/json/jsontree.c:81-96 | the decimal digits are printed, and the buffer of ten characters is enough |
| JsonTree.PrintTree | apps/json/jsontree.c:109-273 | for every tree within the depth limit, printing ends and gives the recursive rendering |
| JsonParser.Parser.ReadNext | apps/json/jsonparse.c:160-263 | one call is one step of the specified parser, for any text and any state |
| JsonParser.Parser.CopyValue | apps/json/jsonparse.c:269-298 | the copy is the unescaped value, cut off at the size of the buffer |
| JsonRoundTrip.StringSurvives | apps/json/jsontree.c:66-79 | a printed string comes back if and only if it has no backslash |
| JsonRoundTrip.NumberReadsBack | apps/json/jsonparse.c:309-316 | a printed integer has its value |
| JsonRoundTrip.NumberComesBack | apps/json/jsonparse.c:309-316 | an integer that is printed, parsed and asked for is the same |
| JsonRoundTrip.ReadValue | apps/json/jsonparse.c:160-263 | wherever a value may begin, the parser reads the tokens of a printed tree and is back in the same container |
| JsonRoundTrip.PrintedParses | apps/json/jsonparse.c:160-263 | a whole printed text is read as the tokens of its tree, without an error and with all containers closed |
| JsonRoundTrip.PrintAndParse | apps/json/jsontree.c:136-273 | printing and then parsing gives the tokens of the tree, error 0 and depth 0 |
| JsonBackslash.CopyIsLost | apps/json/jsonparse.c:269-298 | what is copied from a printed string with a backslash differs from it, wherever the parser takes the string to end |
| JsonBackslash.PrintedParsesIff | apps/json/jsontree.c:66-79 | a printed tree has no NUL in a string and is read as its own tokens if and only if no string and no name in it has a backslash or a NUL |
| JsonBackslash.OneBackslash | apps/json/jsonparse.c:73-118 | the string of a backslash and an n, printed, is not read as itself |
| JsonText.BlanksAreSkipped | apps/json/jsonparse.c:126-135 | spaces and line ends in front of a token make no difference, in any state |
| JsonText.WordIff | apps/json/jsonparse.c:99-120 | a word up to the next delimiter is read as a value iff it is null, true or false; otherwise it is a syntax error |
| JsonText.WordIsCopied | apps/json/jsonparse.c:269-298 | null, true and false can be copied like strings and numbers |
| JsonText.NumberIsRead | apps/json/jsonparse.c:87-98 | a number is a digit or a minus sign with all digits and points behind it |
| JsonText.StringIsRead | apps/json/jsonparse.c:76-86 | a string of any characters and escapes is read up to its closing quote, as a name or a value, and its copy, cut off at the buffer, is what the characters and escapes stand for; unknown escapes stand for nothing |
| JsonText.AcceptedIsBalanced | apps/json/jsonparse.c:160-263 | in every text that is read to its end without an error, every closing bracket closes the last open one of its kind, and all are closed |
| JsonText.NothingClosesBehindComma | apps/json/jsonparse.c:182-217 | behind a comma no bracket is closed, and in an object only a name is read |
| JsonText.LooseCommas | apps/json/jsonparse.c:207-232 | in an array a comma is accepted behind anything, and a nested array without a comma |
| JsonText.TwoMembers | apps/json/jsontree.c:149-207 | an object of two members is printed with braces, quoted names, colons and a comma |
| JsonText.TwoElements | apps/json/jsontree.c:149-207 | an array of two elements is printed in square brackets, with a comma |
| JsonText.Decimal | apps/json/jsontree.c:81-107 | numbers are printed and read in decimal |

## Left out

Antelope:

- Byte sizes in the bytecode: a node type, an operator and an operand each take one cell, and the model asks
  for a buffer that is large enough. Reading beyond the code gives SEMANTIC_ERROR.
- WhereCompiler.Parser.ParseWhere: described for token streams that begin with a clause of the grammar; streams
  with a syntax error, and clauses with a later comparison that begins with a parenthesis (which the code takes
  for a group), are not described.
- WhereCompiler.Parser.ParseExpr: likewise described for streams that begin with a chain; what is consumed and
  emitted before a syntax error is not described.
- WhereCompiler.Parser.ParseComparison: likewise described for streams that begin with a comparison.
- WhereCompiler.Parser.ParseOperand: strings and floating-point operands, and names for which the variable table
  has no room, are accepted and emit nothing, as in the code; what the rest of the parser then makes of them is
  not described.
- LogicVm.Lvm.EvalExpr: values are mathematical integers, so that overflow of `long` is not modelled.
- LogicVm.Lvm.RegisterVariable: the arrays `variables` and `derivations` have LVM_MAX_VARIABLE_ID - 1 entries,
  while the limit tests and the loops use LVM_MAX_VARIABLE_ID, so that the last variable lies behind them; the
  model has a place for it.
- LogicVm.Lvm.ShiftForOperator: the code tests for one cell of room and moves the tail by two; a buffer with
  exactly one free cell is excluded.
- Selection.Handle.Process: selections without a condition, and aggregates, are not described.
- IndexedSelect.Select: attributes are integers; storage always succeeds. A `long` has 32 bits; an `int` may have
  any number, but where both differ, it lies in the low bytes of the `long` (little-endian hosts). REMOVE, and the
  inverse selection through an index, are not described.
- Selection.SelectIndex: the index is the inline one, and `index_get_iterator` succeeds for it.
- Aggregates, assignment of results to relations, the lexer, and the file formats.
- MaxHeapIndex.MaxHeap.GetFirst: later hits for the same key are not described (the position in the bucket is
  not reset from one bucket to the next), nor are ranges of keys. The cache has one place, storage always
  succeeds, and an index that is loaded again after a restart is not described.

CoAP:

- Option numbers of 64 and more do not fit the bitmap; the parser model asks that there are none, and that all
  bytes that the loop reads lie in the buffer.
- CoapTransfer.SendAndReceive: packets with proxy options are serialized by the model, but the parser answers
  them with an error, so that they are not part of the round trip.
- CoapTransactions.Transactions.CheckTransactions: callbacks do not use the transaction interface while the
  list is walked, and every listed transaction has been sent before a check comes, as the engine sees to;
  observers are not described.
- CoapTransactions.Transactions.CheckRepeatedly: no further timer runs out between these checks.
- CoapParser.Parser.ParseOptions: excludes the option numbers and the reads named above.
- CoapParser.Parser.ParseMessage: excludes them likewise.
- Link-format filtering, which is switched off; observe; separate responses; error replies of the engine.
- Blockwise.BlockingRequest: every reply is the requested block of the resource; other blocks are the subject of
  BlockingRequestAny, and error replies are not described.
- Blockwise.BlockingRequestAny: replies are those of the resource to some block of it, and the resource knows
  about blocks; replies without a block option, and error replies, are not described; chunk sizes from 16 to 2048.
- Blockwise.Block1Handler: offsets for which adding the length wraps 32 bits are excluded.
- WellKnownCore.GetHandler: a window of size 0 is excluded; the engine asks for at least 16 bytes.

Code propagation:

- An image that arrives over TCP is published in one step. An upload that begins while an older image is still
  being sent would change the stored image under the old id; it is excluded, and so is the wrap of the
  16-bit id.

tunslip:

- SlipChecksum.Tunnel.WriteToSerial: for packets of fewer than twelve bytes whose header is shorter than twelve
  bytes, the condition is that the changed packet is accepted, and not spelt out for the identification.
- SLIP escaping, and the filtering of DHCP options: the options of a reply are given. Reading beyond the buffer
  is excluded.

JSON:

- JsonParser.Parser.ReadNext: an eleventh open container, which the code would push behind its stack, is
  excluded.
- Callbacks, pretty printing, and the search for paths. The most negative integer is negated as a mathematical
  integer. Bytes behind the text read as 0.
