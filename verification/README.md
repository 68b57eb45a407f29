# Verified core of the vendored GNU libintl

The repository carries GNU libintl in `intl/`: the library that finds message
catalogues, looks up and converts translations, evaluates plural formulas, and formats
numbers with positional arguments. This project models the algorithms of that library
whose correctness rests on invariants the code does not show, and proves them.

Nine parts, each in the form of its C source: classes and methods with loops for code
that changes memory, step relations for code that runs in several threads, functions
for what the methods are proved against.

- **Bignums** (`Limbs`, `Multiplication`, `Shift`, `Trial`, `Division`, `Decimal`, `Scale`).
  32-bit limbs in arrays, 64-bit accumulators. A `Limb` is an `int` below 2^32 and a
  `TwoLimb` one below 2^64, so every assignment is a proof that nothing overflows; where
  the C code truncates or complements, the model does so explicitly.
- **Red/black tree** (`RedBlack`, `NodeMemory`, `Tsearch`, `Rebalance`, `Tdelete`,
  `KeyOrder`). Node records in a memory, links as addresses of cells, an abstract tree that
  the memory represents. A key is an int that stands for the rank of the caller's key among
  all keys of a run: for every comparison function that is a total preorder on any type,
  comparing keys comes out as comparing ranks (`KeyOrder.RankDecides`), and the code does
  nothing else with keys.
- **Locks** (`Threads`, `WaitQueue`, `CondRwLock`, `HandoffRwLock`, `Once`). Any number of
  threads, any interleaving. The condition-variable lock allows spurious wakeups and
  barging. In the hand-off lock `unlock` is split into its assignments and `SetEvent`
  calls, because woken threads read `runcount` outside the critical section. The methods of
  `CondRwLock.RwLock` are the reader's, writer's and unlocking steps in assignment form, and
  each is proved to be a step of the runs.
- **Plural formulas** (`PluralSyntax`, `PluralTables`, `PluralParser`, `PluralLexer`,
  `PluralParse`). The generated tables and the automaton that interprets them, against
  the derivation trees of the grammar that its precedence declarations select.
- **Catalogue lookup** (`CStrings`, `MsgHash`, `Probing`, `Catalog`). The string hash, the
  double-hashing table that is extended in memory, the probe and the bisection.
- **printf directives** (`PrintfSyntax`, `PrintfParse`). The directive parser, against a
  writer of directives; the argument types, against the formatter's `abort()` calls. The
  configuration is glibc on a 64-bit machine (`long long`, wide characters and the `I`
  flag present; `intmax_t`, `size_t` and `ptrdiff_t` as wide as `long`).
- **Bindings and cache** (`Gettext`). `bindtextdomain`, `textdomain` and `dcigettext` over
  one state, in an environment that does not change.
- **Fallback files** (`L10nFiles`). The recursive fill of the sorted pool.
- **Converted strings** (`Conversion`). The memory that converted translations are carved
  out of, with an arbitrary allocator: a block may grow in place or move, and memory
  outside the blocks may change at any call.

`Powers`, `Divisibility`, `Options` and `DecimalDigits` hold what several parts share.
`Estimates` has the buffer sizes that the C code computes in floats: they are known up to a
relative error of 2^-20.

Four promises of the source hold only under a condition, and the model says exactly which:

- The hand-off lock expects that a reader is queued only while a writer holds the lock
  or the count is saturated. `HandoffRwLock.JustifiedIff` proves that this is so over all
  runs exactly when there are at most `INT_MAX` threads; `StrandedReader` is a run with
  more in which a queued reader waits although it could read.
- Its `abort()` checks after waiting are unreachable exactly when there are at most
  `INT_MAX + 1` threads (`HandoffRwLock.NeverAbortsIff`); `AbortingRun` is a run with more
  in which the handed-over count overflows.
- The probes of the catalogue's hash table end, for a hash value, on every table with a free
  slot exactly if the increment has no common divisor with the table size
  (`Catalog.EndsExactly`); `EndlessProbe` is a table of four slots and a message for which
  they do not. A prime size gives that for all hash values (`Divisibility.PrimeCoprime`);
  the loader checks neither. One probe ends exactly if it meets a free slot or the message,
  and that is all that `Catalog.Enter`, `Augment`, `Probe` and `Locate` ask for.
- The block that `convert_to_decimal` allocates holds the digits of every number, but the
  terminating NUL behind them exactly if the number has fewer digits than there is room for
  (`Decimal.ConvertToDecimal`, `Decimal.RoomBehind`); for the largest number of 14 limbs it
  has not (`Decimal.NoRoomForNul`).

## Model

| member | source | states |
|---|---|---|
| `Multiplication.Multiply` | intl/vasnprintf.c:343-405 | the result is a fresh, normalised number whose value is the product of the two values, for all operands |
| `Multiplication.AddRow` | intl/vasnprintf.c:378-395 | one row of the product: what is added to the destination limbs is digit times operand, and the 64-bit carry never overflows |
| `Multiplication.RowAdded` | intl/vasnprintf.c:378-395 | a row added at limb i turns the product of i limbs into the product of i + 1 limbs |
| `Multiplication.ProductFits` | intl/vasnprintf.c:386-391 | digit times digit plus old limb plus carry is below 2^64, and leaves a carry below 2^32 |
| `Limbs.ValInjective` | intl/vasnprintf.c:320-342 | two limb sequences without superfluous zero limbs that have the same value are the same sequence |
| `Trial.LeadingZeros` | intl/vasnprintf.c:582-607 | the shift count puts the divisor's top bit into bit 31 and loses nothing |
| `Shift.ShiftLeft` | intl/vasnprintf.c:622-635 | the shifted limbs and the outgoing accumulator together are the value times 2^s |
| `Trial.EstimateDigit` | intl/vasnprintf.c:674-720 | with the overflow case and both corrections, q* is the quotient of the top three by the top two limbs, or beta-1 if that is larger |
| `Trial.CorrectDigit` | intl/vasnprintf.c:714-719 | two corrections suffice |
| `Trial.TrialDigitBounds` | intl/vasnprintf.c:674-747 | the corrected trial digit is the true quotient digit or one more |
| `Trial.SubtractMultiple` | intl/vasnprintf.c:725-743 | the complement trick subtracts q* times the divisor from the window in place, with the borrow in cr |
| `Trial.AddBack` | intl/vasnprintf.c:751-766 | the divisor is added back in place, with the carry computed by comparisons |
| `Trial.NoBorrow` | intl/vasnprintf.c:746-768 | if the subtraction does not borrow, q* is the quotient digit and the window holds the remainder |
| `Trial.AfterBorrow` | intl/vasnprintf.c:746-768 | if it does, a single add-back makes q* - 1 the digit and the window the remainder |
| `Trial.DivideStep` | intl/vasnprintf.c:672-771 | one step divides the window by the divisor and stores the digit in the limb the remainder gives up |
| `Division.DividedStep` | intl/vasnprintf.c:672-775 | a step keeps: digits so far times b times beta^j plus remainder is the dividend, and the remainder is below b times beta^j |
| `Division.LongDivide` | intl/vasnprintf.c:664-776 | after the loop the top limbs are the quotient and the bottom limbs the remainder of the shifted dividend |
| `Division.ShortDivide` | intl/vasnprintf.c:519-531 | dividing by one limb leaves quotient limbs and a remainder below the divisor, in place or to another array |
| `Division.CompareTwice` | intl/vasnprintf.c:801-820 | the limb-by-limb comparison decides between twice the remainder and the divisor |
| `Division.Increment` | intl/vasnprintf.c:823-829 | adding one with carry, in room for one more limb |
| `Division.RoundHalfEvenIsNearest` | intl/vasnprintf.c:407-413 | the rounded quotient is a nearest integer, and the even one of two equally near |
| `Division.NearestEvenUnique` | intl/vasnprintf.c:407-413 | only one integer has that property |
| `Division.RoundHalfEvenScaled` | intl/vasnprintf.c:555-661 | shifting both operands does not change the rounded quotient |
| `Division.DivideNormalised` | intl/vasnprintf.c:502-836 | all three cases and the rounding, for operands without leading zero limbs |
| `Division.Divide` | intl/vasnprintf.c:414-837 | for every a and b > 0 the result is normalised and is a/b rounded half to even |
| `Decimal.GroupsFit` | intl/vasnprintf.c:851-853 | n limbs have at most nine digits for each group, for any number of groups above 1.0704 * n, less a margin for floats |
| `Decimal.DigitsFit` | intl/vasnprintf.c:851-853 | the estimated groups are enough for every number of a_len limbs |
| `Decimal.RoomBehind` | intl/vasnprintf.c:888 | there is a byte for the NUL if and only if the number is below 10^(c_len - 1) |
| `Decimal.NoRoomForNul` | intl/vasnprintf.c:851-888 | the largest number of 14 limbs fills its 135 bytes with digits |
| `Decimal.AppendNine` | intl/vasnprintf.c:871-876 | nine more digits of the numeral, low to high |
| `Decimal.NumeralUnique` | intl/vasnprintf.c:839-845 | a number has only one numeral without a superfluous leading zero |
| `Decimal.ConvertToDecimal` | intl/vasnprintf.c:846-891 | the digits are the numeral of a times 10^extra_zeroes, they are stored inside the allocated block, and the loop ends; exactly when the NUL fits too |
| `Scale.FactorTens` | intl/vasnprintf.c:1094-1103 | taking out the common power of ten and rounding the rest gives the same number |
| `Scale.CollectTwos` | intl/vasnprintf.c:1089-1092 | 2^e times 10^n is 2^(e+n) times 5^n, over all signs |
| `Scale.FiveFitsIn` | intl/vasnprintf.c:1104-1111 | 5^n fits in any number of limbs above n times (476/205)/32, which leaves 2.322 room for the rounding of floats |
| `Scale.FiveFits` | intl/vasnprintf.c:1104-1111 | the limbs allocated, abs_n times 2.322/32 in floats, rounded down, plus one, hold 5^abs_n, for every n |
| `Scale.PowerOfFive` | intl/vasnprintf.c:1116-1143 | the 13-at-a-time loop leaves 5^abs_n, normalised, in any room that holds it |
| `Scale.ShiftPower` | intl/vasnprintf.c:1148-1180 | shifting by bits, then by limbs in place, multiplies by 2^abs_s |
| `Scale.PowerOfTwo` | intl/vasnprintf.c:1212-1221 | the limbs built behind the power of five denote 2^abs_s |
| `Scale.ShiftedCopy` | intl/vasnprintf.c:1227-1269 | m times 2^abs_s |
| `Scale.ScaleTwoFive` | intl/vasnprintf.c:1146-1273 | in all four sign cases z is 2^s times 5^n times m, rounded half to even |
| `Scale.ScaleRoundDecimal` | intl/vasnprintf.c:1072-1284 | for every m, e and n the digits are the numeral of m times 2^e times 10^n rounded half to even |
| `KeyOrder.RankDecides` | intl/tsearch.c:263-284 | any comparison function that is a total preorder, on any type of keys, comes out as the comparison of the keys' ranks |
| `RedBlack.OkIsValid` | intl/tsearch.c:136-164 | the invariant used in the proofs implies search order, no two red edges in a row, equal black counts |
| `RedBlack.ValidIsOk` | intl/tsearch.c:136-164 | and is implied by them |
| `RedBlack.PathBound` | intl/tsearch.c:370-375 | 2^height is at most (n+1)^2 in every valid tree |
| `RedBlack.PathBelow97` | intl/tsearch.c:370-375 | fewer than 2^48 nodes have paths below 97, so 100 stack entries suffice |
| `NodeMemory.Memory.Store` | intl/tsearch.c:233-237 | writing through a link changes that one cell |
| `NodeMemory.StoreCell` | intl/tsearch.c:233-237 | a store through the cell of a context keeps the rest of the representation |
| `NodeMemory.PlugOk` | intl/tsearch.c:136-164 | a context and a subtree that fit make a whole tree with the invariant |
| `Tsearch.MaybeSplitForInsert` | intl/tsearch.c:179-257 | colour flip and the four rotations restore the invariant below the context and keep every node and key |
| `Tsearch.NextStep` | intl/tsearch.c:288-302 | parent and grandparent links left stale by a rotation are replaced before a later rotation could use them |
| `Tsearch.SearchFrom` | intl/tsearch.c:280-320 | the whole descent: found node or new leaf, with the invariant |
| `Tsearch.Tsearch` | intl/tsearch.c:263-320 | returns the node of the key; an absent key is added exactly once, a present key changes no node; the tree stays valid |
| `Rebalance.Nephews` | intl/tsearch.c:466-491 | next to a deficit the brother exists, and a red brother has black sons, so no null link is dereferenced |
| `Rebalance.RotateRedSibling` | intl/tsearch.c:468-487 | a red brother is rotated up; the deficit stays where it is, below a red parent |
| `Rebalance.ColourSibling` | intl/tsearch.c:490-503 | colouring the brother moves the deficit one level up |
| `Rebalance.LiftNearNephew` | intl/tsearch.c:509-529 | a red near nephew is lifted to the top and the deficit is gone |
| `Rebalance.LiftSibling` | intl/tsearch.c:530-545 | a red far nephew: the brother is lifted and the deficit is gone |
| `Tdelete.FindKey` | intl/tsearch.c:385-402 | the descent stacks the links of the path, or proves the key absent |
| `Tdelete.FindSuccessor` | intl/tsearch.c:415-429 | the leftmost node of the right subtree, with its links stacked |
| `Tdelete.Unchain` | intl/tsearch.c:431-445 | the node with at most one son leaves the tree through its parent's field |
| `Tdelete.NextLarger` | intl/tsearch.c:404-428 | that node has the next larger key of the whole tree |
| `Tdelete.RekeyOk` | intl/tsearch.c:447-448 | its key can replace the deleted key without breaking the search order |
| `Tdelete.MoveDeficitUp` | intl/tsearch.c:449-602 | the loop restores equal black counts, with its pushes inside the stack |
| `Tdelete.Tdelete` | intl/tsearch.c:364-606 | on every valid tree of fewer than 2^48 nodes: an absent key changes nothing; else the key's node goes, or takes over the next larger key whose node goes; the tree stays valid; the parent is returned |
| `Tdelete.DeletionKeys` | intl/tsearch.c:360-363 | such a deletion removes exactly the one key |
| `Tdelete.Tfind` | intl/tsearch.c:329-354 | finds the node of a key exactly if there is one |
| `WaitQueue.CArrayWaitQueue.Grow` | intl/lock.c:702-730 | growing to 2 * alloc + 1 and rotating a wrapped queue in place keeps the sequence of waiting events |
| `WaitQueue.CArrayWaitQueue.Add` | intl/lock.c:697-743 | appends the event to the sequence |
| `WaitQueue.CArrayWaitQueue.NotifyFirst` | intl/lock.c:747-754 | sets the first event and removes it |
| `WaitQueue.CArrayWaitQueue.NotifyAll` | intl/lock.c:758-771 | sets all events in order and empties the queue |
| `CondRwLock.InvNext` | intl/lock.c:147-256 | every step of every thread, with any choice of woken threads, keeps what runcount and waiting_writers_count say about the threads |
| `CondRwLock.MutualExclusion` | intl/lock.c:147-256 | in every reachable state one writer and no reader, or exactly runcount readers |
| `CondRwLock.NoLostWakeup` | intl/lock.c:184-197 | whenever somebody sleeps and nobody holds the lock, a woken writer exists that takes it in its next step |
| `CondRwLock.NeverStuck` | intl/lock.c:230-254 | while a thread sleeps, another holds the lock or can take it |
| `CondRwLock.HolderUnlocks` | intl/lock.c:210-229 | a holder never gets EINVAL |
| `CondRwLock.ReaderDecision` | intl/lock.c:147-173 | over all runs: a reader gets the lock, at once or after waking, exactly if no thread writes, none is waiting to write, and fewer than INT_MAX read; else it sleeps |
| `CondRwLock.WriterDecision` | intl/lock.c:176-200 | over all runs: a writer gets the lock exactly if no thread reads or writes; else it sleeps |
| `CondRwLock.UnlockDecision` | intl/lock.c:203-256 | over all runs: an unlock wakes nobody while others read, only writers, and at least one of those asleep, if a thread is waiting to write, and else all sleeping readers |
| `HandoffRwLock.InvNext` | intl/lock.c:784-932 | every step keeps: runcount counts readers holding or notified, or is -1 for one such writer; the queues hold exactly the sleeping threads |
| `HandoffRwLock.WakeChecks` | intl/lock.c:808-811 | a woken thread finds runcount as it expects, however far a concurrent unlock has got |
| `HandoffRwLock.HandoffSafety` | intl/lock.c:784-932 | mutual exclusion, the meaning of runcount, and that queued threads have a reason to wait, in every reachable state |
| `HandoffRwLock.ReaderDecision` | intl/lock.c:784-837 | over all runs: a reader that calls gets the lock exactly if no writer holds it or has been handed it and fewer than max readers do; else it queues behind the others, or polls without an event |
| `HandoffRwLock.WriterDecision` | intl/lock.c:838-890 | over all runs: a writer gets it exactly if nobody holds it or has been handed it |
| `HandoffRwLock.HandDecision` | intl/lock.c:909-929 | over all runs: an unlock hands the lock to nobody while readers hold it, else to a writer if one is queued, else to all queued readers |
| `HandoffRwLock.NeverAbortsIff` | intl/lock.c:810-811 | no abort() is reachable if and only if there are at most max + 1 threads |
| `HandoffRwLock.AbortingRun` | intl/lock.c:922-927 | with more threads, a run in which the count of handed-over readers overflows and a reader aborts |
| `HandoffRwLock.JustifiedIff` | intl/lock.c:797-799 | queued readers always wait for a writer or a saturated count if and only if there are at most max threads |
| `HandoffRwLock.StrandedReader` | intl/lock.c:909-929 | with more threads, a run after which a reader waits although it could read |
| `HandoffRwLock.RwLock.RdSection` | intl/lock.c:797-834 | the critical section of rdlock is the reader's step, on the queue class |
| `HandoffRwLock.RwLock.WrSection` | intl/lock.c:851-887 | the critical section of wrlock is the writer's step |
| `HandoffRwLock.RwLock.UnlockSection` | intl/lock.c:895-931 | the critical section of unlock is the drop, the hand-over and all notifications, in order, with its errors |
| `HandoffRwLock.SettledReached` | intl/lock.c:758-771 | the notifications one by one lead to the state that the method leaves |
| `Once.InvNext` | intl/lock.c:1019-1053 | every step of any thread keeps the invariant of the once protocol |
| `Once.OnceSafety` | intl/lock.c:1019-1053 | the initializer runs at most once, returns before anybody returns, the abort() is unreachable, the lock is not entered before it exists |
| `PluralSyntax.BareOk` | intl/plural.y:131-206 | parenthesizing where precedence needs it gives a selected derivation of the same expression |
| `PluralTables.ExpRow` | intl/plural.c:603-661 | in every state after an expression the tables shift exactly the operators that bind strongly enough, and reduce otherwise |
| `PluralTables.ShiftSource` | intl/plural.c:603-661 | which symbol leads to each state, and from where |
| `PluralParser.ReducedShape` | intl/plural.c:1339-1491 | at every default reduction the stack holds the rule's right-hand side, and the action builds its expression |
| `PluralParser.SoundStep` | intl/plural.c:1184-1491 | every step keeps a stack of derivations that loses no token, and makes progress |
| `PluralParser.CompleteExp` | intl/plural.c:1184-1491 | from every state where an expression may start, the automaton reads any selected derivation that fits there |
| `PluralParser.AcceptedIsDerived` | intl/plural.c:1110-1684 | whatever is accepted is a derivation of the rules, selected by the precedences |
| `PluralParser.DerivedIsAccepted` | intl/plural.c:1110-1684 | every such derivation is accepted and its expression built |
| `PluralParser.ParsesExactly` | intl/plural.c:1110-1684 | the automaton accepts tokens with an expression if and only if a selected derivation of them builds it |
| `PluralParser.PrintParses` | intl/plural.c:1110-1684 | the tokens of a printed expression parse to the expression |
| `PluralParser.Unambiguous` | intl/plural.y:131-206 | the precedences leave one expression for each token sequence |
| `PluralParser.ReducedLighter` | intl/plural.c:1339-1491 | reductions decrease a weight, so that the parser ends on every input |
| `PluralLexer.LexNumber` | intl/plural.c:1738-1750 | any digit string is read as its value modulo 2^64 |
| `PluralLexer.LexSpelling` | intl/plural.c:1716-1855 | tokens that do not merge are read back from any spelling, with any blanks |
| `PluralLexer.LexExactly` | intl/plural.c:1716-1855 | a text is scanned as some tokens without an error token if and only if it is those tokens spelled out, character by character (a number as any digits of its value modulo 2^64), with blanks between, up to an end character |
| `PluralLexer.YieldSeparable` | intl/plural.c:1716-1855 | the tokens of a derivation never merge |
| `PluralParse.ParseArgs.Yylex` | intl/plural.c:1716-1855 | the scanner's loops return the next token and position, of the scan that LexExactly describes character by character |
| `PluralParse.ParseArgs.Yyparse` | intl/plural.c:1110-1684 | on every text it ends; it returns 0 exactly if the text up to an end character is some expression written out, and then leaves that expression in res and stops at that end character |
| `PluralParse.NoRecovery` | intl/plural.c:1594-1606 | no state takes the error token |
| `PluralParse.ParseArgs.Recover` | intl/plural.c:1591-1618 | so error recovery pops every state and always aborts |
| `PluralParse.DenotesExactly` | intl/plural.c:1110-1855 | a text denotes an expression if and only if its tokens are a selected derivation that builds the expression |
| `PluralParse.DenotesWritten` | intl/plural.c:1110-1855 | a text denotes an expression if and only if it is a spelling of a selected derivation of it; so a text with a character or half an operator that is no token denotes nothing |
| `PluralParse.WrittenDenotes` | intl/plural.c:1110-1855 | a written derivation denotes its expression and no other |
| `PluralParse.PrintedDenotes` | intl/plural.c:1110-1855 | printing any expression whose numbers fit, with any spacing, scanning and parsing it gives it back |
| `MsgHash.HashString` | intl/hash-string.c:31-50 | the loop computes the hash in an unsigned long of any range, for all messages; what the hash is, the next rows say |
| `MsgHash.FoldBitwise` | intl/hash-string.c:43-48 | bit by bit: bits 28 to 31 are exclusive-or'ed into bits 4 to 7 and cleared, and all other bits stay |
| `MsgHash.HashShort` | intl/hash-string.c:38-42 | while it stays below 2^28 the hash is the characters read as digits to the base 16 |
| `MsgHash.HashOfAs` | intl/hash-string.c:31-50 | seven letters a have the hash value 0x07777711 |
| `MsgHash.HashPortable` | intl/hash-string.c:31-50 | in 32 bits the hash is the same whether unsigned long has 32 or 64 bits |
| `Probing.SlotsDistinct` | intl/loadmsgcat.c:1218-1235 | if the increment is coprime to the size the probe repeats no slot within size steps |
| `Probing.ProbeCovers` | intl/loadmsgcat.c:1218-1235 | so it visits every slot |
| `Probing.CoversExactly` | intl/loadmsgcat.c:1218-1235 | it visits every slot if and only if the increment is coprime to the size |
| `Probing.SlotIs` | intl/dcigettext.c:905-943 | the k-th slot of a probe is (h + k * (1 + h % (size - 2))) % size |
| `Divisibility.PrimeCoprime` | intl/loadmsgcat.c:1218-1235 | with a prime size every increment is |
| `CStrings.CompareDecides` | intl/dcigettext.c:946-970 | of two strings that agree up to their first difference, the one with the smaller byte there, or that ends there, compares as smaller |
| `Catalog.EndsExactly` | intl/loadmsgcat.c:1223-1237 | the probe ends on every table with a free slot if and only if the increment is coprime to the size |
| `Catalog.EndlessProbe` | intl/loadmsgcat.c:1223-1237 | a table of four slots with a free one, and a message whose probe never meets it |
| `Catalog.CoprimeEnter` | intl/loadmsgcat.c:1216-1238 | with coprime increments and enough free slots all strings can be entered |
| `Catalog.FindsStored` | intl/dcigettext.c:901-943 | where every string is placed on its own probe, the lookup finds a message exactly if it is stored |
| `Catalog.EnterFinds` | intl/loadmsgcat.c:1216-1237 | entering a string changes the answer for its own message only, and only if that was not found before |
| `Catalog.Enter` | intl/loadmsgcat.c:1223-1237 | the insertion loop fills the first free slot of the probe sequence, on every table where it meets one |
| `Catalog.Augment` | intl/loadmsgcat.c:1212-1238 | if each string's probe meets a free slot in its turn, the extended table finds every old message at the same index and every other one at the first system dependent string that is it, and stays well formed; as many slots as strings are filled |
| `Catalog.Probe` | intl/dcigettext.c:900-944 | the probe loop ends, if it meets a free slot or the message, and returns the index of the first slot of the probe sequence that holds the message, or nothing if a free slot comes first |
| `Catalog.Bisect` | intl/dcigettext.c:946-970 | the bisection finds the index of the message if and only if it is there |
| `Catalog.LookupsAgree` | intl/dcigettext.c:900-970 | on a sorted table without system dependent strings both ways give the same index or both none |
| `Catalog.Locate` | intl/dcigettext.c:900-970 | either way locates the message if and only if it is in the catalogue |
| `PrintfSyntax.Saturates` | intl/printf-parse.c:163-172 | numbers read with saturating arithmetic are exact below SIZE_MAX and SIZE_MAX otherwise |
| `PrintfSyntax.ReadSound` | intl/printf-parse.c:137-579 | a directive that is read is well formed, and the text is that directive written out |
| `PrintfSyntax.ReadComplete` | intl/printf-parse.c:137-579 | a well-formed directive that is written out is read back |
| `PrintfSyntax.DirectiveReads` | intl/printf-parse.c:137-579 | every text of a directive, given character by character (position, any of seven flags, width, precision, size letters, one of 22 conversions), is read as those parts, before any rest |
| `PrintfSyntax.ReadIsDirective` | intl/printf-parse.c:137-579 | and nothing else is read |
| `PrintfSyntax.StandardSizes` | intl/printf-parse.c:338-563 | for every conversion and every length modifier for which section 7.19.6.1 of ISO/IEC 9899:1999 (for C and S, POSIX) names a type, the argument has that type, and no other character is a conversion |
| `PrintfSyntax.AnySizes` | intl/printf-parse.c:338-563 | the argument type that every conversion gets with any sequence of size specifiers, standard or not, by how many there are of each kind |
| `PrintfParse.FormatReads` | intl/printf-parse.c:135-616 | literal text and directives written together are read as those directives |
| `PrintfParse.ReadTiles` | intl/printf-parse.c:142-582 | directives are disjoint slices in order, each its own text, and only literal text lies between |
| `PrintfParse.Arguments.Register` | intl/printf-parse.c:101-133 | registering succeeds if and only if no argument gets two types, and then each used argument has its type |
| `PrintfParse.TableUnique` | intl/printf-parse.c:101-133 | the uses of arguments determine count and types, and agree with each other |
| `PrintfParse.ParseDirective` | intl/printf-parse.c:137-579 | one directive: its fields, argument numbers and registrations, exactly if it can be read and gives no argument a second type |
| `PrintfParse.DirectiveList.Parse` | intl/printf-parse.c:84-633 | succeeds if and only if the format is acceptable; then each directive is stored with the slices of the format that its text, width and precision are, its flags and its argument numbers, and the argument types and largest lengths are stored |
| `PrintfParse.StandardAccepted` | intl/printf-parse.c:84-633 | for every flag string, width, precision, length modifier and conversion that go together in the standard, the format of one such directive is accepted, with exactly those parts; its star arguments come first, and the value has the standard type |
| `PrintfParse.ParsedDirective` | intl/printf-parse.c:142-579 | in every format that is read: the text at the slice of a width is its digits or star, at that of a precision a point with digits or star, each right behind the parts before it, and the arguments are the positions named or the next number without one |
| `PrintfParse.UsesAre` | intl/printf-parse.c:265-578 | the arguments with their types are exactly those that the stored directives name |
| `PrintfParse.MaxIs` | intl/printf-parse.c:228-331 | the stored lengths are those of the longest width and the longest precision |
| `PrintfParse.AcceptableExactly` | intl/printf-parse.c:84-633 | acceptable formats are exactly literal text and well-formed directives whose arguments have one type each |
| `PrintfParse.ParsedIsSafe` | intl/vasnprintf.c:1897-1935 | after a successful parse the directives tile the format and no type abort() of the formatter is reached |
| `PrintfParse.AllSafe` | intl/vasnprintf.c:4628-4672 | width and precision arguments are ints, and every conversion finds an argument type it has a case for |
| `Gettext.PlaceBound` | intl/bindtextdom.c:95-107 | stopping the search at the first larger name misses no binding |
| `Gettext.PutBinds` | intl/bindtextdom.c:271-288 | replacing or inserting keeps the list strictly sorted and every other domain's binding |
| `Gettext.State.SetBindingValues` | intl/bindtextdom.c:75-313 | new list, results and counter for every combination of requests; the counter moves exactly if the list changed |
| `Gettext.SetBindingIs` | intl/bindtextdom.c:75-313 | a directory or codeset that is set is the domain's from then on, one that is not stays, a binding is made only to set something, and no other domain's binding changes |
| `Gettext.State.TextDomain` | intl/textdomain.c:64-120 | sets or queries the default domain; setting it moves the counter, and so invalidates the cache |
| `Gettext.TransCompareLaws` | intl/dcigettext.c:265-299 | the cache's comparison is zero exactly for equal keys, and antisymmetric |
| `Gettext.TransCompareTrans` | intl/dcigettext.c:265-299 | and transitive, as the search tree requires |
| `Gettext.SearchCatalogs` | intl/dcigettext.c:583-755 | the slow path's loops over bindings, locales, files and successors, for every list of locales; what they find, the next row says |
| `Gettext.InLocalesExactly` | intl/dcigettext.c:667-755 | for the elements of a colon separated list, however many colons stand between them: a translation is found if and only if it is the first that the files of an element have, no earlier file fails, no earlier element is C or POSIX or has the message, and elements with a slash are skipped in secure mode |
| `Gettext.LookupExactly` | intl/dcigettext.c:583-755 | a lookup finds a translation if and only if it stands so in the directory of the domain's binding, behind the working directory if that is relative, or in the default directory if there is no binding |
| `Gettext.AnswerIs` | intl/dcigettext.c:819-861 | the answer is the translation found, or its plural form; if there is none, the first message id, or for a plural with n other than 1 the second |
| `Gettext.Remember` | intl/dcigettext.c:752-822 | an entry stored with the present counter is what the slow path finds |
| `Gettext.State.Dcigettext` | intl/dcigettext.c:472-862 | whatever the cache holds, the answer is what the lists of locales and files say is found, and otherwise the message id by the Germanic rule |
| `Gettext.Run` | intl/dcigettext.c:472-862 | over every sequence of calls the answers are those of a program without a cache |
| `L10nFiles.PopCounts` | intl/l10nflist.c:154-164 | pop counts the bits of every number of sixteen bits |
| `L10nFiles.FallbacksExactly` | intl/l10nflist.c:296-330 | an entry falls back on exactly the dominated masks without both codesets, in each directory, and not on itself |
| `L10nFiles.BelowOrdered` | intl/l10nflist.c:304-308 | in decreasing order of the masks, strictly for each of distinct directories, so that no successor is repeated |
| `L10nFiles.FallbacksFit` | intl/l10nflist.c:269-274 | the successors and the null pointer fit into dirlist_count << pop(mask) plus slack |
| `L10nFiles.NameIs` | intl/l10nflist.c:205-239 | the name by the mask's bits: directories with colons and a slash, language, _territory, .codeset, .normalized codeset, @modifier, /file, in this order |
| `L10nFiles.DecidedIs` | intl/l10nflist.c:282-289 | no file is looked for under the name of a list of directories, or under one with both codesets |
| `L10nFiles.FallbackShorter` | intl/l10nflist.c:205-239 | a fallback's file name is shorter, so that the successor graph has no cycle |
| `L10nFiles.NotThere` | intl/l10nflist.c:243-259 | stopping the search at the first smaller name misses no entry |
| `L10nFiles.InsertOrdered` | intl/l10nflist.c:292-293 | inserting there keeps the pool strictly decreasing and complete |
| `L10nFiles.Pool.Make` | intl/l10nflist.c:169-334 | returns the entry of the name; no old entry changes; every entry made on the way is filled with exactly its fallbacks; the recursion ends |
| `L10nFiles.Pool.AddFallback` | intl/l10nflist.c:312-331 | every successor is written inside the allocated array |
| `Conversion.WordRoundTrip` | intl/dcigettext.c:1373-1388 | a length stored in a word is read back |
| `Conversion.ArenaCarve` | intl/dcigettext.c:1373-1381 | a string carved from the free rest is aligned and disjoint from all others, and the end of the rest stays where it is |
| `Conversion.ArenaRealloc` | intl/dcigettext.c:1318-1370 | enlarging the block during a conversion, in place or by moving it, keeps every string |
| `Conversion.Conversions.Convert` | intl/dcigettext.c:1236-1383 | ends with a block that is large enough; enters the one string |
| `Conversion.Conversions.Translate` | intl/dcigettext.c:1236-1390 | the bytes returned are the conversion, for ever: no later call moves or changes them |
| `Conversion.StringsDisjoint` | intl/dcigettext.c:1254-1383 | converted strings are pairwise disjoint, and disjoint from the free memory |

## Left out

- Memory exhaustion, the return codes of pthread and Win32 calls, and what is freed: every
  allocation succeeds, except that a failed event creation stays as a step of the hand-off
  lock (the polling loop).
- Decoding of floating-point numbers. e + n is exact.
- `Decimal.ConvertToDecimal`: where the NUL does not fit, the model stores none; the C code
  stores it behind the block.
- `Tsearch.Tsearch`: the node that malloc returns is a parameter.
- `Tdelete.Tdelete`: the two mirrored halves of the rebalancing are one text with a side
  parameter; every rotation case is proved for both sides.
- `__twalk` and `trecurse`, which only visit nodes.
- `CondRwLock.InvNext`: in a run only threads that hold the lock unlock it. The C code gives
  EINVAL if nobody holds it (the contract of `CondRwLock.RwLock.Unlock`) and does not notice
  if somebody else does. waiting_writers_count is unbounded; there cannot be 2^32 threads.
- `Once.InvNext`: started is unbounded for the same reason.
- `HandoffRwLock.InvNext`: in a run only threads that hold the lock unlock it; with nobody
  holding it, the C code gives EPERM (the contract of `HandoffRwLock.RwLock.UnlockSection`).
- Destruction of locks, the recursive locks, and the wrappers that only forward.
- `WaitQueue.CArrayWaitQueue.Add`: count, alloc and offset are unbounded.
- `PluralParse.ParseArgs.Yyparse`: stacks are unbounded (no reallocation, no YYMAXDEPTH),
  and expressions are values that need not be freed.
- Evaluation of plural formulas, which is a structural recursion.
- File opening, mmap, byte swapping, and the assembling of system dependent strings from
  their segments: `Catalog.Augment` starts from the strings.
- `Catalog.Augment`: 1 + nstrings + i is not bounded by 32 bits.
- `PrintfParse.DirectiveList.Parse`: the growth of the two arrays and its out-of-memory
  error; platforms other than the configuration above.
- `PrintfParse.ParseDirective`: the flags are kept as a set, not as a bit mask.
- The formatter itself, fetching the arguments, and `printf`.
- `Gettext.State.SetBindingValues`: _nl_msg_cat_cntr is unbounded; in C it is an int.
- `Gettext.SearchCatalogs`: the files of a locale, their contents, the locale of a category
  and the working directory are parameters that do not change.
- `Gettext.State.Dcigettext`: the search tree of known translations is a map; that a tree
  with a total order behaves so is the result about Tsearch. Choosing the plural form of a
  translation (plural_lookup) is a parameter.
- `L10nFiles.Pool.Make`: entries are named by their index in the order of creation, and the
  linked list is a sequence of such indices.
- Locale names, aliases, codeset normalisation, and the queries to the operating system.
- `Conversion.Conversions.Convert`: iconv is a function from a text to its bytes or to an
  error; the table of encodings is part of the slot.
