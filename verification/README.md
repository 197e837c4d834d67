# AK, verified

AK is the base library of a browser engine: containers, big integers, searching, sorting, bit streams and reference
counts. This project models the parts of it whose correctness rests on invariants that no single line shows, and proves
what their comments, names and callers promise, for all inputs and all runs.

What is modelled, and how:

- **Multi-word integers** (`AK/BigIntBase.h`). Words are numbers below a base b (b = 2^w where shifts are involved);
  storages are windows on word arrays, written in place, and a result may lie over an operand at the same offset.
  `Value` is the number an unsigned storage stands for, `Integer` the two's complement one. Knuth's algorithm D is
  proved down to its digit estimate.
- **Red-black tree** (`AK/RedBlackTree.h`). Nodes live in a memory of records with child and parent addresses (0 is
  null). A tree value with a focus (subtree and path to the root) says what the pointers spell. Mirror-image branches
  of the source are one branch over a side.
- **Ordered Robin Hood hash table** (`AK/HashTable.h`). Buckets are addressed by index; the scratch bucket that an
  insertion holds a displaced value in has the index after the last one, because the insertion-order list passes
  through it meanwhile. Stored values are compared and hashed by a key; the hash is an arbitrary function of it.
- **Circular buffer** (`AK/CircularBuffer.cpp`). A byte array with a ghost history of everything written. A copy between
  spans moves all its bytes at once, also when they overlap.
- **Substring search** (`AK/MemMem.h`), **in-place sorts** (`AK/QuickSort.h`, `AK/InsertionSort.h`), **bitmap scan**
  (`AK/BitmapView.h`), **intrusive heap** (`AK/BinaryHeap.h`): each is held against the naive notion it should agree with.
- **Bit streams** (`AK/BitStream.h`). Words are sequences of bits with the C++ operators on them.
- **Atomic reference count** (`AK/AtomicRefCounted.h`). A state machine whose steps are the atomic operations, taken by
  any number of threads in any order.

The files build on each other: `Arith`, `Bits`, `BitSeq`, `Basics` and `SortSpec` are shared vocabulary, the modules with
a component's full name hold the operations of the source, the others hold the lemmas about them, and `HashRun`, `RbRun`
and `CircularRun` hold whole components against plain sequences over arbitrary runs.

Four promises turned out to hold only under a condition, which is stated exactly:

- `copy_from_seekback` doubles its distance while it copies. When more is asked for than the buffer has room for, the
  doubled distance can pass the capacity and the check in `next_seekback_span` ends the program.
  `CircularCopy.Overshoots` is the exact condition on capacity, room, position, distance and length;
  `CircularBuffer.CircularBuffer.CopyFromSeekback` proves that the check fails if and only if it holds,
  `CircularCopy.FittingCopiesDoNotOvershoot` that it never holds for lengths up to the capacity, and
  `CircularRun.CopyToTheEdge` performs the runs on both sides of one edge of it.
- Refilling the bit reader ends exactly when whole bytes can reach the bits asked for or can exhaust the stream
  (`BitStream.Ends`); up to 57 bits that is always so. `BitStream.Input.Refill` proves that it then ends and what it
  gives; `BitStream.StuckForever` that otherwise no number of turns, whatever the stream gives in each, comes to a state
  that the loop could leave from; `BitStream.SomeRefillsAreStuck` shows such a state.
- Writing bits does not mask the value. `BitStream.Output.WriteBits` proves that the next value is written cleanly if and
  only if no bit from the count on stays in the buffer (`BitStream.Spills`), and what is written otherwise;
  `BitStream.SpilledBit` writes a zero that comes out as a one.
- `baseline_mul` multiplies two single words without their signs. `BigIntMul.BaselineMul` proves that its result is the
  product of the two integers for all signs and lengths, for two single words if and only if
  `BigIntSigned.SingleWordsRight`; `BigIntMul.MinusOneTimesOne` performs a product that goes wrong.

## Model

| member | source | states |
|---|---|---|
| `BigIntWords.AddWords` | AK/BigIntBase.h:188-228 | a word and a carry that together are exactly the sum of two words and a carry |
| `BigIntWords.SubWords` | AK/BigIntBase.h:230-270 | a word and a borrow that together are exactly the difference |
| `BigIntWords.ExtendValue` | AK/BigIntBase.h:181-186 | words continued with the sign fill stand for the same integer |
| `BigIntWords.RepresentableUnique` | AK/BigIntBase.h:466-470 | a multiple of the storage size is zero exactly when the integer fits the storage |
| `BigIntAdd.AddPrefixValue` | AK/BigIntBase.h:478-486 | after i words, the words stored and the carry are the exact sum or difference of the first i words |
| `BigIntAdd.AddMeetsContract` | AK/BigIntBase.h:462-492 | the return value r satisfies the documented equation and is zero iff nothing overflowed, for mixed signs and lengths |
| `BigIntAdd.Add` | AK/BigIntBase.h:462-492 | the documented contract of `add`, also when the result lies over an operand; nothing outside the result changes |
| `BigIntAdd.Negate` | AK/BigIntBase.h:515-526 | result and operand add up to zero modulo the storage size; returns whether the operand is non-zero |
| `BigIntAdd.Compare` | AK/BigIntBase.h:319-364 | the sign of the difference of the two integers, signed or unsigned, of any lengths; for inequality only zero or not |
| `BigIntShift.LeftShiftValue` | AK/BigIntBase.h:424-441 | the words of a left shift stand for the value times 2^shift modulo the storage size |
| `BigIntShift.ShiftLeftWords` | AK/BigIntBase.h:421-441 | the same of the in-place loops, for every shift below the size of the storage |
| `BigIntShift.RightShiftValue` | AK/BigIntBase.h:443-460 | the words of a right shift stand for the quotient by 2^shift |
| `BigIntShift.ShiftRightWords` | AK/BigIntBase.h:421-460 | the same of the in-place loops |
| `BigIntMul.ColumnsMakeProduct` | AK/BigIntBase.h:574-590 | the weighted columns of single-word products are the product, up to a multiple of b^n |
| `BigIntMul.ColumnBounds` | AK/BigIntBase.h:580-581 | the index range of a column misses no product that is not zero |
| `BigIntMul.Accumulate` | AK/BigIntBase.h:583-589 | one product is added exactly; the double-word carry does not wrap |
| `BigIntMul.NextColumn` | AK/BigIntBase.h:576-590 | the words stored so far and the carry are the columns so far, and the carry stays bounded |
| `BigIntMul.MulWords` | AK/BigIntBase.h:535-550 | the words stored stand for the product of the two words, plus the fill of the sign from the third word on |
| `BigIntSigned.SingleWordsExact` | AK/BigIntBase.h:535-550 | in two and more words that is the product of the integers if and only if neither is negative, both are the least one, or the result has two words and the other operand is zero |
| `BigIntMul.MulSingle` | AK/BigIntBase.h:535-550 | the one-word case stores the product of the integers if and only if the condition holds |
| `BigIntMul.MinusOneTimesOne` | AK/BigIntBase.h:535-550 | minus one times one, in single words, into two words does not give minus one |
| `BigIntSigned.LongOperands` | AK/BigIntBase.h:559-571 | operands at least as long as the result can be multiplied without their signs |
| `BigIntSigned.MagnitudesMultiply` | AK/BigIntBase.h:559-571 | the product of the normalized operands, negated when the signs differ, is the product of the integers |
| `BigIntMul.WithoutSign` | AK/BigIntBase.h:560-569 | the words multiplied stand for the operand without its sign |
| `BigIntMul.MulSigned` | AK/BigIntBase.h:557-593 | the product of the integers modulo the size of the result, for all signs |
| `BigIntMul.BaselineMul` | AK/BigIntBase.h:528-594 | the product of the integers modulo the size of the result, signed or unsigned, in either order of length; for two single words if and only if the condition holds; for unsigned operands always |
| `BigIntDiv.CountLeadingZeroes` | AK/BigIntBase.h:607 | the shift that brings a word to at least half the base |
| `BigIntDiv.DivModWords` | AK/BigIntBase.h:284-292 | quotient and remainder of a double word, when the quotient fits |
| `BigIntDiv.TooLargeTest` | AK/BigIntBase.h:623-625 | the test on three dividend words and two divisor words is the test on their values |
| `BigIntDiv.TwoTooLarge` | AK/BigIntBase.h:620-632 | the quotient by the top word alone is at most two too large for a normalized divisor |
| `BigIntDiv.NeverTooSmall` | AK/BigIntBase.h:620-632 | and never too small |
| `BigIntDiv.CorrectDigit` | AK/BigIntBase.h:623-632 | after the corrections the digit is the quotient of the heads |
| `BigIntDiv.TrialDigit` | AK/BigIntBase.h:614-633 | qhat: the largest word when the top words agree, otherwise the quotient of the heads |
| `BigIntDiv.SmallerTopIsGood` | AK/BigIntBase.h:614-633 | the corrected qhat is never below the true digit of the window and at most one above it |
| `BigIntDiv.EqualTopIsGood` | AK/BigIntBase.h:617-618 | so is the uncorrected qhat when the top words agree |
| `BigIntDiv.MultiplySubtract` | AK/BigIntBase.h:635-644 | the window loses qhat times the divisor, up to a borrow of one window size |
| `BigIntDiv.AddBack` | AK/BigIntBase.h:646-653 | after a borrow one add-back overflows by exactly one, so the second check cannot fail, and leaves the remainder |
| `BigIntDiv.EstimateDigit` | AK/BigIntBase.h:614-633 | the first check cannot fail, and qhat is at most one too large |
| `BigIntDiv.DivideWindow` | AK/BigIntBase.h:613-653 | one digit: the old window is digit times divisor plus the new window, which is below the divisor |
| `BigIntDiv.DivideDigits` | AK/BigIntBase.h:612-654 | all digits from the top down, for every length |
| `BigIntDiv.DivModInternal` | AK/BigIntBase.h:596-662 | quotient and remainder of the values the operands stood for, for all lengths the function accepts |
| `RbRotation.RotatedEntries` | AK/RedBlackTree.h:52-104 | a rotation keeps the in-order sequence |
| `RbRotation.RotatedAt` | AK/RedBlackTree.h:52-104 | the pointer updates of a rotation spell the rotated tree at the same place |
| `RedBlackTree.BaseRedBlackTree.RotatePointers` | AK/RedBlackTree.h:52-104 | exactly the pointers that change, and the root |
| `RedBlackTree.BaseRedBlackTree.Rotate` | AK/RedBlackTree.h:52-104 | rotation of the subtree in focus; child and parent links stay consistent |
| `RbInsert.RecoloredState` | AK/RedBlackTree.h:190-195 | a red uncle: recolouring moves the only possible violation two levels up |
| `RbInsert.UnbentState` | AK/RedBlackTree.h:197-200 | an inner grandchild: the rotation keeps the state of the loop |
| `RbInsert.StraightenedState` | AK/RedBlackTree.h:201-203 | an outer grandchild: the recolouring and rotation remove the violation |
| `RbInsert.NewMinimum` | AK/RedBlackTree.h:179-181 | after the fixups, the old minimum has the new node as left child exactly when the new node is first in order |
| `RedBlackTree.BaseRedBlackTree.InsertFixup` | AK/RedBlackTree.h:187-222 | one turn of the loop keeps its state and shortens the path to the root |
| `RedBlackTree.BaseRedBlackTree.InsertFixups` | AK/RedBlackTree.h:184-224 | the loop ends with a red-black tree with a black root and the same entries |
| `RedBlackTree.BaseRedBlackTree.FindPlace` | AK/RedBlackTree.h:154-162 | the descent ends at the gap after all keys up to the new one, in at most 2 log2(n + 1) steps |
| `RedBlackTree.BaseRedBlackTree.Insert` | AK/RedBlackTree.h:151-182 | all invariants kept; the entries are the old ones with the node after every key up to its own; size and minimum right |
| `RbRemove.LoweredState` | AK/RedBlackTree.h:312-317 | a red sibling: after the rotation the sibling is black and the state is kept |
| `RbRemove.PushedState` | AK/RedBlackTree.h:318-320 | a black sibling without red children: the missing black node moves up one level |
| `RbRemove.TurnedState` | AK/RedBlackTree.h:322-327 | a red near nephew becomes a red far nephew |
| `RbRemove.SettledState` | AK/RedBlackTree.h:328-332 | a red far nephew: the tree is red-black again |
| `RedBlackTree.BaseRedBlackTree.RemoveFixup` | AK/RedBlackTree.h:309-359 | one turn of the loop keeps its state and lowers a measure; no null dereference |
| `RedBlackTree.BaseRedBlackTree.RemoveFixups` | AK/RedBlackTree.h:307-362 | the loop ends with a red-black tree with a black root and the same entries |
| `RbRelink.SpineEntries` | AK/RedBlackTree.h:367-371 | the successor is the end of the left spine of the right subtree, first among its entries |
| `RbRelink.ExchangedAt` | AK/RedBlackTree.h:244-284 | the relinking spells the tree in which node and successor have traded places and colours |
| `RbUnlink.ExchangeWithin` | AK/RedBlackTree.h:244-284 | the exchange keeps the red-black conditions |
| `RbUnlink.ExchangeEntries` | AK/RedBlackTree.h:244-284 | with the node left out, the exchange has moved no entry |
| `RbUnlink.UnlinkedState` | AK/RedBlackTree.h:286-302 | a red node leaves a red-black tree, a black one leaves its place one black node short |
| `RbUnlink.MinimumWithout` | AK/RedBlackTree.h:237-238 | the new minimum is the successor when the old one goes, otherwise unchanged |
| `RedBlackTree.BaseRedBlackTree.RelinkNeighbour` | AK/RedBlackTree.h:244-284 | the pointers after the relinking with a successor that is the right child |
| `RedBlackTree.BaseRedBlackTree.RelinkFar` | AK/RedBlackTree.h:244-284 | the pointers after the relinking with a successor further down |
| `RedBlackTree.BaseRedBlackTree.Relink` | AK/RedBlackTree.h:243-284 | the node is where its successor was, with at most one child |
| `RedBlackTree.BaseRedBlackTree.Unlink` | AK/RedBlackTree.h:286-297 | the node's only child, if any, takes its place |
| `RedBlackTree.BaseRedBlackTree.Remove` | AK/RedBlackTree.h:226-304 | all invariants kept; the entries are the old ones without exactly that node; size and minimum right |
| `RedBlackTree.BaseRedBlackTree.Successor` | AK/RedBlackTree.h:364-379 | the next entry in order, null after the last |
| `RedBlackTree.BaseRedBlackTree.Predecessor` | AK/RedBlackTree.h:381-396 | the previous entry in order, null before the first |
| `RedBlackTree.BaseRedBlackTree.Find` | AK/RedBlackTree.h:106-116 | a node with the key, null exactly when there is none; of several the topmost; in at most 2 log2(n + 1) steps |
| `RedBlackTree.BaseRedBlackTree.FindClosest` | AK/RedBlackTree.h:118-149 | the closest key on either side: the topmost node with the key, or the entry next in order to the gap where the key would be, also among equal keys; in at most 2 log2(n + 1) steps |
| `RbRun.InsertKey` | AK/RedBlackTree.h:488-495 | the keys in order are the old ones with the new key sorted in, its node after those with equal keys |
| `RbRun.RemoveKey` | AK/RedBlackTree.h:546-559 | the keys in order lose one occurrence of the key, if there is one, and its topmost node is the one that goes |
| `RbRun.InOrder` | AK/RedBlackTree.h:408-416 | iterating from the cached minimum by successors visits every entry once, in order |
| `RbRun.Run` | AK/RedBlackTree.h:151-379 | after any run of inserts and removes the tree reads as the sorted sequence of the keys left |
| `RbBalance.HeightBound` | AK/RedBlackTree.h:151-357 | no path is longer than twice the black height, one more below a red root |
| `RbBalance.SizeBound` | AK/RedBlackTree.h:151-357 | a tree of black height h has at least 2^h - 1 entries |
| `RbBalance.Balanced` | AK/RedBlackTree.h:151-357 | no path of a valid tree of n entries is longer than 2 log2(n + 1) |
| `HashBuckets.RenamedChain` | AK/HashTable.h:692-719 | a list whose links are renamed by a transposition visits the renamed addresses, forwards and backwards |
| `HashBuckets.BothPointedBack` | AK/HashTable.h:703-717 | the link updates complete the renaming, adjacent list neighbours included |
| `HashBuckets.AppendedChain` | AK/HashTable.h:681-691 | a new bucket is visited last |
| `HashBuckets.UnlinkedChain` | AK/HashTable.h:820-831 | an unlinked bucket is visited no more, all others in the same order |
| `HashBuckets.MovedChain` | AK/HashTable.h:838-849 | a bucket moved to a free place keeps its place in the list |
| `HashTable.HashTable.SwapLinks` | AK/HashTable.h:692-719 | the list visits the swapped addresses in the same order; nothing but links changes |
| `HashTable.HashTable.AppendBucket` | AK/HashTable.h:681-691 | the list visits the bucket last |
| `HashTable.HashTable.UnlinkBucket` | AK/HashTable.h:820-831 | the list skips the bucket, whose links are null |
| `HashProbe.DecodedIsProbe` | AK/HashTable.h:648-671 | the saturating state byte decodes to the true probe length |
| `HashProbe.Run` | AK/HashTable.h:743-746 | every bucket from a value's ideal place to its own is used, by a value at least as far from its place |
| `HashProbe.StopIsSound` | AK/HashTable.h:726-746 | stopping at a free bucket, or at one richer than the search, misses no equal value |
| `HashProbe.Place` | AK/HashTable.h:727-756 | a value put into a free bucket or over a richer one keeps the Robin Hood invariant |
| `HashProbe.ShiftHole` | AK/HashTable.h:863-874 | shifting a value back by one keeps the invariant around the hole |
| `HashProbe.CloseHole` | AK/HashTable.h:860-865 | the hole may be closed before a free bucket or one in its ideal place |
| `HashState.Stolen` | AK/HashTable.h:746-759 | a displaced value is held, the new one stored and listed last, every invariant kept |
| `HashState.HeldSwapped` | AK/HashTable.h:775-781 | the held value and a richer one trade places, every invariant kept |
| `HashState.HeldPlaced` | AK/HashTable.h:768-773 | the held value goes to a free bucket, every invariant kept |
| `HashState.HoleShifted` | AK/HashTable.h:867-878 | one backward shift keeps contents, order and invariants |
| `HashState.FreeBucket` | AK/HashTable.h:578 | with fewer values than buckets one is free, so every probe ends |
| `HashState.NoDuplicates` | AK/HashTable.h:735-741 | no two equal values are stored |
| `HashTable.HashTable.ProbeForWriting` | AK/HashTable.h:721-791 | the bucket of an equal value, or the bucket a new one may take, with the value absent |
| `HashTable.HashTable.InsertFree` | AK/HashTable.h:726-733 | the value is appended to the contents |
| `HashTable.HashTable.Steal` | AK/HashTable.h:746-759 | the value is appended to the contents, another one is held |
| `HashTable.HashTable.Displace` | AK/HashTable.h:761-782 | the displacement loop ends and changes no content |
| `HashTable.HashTable.WriteValue` | AK/HashTable.h:678-812 | set on a sequence: kept or replaced in place if an equal value is there, otherwise appended |
| `HashTable.HashTable.ShiftBack` | AK/HashTable.h:867-874 | the bucket moved and its list neighbours updated |
| `HashTable.HashTable.DeleteBucket` | AK/HashTable.h:814-882 | exactly that value goes; every other is in place or one bucket back; invariants kept |
| `HashTable.HashTable.Lookup` | AK/HashTable.h:630-646 | finds the bucket of a key iff it is stored |
| `HashTable.HashTable.Contains` | AK/HashTable.h:272-275 | membership in the contents |
| `HashTable.HashTable.Remove` | AK/HashTable.h:482-490 | removes the value of the key iff it is stored; the capacity stays |
| `HashTable.HashTable.TakeFirst` | AK/HashTable.h:559-566 | the oldest value; the capacity stays |
| `HashTable.HashTable.TakeLast` | AK/HashTable.h:550-557 | the newest value; the capacity stays |
| `HashState.ScannedStays` | AK/HashTable.h:516-527 | a deletion moves no unscanned value before the scanning index, not even across the last bucket |
| `HashTable.HashTable.RemoveAllMatching` | AK/HashTable.h:512-529 | exactly the matching values go, the others stay in order, the scan ends; says whether anything went; the capacity stays |
| `HashTable.HashTable.Rehash` | AK/HashTable.h:593-624 | the same values in the same order in a table of the new capacity |
| `HashTable.HashTable.Set` | AK/HashTable.h:381-388 | `WriteValue`, growing first when the load asks for it; the capacity stays while (size + 1) * 100 < capacity * 80, otherwise it grows by 60 percent or 8, whichever is more, plus the rounding |
| `HashTable.HashTable.EnsureCapacity` | AK/HashTable.h:256-266 | nothing but the capacity changes: it stays if it is large enough for that many values, otherwise it becomes the one computed for them or 8 more, whichever is more, plus the rounding |
| `HashRun.FillUpTo` | AK/HashTable.h:256-265 | after the request, no run of sets that begins each of them with fewer than that many values allocates again, whatever values repeat |
| `HashTable.HashTable.ClearWithCapacity` | AK/HashTable.h:366-379 | empty, with the same capacity |
| `HashTable.HashTable.Forwards` | AK/HashTable.h:75-94 | following `next` from the head gives the contents in first-insertion order |
| `HashTable.HashTable.Backwards` | AK/HashTable.h:96-112 | following `previous` from the tail gives their reverse |
| `HashRun.WrittenIsSetIn` | AK/HashTable.h:792-812 | writing a value is setting it in a plain sequence |
| `HashRun.Run` | AK/HashTable.h:381-882 | any run of sets, lookups, removals by value, by predicate and from either end, capacity changes and clears answers as a plain sequence does, and then iterates as that sequence forwards and as its reverse backwards |
| `CircularBuffer.HoldsWritten` | AK/CircularBuffer.cpp:147-161 | a run of bytes written at the head keeps the last bytes of the history in the buffer |
| `CircularBuffer.CircularBuffer.Write` | AK/CircularBuffer.cpp:143-164 | appends as many bytes as fit; what does not go to the first span is read after that span was written, which for a source on one side of the write head or outside the buffer changes nothing |
| `CircularBuffer.TakenApart` | AK/CircularBuffer.cpp:143-164 | such a source is taken as it is |
| `CircularBuffer.PositionMoves` | AK/CircularBuffer.cpp:98-103 | the write head is the number of bytes written, modulo the capacity |
| `CircularBuffer.CircularBuffer.Read` | AK/CircularBuffer.cpp:166-187 | the oldest unread bytes, as many as fit; the rest stays unread |
| `CircularBuffer.CircularBuffer.Discard` | AK/CircularBuffer.cpp:210-219 | drops the oldest unread bytes and moves the reading head past them; an error that changes nothing when there are too few |
| `CircularBuffer.CircularBuffer.Clear` | AK/CircularBuffer.cpp:91-96 | empty history, reading head at the start |
| `CircularBuffer.CircularBuffer.NextSeekbackSpan` | AK/CircularBuffer.cpp:121-130 | the span that starts the given distance before the write head, up to the end of the buffer |
| `CircularBuffer.CircularBuffer.ReadWithSeekback` | AK/CircularBuffer.cpp:189-208 | the bytes of the history from the given distance on, for every distance up to the limit; an error beyond |
| `CircularCopy.Echo` | AK/CircularBuffer.cpp:270-273 | far enough into the copy, the byte at the doubled distance is the byte at the distance asked for |
| `CircularCopy.ChunkCopied` | AK/CircularBuffer.cpp:263-268 | a chunk copied at the doubled distance continues the byte-at-a-time back-reference |
| `CircularCopy.CopyTurn` | AK/CircularBuffer.cpp:259-274 | how distance, progress and look-back position develop, with one possible split at the end of the buffer |
| `CircularCopy.RunCopyOutcome` | AK/CircularBuffer.cpp:253-277 | the loop fails its check exactly when the copy overshoots, otherwise it copies as much as fits |
| `CircularCopy.OvershootsInNumbers` | AK/CircularBuffer.cpp:259-274 | the copy overshoots exactly if there is room beyond the bytes copied when the look-back would be twice the last distance within the capacity, and more than that distance is still asked for |
| `CircularCopy.LastDoubling` | AK/CircularBuffer.cpp:259-274 | every distance within the capacity has a last doubling within it, so the condition in numbers always speaks of some doubling |
| `CircularCopy.FittingCopiesDoNotOvershoot` | AK/CircularBuffer.cpp:121-130 | lengths up to the capacity never fail the check |
| `CircularBuffer.CircularBuffer.CopyPiece` | AK/CircularBuffer.cpp:263-267 | one look-back span written behind itself, without being overwritten before it is read |
| `CircularBuffer.CircularBuffer.CopyFromSeekback` | AK/CircularBuffer.cpp:253-277 | the byte-at-a-time back-reference; the error beyond the limit; the check fails iff the copy overshoots, also in plain numbers of bytes written, room, distance and length; a length that fits is copied in full |
| `CircularRun.CopyToTheEdge` | AK/CircularBuffer.cpp:121-277 | ten bytes written to a new buffer of ten and discarded, then any number copied from six bytes back: up to twelve give as many as fit, more fail the check |
| `CircularRun.CopyThatStops` | AK/CircularBuffer.cpp:121-277 | the same with 12 bytes gives 10, with 13 the check fails |
| `CircularRun.Run` | AK/CircularBuffer.cpp:91-277 | any run of writes, reads, discards, look-backs, copies and clears answers as a plain history of bytes does, up to a copy that ends the program |
| `MemMem.BorderOfBorder` | AK/MemMem.h:51-72 | shorter borders of a prefix are the borders of its border |
| `MemMem.PrepareTable` | AK/MemMem.h:51-72 | each entry is the longest border followed by another byte, or -1 |
| `MemMem.FallBack` | AK/MemMem.h:64-66 | the longest border that the next byte continues |
| `MemMem.PartialBack` | AK/MemMem.h:95-100 | falling back by the table skips no occurrence |
| `MemMem.Advance` | AK/MemMem.h:87-100 | one comparison keeps the partial match and lowers the amortised measure |
| `MemMem.SearchChunks` | AK/MemMem.h:47-104 | the first occurrence in the concatenation of the chunks, none exactly when there is none |
| `Bitap.PrepareMasks` | AK/MemMem.h:25-32 | bit j of a byte's mask is clear exactly where the needle has that byte |
| `Bitap.BitapTurn` | AK/MemMem.h:34-40 | clear bits are matching prefixes, and the bit looked at is clear exactly when an occurrence ends |
| `Bitap.BitapBitwise` | AK/MemMem.h:19-43 | the first occurrence, for needles of 1 to 31 bytes |
| `Bitap.MemmemOptional` | AK/MemMem.h:106-130 | the first occurrence for every haystack and needle, the empty one included |
| `BitStream.LsbMask` | AK/BitStream.h:134-141 | the mask of the lowest bits |
| `BitStream.Output.FlushBuffer` | AK/BitStream.h:406-422 | moves all whole bytes, changes nothing written |
| `BitStream.Output.WriteBits` | AK/BitStream.h:381-404 | appends the given bits over what had spilled before, and leaves exactly the bits beyond that stay in the buffer; a full buffer reaches the stream at once; with a clean buffer it appends the bits as they are, and the buffer stays clean iff no bit of the value spills |
| `BitStream.ClearUnlessSpilled` | AK/BitStream.h:399-401 | nothing remains beyond the end of what is written exactly when nothing spills |
| `BitStream.SpilledBit` | AK/BitStream.h:381-404 | the value 3 written in one bit and 0 in the next give two ones |
| `BitStream.Output.AlignToByteBoundary` | AK/BitStream.h:443-449 | appends zeros to a whole byte, over what had spilled |
| `BitStream.ReachIsEnough` | AK/BitStream.h:251-274 | 57 bits can always be collected |
| `BitStream.StuckTurn` | AK/BitStream.h:253-271 | where neither the bits asked for nor the end of the stream can be reached, any turn leads to such a state again |
| `BitStream.StuckForever` | AK/BitStream.h:253-271 | so no run of turns, with any reads, ever comes to a state that the loop could leave from |
| `BitStream.SomeRefillsAreStuck` | AK/BitStream.h:253-271 | sixty bits collected, one byte left and 64 bits asked for: the next turn leads from that state to itself |
| `BitStream.Input.ReadSome` | AK/BitStream.h:263-270 | one read of any size moves bytes from the stream to the buffer and changes nothing pending; it is a turn as the stuck runs take them |
| `BitStream.Input.Refill` | AK/BitStream.h:251-274 | whenever the bits asked for or the end of the stream can be reached, it ends and collects the bits, or fills up with zeros, or fails exactly when the stream is too short |
| `BitStream.Input.PeekBits` | AK/BitStream.h:216-223 | the next bits as a word, under the same condition; nothing is read while the buffer holds enough |
| `BitStream.Input.Discard` | AK/BitStream.h:225-234 | drops as many of them as there are |
| `BitStream.Input.AlignToByteBoundary` | AK/BitStream.h:238-248 | drops and returns the rest of a byte read in part |
| `BitStream.Input.ReadBits` | AK/BitStream.h:207-214 | the next bits as a word, and drops them, under the same condition |
| `BitStream.RoundTrip` | AK/BitStream.h:207-449 | values of up to 57 bits that are written, aligned and flushed are read back, however the stream chops its reads |
| `Sorting.InsertionSort` | AK/InsertionSort.h:14-23 | the range sorted and rearranged, nothing else touched, equivalent elements in the order they had, for every strict weak order |
| `SortSpec.AlikeSwapped` | AK/InsertionSort.h:20-21 | exchanging neighbours in the wrong order moves no element past an equivalent one |
| `Partition.TakeLarger` | AK/QuickSort.h:64-69 | an exchange of a larger element keeps the three regions |
| `Partition.TakeLast` | AK/QuickSort.h:64-74 | the exchange with itself at the end of the scan keeps them, and the second test fails |
| `Partition.PivotsPlaced` | AK/QuickSort.h:77-81 | with the pivots placed, earlier parts are at most later ones |
| `Partition.PartsSorted` | AK/QuickSort.h:90-103 | with two parts sorted only the third is left |
| `Sorting.ChoosePivots` | AK/QuickSort.h:37-51 | the two elements a third from either end, or the ends of up to three elements, are brought to the ends in order |
| `Sorting.DualPartition` | AK/QuickSort.h:53-81 | the range rearranged into three parts around the pivots |
| `Sorting.QuickSortTurn` | AK/QuickSort.h:36-104 | one turn sorts everything but the largest part |
| `Sorting.DualPivotQuickSort` | AK/QuickSort.h:28-105 | the range sorted and rearranged; the recursion goes at most `depth` levels deep for fewer than 2^depth elements; up to seven elements keep the order of equivalent ones |
| `Sorting.SinglePartition` | AK/QuickSort.h:115-128 | the range rearranged around the pivot |
| `Sorting.SinglePivotQuickSort` | AK/QuickSort.h:107-139 | the same, with the logarithmic depth that its comment promises |
| `Sorting.QuickSort` | AK/QuickSort.h:153-164 | a whole collection sorted and permuted, in logarithmic depth; up to seven elements keep the order of equivalent ones |
| `Bitmap.RunEnds` | AK/BitmapView.h:220-228 | set bits after a short run rule out every fit that starts before them |
| `Bitmap.ScanBits` | AK/BitmapView.h:257-275 | clear bits, then set ones, inside a word |
| `Bitmap.ScanBucket` | AK/BitmapView.h:219-277 | one word: full, empty or mixed |
| `Bitmap.ScanTail` | AK/BitmapView.h:279-293 | the bits after the last whole word |
| `Bitmap.FindFirstFit` | AK/BitmapView.h:202-332 | the least start of a run of clear bits of that length, none exactly when there is none |
| `AtomicRefCounted.StepInv` | AK/AtomicRefCounted.h:25-80 | every atomic step of every thread keeps the invariant |
| `AtomicRefCounted.CountIsLiveReferences` | AK/AtomicRefCounted.h:25-80 | in every run the count is the number of live references, and the object is destroyed at most once, with none left |
| `AtomicRefCounted.AbortsOnlyAtMaximum` | AK/AtomicRefCounted.h:25-42 | the checks fail only after the number of references has been the largest possible |
| `AtomicRefCounted.ZeroIsForever` | AK/AtomicRefCounted.h:32-42 | after zero no `try_ref` succeeds |
| `AtomicRefCounted.FailsOnlyAtZero` | AK/AtomicRefCounted.h:32-42 | in every run `try_ref` returns false only when no reference is left |
| `AtomicRefCounted.TryReturns` | AK/AtomicRefCounted.h:32-42 | a thread leaves `try_ref` with false and no reference left, or with true and exactly one more reference, its own |
| `AtomicRefCounted.TrySucceeds` | AK/AtomicRefCounted.h:37-40 | with a live reference, room for another and the count just read, the exchange is the only step and succeeds |
| `AtomicRefCounted.RetriesOnlyAfterChange` | AK/AtomicRefCounted.h:35-41 | an exchange fails only if another thread has changed the count since it was read, and goes on with the count it found |
| `AtomicRefCounted.TryGoesOn` | AK/AtomicRefCounted.h:35-41 | a call of `try_ref` always has a next step, however old its count |
| `AtomicRefCounted.DestroyedByLastUnref` | AK/AtomicRefCounted.h:51-80 | the thread that destroys is the one whose `unref` dropped the last reference, and the destructor's check holds |
| `AtomicRefCounted.DestroyedInTheEnd` | AK/AtomicRefCounted.h:66-80 | with no reference left and every call returned, the object has been destroyed, once |
| `BinaryHeap.RootIsLeast` | AK/BinaryHeap.h:58-66 | the first item of a heap is a least one |
| `BinaryHeap.Lift` | AK/BinaryHeap.h:48-51 | lifting a node past its parent without comparing keeps heap order around it |
| `BinaryHeap.Sink` | AK/BinaryHeap.h:104-113 | exchanging with the smaller child moves the only violation down |
| `BinaryHeap.IntrusiveBinaryHeap.Heapify` | AK/BinaryHeap.h:22-27 | heap order for any input, with the same items |
| `BinaryHeap.IntrusiveBinaryHeap.Insert` | AK/BinaryHeap.h:32-44 | heap order, one item more, below a parent that is less or at the root, recorded indices right if they were |
| `BinaryHeap.IntrusiveBinaryHeap.Pop` | AK/BinaryHeap.h:46-56 | exactly the node at that index, one item less, heap order, recorded indices right if they were |
| `BinaryHeap.IntrusiveBinaryHeap.PopMin` | AK/BinaryHeap.h:58-61 | the first node, a least item; one item less, heap order, recorded indices right if they were |
| `BinaryHeap.IntrusiveBinaryHeap.HeapifyUp` | AK/BinaryHeap.h:91-100 | restores heap order from one rising node, which stops at the root or below a parent that is less |
| `BinaryHeap.IntrusiveBinaryHeap.HeapifyDown` | AK/BinaryHeap.h:102-114 | restores heap order from one sinking node, which stops where it is less than its children |

## Left out

- BigIntMul.BaselineMul: where the product of two signed single words overflows a signed double word, which the source leaves undefined, the model wraps it.
- `compute_bitwise`, `increment`, `copy` and `set` of `StorageOperations`: one-loop members beside the arithmetic above.
- The unordered hash table, whose iteration follows the buckets: same probing, no list. `take_all_matching`, copying, moving and `swap` of tables.
- HashTable.HashTable.WriteValue: the search of `lookup_for_writing` and the write of the value that its callers do next are one step, so the moment at which a new bucket still holds its old bytes is not modelled.
- Memory allocation: the rounding of the allocator is the parameter `slack`, running out of memory is not modelled, and nodes of the tree get fresh addresses.
- RedBlackTree.BaseRedBlackTree.Insert: takes fresh red nodes without links, as the source does; inserting a removed node again is not modelled.
- `create_initialized`, `offset_of`, `fill_from_stream`, `flush_to_stream` and the searchable circular buffer with its hash chains.
- CircularBuffer.CircularBuffer.constructor: takes a positive size; looking back into or discarding from a buffer of size zero would divide by zero.
- BitStream.Output.WriteBits: takes counts up to the width of the value's type, beyond which the shifts of the source are not defined.
- BitStream.Input.ReadBits: takes a count of 64 only where the stream is too short for it, since the shift that would discard 64 bits is not defined; where the refill does not end there is no result to state.
- The big-endian bit streams, and whole-byte reads and writes through the bit streams.
- Bitmap.FindFirstFit: is the range search from the first bit with equal minimum and maximum; other starts, the longest range and the best fit are not modelled.
- AtomicRefCounted.StepInv: steps are sequentially consistent; the memory orders of the source are not modelled.
- BinaryHeap.IntrusiveBinaryHeap.Heapify: says nothing of recorded indices, which the bulk constructor sets only for nodes it moves.
- Iterators as objects, formatting, error strings and everything else of AK.
