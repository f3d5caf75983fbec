# Verified models of seven components

Dafny 4.11 models of code in this repository whose correctness needs an invariant of a whole structure or a whole run:

| component | source | modules |
|---|---|---|
| red-black tree | nitro_libuv/libuv/include/tree.h | RbShape, RbRotate, RbFix, RbShort, RbSearch, RbSplice, RbHeight, RbWalk, RbTree |
| splay tree | nitro_libuv/libuv/include/tree.h | SplayShape, SplayStep, SplayOrder, SplaySpec, SplayTree, Amortisation, SplayCost, SplayRuns |
| binary heap of pointers | nitro_libuv/libuv/src/heap-inl.h | HeapShape, HeapOrder, HeapPath, Heap |
| C and C++ token unifier | nitro_cloud/swigwin/CCache/unify.c | UnifyText, UnifyScan, UnifyLongest, UnifyTokens, UnifyLaws, Unify, UnifyHash |
| streaming MD4 | nitro_cloud/swigwin/CCache/mdfour.c | Bytes, Blocks, BlocksRuns, Padding, PaddedRuns, Md4Spec, Md4, Md4Vector |
| file poller | nitro_libuv/libuv/src/fs-poll.c | FsTrace, FsWorld, FsSafety, FsTiming, FsPoll |
| cache eviction | nitro_cloud/swigwin/CCache/cleanup.c | CleanupOrder, Cleanup, CleanupLaws |
| row file | nitro_nanomsg/include/serializer.h, row.h | RowFormat, RowFile, RowBytes |

`dafny verify dfyconfig.toml` checks everything. Order.dfy holds what several components share.

## How the models are built

- Trees and heap are classes over nodes with the fields of the source. A ghost value (a tree, or the array of heap slots)
  says what the links stand for. The heap is read through one map from nodes to their fields, so that each method states
  which fields it writes, and pure lemmas over such maps say what those writes do to the ghost value. A position inside a
  red-black tree is a zipper: the subtree and the path above it.
- The keys and the comparison are parameters. A tree demands a total preorder, the heap a strict weak order.
- A name that ends in L or Left is the case of a left child, and R or Right its mirror image, as in the source.
- Splaying is also written as a recursion (`SplaySpec`); the loop is proved to compute it, and its cost is proved of it. The
  potential of a tree is the product of the sizes of its subtrees, so that no logarithm is needed.
- unify.c: `UnifyScan.Step` is one round of the scanner and `UnifyScan.Unify` the text it pushes; the class `Unifier` runs the
  loops of the source against them. Characters are `char` values below 256.
- mdfour.c: the stream is generic in the hash of a block (`Blocks`); `Md4Spec` is RFC 1320; the class `Mdfour` refines the
  stream. Registers are 32-bit words; the byte count is kept modulo 2^32.
- fs-poll.c: `FsWorld` is a state machine over the handles and all contexts ever made, with a log; each function of the
  source is proved to be one of its steps, and `FsSafety` proves what holds over every run. The steps of a run may
  interleave in any order that the states of timers and requests allow: a step does not ask whether its context is freed,
  that is proved. What the user does inside the callback is a parameter of `PollCb`.
- cleanup.c: qsort is an insertion sort by files_compare (any other sort gives the same, by `CleanupOrder.SortUnique`);
  which unlinks fail is a parameter. The files are taken from a list of directory entries.
- serializer.h: a C stream is its bytes and its position. Integers are those of a 64-bit little-endian machine. A row is its
  bytes; `char` is signed, so that the byte 0xFF equals EOF.
- Definitions that the code and its specification share are also pinned from outside, in terms that use none of them:
  `UnifyTokens` by character codes, `Md4Vector` by a test vector of RFC 1320, `FsTiming` by the clock of a run, `CleanupLaws`
  by the limits, names and sizes, and `RowBytes` by byte values.

## Where the code departs from what one expects

- The operator list has ":" before ":>", so ":>" is never matched (unify.c:36-41): `UnifyLongest.ColonWins`. For every other
  text the first match is the longest: `UnifyLongest.LongestOperator`.
- SPLAY_REMOVE returns its argument (tree.h:204): that is the node that left if and only if the argument was stored, and not
  when it was only a probe with an equal key (`SplayTree.SplayTree.Remove`).
- In heap_remove the test `child == heap->min` is never true: `*max = NULL` has already cleared heap->min when the root
  goes (heap-inl.h:185-191). `Heap.Heap.RemoveSlot` asserts it.
- A finished MD4 stream keeps its waiting bytes: data hashed after the end, as in unify mode, hashes them again
  (mdfour.c:147-150). `Md4.StreamIsMd4`, about RFC 1320, is for one NULL at the end; `PaddedRuns.Exactly` shows that no other
  run hashes what RFC 1320 asks for, in unify mode never (`PaddedRuns.UnifyModeIsNotPadded`). `BlocksRuns.RunHashes` says what
  any run hashes, and `BlocksRuns.UnifyMode` spells it out for that mode.
- The MD4 length field has only 32 bits (mdfour.c:122): `Padding.TailIsPadding` says exactly when that is right, and
  `Padding.TailIsNotPadding` gives the shortest length for which it is not.
- When uv_fs_poll_start cannot queue the stat it frees the context, whose timer uv_timer_init has already put into the
  handle queue of the loop (fs-poll.c:80-96, uv-common.h:208-213): it stays there. `FsSafety.QueueInEveryRun` says exactly
  when the queue holds a freed timer, `FsSafety.FailedStart` is the shortest run.
- A limit of one file or one kilobyte is no limit (`Cleanup.LimitOfOne`), and a failed unlink makes the file count too
  small (`Cleanup.CountExact`).
- Row::Read stops at the byte 0xFF (row.h:33-45), keeps the newline and appends a zero byte; row numbers wrap at 65536
  (serializer.h:156), and an offset of 2^63 or more is not followed, because fseek takes a long (serializer.h:115-120).

## Model

| member | source | states |
|---|---|---|
| RbTree.RbTree.constructor | nitro_libuv/libuv/include/tree.h:306-308 | RB_INIT gives a valid tree with no elements. |
| RbTree.RbTree.RotateLeft | nitro_libuv/libuv/include/tree.h:342-360 | Which links a left rotation writes (child, parent, and the link from above or the root), and that it writes no others. |
| RbTree.RbTree.RotateRight | nitro_libuv/libuv/include/tree.h:362-380 | The same for a right rotation. |
| RbRotate.RotLLinks | nitro_libuv/libuv/include/tree.h:342-360 | In any surrounding tree those writes leave mutually consistent child and parent links, and the links stand for the rotated tree. |
| RbRotate.RotRLinks | nitro_libuv/libuv/include/tree.h:362-380 | The mirror image of the row before. |
| RbFix.UncleStep | nitro_libuv/libuv/include/tree.h:415-421 | A red uncle: the recolouring keeps the in-order sequence and every black height, and the only violation is now two levels up, a red element that may have a red parent. |
| RbFix.InnerStepL | nitro_libuv/libuv/include/tree.h:422-427 | An inner red child under a left parent: the rotation keeps the loop invariant with the roles of element and parent exchanged. |
| RbFix.InnerStepR | nitro_libuv/libuv/include/tree.h:438-443 | The mirror image of the row before. |
| RbFix.OuterStepL | nitro_libuv/libuv/include/tree.h:428-429 | An outer red child under a black uncle: recolouring and rotation remove the violation. |
| RbFix.OuterStepR | nitro_libuv/libuv/include/tree.h:444-445 | The mirror image of the row before. |
| RbFix.RootBlack | nitro_libuv/libuv/include/tree.h:411-412 | When the loop ends, blackening the root makes the tree red-black. |
| RbTree.RbTree.InsertColor | nitro_libuv/libuv/include/tree.h:408-449 | From a tree whose only violation is a red element under a perhaps red parent, the loop ends in a red-black tree with the same in-order sequence and consistent links, after at most as many rounds as the element is deep. |
| RbTree.RbTree.Insert | nitro_libuv/libuv/include/tree.h:598-626 | With an equal key stored, that node is returned and nothing changes; otherwise exactly the new node is added to the ordered sequence, and the tree is valid again (order, colours, black heights, all links). The search takes at most 2 lg(n + 1) rounds, and so does the repair. |
| RbShort.RedSiblingShortL | nitro_libuv/libuv/include/tree.h:460-464 | One subtree short by one black, sibling red: after the rotation the same subtree is short by one under a red parent, and the sibling is black. This is why the loop ends although the element has moved down. |
| RbShort.RedSiblingShortR | nitro_libuv/libuv/include/tree.h:493-497 | The mirror image of the row before. |
| RbShort.PushUpL | nitro_libuv/libuv/include/tree.h:465-471 | Sibling and its children black: painting the sibling red moves the shortage to the parent. |
| RbShort.PushUpR | nitro_libuv/libuv/include/tree.h:498-504 | The mirror image of the row before. |
| RbShort.NearRedRotatedL | nitro_libuv/libuv/include/tree.h:473-482 | Only the near child of the sibling red: the rotation makes a black sibling with a red far child, the same subtree still short by one. |
| RbShort.NearRedRotatedR | nitro_libuv/libuv/include/tree.h:506-515 | The mirror image of the row before. |
| RbShort.FarRedRotatedL | nitro_libuv/libuv/include/tree.h:483-489 | The far child of the sibling red: recolouring and rotation make up for the missing black. |
| RbShort.FarRedRotatedR | nitro_libuv/libuv/include/tree.h:516-522 | The mirror image of the row before. |
| RbShort.ShortEnds | nitro_libuv/libuv/include/tree.h:456-457 | At the root, or at a red element, the shortage is repaired by blackening the element. |
| RbTree.RbTree.RemoveColor | nitro_libuv/libuv/include/tree.h:451-528 | Started with one subtree short by one black, the loop ends, in a red-black tree with the same in-order sequence and consistent links, after at most one round more than the subtree is deep. |
| RbSplice.SpliceLinks | nitro_libuv/libuv/include/tree.h:579-590 | Splicing out a node with at most one child leaves consistent links that stand for the tree with the child in its place. |
| RbSplice.ReplaceLinks | nitro_libuv/libuv/include/tree.h:559-570 | Giving the successor the fields of the removed node, and redirecting all links to it, puts it in that place of the tree. |
| RbSplice.SuccessorOrder | nitro_libuv/libuv/include/tree.h:539-570 | Moving the leftmost node of the right subtree into the place of a node removes exactly that node from the in-order sequence, the direct right child included. |
| RbSplice.SuccessorColors | nitro_libuv/libuv/include/tree.h:557-559 | If the spliced-out successor was red the tree is red-black; if it was black exactly the subtree in its old place is short by one. |
| RbSplice.SpliceColors | nitro_libuv/libuv/include/tree.h:579-593 | The same for a node with at most one child. |
| RbTree.RbTree.Remove | nitro_libuv/libuv/include/tree.h:530-595 | Removing any node of a valid tree leaves a valid tree whose in-order sequence is the old one without exactly that node; the node itself is returned. The walk to the successor and the repair take at most 2 lg(n + 1) rounds each. |
| RbTree.RbTree.Find | nitro_libuv/libuv/include/tree.h:629-644 | A returned node is stored and has an equal key; NULL means that no stored key is equal. The loop takes at most 2 lg(n + 1) rounds in a tree of n nodes. |
| RbHeight.HeightBound | nitro_libuv/libuv/include/tree.h:60-61 | A valid tree with n nodes has height at most 2 lg(n + 1), stated as 2^height <= (n + 1)^2. |
| RbWalk.WalkBound | nitro_libuv/libuv/include/tree.h:60-61 | Whatever goes down or up a valid tree of n nodes takes at most 2 lg(n + 1) steps; all the operations carry this bound. |
| RbTree.RbTree.NFind | nitro_libuv/libuv/include/tree.h:646-665 | The least stored element that is not below the key, or NULL exactly when there is none, within 2 lg(n + 1) rounds. |
| RbTree.RbTree.Next | nitro_libuv/libuv/include/tree.h:668-687 | The element that follows in the ordered sequence, or NULL after the last; found by the links alone, within 2 lg(n + 1) rounds. |
| RbTree.RbTree.MinMax | nitro_libuv/libuv/include/tree.h:711-724 | The first or the last element, NULL in an empty tree, within 2 lg(n + 1) rounds. |
| RbTree.RbTree.ForEach | nitro_libuv/libuv/include/tree.h:738-741 | The loop visits the elements in order, each once. |
| SplayTree.SplayTree.constructor | nitro_libuv/libuv/include/tree.h:72-74 | SPLAY_INIT gives a valid tree with no elements. |
| SplayTree.SplayTree.RotateRight | nitro_libuv/libuv/include/tree.h:88-92 | The rotation of the middle tree keeps its in-order sequence and the left and right trees. |
| SplayTree.SplayTree.RotateLeft | nitro_libuv/libuv/include/tree.h:94-98 | The mirror image of the row before. |
| SplayTree.SplayTree.LinkLeft | nitro_libuv/libuv/include/tree.h:100-104 | The root and its right subtree move to the right tree: the middle tree shrinks, and left, middle and right together keep their in-order sequence. |
| SplayTree.SplayTree.LinkRight | nitro_libuv/libuv/include/tree.h:106-110 | The mirror image of the row before. |
| SplayStep.AssembleOrder | nitro_libuv/libuv/include/tree.h:112-117 | The assembled tree lists the left tree, the middle tree, and the right tree in order. |
| SplayTree.SplayTree.Splay | nitro_libuv/libuv/include/tree.h:209-242 | The loop ends; the in-order sequence is kept; at the root is a node with an equal key, or else a neighbour: no stored key lies strictly between. The tree and the number of rounds are those of the recursion SplaySpec.Splayed. |
| SplaySpec.RoundLeft | nitro_libuv/libuv/include/tree.h:214-226 | A round towards the left, done on the links or as a step of the recursion, comes to the same tree in the end, and takes one round. |
| SplaySpec.RoundRight | nitro_libuv/libuv/include/tree.h:227-239 | The mirror image of the row before. |
| SplayCost.RoundsPaid | nitro_libuv/libuv/include/tree.h:50-52 | Two to the number of rounds, times the product of all subtree sizes afterwards, is at most four times the cube of the size times that product before. |
| SplayCost.InsertAmortised | nitro_libuv/libuv/include/tree.h:165-186 | The same for an insertion, at the price of a power of the size, the new root included. |
| SplayCost.RemoveAmortised | nitro_libuv/libuv/include/tree.h:189-207 | The same for a removal, both of its splays together. |
| SplayRuns.RunAmortised | nitro_libuv/libuv/include/tree.h:50-52 | Any run of lookups, insertions and removals on any tree takes at most 4 + 6 lg N rounds for each of them, N being one more than all nodes in play, but for the logarithm of that product at the start. |
| SplayRuns.Balance | nitro_libuv/libuv/include/tree.h:50-52 | m operations on a tree that is empty at first, n of them insertions, take at most m (4 + 6 lg(n + 1)) rounds of the loop together, the logarithm rounded up. |
| SplayOrder.NearDecides | nitro_libuv/libuv/include/tree.h:134-136 | With a neighbour at the root one comparison tells whether an equal key is stored at all. |
| SplayTree.SplayTree.Find | nitro_libuv/libuv/include/tree.h:129-137 | A returned node is at the root, stored, and has an equal key; NULL means no stored key is equal. The elements stay the same; the tree is the splayed one, in as many rounds as the recursion says. |
| SplayTree.SplayTree.Insert | nitro_libuv/libuv/include/tree.h:165-186 | With an equal key stored, a stored node of that key is returned and the elements stay the same; otherwise exactly the new node is added to the ordered sequence. Tree and rounds are those of SplaySpec.InsertTree. |
| SplayTree.SplayTree.Remove | nitro_libuv/libuv/include/tree.h:189-207 | With an equal key stored, exactly that stored node leaves the ordered sequence; the macro returns its argument, which is the node that left if and only if the argument was stored. Otherwise NULL is returned and nothing leaves. Tree and rounds are those of SplaySpec.RemoveTree. |
| HeapShape.LinkedIs | nitro_libuv/libuv/src/heap-inl.h:106-136 | The array numbering in the links: the children of the node in slot i, counted from zero, are in slots 2i + 1 and 2i + 2. |
| HeapShape.SwapLinks | nitro_libuv/libuv/src/heap-inl.h:71-104 | heap_node_swap of a node and its child, in any complete tree: all child, parent and sibling links and heap->min stand for the array with the two slots exchanged. |
| Heap.Heap.NodeSwap | nitro_libuv/libuv/src/heap-inl.h:72-104 | Which fields the swap writes, including the case that a node copies a link to itself. |
| HeapPath.CollectStep | nitro_libuv/libuv/src/heap-inl.h:122-124 | The path collects the bits of the slot number in reverse, and never leaves an unsigned int. |
| HeapPath.WalkStep | nitro_libuv/libuv/src/heap-inl.h:128-136 | Each bit taken from the path leads from slot i to slot 2i or 2i + 1, a prefix of the bits of the slot number. |
| Heap.Heap.Locate | nitro_libuv/libuv/src/heap-inl.h:119-136 | The walk ends at the address that holds slot nelts + 1 (for removal: slot nelts) of the array numbering, and its parent slot. |
| HeapOrder.UpStep | nitro_libuv/libuv/src/heap-inl.h:146-147 | The loop invariant of the sift up: at most the one node is below its parent. |
| HeapOrder.DownStep | nitro_libuv/libuv/src/heap-inl.h:220-229 | The loop invariant of the sift down: at most the one node is above a child; swapping with the smallest child keeps it. |
| Heap.Heap.SiftUp | nitro_libuv/libuv/src/heap-inl.h:146-147 | The loop ends in an ordered heap of the same nodes. |
| Heap.Heap.SiftDown | nitro_libuv/libuv/src/heap-inl.h:220-229 | The loop ends with a heap that is ordered except perhaps upwards of the one node. |
| Heap.Heap.Insert | nitro_libuv/libuv/src/heap-inl.h:106-148 | The heap keeps the complete shape, the order and all links, and holds exactly one node more: the new one. |
| Heap.Heap.Remove | nitro_libuv/libuv/src/heap-inl.h:150-237 | Removing any node (the last, the root and the parent of the last included) keeps the complete shape, the order and all links, and exactly that node is gone. |
| Heap.Heap.Dequeue | nitro_libuv/libuv/src/heap-inl.h:239-241 | Removes a node than which none is less. |
| HeapOrder.RootLeast | nitro_libuv/libuv/src/heap-inl.h:33-35 | No node is less than the root. |
| HeapOrder.DrainSorts | nitro_libuv/libuv/src/heap-inl.h:239-241 | Repeated dequeuing gives all nodes, in non-decreasing order, for every strict weak order. |
| Unify.BuildTable | nitro_cloud/swigwin/CCache/unify.c:60-94 | The table says of each character its classes and the operators that begin with it, in the order of the list. |
| Unify.Unifier.PushChar | nitro_cloud/swigwin/CCache/unify.c:97-116 | After each call exactly the characters pushed so far have gone to the hash, in calls of 64, or wait in the buffer, in order. |
| Unify.Unifier.PushEnd | nitro_cloud/swigwin/CCache/unify.c:102-109 | The flush: the rest goes to the hash, then one call that finishes it. |
| Unify.Unifier.ScanLine | nitro_cloud/swigwin/CCache/unify.c:128-143 | A line that starts with "#" is dropped if it is a line marker, else pushed with its newline. |
| Unify.Unifier.ScanNumber | nitro_cloud/swigwin/CCache/unify.c:155-182 | The characters pushed are exactly a number of the scanner: digits and dots, a hex part, an exponent, suffixes. |
| Unify.Unifier.ScanLiteral | nitro_cloud/swigwin/CCache/unify.c:191-206 | The characters pushed are the literal up to the first closing quote that no backslash hides. |
| Unify.Unifier.ScanOperator | nitro_cloud/swigwin/CCache/unify.c:208-226 | The first operator of the list that the text begins with, if there is one. |
| Unify.Unifier.Unify | nitro_cloud/swigwin/CCache/unify.c:119-233 | The calls of hash_buffer carry, in order, what waited in the buffer and then exactly the unified text, in pieces of 64 characters, only the last one shorter, and one final call ends the hash. |
| UnifyTokens.WordToken | nitro_cloud/swigwin/CCache/unify.c:145-153 | By character codes: a letter or "_" and all letters, digits and "_" behind it are one token, and are pushed with a newline. |
| UnifyTokens.NumberToken | nitro_cloud/swigwin/CCache/unify.c:155-182 | By character codes: digits and dots from a digit on, then x or X with hexadecimal digits, then e or E with digits and signs, then suffixes, each part as long as it can be, are one token. |
| UnifyTokens.LiteralToken | nitro_cloud/swigwin/CCache/unify.c:191-206 | By character codes: a quote and all up to the next one of its kind that no backslash hides are one token. |
| UnifyTokens.BlankToken | nitro_cloud/swigwin/CCache/unify.c:184-189 | By character codes: white space is dropped, as much as there is. |
| UnifyTokens.LineToken | nitro_cloud/swigwin/CCache/unify.c:128-143 | By character codes: a line that begins with "#" is pushed with its newline, unless a blank and a digit follow the "#"; then nothing is. |
| UnifyTokens.OperatorsAre | nitro_cloud/swigwin/CCache/unify.c:36-41 | The fifty operators of the list, one by one. |
| UnifyTokens.OtherToken | nitro_cloud/swigwin/CCache/unify.c:208-231 | Of any other text the longest operator is the token, but of ":>" the ":", and where there is none the first character. |
| UnifyTokens.Declaration | nitro_cloud/swigwin/CCache/unify.c:119-233 | For any two words t and x: the text "t x;" is unified to t, x and ";" on three lines. |
| UnifyLongest.ColonWins | nitro_cloud/swigwin/CCache/unify.c:36-41 | Text that begins with the listed operator ":>" is always read as the operator ":". |
| UnifyLongest.LongestOperator | nitro_cloud/swigwin/CCache/unify.c:208-226 | The operator taken is the longest of the list that the text begins with, if and only if the text does not begin with ":>". |
| UnifyLaws.Idempotent | nitro_cloud/swigwin/CCache/unify.c:119-233 | unify(unify(x)) = unify(x), and the unified text has terminated quotes again. |
| UnifyLaws.StepLocal | nitro_cloud/swigwin/CCache/unify.c:127-231 | What the scanner does with a token depends on nothing behind the character that ends it. |
| UnifyLaws.LayoutFolds | nitro_cloud/swigwin/CCache/unify.c:184-189 | Replacing one non-empty run of white space at a token boundary by another leaves the unified text unchanged. |
| UnifyLaws.MarkersVanish | nitro_cloud/swigwin/CCache/unify.c:128-133 | Inserting a line marker where a token may start leaves the unified text unchanged. |
| UnifyLaws.Conserves | nitro_cloud/swigwin/CCache/unify.c:119-233 | Without white space the unified text is the input without its line markers and white space: nothing else is lost, moved or added. |
| Md4.LshiftRotates | nitro_cloud/swigwin/CCache/mdfour.c:34 | The shift macro rotates a word, for every amount it is used with. |
| Md4.FSelects | nitro_cloud/swigwin/CCache/mdfour.c:31 | F takes the bit of its second argument where the first has a one, else that of the third. |
| Md4.GIsMajority | nitro_cloud/swigwin/CCache/mdfour.c:32 | G is the bit that two of its arguments agree on. |
| Md4.HIsParity | nitro_cloud/swigwin/CCache/mdfour.c:33 | H is the parity of its arguments. |
| Md4.RoundConstants | nitro_cloud/swigwin/CCache/mdfour.c:37-38 | The constants of the second and third rounds are 2^30 times the square roots of two and three, cut to integers. |
| Md4Vector.DigestOfAbc | nitro_cloud/swigwin/CCache/mdfour.c:193-200 | The test vector of RFC 1320 worked out: the digest of "abc" is a448017aaf21d8525fc10ae87aa6729d. |
| Md4.Rounds | nitro_cloud/swigwin/CCache/mdfour.c:41-84 | The 48 macro calls compute the three rounds of section 3.4 of RFC 1320, with the old registers added. |
| Md4.Copy64 | nitro_cloud/swigwin/CCache/mdfour.c:86-93 | Each of the sixteen words of a block is b0 + 2^8 b1 + 2^16 b2 + 2^24 b3 of its bytes, as section 2 of RFC 1320 has it: low-order byte first. |
| Md4.Copy4 | nitro_cloud/swigwin/CCache/mdfour.c:95-101 | The four bytes of a word are written low-order byte first, the rest of the buffer stays. |
| Md4.Mdfour.constructor | nitro_cloud/swigwin/CCache/mdfour.c:103-111 | mdfour_begin gives the start of the abstract stream. |
| Md4.Mdfour.Update | nitro_cloud/swigwin/CCache/mdfour.c:141-179 | mdfour_update refines one step of the abstract stream: the registers are the fold over all full blocks, the tail is the remainder, the count is that of the hashed bytes modulo 2^32; with NULL the padded last blocks are hashed and tail_len stays as it is. |
| Blocks.AbsorbAppend | nitro_cloud/swigwin/CCache/mdfour.c:151-178 | Two updates with data are one update with the concatenation, in any state of the stream. |
| Blocks.RunData | nitro_cloud/swigwin/CCache/mdfour.c:141-179 | Any run of updates with data is one update with all of it. |
| BlocksRuns.Resumed | nitro_cloud/swigwin/CCache/mdfour.c:114-157 | Data hashed after a NULL is hashed behind the last blocks of that NULL, with the waiting bytes once more in front of it; the count goes on from that of the NULL. |
| BlocksRuns.RunHashes | nitro_cloud/swigwin/CCache/mdfour.c:114-179 | After any run of calls, with data and NULL in any order, the registers are the fold over one explicit byte string: the whole blocks of the data in order, with the last blocks of each NULL between them. |
| BlocksRuns.UnifyMode | nitro_cloud/swigwin/CCache/hash.c:65-71 | In unify mode, where one NULL ends the unified text and another the digest, that string spelled out for every text and every rest. |
| PaddedRuns.Exactly | nitro_cloud/swigwin/CCache/mdfour.c:114-157 | A run that ends with a NULL has hashed its data and the padding of RFC 1320 if and only if that NULL is its first and the bit count fits 32 bits. |
| PaddedRuns.UnifyModeIsNotPadded | nitro_cloud/swigwin/CCache/hash.c:65-71 | In unify mode it never has, for any text and any rest: what goes into the hash is not the text, the rest and their padding. |
| Md4.AnyRun | nitro_cloud/swigwin/CCache/mdfour.c:114-179 | The same of mdfour_update: whatever the calls were, the registers are those of that string of blocks, the tail is the rest of the data. |
| Padding.TailIsNotPadding | nitro_cloud/swigwin/CCache/mdfour.c:122 | A message of 2^29 bytes, the first length at which the blocks differ from the padding of RFC 1320. |
| Padding.TailIsPadding | nitro_cloud/swigwin/CCache/mdfour.c:115-139 | The last one or two blocks are the rest of the message and the padding of sections 3.1 and 3.2 of RFC 1320, exactly when the bit count fits 32 bits. |
| Padding.CountBytes | nitro_cloud/swigwin/CCache/mdfour.c:122 | The count that is written (32 bits, then zeros) is the 64-bit count of RFC 1320 exactly when its high word is zero. |
| Md4.StreamIsMd4 | nitro_cloud/swigwin/CCache/mdfour.c:141-179 | For every message whose bit count fits 32 bits, cut into calls in any way and ended by one NULL, the registers are those of RFC 1320. |
| Md4.Mdfour.Result | nitro_cloud/swigwin/CCache/mdfour.c:182-190 | The digest of section 3.5 of RFC 1320 of the registers. |
| Md4.MdfourOf | nitro_cloud/swigwin/CCache/mdfour.c:193-200 | mdfour computes the MD4 digest of the message. |
| UnifyHash.HashOfText | nitro_cloud/swigwin/CCache/hash.c:26-29 | Whatever was hashed before, a run of unify leaves the hash as one update with the unified text and one with NULL would. |
| UnifyHash.SameTextSameHash | nitro_cloud/swigwin/CCache/unify.c:119-233 | Two sources with the same unified text leave the same hash state. |
| UnifyHash.LayoutKeepsHash | nitro_cloud/swigwin/CCache/unify.c:21-23 | Changing the layout of a source at a token boundary does not change its hash, whatever is hashed before and after. |
| FsPoll.Loop.StartPoll | nitro_libuv/libuv/src/fs-poll.c:56-101 | uv_fs_poll_start is the start step: nothing for an active handle, else a new context with its stat on its way (interval 0 counts as 1). When memory runs out the error is returned and nothing has changed; when the stat cannot be queued the error is returned, and the timer of the freed context stays in the handle queue of the loop. |
| FsPoll.Loop.StopPoll | nitro_libuv/libuv/src/fs-poll.c:104-125 | uv_fs_poll_stop is the stop step: context and handle are untied, and a timer that runs is closed. The assertions of the code hold. |
| FsPoll.Loop.TimerCb | nitro_libuv/libuv/src/fs-poll.c:159-169 | timer_cb is the timer step; its assertions about the parent hold in every reachable state, and the context is not freed. |
| FsPoll.Loop.PollCb | nitro_libuv/libuv/src/fs-poll.c:172-219 | poll_cb is the first stat step, then whatever the user does in the callback (only if it is called), then the last stat step; a stopped context only has its timer closed. The context is not freed, and its timer is closed only if it is not closing already. |
| FsPoll.Loop.TimerCloseCb | nitro_libuv/libuv/src/fs-poll.c:222-224 | timer_close_cb, called for any context whose timer is closing, frees a context that is not freed yet; the timer has left the handle queue. |
| FsSafety.StepOk | nitro_libuv/libuv/src/fs-poll.c:56-224 | Every step keeps the invariant over all handles and contexts. |
| FsSafety.EnabledIsLive | nitro_libuv/libuv/src/fs-poll.c:104-224 | What a step reads or writes of a context is not freed: that its timer is running or closing, its stat is on its way or being dealt with, or a handle is tied to it, implies it. The steps themselves are enabled by timer, stat and handle alone. |
| FsSafety.NoUseAfterFree | nitro_libuv/libuv/src/fs-poll.c:104-224 | In every interleaving a step uses only contexts that were started and are not freed. |
| FsSafety.QueueInEveryRun | nitro_libuv/libuv/src/fs-poll.c:80-96 | In every interleaving the handle queue holds the timers of the contexts that are not freed and of the starts that failed at the stat; so it holds no freed timer if and only if no start failed there. |
| FsSafety.FailedStart | nitro_libuv/libuv/src/fs-poll.c:80-96 | One such start on an idle handle leaves a freed timer in the queue. |
| FsSafety.PendingInEveryRun | nitro_libuv/libuv/src/fs-poll.c:116-120 | In every interleaving each context that is not freed has exactly one of a stat on its way or being dealt with, a timer that runs, a timer that is closing; it is closing only if stopped, and its timer runs only if not. |
| FsSafety.LifeInEveryRun | nitro_libuv/libuv/src/fs-poll.c:104-224 | In every interleaving a context is freed at most once and not used afterwards, and no callback and no second stop follows its stop. |
| FsSafety.LiveInEveryRun | nitro_libuv/libuv/src/fs-poll.c:222-224 | In every interleaving the contexts that were made and not freed are the live ones, and only stopped contexts were freed. |
| FsSafety.CallsInEveryRun | nitro_libuv/libuv/src/fs-poll.c:172-219 | In every interleaving the callback trace of a context has exactly one call for each change in the results it has dealt with. |
| FsSafety.StoppedIsFreed | nitro_libuv/libuv/src/fs-poll.c:178-182 | Whatever a stopped context waits for, the one or two events that are to come can happen, and they free it: no context leaks. |
| FsSafety.StoppedInEveryRun | nitro_libuv/libuv/src/fs-poll.c:178-182 | In every interleaving from where a context was stopped: what is not about it leaves it as it is, each event about it uses up one of the at most two that were to come, and it is freed exactly when none is left. |
| FsTiming.ArmedStep | nitro_libuv/libuv/src/fs-poll.c:205-217 | The last step of poll_cb sets the timer to a time after now, at most the interval later, and a multiple of the interval after the start of the stat: what the stat has taken is not added. |
| FsTiming.DueInEveryRun | nitro_libuv/libuv/src/fs-poll.c:66-217 | In every interleaving a running timer is due a multiple of the interval after the last stat was asked for, by the start or by the timer; the interval is that of the start, but at least one. |
| FsSafety.StoredInEveryRun | nitro_libuv/libuv/src/fs-poll.c:184-203 | In every interleaving busy_polling is 0 before the first result, then 1 or the last error, and the stored state is the one seen last. |
| FsSafety.DelayAligned | nitro_libuv/libuv/src/fs-poll.c:213-217 | The time computed for the timer leads to the first multiple of the interval after the start of the stat that is still to come. |
| FsTrace.StatEqIsSame | nitro_libuv/libuv/src/fs-poll.c:227-242 | Two states count as equal exactly when they are the same but for links, special device, blocks and access time. |
| FsTrace.NextCall | nitro_libuv/libuv/src/fs-poll.c:184-203 | The tests on busy_polling and the stored state find exactly the changes: a first success is silent, so is a repeated error, and a recovery is always told. |
| FsTrace.UpToDate | nitro_libuv/libuv/src/fs-poll.c:184-203 | The last call tells the present result, up to statbuf_eq; before the first call every stat has succeeded with the same state. |
| FsTrace.NoRepeats | nitro_libuv/libuv/src/fs-poll.c:184-203 | No call repeats what the call before it has told. |
| FsTrace.SteadyIsSilent | nitro_libuv/libuv/src/fs-poll.c:197-203 | While nothing changes there are no calls. |
| CleanupOrder.CompareIsOrder | nitro_cloud/swigwin/CCache/cleanup.c:36-46 | files_compare is a total order up to name and time, as qsort demands. |
| CleanupOrder.SortUnique | nitro_cloud/swigwin/CCache/cleanup.c:85-89 | For distinct names the sorted order is unique: neither qsort nor the order of the directory matters. |
| Cleanup.Cleaner.AdjustedMinfiles | nitro_cloud/swigwin/CCache/cleanup.c:81-102 | The guard protects exactly the files than which fewer than minfiles files are newer, ties included. |
| Cleanup.Cleaner.SortAndClean | nitro_cloud/swigwin/CCache/cleanup.c:78-122 | The files tried are the shortest oldest-first prefix behind which the directory is below both thresholds or the next file is protected; none of them is protected; total_size is the size of what is left, also when an unlink fails. |
| Cleanup.Cleaner.CleanupDir | nitro_cloud/swigwin/CCache/cleanup.c:125-160 | The same from the list of directory entries and the limits to the numbers that are reported. |
| CleanupLaws.StopsBelow | nitro_cloud/swigwin/CCache/cleanup.c:105-107 | Where cleaning stops at a file that is not protected, the size left is below a size threshold that is not zero, and the number of files below a file threshold that is not zero. |
| CleanupLaws.TriedAbove | nitro_cloud/swigwin/CCache/cleanup.c:105-121 | Each file tried is not protected, and at its turn the size left reaches the size threshold or the number of files the file threshold. |
| CleanupLaws.ProtectedIs | nitro_cloud/swigwin/CCache/cleanup.c:81-102 | A file is protected if and only if fewer than minfiles files are newer. |
| CleanupLaws.OrderIs | nitro_cloud/swigwin/CCache/cleanup.c:36-46 | An older file comes first, and of two of one time the one whose name stands behind in a dictionary. |
| CleanupLaws.RemovedIs | nitro_cloud/swigwin/CCache/cleanup.c:112-118 | The names that go are those of the files tried whose unlink did not fail. |
| CleanupLaws.RemovedAt | nitro_cloud/swigwin/CCache/cleanup.c:105-119 | They go in the order of the sort. |
| CleanupLaws.LeftIs | nitro_cloud/swigwin/CCache/cleanup.c:105-121 | What is left: the files not tried, and those whose unlink failed. |
| CleanupLaws.ListedIs | nitro_cloud/swigwin/CCache/cleanup.c:48-75 | The files that take part are the regular ones not called "stats", with their sizes in whole kilobytes. |
| CleanupLaws.StatsIs | nitro_cloud/swigwin/CCache/util.c:593-606 | A path names the statistics if and only if it is "stats" or ends with "/stats". |
| CleanupLaws.FileSizeIs | nitro_cloud/swigwin/CCache/util.c:663-675 | The size of a file is that of its blocks, or when these cannot hold its bytes the next multiple of 1024. |
| Cleanup.OverOnlyIfProtected | nitro_cloud/swigwin/CCache/cleanup.c:106-110 | A directory stays above a threshold only if every file that was not tried is protected. |
| Cleanup.CountExact | nitro_cloud/swigwin/CCache/cleanup.c:121 | total_files is the number of files left exactly when no unlink failed (a failed one is not counted although the file is still there). |
| Cleanup.CleaningIsUnique | nitro_cloud/swigwin/CCache/cleanup.c:78-122 | Which files go is determined by the files and the limits. |
| Cleanup.LimitOfOne | nitro_cloud/swigwin/CCache/cleanup.c:129-130 | Being below a threshold means being below 80 per cent of the limit, except that a limit of one is no limit. |
| RowFile.Writer.Write | nitro_nanomsg/include/serializer.h:137-175 | A fresh file gets the header, the rows with their ends, the row count, and one entry for each row; the header is written again with the offset of the table. |
| RowFormat.EntryIs | nitro_nanomsg/include/serializer.h:153-158 | Each stored offset is the header size plus all earlier rows with their ends; the stored numbers count up from one in 16 bits. |
| RowFile.ReadRow | nitro_nanomsg/include/row.h:29-48 | From any position of any file: the bytes up to and with the first end of row, or up to the first char that equals EOF or the end of the file, and a zero byte. |
| RowBytes.RowAtIs | nitro_nanomsg/include/row.h:29-48 | By byte values, from any position of any file: the bytes up to and with the first 10, or before the first 255 or the end of the file, and a zero byte. |
| RowBytes.SeekIs | nitro_nanomsg/include/serializer.h:115-120 | fseek goes to an offset if and only if it is below 2^63. |
| RowFile.Reader.Read | nitro_nanomsg/include/serializer.h:92-125 | From any file: one row for each entry, read where the seeks of the source lead; a seek to 2^63 or more fails and the position stays. |
| RowFile.Reader.GetRowById | nitro_nanomsg/include/serializer.h:50-90 | From any file: the row of the first entry with the number, read where the seek leads, or nothing. |
| RowFormat.RowsAre | nitro_nanomsg/include/serializer.h:92-125 | When all offsets of a file are below 2^63, each row is the one at the offset of its entry. |
| RowFormat.CollectedIs | nitro_nanomsg/include/serializer.h:92-125 | Read after Write gives all rows in order, each as Row::Read makes it, for all rows. |
| RowBytes.RowComesBack | nitro_nanomsg/include/row.h:20-48 | By byte values: a written row comes back with 10 and 0 behind it when it has no 10 and no 255; else cut before the first of these, with the 10 if it is one, and a 0. |
| RowBytes.RowWritten | nitro_nanomsg/include/row.h:21-27 | In the file a row stands at its offset, and the byte 10 behind it. |
| RowBytes.OffsetIs | nitro_nanomsg/include/serializer.h:151-158 | The first row is at offset 8, each other one behind its predecessor and one byte. |
| RowBytes.HeaderWritten | nitro_nanomsg/include/serializer.h:160-173 | The first 8 bytes hold the offset of the table, its first 8 bytes the number of rows. |
| RowBytes.EntryWritten | nitro_nanomsg/include/serializer.h:166-170 | An entry holds the offset of its row in 8 bytes and its number in 2. |
| RowBytes.ByteIs | nitro_nanomsg/include/serializer.h:162-173 | Byte j of a stored number is its j-th digit to the base 256. |
| RowFormat.RowsComeBack | nitro_nanomsg/include/row.h:20-48 | The rows come back whole, each with newline and NUL, exactly when none holds a newline or the byte 0xFF. |
| RowFile.RowNumberedIs | nitro_nanomsg/include/serializer.h:50-90 | GetRowById(k) after Write gives the k-th row for 1 <= k <= n and nothing otherwise, except that beyond 65535 rows zero finds row 65536, and later rows are not found. |

## Left out

- tree.h: SPLAY_NEXT, SPLAY_MINMAX, RB_PREV and the reverse loops, which add only mirror images or variants of what is
  proved; RB_AUGMENT, which is empty here.
- heap-inl.h: heaps of 2^32 - 1 nodes or more, for which the unsigned count would wrap.
- RbTree.RbTree.Remove: the node must be in the tree, as the macro demands; its own links afterwards are not described,
  because the macro leaves them as they were or stale.
- Heap.Heap.Remove: the node must be in the heap (or the heap empty), as the function demands.
- unify.c: NUL bytes (pushing one is the signal to flush) and unterminated literals (the source reads past its input), both
  excluded by preconditions; mapping the file; the fixed room for the operators of one character.
- mdfour.c: memory layout and the global pointer to the current state; a negative length.
- hash.c: opening and reading files, and the text form of the digest.
- FsPoll.Loop.StartPoll: whether memory is enough and what queueing the stat returns are parameters; uv_timer_init, whose
  result the source checks too, returns 0 in every version of it here.
- fs-poll.c: the stat itself and the timer heap are events; timer_cb and poll_cb abort the program when a stat or a timer
  cannot be started, which is taken not to happen; uv_fs_poll_getpath copies a path; the endgame on Windows. Of the handle
  queue only these timers are modelled, as a set.
- FsTrace.NextCall: results are 0 or negative, as the stat request gives them.
- cleanup.c: sizes and counts are unbounded integers; 0.8 times a limit is its exact value, cut to an integer, which is what
  the floating product gives for 32-bit limits; walking directories, writing the statistics, cleanup_all and wipe_all.
- serializer.h: a second Write, Read or GetRowById on one object (the position is not where a fresh one starts), and files
  of 2^63 bytes or more, to which fseek cannot go.
- RowFile.Reader.Read: errors of the stream other than the end of the file are not modelled.
- Sockets, messaging, process launch, generated bindings, and the copies of these components elsewhere in the repository.
