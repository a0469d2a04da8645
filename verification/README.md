# Proofs about the runtime library and the dynamic module

This project models five parts of the repository and proves what they are for:

* the red-black tree, the multi-level hash and the memory pool of the runtime library (`RbTree`, `LevelHash`,
  `LevelHashEach`, `LevelHashWord`, `BlockTree`, `MemPool`, `Pool`, `Pow2`);
* UTF-8, string searching, the JSON parser, printer and path editor of the configuration engine (`Utf8`, `Strings`,
  `JsonString`, `JsonPieces`, `JsonPrint`, `JsonParse`, `JsonFigures`, `JsonGrammar`, `JsonLayout`, `JsonObject`,
  `JsonParser`, `ConfOps`, `ConfPaths`, `ConfClone`, `ConfInline`);
* the propagation of a configuration between worker processes, and its life inside one of them (`Propagation`,
  `ConfLife`);
* the request limiter (`Limiter`);
* the router: patterns, match objects, query arguments and the choice of a route (`Pattern`, `Route`, `RouteWritten`,
  `Routes`).

Code that changes things in place is a class or a method with a loop, proved against functions and predicates over
values; what the code promises is then stated as lemmas about those functions. `Bytes` holds the byte type.

## How the parts are modelled

**Tree.** `RbTree.Tree` relinks real node objects around one shared sentinel, which is every leaf and the root's parent,
and whose right field holds the comparison callback. The ghost sequence `S` is the in-order sequence. `Linked` says that
the child and parent links form one binary tree with that sequence; `RedBlack` says equal black heights, no red node with
a red parent, black root. No claim is made about the sentinel's parent field, which rotations and deletions overwrite, and
no step may rely on it.

**Hash.** `LevelHash.Hash` has the shape of the default prototype: seven levels of sixteen slots, buckets of ten entries,
chains of buckets below the last level. Its contents are a multiset of entries, in which a pair of hash and key occurs
once. Counts are packed into low bits of addresses; `LevelHashWord` proves that those words decode. The allocator may
refuse at any time, and the number of live blocks is part of the invariant: it is always that of the blocks reachable from
the root, so no block is ever lost. A failed insertion leaves the hash as it was, unless its place is a full bucket that has
already been split into a level when memory runs out; the level then stays, with the same entries.

**Pool.** `Pool.Pool` keeps blocks, page descriptors and queues as the source does. The invariant `MemPool.Keeps` says
that blocks are disjoint and aligned, that a chunked page counts exactly its free chunks and is on the list of its size
exactly when it has some, and that the free list holds exactly the free pages. A slot is a freeable allocation; every
operation states which slot it adds or removes, and that all other live memory stays as it was. Its blocks are indexed by a
real `RbTree.Tree` (`BlockTree.Index`): lookups descend that tree, and destruction runs that tree's destroying iterator.

**Configuration engine.** Texts are byte sequences. The parser is a set of recursive functions (`JsonParse`), and the
parser as it runs, with its loops and its two-pass string decoder, is proved to agree with them (`JsonParser`,
`JsonString`). The members of an object go through a real `LevelHash.Hash` and come out of it in the order of its walk
(`JsonObject`), so the parser's result is that of the grammar functions up to the order of members. The printer and its
separate length pass thread one mutable formatting state.

Which texts those functions take, and as what, is said apart from them by writing: `JsonPieces` writes the pieces a string
may consist of, `JsonFigures` the numbers, `JsonGrammar` whole documents with their white space. A text is parsed to a value
if and only if it is written from a document with that value. `JsonLayout` writes a value line by line, and proves that the
printer writes that text and that it is one of the grammar's.

What an edit means is a function on values (`ConfOps`); `ConfPaths` says what its paths name, which texts are indices, and
when an edit is done. Values as they are stored carry the pool of each string, name, array
and object (`ConfClone`), so that what the copying interpreter takes over and what it copies can be told apart.

**Propagation.** Every handler of a worker is one atomic step; taking a message is two steps, because the lock is
released between copying the shared JSON and applying it, and so is a change, because its body is read after the guard has
let it in. Runs are arbitrary sequences of enabled steps of any number of workers.

**Life of a configuration.** A request's context holds one pointer to a configuration, which the rewrite phase sets and the
request's cleanup releases.

**Router.** What a route means is written down twice: for query arguments as one would read them (`Plain`), and as the code
takes them apart (`Taken`). The compiled routes answer the second for every request; the two are equal where every segment
of the query has at most one `=`. That letter case makes no difference, and where, is said with pairs of letters, apart from
the folding the code does.

## Findings

* The guard that refuses a change while messages are counted is passed before the body is read, and the read handler does
  not ask again. Two changes that one worker lets in before either is applied make it overwrite an unsent message; the
  counter then never returns to 0 and no worker lets a change in again (`Propagation.OverlapHappens`,
  `Propagation.LostIsForever`). `ExactWhenOrderly` gives the exact condition under which the counter equals the messages on
  their way. A state can lose a message without letting in a further change if and only if some worker has two changes to
  announce, or one while an older one is unsent (`CrowdingLoses`); a worker that let in one change at a time would lose
  nothing (`OneAtATimeIsExact`).
* A request whose rewrite phase runs twice counts its configuration twice and releases it once: the pool then outlives every
  request and every later configuration (`ConfLife.TakenTwice`, `ConfLife.LeakIsForever`). Nothing leaks if and only if no
  request takes a configuration while it holds one (`ConfLife.ExactWhenTakenOnce`).
* An insertion that fails for want of memory may leave more blocks than there were: a full bucket that has been split stays
  split (`LevelHash.Hash.Insert`).
* An aligned allocation of no bytes that does not fit a page makes a block that no address lies in, so `nxt_mp_free` cannot
  give it back (`Pool.EmptyBlock`).
* A failed send is not repeated: after one change and one failed send the counter is 0 and nobody is busy, yet a worker
  still has the old configuration (`Propagation.FailedSendMisses`). A worker between handlers holds the last stored JSON
  if, and where no text comes twice only if, every notification by another worker is followed by one of its own or by its
  taking a message (`Propagation.HoldsTheStored`). Where no send fails, everybody is up to date when the counter is 0
  (`Propagation.AllConverge`).
* A worker that is alone stores the shared JSON although there is nobody to copy and release it: every change leaves it and
  one more buffer behind (`Propagation.AloneHoldsOn`). With two workers or more the JSON is there exactly while messages are
  counted (`Propagation.HeldForMessages`).
* A path that ends with an empty token names the value before it to GET, but to DELETE and PUT the member with the empty
  name (`ConfPaths.EmptyLastToken`).
* In a query segment with several `=`, the hash is that of the text before the first one but the name is the text before
  the last one (`Route.LastEqualsNames`). A rule for that name finds the argument if and only if the two names hash alike
  (`Route.FoundByItsName`); in `a=b=c` they do not, and neither name finds it (`Route.DroppedArgument`).
* A match object with a member that is validated but not compiled (`cookies`) makes the matcher read an empty test slot
  exactly when all its compiled tests hold (`Routes.ApplyMatch`).
* Page and minimal chunk of equal size pass `nxt_mp_test_sizes`, but such a pool has no chunk list although half a page
  is looked up in one (`Pool.TestedSizes`, `Pool.EqualSizesPass`).
* After the iterator of a hash with a level at its root has returned NULL, the next call starts a new walk
  (`LevelHashEach.Each.Next`).
* The level count of sixteen used slots overflows its 4-bit field, yet the test after a decrement is exact
  (`LevelHashWord.DecrementIsExact`).

## Model

| member | source | states |
|---|---|---|
| RbTree.Tree.Insert | src/nxt_rbtree.c:60-93 | the in-order sequence gains exactly the new node, after all members that do not compare greater; every red-black invariant and the parent links hold |
| RbTree.Tree.InsertFixup | src/nxt_rbtree.c:97-176 | from a tree whose only fault is one red node under a red parent, repairs all colors without changing the sequence or the black heights' equality |
| RbTree.Tree.Delete | src/nxt_rbtree.c:180-228 | the in-order sequence loses exactly the given member; every red-black invariant and the parent links hold, whatever the sentinel's parent field held |
| RbTree.Tree.DeleteFixup | src/nxt_rbtree.c:232-337 | from a tree one black short at one place, the sentinel included, restores the red-black invariants and keeps the sequence |
| RbTree.Tree.LeftRotate | src/nxt_rbtree.c:341-353 | relinks three nodes and nothing else |
| RbTree.Tree.RightRotate | src/nxt_rbtree.c:357-369 | the mirror image |
| RbTree.Tree.RotatedLeftLinked | src/nxt_rbtree.c:341-353 | a left rotation keeps the in-order sequence and all parent links |
| RbTree.Tree.ParentRelink | src/nxt_rbtree.c:375-391 | the substitute takes the node's place under its parent; the other child link is kept |
| RbTree.Tree.BranchMin | src/nxt_rbtree.h:68-75 | the first node in order of a subtree |
| RbTree.Tree.FindPlace | src/nxt_rbtree.c:60-93 | the descent ends at the free link behind all members not greater than the key |
| RbTree.Tree.DestroyNext | src/nxt_rbtree.c:395-425 | takes out the first node in order and says where the next call starts |
| RbTree.Tree.DestroyAll | src/nxt_rbtree.c:395-425 | repeated calls return every node exactly once, in order, even when each returned node is overwritten at once |
| RbTree.Tree.InOrderIsSequence | src/nxt_rbtree.c:60-228 | following the child links from the root lists exactly the ghost sequence the other contracts speak of |
| RbTree.Tree.EqualBlacks | src/nxt_rbtree.c:97-337 | every way down from a node meets the same number of black nodes and at most twice as many nodes in all |
| RbTree.Tree.DepthIsLogarithmic | src/nxt_rbtree.c:97-337 | with N members no way down is longer than 2 log2(N + 1) |
| LevelHash.Hash.Find | src/nxt_lvlhsh.c:194-277 | finds the item stored under hash and key, or declines exactly when there is none |
| LevelHash.Hash.Insert | src/nxt_lvlhsh.c:281-461 | adds, replaces or declines; an allocation failure leaves the contents as they were, and the hash and the number of live blocks too, unless a full bucket had already been split, which the level then shows; no block is lost |
| LevelHash.Hash.ConvertBucketToLevel | src/nxt_lvlhsh.c:465-637 | a full bucket becomes a level with the same entries, or everything allocated for it is freed again |
| LevelHash.Hash.ConversionInsert | src/nxt_lvlhsh.c:525-611 | an entry of the split bucket goes to the slot its next hash digit selects |
| LevelHash.Hash.Delete | src/nxt_lvlhsh.c:641-748 | removes exactly the key's entry and frees the bucket and the levels left empty |
| LevelHash.InsertIsMapUpdate | src/nxt_lvlhsh.c:281-461 | what an insertion promises is a map update, and what it answers is what the map held |
| LevelHash.DeleteIsMapRemove | src/nxt_lvlhsh.c:641-748 | what a deletion promises is a map removal |
| LevelHash.HoldsAsMap | src/nxt_lvlhsh.c:194-748 | after any sequence of insertions, replacements, deletions and lookups the hash holds what a finite map would |
| LevelHash.AnswersAsMap | src/nxt_lvlhsh.c:194-748 | each call of such a sequence is answered as by the map, but that a new item may be refused for want of memory |
| LevelHash.BucketScan | src/nxt_lvlhsh.c:241-277 | a scan that stops after as many entries as the bucket counts misses no entry behind a hole |
| LevelHash.ChainProbe | src/nxt_lvlhsh.c:359-461 | finds the key in a chain, or the first vacant position, or that every bucket is full |
| LevelHash.EmptinessIsExact | src/nxt_lvlhsh.c:681-687 | the count field of a level is 0 after a decrement exactly when no slot is left |
| LevelHashEach.Each.Next | src/nxt_lvlhsh.c:752-871 | returns the next entry of the rest, or NULL when the rest is empty |
| LevelHashEach.Each.LevelEach | src/nxt_lvlhsh.c:794-840 | the position is a path of digits and a bucket cursor; a level is left with its digits back at 0 |
| LevelHashEach.Each.BucketEach | src/nxt_lvlhsh.c:844-871 | the cursor skips holes and moves on to the next bucket of the chain |
| LevelHashEach.Each.Visit | src/nxt_lvlhsh.c:752-871 | a whole walk returns each stored entry exactly once and then NULL |
| LevelHashEach.OrderItems | src/nxt_lvlhsh.c:752-871 | the visiting order lists the contents, each entry as often as it is stored |
| LevelHashWord.MasksAreArithmetic | src/nxt_lvlhsh.c:46-94 | the masks of the tagged words are the remainders the other lemmas speak of |
| LevelHashWord.LevelDecodes | src/nxt_lvlhsh.c:46-75 | a level's word gives back its address and kind for every count up to sixteen |
| LevelHashWord.BucketDecodes | src/nxt_lvlhsh.c:76-94 | a bucket's word gives back its address, kind and exact count |
| LevelHashWord.AlignedDecodes | src/nxt_lvlhsh.c:46-94 | an address aligned to 128 bytes decodes from every level word and every bucket word |
| LevelHashWord.RunDecodes | src/nxt_lvlhsh.c:51-59 | over any run of increments and decrements the address, the kind and the count field stay exact |
| LevelHashWord.DecrementIsExact | src/nxt_lvlhsh.c:681-687 | the emptiness test on the word after a decrement is exact although a full level's field reads 0 |
| LevelHashWord.LevelAlignmentNeeded | src/nxt_lvlhsh.c:66-74 | level words decode for every count if and only if the address leaves the six low bits free |
| Pool.TestedSizes | src/nxt_mp.c:190-287 | sizes that pass the test make a pool of the model, if and only if a page is larger than the smallest chunk |
| Pool.EqualSizesPass | src/nxt_mp.c:259-287 | pages and chunks of 128 bytes pass the test, make no pool of the model, and half a page is looked up in a list that is not there |
| Pool.IndexFits | src/nxt_mp.c:373-388 | chunks of the chosen list are large enough |
| Pool.IndexIsLeast | src/nxt_mp.c:373-388 | and no earlier list would do |
| Pool.Pool.constructor | src/nxt_mp.c:190-228 | a new pool satisfies the invariant and has no block |
| Pool.Pool.Alloc | src/nxt_mp.c:299-311 | adds exactly one slot, large enough, at the returned address, and leaves all other live memory alone |
| Pool.Pool.AllocSmall | src/nxt_mp.c:407-473 | adds exactly one chunk or whole page, large enough, at the returned address; while a chunk or a page is free it neither refuses nor asks the system |
| Pool.Pool.AllocPage | src/nxt_mp.c:525-544 | takes the first page of the free list, of a new cluster if the list is empty; a refusal changes nothing, and a free page is never refused |
| Pool.Pool.AllocCluster | src/nxt_mp.c:548-585 | a new block of free pages is fresh memory, and no live memory changes |
| Pool.Pool.AllocLarge | src/nxt_mp.c:589-636 | a fresh aligned block of the given size, freeable or not |
| Pool.Pool.Align | src/nxt_mp.c:330-354 | the result is a multiple of the requested power of two and large enough; other alignments are refused, but for zero, which is a plain small allocation or a refusal; no bytes in a block of its own give a block without a slot |
| Pool.EmptyBlock | src/nxt_mp.c:660-699 | such a block holds no address at all, so that freeing its own address finds no block |
| Pool.Pool.HashAlloc | src/nxt_conf.c:552-555 | the blocks of an object's hash are aligned to their size, so every tagged word made of the address of a 128-byte block decodes |
| Pool.SmallAligned | src/nxt_mp.c:330-354 | a chunk or page at least as large as an alignment within the page alignment is aligned to it |
| Pool.Pool.GetSmall | src/nxt_mp.c:477-521 | hands out the next bytes of a page with room, or of a new page; it does not refuse while a queued page has room or a page is free |
| Pool.Pool.Get | src/nxt_mp.c:859-872 | the bytes handed out were handed out to nobody before; slots are untouched |
| Pool.Pool.Nget | src/nxt_mp.c:843-855 | the same for the other queue, without raising the size |
| Pool.Pool.Free | src/nxt_mp.c:660-699 | a slot's address gives back exactly that slot; any other pointer, an already free chunk included, changes nothing and is no slot's address |
| Pool.Pool.ChunkFree | src/nxt_mp.c:731-839 | decides from page and offset which slot begins at the pointer |
| Pool.Pool.FreeClusterIfEmpty | src/nxt_mp.c:798-838 | a cluster goes back to the system exactly when all its pages are free |
| Pool.Pool.Destroy | src/nxt_mp.c:232-255 | every block's memory and every separate descriptor is freed exactly once, in ascending order, by the tree's destroying iterator |
| Pool.HeldDisjoint | src/nxt_mp.c:407-636 | all live memory, freeable or not, is pairwise disjoint |
| Pool.HeldInside | src/nxt_mp.c:407-636 | and each piece lies inside one block of the pool |
| MemPool.SlotsDisjoint | src/nxt_mp.c:407-473 | slots in use are pairwise disjoint |
| MemPool.TakeChunkKeeps | src/nxt_mp.c:413-440 | taking a chunk keeps the free counts and the lists exact |
| MemPool.GiveChunkKeeps | src/nxt_mp.c:766-790 | so does giving one back |
| MemPool.ReleaseChunkPage | src/nxt_mp.c:791-806 | a page whose map becomes all ones moves from its list to the free list |
| BlockTree.Index.FindBlock | src/nxt_mp.c:703-727 | the descent finds the block that holds an address, or that there is none |
| BlockTree.Index.InAddressOrder | src/nxt_mp.c:640-652 | although the comparison drops the lowest bit, the tree orders blocks by address |
| BlockTree.Index.Insert | src/nxt_mp.c:570-583 | a linked block is indexed beside all others |
| BlockTree.Index.Delete | src/nxt_mp.c:676-690 | an unlinked one is taken out, and no other |
| BlockTree.Index.DestroyNext | src/nxt_mp.c:238-252 | each call of the iterator gives the lowest block that is left |
| Utf8.Encode | src/nxt_utf8.c:28-58 | writes the encoding of any code point below 0x110000, surrogates included, and nothing else |
| Utf8.EncoderBits | src/nxt_utf8.c:28-58 | its shifts and masks are the quotients and remainders of the specification |
| Utf8.EncodedTable | src/nxt_utf8.c:28-58 | the specified encoding is the table of section 3 of RFC 3629: how long it is, the marks of its bytes, and the code point in the bits behind them |
| Utf8.Decode | src/nxt_utf8.c:67-86 | decodes a code point exactly when its encoding starts the text, so overlong forms are refused |
| Utf8.DecodeLong | src/nxt_utf8.c:89-163 | the same for a text that does not start with an ASCII byte |
| Utf8.Unambiguous | src/nxt_utf8.c:67-163 | at most one code point starts a text |
| Utf8.OneReading | src/nxt_utf8.c:28-163 | a text encodes at most one sequence of code points |
| Utf8.Length | src/nxt_utf8.c:232-251 | counts the code points, or answers -1 exactly when the text is no encoding |
| Strings.MemStrn | src/nxt_string.c:117-178 | the first place where the needle stands, with or without letter case |
| Strings.StandsUpToCase | src/nxt_string.c:117-178 | a needle stands at a place without letter case when each pair of bytes is equal or the two cases of one ASCII letter |
| Strings.DecodeUri | src/nxt_string.c:241-293 | resolves the percent escapes or reports a broken one |
| Strings.HexOfDigit | src/nxt_string.c:241-293 | a byte is read as a digit exactly when it writes that digit, in either case |
| Strings.EscapeUnescapes | src/nxt_string.c:241-293 | % and two digits in any case stand for sixteen times the first plus the second |
| Strings.OtherwiseUnescapes | src/nxt_string.c:241-293 | every other byte stands for itself, and a % without two digits refuses the text |
| Strings.EscapeTable | src/nxt_string.c:297-359 | the encoder's bitmap marks exactly the bytes to be escaped |
| Strings.EncodeUri | src/nxt_string.c:343-359 | the writing loop escapes exactly the bytes of the table |
| Strings.EncodeDecodes | src/nxt_string.c:241-359 | decoding what the encoder writes gives any byte string back |
| JsonString.FirstPass | src/nxt_conf.c:690-795 | the automaton finds exactly the closing quote and the surplus of the specification |
| JsonString.SecondPass | src/nxt_conf.c:831-931 | writes exactly the meaning of the body, never beyond the budget, and reads nothing behind the closing quote |
| JsonString.DecodeCode | src/nxt_conf.c:872-918 | one escape or surrogate pair is decoded from a text that ends with the closing quote, so without a look behind it |
| JsonString.BudgetHolds | src/nxt_conf.c:674-931 | the decoded string never exceeds the budget the first pass computed |
| JsonString.ParseString | src/nxt_conf.c:674-931 | both passes together, with the inline buffer of fourteen bytes |
| JsonPieces.PiecesAreRead | src/nxt_conf.c:674-931 | wherever pieces (bytes, one-letter escapes, code points as one or two \uXXXX with digits in either case) and the closing quote stand, they are read as what they mean, code points beyond the first plane joined from their surrogates, within their cost |
| JsonPieces.BodyIsPieces | src/nxt_conf.c:674-931 | nothing else is read: every accepted body is written from such pieces |
| JsonPieces.StringIsPieces | src/nxt_conf.c:674-931 | so a quoted string of pieces is read as their meaning, inline when they cost at most fourteen bytes, and refused when they cost 2 GB |
| JsonPieces.StringOnlyPieces | src/nxt_conf.c:674-931 | and every string that is read is one of pieces |
| JsonString.HexDigitBits | src/nxt_conf.c:872-882 | clearing the letter-case bit gives the value of a hexadecimal digit |
| JsonString.EscapeLength | src/nxt_conf.c:1624-1657 | exactly the room the escaper needs |
| JsonString.Escape | src/nxt_conf.c:1661-1714 | writes exactly the escaped text |
| JsonPieces.EscapedIsPieces | src/nxt_conf.c:1661-1714 | the escaped text is written from one piece for each byte: an escape letter where there is one, \u00XX with large digits for the other bytes below 32, else the byte |
| JsonString.EscapeInverts | src/nxt_conf.c:674-931 | decoding the escaped form of any byte string gives it back |
| JsonString.QuotedInverts | src/nxt_conf.c:674-931 | wherever the quoted form stands, the parser gives the string back, inline exactly when its budget fits |
| JsonPrint.PrintFits | src/nxt_conf.c:1322-1620 | from any formatting state the printed text is no longer than the computed room, and the level is restored |
| JsonPrint.Length | src/nxt_conf.c:1322-1548 | computes that room and leaves the formatting state as it was |
| JsonPrint.PrintValue | src/nxt_conf.c:1353-1382 | writes exactly the text of the value behind what is in the buffer |
| JsonPrint.PrintArray | src/nxt_conf.c:1456-1504 | the same for arrays, with the flag that asks for an empty line |
| JsonPrint.PrintObject | src/nxt_conf.c:1552-1620 | the same for objects |
| JsonLayout.PrintIsPage | src/nxt_conf.c:1353-1620 | the printed text is the specified layout: each element and member on its own line, indented by one tab for each level, an empty line behind a member that is a container with something in it unless it is the last, and no white space without a style |
| JsonLayout.StyleAfter | src/nxt_conf.c:1456-1620 | printing keeps the level, and asks for an empty line exactly behind a container with something in it |
| JsonPrint.ToText | src/ngx_http_conf.c:749-767 | length pass, allocation and printing never overrun the buffer |
| JsonParser.Read | src/nxt_conf.c:162-204 | the parser as it runs accepts what the grammar functions accept, and its value is theirs up to the order of members at every depth, unless memory is refused |
| JsonGrammar.ParseIsGrammar | src/nxt_conf.c:162-670 | a text is parsed to a value if and only if it is white space, the text of a document with that value, and white space; the trailing commas, repeated names and empty number texts the parser takes or refuses are in the documents |
| JsonGrammar.DocIsRead | src/nxt_conf.c:230-670 | wherever the text of a document stands before something that may follow it, its value is read up to its end |
| JsonGrammar.DocOf | src/nxt_conf.c:230-670 | wherever a value is read, the text of a document stands |
| JsonParser.ReadValue | src/nxt_conf.c:230-325 | for values |
| JsonParser.ReadArray | src/nxt_conf.c:566-670 | for arrays |
| JsonParser.ReadObject | src/nxt_conf.c:339-516 | for objects: a repeated name is refused, and the parsed members are the listed ones in the order of the hash |
| JsonParser.MakeObject | src/nxt_conf.c:466-516 | the object is given exactly as many members as names were counted, each parsed one once |
| JsonObject.AddName | src/nxt_conf.c:520-562 | the hash declines a name exactly when it was met before in the object |
| JsonObject.CopyMembers | src/nxt_conf.c:484-506 | the walk over the hash writes exactly the counted number of members, so the object is full and nothing is written behind it, and as a multiset they are the parsed ones |
| JsonObject.SelectsAlike | src/nxt_conf.c:484-506 | which members are written does not depend on the order of the walk |
| JsonParser.ReadRound | src/nxt_conf.c:358-476 | one round of the object loop: an end, a member, or an error, as in the grammar, with the name put into the hash |
| JsonParser.ReadMember | src/nxt_conf.c:397-462 | for one member |
| JsonParser.ScanNumber | src/nxt_conf.c:935-1032 | for number texts, with the leading-zero, fraction, exponent and length tests |
| JsonFigures.FigureIsScanned | src/nxt_conf.c:935-1032 | a written number (a minus, digits, a fraction, an exponent, fourteen characters, no leading zero without a minus) is scanned to its end |
| JsonFigures.FigureOf | src/nxt_conf.c:935-1032 | and whatever is scanned was written so |
| JsonLayout.DocOfPage | src/nxt_conf.c:162-1620 | the printed text of a printable value is that of a document with the value, and may stand before whatever ends a number |
| JsonLayout.PrintedParses | src/nxt_conf.c:162-1620 | wherever the printed text of a printable value stands, the parser gives the value back |
| JsonLayout.RoundTrip | src/nxt_conf.c:162-1620 | the top of the parser accepts every printed text whole |
| JsonParser.ReadPrinted | src/nxt_conf.c:162-1620 | reading the printed form of a printable value as the parser runs gives the same value up to the order of members, from any style, unless memory is refused |
| ConfOps.NextToken | src/nxt_conf.c:2166-2197 | cuts the next token off a path and decodes it |
| ConfPaths.EscapedNamesAreTokens | src/nxt_conf.c:2166-2197 | names without slashes, escaped and put behind slashes, are the tokens of the path, but for those longer than 256 bytes when escaped |
| ConfPaths.DecimalIsRead | src/nxt_parse.c:16-52 | the decimal digits of a number, with any leading zeros, are read as that number up to the largest 64-bit one, and as an overflow beyond |
| ConfPaths.OnlyDecimals | src/nxt_parse.c:16-52 | no other text is read as a number |
| ConfClone.OpCompile | src/nxt_conf.c:2024-2162 | builds the op list of a path, or its refusal; a long new name is put into the pool of the request |
| ConfClone.CopyArray | src/nxt_conf.c:2265-2361 | replays an op list on a deep copy of an array |
| ConfClone.CopyObject | src/nxt_conf.c:2365-2491 | replays an op list on a deep copy of an object, names included |
| ConfClone.CopyValue | src/nxt_conf.c:2222-2261 | replays an op list on a deep copy of a value; every string, name, array and object of the result lives in the new pool if and only if the value the op stores does |
| ConfClone.FreshIsCopy | src/nxt_conf.c:2222-2491 | a deep copy has the same value and nothing of it lives in another pool |
| ConfClone.ReplayOwned | src/nxt_conf.c:2265-2491 | of what an op list makes of a deep copy only the value it stores is taken over as it is; a new member's name is copied |
| ConfClone.CompileThenReplay | src/nxt_conf.c:2024-2491 | compiling and replaying is the functional tree update at the path, with the same refusals; no op ever meets a scalar, and the stored value is the edit's own |
| ConfClone.EditConf | src/nxt_conf.c:2024-2261 | the two together, as they run: the functional update or its refusal, wholly in the new pool if and only if the edit's value is, so nothing is shared with the old configuration |
| ConfInline.DupHeld | src/nxt_conf.c:1274-1297 | a new name is kept inside the value exactly when its fourteen bytes hold it, else in the pool of the request |
| ConfInline.EditHeld | src/nxt_conf.c:2024-2491 | if no string or name kept inside a value is longer than fourteen bytes, none is after an edit |
| ConfOps.GetPath | src/nxt_conf.c:1747-1799 | the value at a path |
| ConfOps.GetMember | src/nxt_conf.c:1803-1833 | the first member of a name |
| ConfPaths.IndexNamesElement | src/nxt_conf.c:1747-2162 | the decimal digits of i name element i of an array, an index beyond its end where there is none, and nothing above the largest 32-bit number |
| ConfPaths.GetIsNamed | src/nxt_conf.c:1747-1799 | GET finds what the path names, step by step: the first member of a name, the element of an index |
| ConfPaths.EmptyLastToken | src/nxt_conf.c:1747-2162 | an empty last token is ignored by GET, while DELETE takes it for a member's name |
| ConfPaths.EditSucceeds | src/nxt_conf.c:2024-2162 | whether PUT, POST and DELETE are done, find nothing or are not allowed is decided by what the path up to its last token names, and by that token |
| ConfOps.GetAfterEdit | src/nxt_conf.c:1747-2491 | what is put can be got, and a posted element is the last one of its array |
| ConfOps.EditKeepsTheRest | src/nxt_conf.c:1747-2491 | PUT and POST change nothing at a path that parts from theirs |
| ConfOps.GetAfterDelete | src/nxt_conf.c:1747-2491 | a deleted member is gone; the place of a deleted element holds the next one |
| ConfOps.DeleteKeepsTheRest | src/nxt_conf.c:1747-2491 | DELETE changes nothing at the paths that part from its own, but for the elements behind a deleted one |
| ConfOps.DeleteRemovesName | src/nxt_conf.c:2365-2491 | after a deletion every other name keeps its value |
| Propagation.RunInv | src/ngx_http_ctrl_conf.c:228-677 | every step of every worker keeps the protocol's invariant |
| Propagation.CounterIsExact | src/ngx_http_ctrl_conf.c:228-677 | after any interleaving the counter is the messages posted or unread plus those overwritten, and while it is positive the shared JSON is the last one stored |
| Propagation.Converges | src/ngx_http_ctrl_conf.c:228-677 | when the counter is 0, every worker between handlers that no send has failed for holds the last stored JSON |
| Propagation.HoldsTheStored | src/ngx_http_ctrl_conf.c:228-677 | after any run a worker between handlers holds the last stored JSON if every notification by another worker is followed by one of its own or by its taking a message; and only then, where no JSON text comes twice |
| Propagation.AllConverge | src/ngx_http_ctrl_conf.c:422-677 | after a run without a failed send no worker has missed a message, and when the counter is 0 all workers between handlers hold the last stored JSON |
| Propagation.FailedSendMisses | src/ngx_http_ctrl_conf.c:533-556 | one change and one failed send leave the counter at 0, everybody idle and a worker with the old configuration |
| Propagation.BuffersAreLive | src/ngx_http_ctrl_conf.c:503-556 | no unsent message uses a freed buffer |
| Propagation.HeldForMessages | src/ngx_http_ctrl_conf.c:422-677 | with two workers or more, after any run the shared JSON is there if and only if the counter is positive, every buffer that is held is used, and none is left when nothing is counted or was overwritten |
| Propagation.AloneHoldsOn | src/ngx_http_ctrl_conf.c:422-499 | a worker alone counts no message, and every change leaves the shared JSON and one more buffer behind |
| Propagation.NotifyLoses | src/ngx_http_ctrl_conf.c:422-499 | a notification overwrites a message exactly when its sender has an unsent one |
| Propagation.ExactWhenOrderly | src/ngx_http_ctrl_conf.c:228-677 | the counter equals the messages on their way after a run if and only if no worker notified over its own unsent message |
| Propagation.LostIsForever | src/ngx_http_ctrl_conf.c:228-258 | once a message is lost, no later state lets a change in |
| Propagation.CrowdingLoses | src/ngx_http_ctrl_conf.c:228-499 | the changes already let in can lose a message if and only if some worker has two of them to announce, or one while an older one is unsent, and another worker to tell |
| Propagation.OneAtATimeIsExact | src/ngx_http_ctrl_conf.c:228-499 | workers that let in no change while one of theirs is not yet announced lose no message, whatever the interleaving |
| Propagation.OverlapHappens | src/ngx_http_ctrl_conf.c:228-499 | with two workers, two changes let in by one of them before either body is read lose a message, and after that no change is let in |
| Propagation.Cluster.ConfigHandler | src/ngx_http_ctrl_conf.c:228-258 | the guard is the protocol's step: a change is let in exactly while no message is counted |
| Propagation.Cluster.NotifyAll | src/ngx_http_ctrl_conf.c:422-499 | the notify loop is the protocol's step |
| Propagation.Cluster.WriteHandler | src/ngx_http_ctrl_conf.c:503-556 | so is the write handler, for a delivered, deferred or failed send |
| Propagation.Cluster.ReadHandler | src/ngx_http_ctrl_conf.c:560-653 | a message finds the shared JSON there to be copied |
| Propagation.Cluster.ApplyConf | src/ngx_http_conf.c:334-390 | applying the change in the worker that let it in, which is not asked about the counter again |
| Propagation.Cluster.ApplyCopied | src/ngx_http_ctrl_conf.c:620-637 | a worker that has copied the shared JSON ends up with it, whatever was stored since |
| ConfLife.NeverUsedAfterDestroy | src/ngx_http_conf.c:334-420 | over any run every pointer of a worker or a request is that of a living configuration, and no pool is destroyed twice |
| ConfLife.FromTheStart | src/ngx_http_conf.c:334-420 | the count of a configuration is the number of its holders and of its leaks, and one without holders is destroyed if and only if it has not leaked |
| ConfLife.ExactWhenTakenOnce | src/ngx_http_ctrl_conf.c:19-33 | nothing leaks in a run if and only if no request takes a configuration while it holds one |
| ConfLife.LeakIsForever | src/ngx_http_conf.c:413-420 | a configuration that has leaked is never destroyed |
| ConfLife.TakenTwice | src/ngx_http_ctrl_module.c:116-148 | a rewrite phase that runs twice for one request is enough: its configuration is left without holders and never destroyed |
| ConfLife.Worker.ApplyConf | src/ngx_http_conf.c:334-390 | replaces the global configuration and releases the old one |
| ConfLife.Worker.TakeConf | src/ngx_http_conf.c:394-409 | a request takes the current configuration, over what its context held |
| ConfLife.Worker.ReleaseConf | src/ngx_http_conf.c:413-420 | gives one count back, and destroys the pool with the last one |
| ConfLife.Worker.CleanupRequest | src/ngx_http_ctrl_module.c:203-214 | releases the one configuration the context points to |
| Limiter.ExcessBounded | src/ngx_http_ctrl_limit.c:209-240 | whatever the clock does, the stored excess never exceeds the burst |
| Limiter.AdmittedWhenLeaked | src/ngx_http_ctrl_limit.c:209-240 | a request at or after the last one is admitted if and only if its 1000 fit into the burst beside what rate / 1000 a ms has left of the excess; what is stored and reported then is that sum |
| Limiter.ClockWentBack | src/ngx_http_ctrl_limit.c:209-240 | when the clock went back nothing leaks and the time stays, but after more than a minute it counts as one ms |
| Limiter.SpacedAdmitted | src/ngx_http_ctrl_limit.c:209-240 | a client whose requests satisfy rate * gap >= 1000000 is never refused, and its excess does not grow |
| Limiter.ZoneNeverRefuses | src/ngx_http_ctrl_limit.c:176-283 | the same over a run of the whole zone, for a key that stays |
| Limiter.UsedMostRecently | src/ngx_http_ctrl_limit.c:176-283 | the key of a request is in front of the queue afterwards, the others behind it as they were; a new one starts without excess and is admitted exactly where there was room |
| Limiter.RoomIsMade | src/ngx_http_ctrl_limit.c:244-340 | for a new key up to two stale buckets at the end of the queue go; where there is still no room the oldest one left goes in any case, and up to two stale ones behind it |
| Limiter.RateBound | src/ngx_http_ctrl_limit.c:209-240 | n requests admitted within t ms satisfy 1000 n <= burst - excess + rate t / 1000, whatever is rejected in between |
| Limiter.RateBoundFromCreation | src/ngx_http_ctrl_limit.c:176-283 | from a bucket's creation on, 1000 (n - 1) <= burst + rate t / 1000 |
| Limiter.AdmittedTouches | src/ngx_http_ctrl_limit.c:232-238 | an admitted request leaves the bucket touched at that time, so the bound applies to any later window |
| Limiter.Zone.Lookup | src/ngx_http_ctrl_limit.c:176-283 | serves the key's bucket or makes one, after expiry; the whole new zone is that of the specified step, and the tree, the queue and the buckets agree |
| Limiter.OthersKept | src/ngx_http_ctrl_limit.c:176-340 | a request leaves every other bucket unchanged or drops it; it drops one only when its own key is new, and then a stale one, or the oldest where there was no room |
| Limiter.ServedAlone | src/ngx_http_ctrl_limit.c:176-283 | in a run of the zone with any other keys in between, a key whose bucket stays is served as if it were alone |
| Limiter.ZoneRateBound | src/ngx_http_ctrl_limit.c:176-283 | so the rate bound holds for each such key over the whole run |
| Limiter.Zone.Expire | src/ngx_http_ctrl_limit.c:287-340 | leaves exactly the buckets the expiry rule leaves |
| Limiter.SurvivorsRule | src/ngx_http_ctrl_limit.c:287-340 | what is left is determined by the rule: at most three go from the queue's end, stale ones besides a forced oldest, and it stops early only where the oldest left is not stale |
| Limiter.StaleIsDrained | src/ngx_http_ctrl_limit.c:287-340 | a bucket is stale exactly a minute after its last use or later, when all its excess has leaked out |
| Limiter.Find | src/ngx_http_ctrl_limit.c:176-244 | the descent finds a key exactly when it is in the tree |
| Limiter.InsertValue | src/ngx_http_ctrl_limit.c:416-453 | insertion keeps the search order and adds exactly the key |
| Limiter.InOrderSorted | src/ngx_http_ctrl_limit.c:416-453 | the tree lists its keys in ascending order |
| Pattern.Validate | src/nxt_conf_validation.c:614-675 | accepts exactly the patterns with at most one star, or two at both ends of something longer |
| Pattern.AcceptedByCount | src/nxt_conf_validation.c:614-675 | accepted are one star at most, or two of which one begins and one ends the pattern with something between them |
| Pattern.Create | src/ngx_http_route.c:571-694 | compiles a pattern to its kind and texts |
| Pattern.MatchPattern | src/ngx_http_route.c:1373-1447 | answers what the compiled form means; the two parts of a MIDDLE pattern never overlap |
| Pattern.PatternIsGlob | src/ngx_http_route.c:571-664 | for every accepted pattern the compiled form matches exactly the strings its glob matches, and the substring search never gets an empty needle |
| Pattern.StarIsAnything | src/ngx_http_route.c:571-664 | in a glob a star stands for any bytes: what is before it is matched as it is, up to letter case for headers, and the rest by some end of what follows |
| Route.TestRule | src/ngx_http_route.c:1345-1369 | the loop with its early exits |
| Route.LoopIsMeaning | src/ngx_http_route.c:1345-1369 | with the negative patterns first, the loop accepts exactly when none of them matches and some positive one does, unless there is none |
| Route.OrderDoesNotMatter | src/ngx_http_route.c:499-567 | so the answer is that of the list as it was written |
| Route.CaseIsFolded | src/ngx_http_route.c:571-694 | pattern lists for methods or hosts that differ only in letter case mean the same |
| Route.SpelledInAnyCase | src/ngx_http_route.c:571-694 | a pattern without stars that spells an upper-case method, or a lower-case host, in whatever case admits exactly that text |
| Route.SpelledAsIs | src/ngx_http_route.c:571-694 | any other pattern without stars admits itself: exactly, or up to letter case for headers |
| RouteWritten.NamesAndNegations | src/ngx_http_route.c:499-567 | a list of names, some with a ! before them, is met when no unwanted name is, and some wanted one if there is any |
| Route.UnsortedAnswersWrong | src/ngx_http_route.c:552-567 | without the sort it would not be |
| Route.SameNameSameHash | src/ngx_http_route.c:1210-1306 | the hash test never drops a name that is equal, up to case for headers |
| Route.NamesUpToCase | src/ngx_http_route.c:1210-1306 | header names are equal up to the case of ASCII letters, argument names byte by byte |
| Route.ParseArguments | src/ngx_http_route.c:1451-1543 | one scan yields the entries of all segments |
| Route.JoinedArguments | src/ngx_http_route.c:1451-1543 | arguments joined with = and & are read as those arguments |
| Route.EntryIsParsed | src/ngx_http_route.c:1451-1543 | every segment is parsed to the name and value around its last =, with the hash of the text before its first one, or to nothing when that name is empty |
| Route.EntryIsArgument | src/ngx_http_route.c:1451-1543 | a segment with at most one = is parsed to its name and value, with the hash of its name |
| Route.SimpleReading | src/ngx_http_route.c:1270-1306 | a match object means the same in both readings for requests whose segments have at most one = |
| Route.SpellingIsFree | src/ngx_http_route.c:242-362 | match objects that spell methods and hosts in another case are true of the same requests |
| RouteWritten.MatchIsEach | src/ngx_http_route.c:242-362 | a match object is true when each of its members alone is |
| RouteWritten.SchemeAndUri | src/ngx_http_route.c:242-362 | https in any case asks for TLS, anything else for none; a URI is compared byte by byte |
| RouteWritten.MethodAndHost | src/ngx_http_route.c:242-362 | a method and a host are compared with the upper-case, and lower-case, form of what is written |
| RouteWritten.HeaderAndArgument | src/ngx_http_route.c:1210-1306 | one field of the name at least, and all of them with the value; up to letter case for headers, as they are for arguments |
| RouteWritten.TablesAreAlternatives | src/ngx_http_route.c:366-455 | several objects for headers, or for arguments, are alternatives |
| RouteWritten.RulesAreAllAsked | src/ngx_http_route.c:366-455 | and the rules of one object are all asked for |
| Route.ScanHash | src/ngx_http_route.c:1482-1543 | the running hash is that of the text before the first =, however many there are |
| Route.LastEqualsNames | src/ngx_http_route.c:1451-1543 | a segment gets the name and value around its last =, but the hash of the text before its first one |
| Route.FoundByItsName | src/ngx_http_route.c:1270-1306 | a rule for an entry's name finds the entry if and only if that name and the first one hash alike; with at most one = it always does |
| Route.DroppedArgument | src/ngx_http_route.c:1270-1306 | neither a rule for a nor one for b finds the argument of a=b=c |
| Route.TestHeaders | src/ngx_http_route.c:1210-1266 | at least one occurrence of the name, and all of them pass |
| Route.TestArguments | src/ngx_http_route.c:1270-1306 | the same for query arguments |
| Routes.CreatePatterns | src/ngx_http_route.c:499-548 | the compiled list answers the meaning of the patterns as written |
| Routes.CreateNamed | src/ngx_http_route.c:459-495 | a compiled header or argument rule holds exactly when the configured one means so, for every request |
| Routes.CreateTable | src/ngx_http_route.c:366-455 | a compiled table holds exactly when one of its objects does, or there is none, for every request |
| Routes.CreateMatch | src/ngx_http_route.c:242-362 | all compiled tests hold exactly when the match object means so, for every request |
| Routes.ApplyMatch | src/ngx_http_route.c:1081-1111 | walks the tests, and meets an empty one exactly when all compiled tests hold and a member was not compiled |
| Routes.RouteAction | src/ngx_http_route.c:1059-1077 | the action of the first route that is true of the request, none if there is none, and a null test where that route has a member without one |
| Routes.OneAnswer | src/ngx_http_route.c:1059-1077 | that answer is unique |
| Routes.SpellingOfRoutes | src/ngx_http_route.c:159-362 | and it does not depend on the letter case in which methods and hosts are spelled |
| Routes.ChooseAction | src/ngx_http_route.c:159-1077 | compiling the routes and matching a request gives the answer of the routes as written, for every request as the code takes it apart, and for simple queries as one reads it |

## Left out

- RbTree.Tree.Insert: keys are integers; of the comparison callbacks only that of the blocks of a pool is modelled.
- Pool.Pool.MemAlign: the system allocator hands out memory above everything it handed out before; reuse of returned memory is not modelled.
- Pool.Pool.Align: what the system allocator returns for no bytes is implementation-defined; here it is an address of its own or a refusal.
- Pool.Pool.Get: the alignment of its results is not claimed; sizes are not rounded up by the source either.
- LevelHash.Hash.Insert: buckets and levels are values inside one class, so sharing of memory between them is not expressible; tagged words are treated apart.
- JsonParser.ReadPrinted: number texts are converted by a parameter that stands for strtod; fractional numbers are outside, because the printer has no branch for them.
- JsonParser.Read: the leniencies of the parser (trailing commas, an empty element before a comma, an empty number text) are kept as they are, and are in the documents of `JsonGrammar`; conformance to the grammar of RFC 8259 is not claimed. Error positions and messages are left out.
- ConfClone.OpCompile: allocation always succeeds; so it does in the copying interpreter and in the printer.
- Propagation.Converges: receive errors, write events that are not ready and a failing slab allocation are left out; a failed send is a step of the model.
- Limiter.RateBoundFromCreation: the bound holds for the life of one bucket; expiry uses the rate of the request that needs room, so a bucket may be dropped early.
- Limiter.Zone.Lookup: a key has one policy; keys of more than 255 bytes, negative rates and integer overflow are outside. Its tree is the one of NGINX, which is not part of this model: removal from it is any removal that keeps the order.
- Routes.RouteAction: names above 65535 bytes, NUL bytes in names, source addresses and variables are left out.
- Reference counts of a pool (retain and release) and the zeroing variants of the allocation calls add nothing hard.
- The connection limiter is the request limiter without arithmetic.
- Address text and CIDR matching, upstream peers, statistics, response text, directive parsing, case-folding tables and the code that is not in the build list are not part of this model.
- NGINX itself (requests, phases, events, shared mutex, sockets, files) appears only as atomic steps and parameters.
