# kkchain, verified in Dafny

A Dafny model of the parts of the kkchain node that carry the hardest guarantees, and proofs of those
guarantees for all inputs and all runs. `dafny verify dfyconfig.toml` checks the project.

**The trie** (`Hex`, `Rlp`, `RlpStream`, `RlpEncbuf`, `TrieTree`, `NodeCodec`, `Trie`, `Hasher`, `Proof`,
`TrieApi`, `TrieTheorems`, `Walk`, `Iterator`, `Difference`, `DifferenceTheorems`). `TrieTree` is the
Merkle Patricia trie as a plain tree; `Trie` is the trie the program holds, with cache flags and with
parts that are only hashes. `Live` relates the two, and every operation is shown to do to the live trie
what it does to the tree. The tree is the only one in its normal form for its mapping, so the shape, and
with it the root hash, depends on the mapping alone. Encoding follows Appendices B, C and D of the
Ethereum Yellow Paper.

**Node storage** (`CacheSpec`, `Database`, `SyncSpec`, `Sync`, `NodeKids`, `WholeTries`). The
reference-counted node cache and the download scheduler as classes with one invariant each, kept by every
operation; `WholeTries` instantiates both with real node encodings and concludes that the tries they
serve answer every lookup.

**The pool** (`TxSpec`, `TxList`, `PoolSpec`, `PoolSteps`, `TxPool`), **the event feed** (`Feed`), **the switch
between branches** (`ChainSpec`, `Reorg`) and **ethash** (`Ethash`, following Appendix J of the Yellow
Paper).

Keccak is a parameter `H` with 32-byte results. It is never assumed injective, which no such function is:
where a result needs it, `CollisionFree` asks for no collision within the finite set of encodings in play.
State changed in place is a class; each method's `ensures` says what the new state is and that `Valid()`
is kept. Small lemmas whose body is empty restate a hidden definition for a caller that keeps it hidden,
which is what keeps the proofs quick.

## Findings

Properties that the code does not have, each with an input that shows it and the condition under which
it holds.

| property | source | input | holds | members |
|---|---|---|---|---|
| with nothing pending, a synced trie is complete | trie/sync.go:168-173, 223-227 | a node first asked for as a raw entry: it is stored unread, and asking for it as a trie later does nothing; or one whose leaf callback registers a sub-trie and fails | if no inner node of it was first asked for raw or had its leaf callback fail; every stored node with a missing child is one of these, and both ways of being one hide every child not met before | `WholeTries.RawEntryHidesNode`, `Sync.RawRequestHidesChild`, `Sync.FailedCallbackHidesChild`, `Sync.Scheduler.NothingPendingNothingMissing`, `Sync.Scheduler.MissingChildIsExcused` |
| the size account is the bytes held | trie/database.go:281-301 | one blob of 65504 bytes: accounted for as 0, and after it is committed the empty cache stands at -65536 | exactly if every blob put in so far has a length below 65504 modulo 65536, and every blob still held is shorter than 65536 | `Database.LongBlobIsLost`, `Database.Cache.AccountIsExactIff` |
| the ancestor found by way of the index is the ancestor | core/blockchain.go:951-981 | three blocks give way to one of more difficulty: for the old head, two blocks down, the new head is named | if the block is not above the head; for one above it, on any branch, after one switch: exactly if it does not descend from the old branch's block next above the head, or the height asked for is not above the fork and up to the head, or is that of the parent | `Reorg.StaleIndexMisleads`, `Reorg.StaleIndexAnywhere`, `Reorg.StaleIndexIff`, `Reorg.AncestorByIndexIsWalk` |
| the whole dataset is filled | consensus/pow/algorithm.go:308 | a dataset of more than 2^26 rows: rows from 2^26 on are never written; lower ones are written more than once, and with one worker end up with the item of a later row | up to 2^32 bytes; beyond, row 2^26 is never written | `Ethash.GenerateDataset`, `Ethash.LatestIs`, `Ethash.LowRowsAreOverwritten` |
| `hashimotoFull` reads the row it names | consensus/pow/algorithm.go:387-389 | a dataset of more than 2^28 rows: row 2^28 is read as row 0 | for rows below 2^28, and not beyond | `Ethash.RowRead` |
| a proof made by `Prove` verifies | trie/proof.go:21-113 | the empty trie: there is nothing to put into the proof, and nothing that would verify | exactly if the trie is not empty | `Proof.ProveThenVerify`, `Proof.VerifyEmpty` |
| iteration from a key meets the keys not below it | trie/iterator.go:222-238 | start "ab" in a trie with the key "a": the terminator sorts behind all nibbles, so "a" is met | exactly if no key of the trie is a proper prefix of the start | `Iterator.PrefixIsMet`, `Iterator.IterateFrom`, `Walk.StartOrder` |

## Model

| member | source | states |
|---|---|---|
| `Hex.KeybytesToHex` | trie/encoding.go:50-59 | the loop yields the hex form of a key: two nibbles per byte, high one first, then the terminator 16; `KeybytesRoundTrip` and `HexOfInjective` say what that form is good for |
| `Hex.DecodeNibbles` | trie/encoding.go:75-79 | the loop packs nibbles two to a byte; `HexOfPack` makes it the inverse of unpacking |
| `Hex.HexToCompact` | trie/encoding.go:22-37 | the flag byte and the packed nibbles of a path are its compact form, from which `CompactRoundTrip` recovers the path (Yellow Paper, Appendix C) |
| `Hex.HexToKeybytes` | trie/encoding.go:63-73 | a hex key of even length, terminated or not, gives back its bytes |
| `Hex.PrefixLen` | trie/encoding.go:82-94 | the loop finds the length of the longest common prefix |
| `Hex.CommonPrefix` | trie/encoding.go:82-94 | both start with it, and it ends where one of them does or where they differ |
| `Hex.KeybytesRoundTrip` | trie/encoding.go:50-73 | every key is recovered from its hex form, which ends in the terminator and has nibbles before it |
| `Hex.HexOfInjective` | trie/encoding.go:50-59 | different keys have different hex forms |
| `Hex.HexOfPack` | trie/encoding.go:50-79 | unpacking the packed nibbles of an even-length path gives the path and the terminator |
| `Hex.CompactRoundTrip` | trie/encoding.go:22-48 | `compactToHex` undoes `hexToCompact` on every terminated key and every run of nibbles, odd or even |
| `Hex.HexOfIs` | trie/encoding.go:50-61 | the hex form byte by byte: high half, low half, and 16 at the end |
| `Hex.CompactIs` | trie/encoding.go:22-37 | the compact form nibble by nibble: 2 for a terminated key, one more for an odd number of nibbles, a zero to fill up an even number, then the nibbles |
| `TrieTree.UpdateCanon` | trie/trie.go:206-273 | insertion keeps the normal form: branches have at least two children, no short node is under a short node, leaf keys are terminated and values are not empty |
| `TrieTree.DeleteCanon` | trie/trie.go:297-404 | deletion keeps the normal form, and never empties a branch |
| `TrieTree.UpdateLookup` | trie/trie.go:206-273 | after an insertion its key has the new value and every other key the one it had |
| `TrieTree.DeleteLookup` | trie/trie.go:297-404 | after a deletion its key has no value and every other key the one it had |
| `TrieTree.OnlyChild` | trie/trie.go:344-354 | the position of the only child left, -1 if there is none, -2 exactly if there are two or more |
| `TrieTree.Unique` | trie/trie.go:206-404 | two tries in normal form that hold the same value under every complete key are the same trie |
| `TrieTree.DeleteUndoesFreshUpdate` | trie/trie.go:188-404 | deleting a key right after it was first inserted gives back the trie there was |
| `TrieTree.RunLookup` | trie/trie.go:121-404 | after any sequence of updates and deletes, an update with an empty value being a delete, a key of any length has the last value written to it, or none |
| `TrieTree.RunHoldsKeysOnly` | trie/trie.go:188-404 | no path that is not the hex form of a key holds a value |
| `TrieTree.HistoryIndependence` | trie/trie.go:188-404 | two sequences of updates and deletes leave the same trie if and only if they leave the same mapping |
| `Trie.ResolveLive` | trie/trie.go:413-430 | a hash node of a trie loads, and what is loaded stands for the same subtree |
| `Trie.GetLive` | trie/trie.go:121-166 | a lookup that loads hash nodes on its way returns what the represented tree holds, and the trie with the loaded nodes in it represents the same tree |
| `Trie.InsertLive` | trie/trie.go:206-273 | insertion into a trie with cached and unloaded parts represents insertion into the tree, for every node kind; it reports "not dirty" only if nothing changed |
| `Trie.DeleteLive` | trie/trie.go:297-404 | the same for deletion |
| `Trie.ReduceLive` | trie/trie.go:344-384 | collapsing a branch with one child left, which is loaded to see whether it is a short node, represents the collapse of the tree |
| `Trie.FindOnly` | trie/trie.go:344-354 | the loop, which stops at the second child, finds the position that a full count would |
| `NodeCodec.DecodeEncoded` | trie/node.go:114-132 | the stored encoding of a node decodes, whatever follows it, to the node with its large children replaced by their hashes and small ones embedded |
| `NodeCodec.DecodeShortEncoded` | trie/node.go:134-154 | the same for the two items of a leaf or extension, through the compact key |
| `NodeCodec.DecodeFullEncoded` | trie/node.go:156-173 | the same for the seventeen items of a branch |
| `NodeCodec.DecodeChildren` | trie/node.go:158-164 | the loop over sixteen references reads what reading them one after the other does, and stops at the first error |
| `NodeCodec.DecodeRefEncoded` | trie/node.go:177-200 | a reference is read back as the embedded node, the hash, or nothing |
| `NodeCodec.DecodeRefIs` | trie/node.go:177-200 | what else may stand there: a list of at most 32 bytes that decodes as a node, an empty string, a string of 32 bytes; any other string is refused |
| `NodeCodec.RefSize` | trie/hasher.go:151-176 | a reference takes at most 33 bytes, and an embedded node less than 32 |
| `NodeCodec.EncIsBlob` | trie/hasher.go:110-164 | in every encoded node a child that encodes to less than 32 bytes stands as that encoding, any other as its hash, a value as it is |
| `Hasher.RawNodeItem` | trie/database.go:89-108 | a simplified node has the same encoding as the node itself |
| `Hasher.ExpandIsLoaded` | trie/database.go:211-245 | expanding a node cached in memory gives what decoding the stored one gives, so both ways of loading agree |
| `Hasher.HashLive` | trie/hasher.go:62-107 | hashing yields the reference to the subtree, keeps the trie representing it through cached hashes and unloading by generation, and when it writes, everything below is in the store |
| `Hasher.UnloadedIff` | trie/hasher.go:62-77 | a commit unloads a node with a known hash exactly if it is clean and its generation lies back by the limit or more, counted modulo 2^16 |
| `Hasher.HashChildrenLive` | trie/hasher.go:109-149 | the collapsed node has the node's encoding, the cached one represents the same subtree |
| `Hasher.StoreLive` | trie/hasher.go:151-195 | nodes of 32 bytes or more, and the root, are replaced by the hash of their encoding and filed under it; smaller ones stay |
| `Hasher.HashAdds` | trie/hasher.go:149-185 | hashing writes only blobs of nodes of the trie, each under its hash, and none below 32 bytes but the root |
| `Hasher.SavedNodes` | trie/hasher.go:149-185 | and after a commit every node of 32 bytes or more is there |
| `Hasher.HashRootLive` | trie/trie.go:457-464 | the root hash is that of the represented tree whatever was cached, and a hash node with it stands for the whole trie once written |
| `Hasher.HashRootWrites` | trie/trie.go:457-464 | what a commit makes of the store: the root and every node of 32 bytes or more under their hashes, smaller ones inside them, and nothing else new |
| `Hasher.EmptyRootIs` | trie/trie.go:15-16 | the hash of the empty trie is that of the byte 0x80 |
| `TrieApi.EmptyRoots` | trie/trie.go:84-100 | the zero hash and the hash of the empty trie both open an empty trie |
| `TrieApi.MerkleTrie.Get` | trie/trie.go:121-128 | for every tree the object represents: the answer is the tree's, and it goes on representing it |
| `TrieApi.MerkleTrie.Update` | trie/trie.go:188-204 | the object then represents the updated tree; an empty value deletes; a fault leaves the root as it was |
| `TrieApi.MerkleTrie.Delete` | trie/trie.go:284-295 | the object then represents the tree without the key |
| `TrieApi.MerkleTrie.Hash` | trie/trie.go:436-441 | the root hash of the represented tree, which is the hash of a blob in which small children are embedded and others stand as hashes; the trie is unchanged |
| `TrieApi.MerkleTrie.Commit` | trie/trie.go:444-455 | the root hash, the next 16-bit generation, a trie that can be loaded again, and a store that has gained exactly the nodes of 32 bytes or more and the root |
| `TrieTheorems.Perform` | trie/trie.go:121-464 | one operation of a run: the trie represents the tree of the writes so far, and a lookup gives the last value written |
| `TrieTheorems.Replay` | trie/trie.go:121-464 | over every sequence of lookups, updates, deletes, hashes and commits on an empty trie, each lookup gives the last non-empty value written and nothing otherwise |
| `TrieTheorems.CommitThenReload` | trie/trie.go:84-100 | a trie opened at the root hash that a commit returned answers every lookup as the committed trie does |
| `TrieTheorems.RootHashInjective` | trie/hasher.go:62-195 | two tries in normal form have the same root hash if and only if they are the same |
| `TrieTheorems.RootHashStandsForMapping` | trie/trie.go:436-464 | whatever their histories and caches, two tries have the same root hash if and only if they hold the same mapping |
| `Proof.GetInNode` | trie/proof.go:115-137 | the loop walks as far as one loaded node leads |
| `Proof.VerifyProof` | trie/proof.go:89-113 | the loop follows the hashes from the root and reports the value, its absence, or the position of the node that is missing or broken |
| `Proof.VerifySound` | trie/proof.go:89-137 | for a trie that is not empty, over any store that files blobs under their own hash: an answer without error is what the trie holds, and there is one exactly if the nodes on the way are in the store |
| `Proof.VerifyAnswers` | trie/proof.go:89-137 | the same for every trie by its root hash: for the empty one there is never an answer |
| `Proof.VerifyEmpty` | trie/proof.go:89-113 | nothing verifies against the root hash of the empty trie |
| `Proof.CollectPath` | trie/proof.go:23-51 | the nodes collected represent the subtrees on the path to the key, the longest existing prefix of it if it is absent |
| `Proof.EmitPath` | trie/proof.go:52-71 | the proof consists of the encodings of the root and of the nodes of 32 bytes or more on the way, without the first ones left out, each under its hash, and of nothing else |
| `Proof.Prove` | trie/proof.go:21-73 | exactly the elements for the way to the key, the first of them left out as asked for; with none left out every node on the way can be found |
| `Proof.ProveThenVerify` | trie/proof.go:21-137 | verifying a proof just made returns what the trie holds, for present and absent keys, exactly if the trie is not empty |
| `Rlp.ParseEncoded` | rlp/decode.go:495-517 | reading the encoding of any item tree, whatever follows, gives the tree and the length of its encoding |
| `Rlp.ParseIsCanonical` | rlp/decode.go:853-1018 | what reads as a value is the canonical encoding of that value, so no other form is read |
| `Rlp.EncodeInjective` | rlp/encode.go:174-207 | different item trees have different encodings |
| `Rlp.EncodeIs` | rlp/encode.go:119-193 | the encoding of Appendix B: a byte below 128 stands for itself, strings have heads from 128 and 183 on, lists from 192 and 247 on, with up to 55 bytes in the short form |
| `Rlp.ReadHead` | rlp/encode.go:119-142 | every header that is written is read back as its kind and size, with the 56-byte and the 8-byte limit |
| `Rlp.HeadIsCanonical` | rlp/raw.go:70-140 | a header is accepted only if it is the one that would be written: no size in more bytes than needed, none below 56 in long form, no single byte below 128 as a string |
| `Rlp.CountValues` | rlp/raw.go:58-68 | the loop counts the values in a buffer, up to the first error |
| `Rlp.CountEncoded` | rlp/raw.go:58-68 | the encodings of a list of items one after the other are counted as that many |
| `Rlp.SplitEncoded` | rlp/raw.go:23-56 | splitting off the encoding of an item gives its kind, its content and exactly the rest |
| `RlpStream.StreamAgreesWithSlice` | rlp/decode.go:886-946 | stream and slice reader accept the same headers, apart from the single-byte string that the stream rejects later, and agree on kind and boundary |
| `RlpStream.ParseByHead` | rlp/decode.go:853-946 | reading by the stream's header and body rules is reading by the slice's rules |
| `RlpStream.Stream.constructor` | rlp/decode.go:613-617 | a stream over a byte string with that input limit |
| `RlpStream.Stream.WillRead` | rlp/decode.go:1000-1018 | succeeds exactly if that many bytes are left in the innermost list and the input, and then counts them in both |
| `RlpStream.Stream.ReadFull` | rlp/decode.go:974-987 | the next bytes, exactly if there are enough |
| `RlpStream.Stream.ReadUint` | rlp/decode.go:948-972 | the big-endian number in the next bytes, rejecting a leading zero |
| `RlpStream.Stream.ReadKind` | rlp/decode.go:886-946 | the header at the start of what is left, exactly if it is well formed |
| `RlpStream.Stream.Kind` | rlp/decode.go:853-884 | end of list exactly at its end; otherwise kind and size, exactly if the value fits the list and the input; asked again, the same answer without reading on |
| `RlpStream.Stream.Bytes` | rlp/decode.go:632-653 | whether or not the header has been read: the content of a string in canonical form, an error for a list, for a single byte in long form and for a bad header |
| `RlpStream.Stream.List` | rlp/decode.go:741-753 | enters the next value if it is a list, with as much room as its header says; an error otherwise |
| `RlpStream.Stream.ListEnd` | rlp/decode.go:757-772 | leaves a list exactly if it has been read to its end, and advances the enclosing one past it |
| `RlpStream.Stream.DecodeInterface` | rlp/decode.go:495-517 | the value at the start of what is left, exactly if there is one, and the stream is just behind it |
| `RlpStream.Stream.DecodeSliceElems` | rlp/decode.go:322-349 | all elements up to the end of the list, exactly if all of them can be read |
| `RlpStream.DecodeBytes` | rlp/decode.go:120-130 | succeeds exactly if one value takes up all of the input, and returns it |
| `RlpStream.DecodeBytesIsInverse` | rlp/decode.go:120-130 | decoding returns a tree if and only if the input is the encoding of that tree: a bijection between item trees and canonical encodings |
| `RlpEncbuf.HeadsOrdered` | rlp/encode.go:195-207 | offsets of list heads do not decrease and stay within the string data |
| `RlpEncbuf.RenderIsEncode` | rlp/encode.go:214-254 | string data with the list heads put in at their offsets are the recursive encoding of the tree (Yellow Paper, Appendix B) |
| `RlpEncbuf.LengthSplits` | rlp/encode.go:195-212 | the encoding is as long as the string data and all list heads together |
| `RlpEncbuf.IntSize` | rlp/encode.go:627-633 | the loop counts the bytes of the big-endian form, one for zero |
| `RlpEncbuf.Encbuf.EncodeString` | rlp/encode.go:174-193 | appends the encoding of a string, a single byte below 128 as itself |
| `RlpEncbuf.Encbuf.List` | rlp/encode.go:195-199 | opens a list head that remembers offset and head bytes so far |
| `RlpEncbuf.Encbuf.ListEnd` | rlp/encode.go:201-208 | closes it with the size of what was added since, and accounts for its head |
| `RlpEncbuf.Encbuf.Write` | rlp/encode.go:475-509 | string data, list heads and head bytes grow by exactly those of the item |
| `RlpEncbuf.ToBytes` | rlp/encode.go:214-230 | fills a buffer of the announced size exactly with data and heads in order |
| `RlpEncbuf.ToWriter` | rlp/encode.go:232-254 | writes the same bytes piece by piece |
| `RlpEncbuf.EncReader.Next` | rlp/encode.go:290-321 | moves on to the next piece without losing or repeating a byte, or to the end |
| `RlpEncbuf.EncReader.Read` | rlp/encode.go:265-284 | fills the buffer unless the end comes first; what was read and what is left are together what was left before |
| `RlpEncbuf.EncodeToBytes` | rlp/encode.go:81-90 | the result is the recursive encoding |
| `RlpEncbuf.EncodeToWriter` | rlp/encode.go:64-79 | the bytes written are the recursive encoding |
| `RlpEncbuf.EncodeToReader` | rlp/encode.go:96-106 | the announced size is the length of the encoding, and under any sequence of buffer sizes the reader yields the encoding from its start, whole when it reports the end |
| `Walk.PreAscending` | trie/iterator.go:289-325 | pre-order goes by strictly increasing paths |
| `Walk.PreLeaves` | trie/iterator.go:289-325 | a leaf is visited at a path exactly if the trie holds its value there |
| `Walk.LeavesFrom` | trie/iterator.go:222-238 | from a start on, exactly the leaves at or after it are visited |
| `Walk.StartOrder` | trie/iterator.go:222-238 | the path of a key is at or after the start exactly if the key is not below it or is a proper prefix of it |
| `Iterator.NodeIterator.NextChild` | trie/iterator.go:289-325 | finds the next child exactly if there are visits left below the node, and nothing is skipped |
| `Iterator.NodeIterator.Pop` | trie/iterator.go:335-339 | goes back to the parent and its path |
| `Iterator.NodeIterator.Peek` | trie/iterator.go:241-275 | finds the next visit, past the children of the current node if told so, exactly if there is one |
| `Iterator.NodeIterator.Push` | trie/iterator.go:327-333 | makes it current, with the same visits after it |
| `Iterator.NodeIterator.Next` | trie/iterator.go:203-220 | the current visit and those still to come are those that were still to come, children skipped if told so; at the end it stays there |
| `Iterator.NodeIterator.Seek` | trie/iterator.go:222-238 | what is still to come are the visits at or after the start, although whole subtrees are skipped on the way |
| `Iterator.Collect` | trie/iterator.go:203-220 | a whole run yields all visits, each once |
| `Iterator.IterateFrom` | trie/iterator.go:119-126 | an iteration from a key yields exactly the leaves whose key is not below it or is a proper prefix of it, in strictly increasing order of their paths |
| `Iterator.PrefixIsMet` | trie/iterator.go:222-238 | with the key "a" in a trie, an iteration from "ab" meets it |
| `Difference.DifferenceIterator.constructor` | trie/iterator.go:368-375 | the first iterator is moved to its first node, or to its end if it has none; the second not yet |
| `Difference.DifferenceIterator.Next` | trie/iterator.go:405-445 | stops at the next node of the merge that the second trie has and the first lacks, or ends exactly if there is none |
| `Difference.DiffLeaves` | trie/iterator.go:405-445 | a leaf is among the stops exactly if the second walk has it and the first does not, although subtrees with equal hashes are skipped |
| `Difference.DiffAscending` | trie/iterator.go:341-357 | the stops go by strictly increasing paths, so none comes twice |
| `Difference.Drain` | trie/iterator.go:405-445 | a whole run yields all stops |
| `DifferenceTheorems.DifferenceIsExact` | trie/iterator.go:341-445 | for two tries under a hash without collisions among their nodes: the leaves met are exactly the pairs of the second that are not in the first |
| `DifferenceTheorems.IterateDifference` | trie/iterator.go:368-445 | the same of a whole run of the iterator: these pairs and no others, each once and in order |
| `Database.Cache.constructor` | trie/database.go:249-256 | an empty cache over a disk store in which every node has its children |
| `Database.Cache.Childs` | trie/database.go:151-161 | exactly the external children and the hashes in the node, with multiplicity |
| `Database.Cache.Insert` | trie/database.go:277-302 | a node whose children are cached or on disk joins the end of the flush list once; it is put in with no parent and counted with its children; a second insertion changes nothing |
| `Database.Cache.Reference` | trie/database.go:391-413 | one more reference, from outside as often as called, from a node at most once; nothing if the child is not cached |
| `Database.Cache.Dereference` | trie/database.go:416-447 | one reference from outside less: the root stays exactly if it has others; what is left without one goes, only nodes below the root can go, and those that stay keep their blobs, their children and no more references than they had |
| `Database.Cache.Release` | trie/database.go:449-492 | drops one edge and, with the last one, the node and the edges below it; nothing goes that does not lie below, and counts, list and closure are right again at the end |
| `Database.Cache.Uncache` | trie/database.go:706-730 | takes a trie that is on disk out of the cache, every node with all below it, and nothing that is not on disk |
| `Database.Cache.CommitNode` | trie/database.go:678-700 | children before parents: at every write of the batch, all nodes on disk have their children on disk |
| `Database.Cache.Commit` | trie/database.go:607-675 | if the disk works, or else as long as no write fails: the root is on disk and out of the cache with everything below it, and only nodes on disk have left it; if a write fails, the cache is as it was and the disk still closed |
| `Database.Cache.Cap` | trie/database.go:496-601 | if the disk works, or else as long as no write fails: within the limit or nothing left to flush; exactly the oldest nodes have gone, all of them on disk, and before each of them went the size was above the limit, so within it nothing goes; if a write fails, as for Commit |
| `Database.Cache.FlushOldest` | trie/database.go:530-554 | walks the list from the oldest node on, each put into the batch, as long as the size left is above the limit and no longer |
| `Database.Cache.EvictTo` | trie/database.go:571-580 | takes exactly those nodes off the front of the list |
| `Database.Cache.ReferencedTrieIsWhole` | trie/database.go:318-349 | every node of every trie that is referenced, cached or stored can be read and is the node with that hash |
| `Database.Cache.NoLeak` | trie/database.go:751-771 | while every cached node that is not on disk has a parent, each lies below the meta root or below a node on disk |
| `Database.Cache.AccountIsExactIff` | trie/database.go:281-301 | the size account is the bytes held exactly if every blob put in had a length below 65504 modulo 65536 and every one held is shorter than 65536 |
| `Database.LongBlobIsLost` | trie/database.go:301-301 | a run: one blob of 65504 bytes is accounted for as 0, and after it is committed the empty cache stands at -65536 |
| `Sync.Scheduler.constructor` | trie/sync.go:67-76 | a scheduler that asks for the root unless it is the empty one or known |
| `Sync.Scheduler.AddSubTrie` | trie/sync.go:79-108 | the requests afterwards, exactly: a root that is empty or known changes nothing, another is asked for once as a trie node and a parent then waits for it |
| `Sync.Scheduler.AddRawEntry` | trie/sync.go:114-141 | the same for a raw entry; it is noted as raw exactly if it was neither stored nor asked for |
| `Sync.Scheduler.Missing` | trie/sync.go:144-150 | hands out the deepest entries of the queue, deepest first, up to the maximum; those left are the others |
| `Sync.Scheduler.Schedule` | trie/sync.go:223-232 | one request per hash: a second one only adds those who wait |
| `Sync.Scheduler.Children` | trie/sync.go:262-292 | exactly the children that are stored neither in memory nor on disk |
| `Sync.Scheduler.Process` | trie/sync.go:155-197 | accepts deliveries up to the first that was not asked for, has its data already, does not decode or fails its callback, judged in the state it meets, and names it with its error; each one before it is stored, or keeps its data and waits for another, with its children stored or asked for; something was committed exactly if the batch grew; nothing is excused but raw entries of callbacks and the delivery whose callback failed |
| `Sync.Scheduler.RunCallback` | trie/sync.go:266-272 | what a leaf callback registers, one entry after the other, whether it fails afterwards or not |
| `Sync.Scheduler.ProcessOne` | trie/sync.go:158-195 | the outcome of one delivery, and that only the hashes it names can be asked for because of it; the data are in the batch, or set with a request that waits for others; a raw one is stored and asks for nothing; one whose children are all stored is stored; one whose callback failed is kept with what the callback registered, and its children are not looked at |
| `Sync.Scheduler.OutcomeIs` | trie/sync.go:158-185 | each outcome exactly: the first of the checks that fails, none for a raw entry or a node that decodes |
| `Sync.Scheduler.Complete` | trie/sync.go:298-315 | stores a request that waits for nothing, then all that waited for it alone: whoever of them is still pending waits for something else; ends, as pending requests only become fewer |
| `Sync.Scheduler.Commit` | trie/sync.go:201-213 | writes in order of completion: after any number of writes, what is written has its dependencies in the database; if the database works all of the batch is written as it is, and nothing else changes |
| `Sync.Scheduler.DepsAreExact` | trie/sync.go:186-194 | the count of a request is the number of its places among those that wait for pending requests |
| `Sync.Scheduler.PrefixIsClosed` | trie/sync.go:298-303 | every prefix of the completion order together with the database holds the children of its nodes |
| `Sync.Scheduler.NothingPendingNothingMissing` | trie/sync.go:216-218 | with nothing pending, every node of every trie asked for is stored, if no inner node on the way was first asked for raw, failed its callback, or was taken unread before |
| `Sync.Scheduler.MissingChildIsExcused` | trie/sync.go:236-293 | with nothing pending, a stored node with a child missing was first asked for raw, failed its callback, or was taken unread before |
| `Sync.RawRequestHidesChild` | trie/sync.go:168-173 | for every scheduler at rest: a node first asked for raw, delivered, and then asked for as a trie leaves each child not met before missing, with nothing pending |
| `Sync.FailedCallbackHidesChild` | trie/sync.go:181-190 | for every scheduler at rest: a node whose callback registers a sub-trie and then fails is stored once the sub-trie is there, and each child not met before is missing, with nothing pending |
| `Sync.FetchAbove` | trie/sync.go:175-190 | a root whose children are all stored is complete once it arrives |
| `NodeKids.NoHashMissed` | trie/sync.go:236-293 | every hash that decoded node data hold at any depth is among the children looked at: embedded nodes are too short to hold one |
| `WholeTries.SyncedTrieAnswers` | trie/sync.go:155-213 | with real node encodings: a trie whose download has finished and been written answers every lookup, unless one of its nodes was excused |
| `WholeTries.ServedTrieAnswers` | trie/database.go:318-349 | whatever was inserted, referenced, released, flushed and committed: a trie whose root is referenced, cached or on disk answers every lookup |
| `WholeTries.RawEntryHidesNode` | trie/sync.go:168-173 | two extension nodes, the lower one first asked for raw: nothing is pending, the trie counts as fetched, and the hash below is missing |
| `TxList.SortedMap.Put` | core/tx_list.go:57-63 | the map gains the transaction; the heap holds exactly the map's nonces with the lowest first, and a kept listing is still the sorted contents |
| `TxList.SortedMap.Forward` | core/tx_list.go:68-82 | everything below the threshold goes and is returned in order of nonces |
| `TxList.SortedMap.Filter` | core/tx_list.go:86-107 | exactly what matches goes and is returned |
| `TxList.SortedMap.Cap` | core/tx_list.go:111-132 | the lowest nonces stay, the others are returned highest first |
| `TxList.SortedMap.Remove` | core/tx_list.go:136-153 | one nonce goes if it is there |
| `TxList.SortedMap.Ready` | core/tx_list.go:162-177 | the run without gaps from the lowest nonce on goes and is returned, if it starts no higher than asked |
| `TxList.SortedMap.Flatten` | core/tx_list.go:187-200 | the only listing of the contents in order of nonces, whether kept or made anew |
| `TxList.List.Add` | core/tx_list.go:235-256 | a transaction comes in exactly if its nonce is free or it outbids the old one by the bump; the caps cover all contents |
| `TxList.List.Forward` | core/tx_list.go:261-263 | everything below the threshold goes, caps still cover the rest |
| `TxList.List.Filter` | core/tx_list.go:274-298 | exactly what costs too much goes and, in a strict list, all that comes after it; the shortcut by caps never misses any |
| `TxList.List.Cap` | core/tx_list.go:302-304 | the lowest nonces stay |
| `TxList.List.Remove` | core/tx_list.go:309-320 | one nonce goes and, in a strict list, all after it, which are returned |
| `TxList.List.Ready` | core/tx_list.go:329-331 | the executable run goes and is returned |
| `TxList.List.Flatten` | core/tx_list.go:346-348 | the contents in order of nonces, unchanged |
| `TxSpec.FilterIsExact` | core/tx_list.go:274-298 | what is removed, what is invalidated and what stays, each with an if-and-only-if |
| `TxSpec.CappedKeepsLowest` | core/tx_list.go:111-132 | as many as allowed stay, and all of them are below all that go |
| `TxSpec.FlatUnique` | core/tx_list.go:187-200 | there is only one listing in order of nonces |
| `TxSpec.FlatCapped` | core/tx_list.go:111-132 | the listing of what stays is the front of the listing there was |
| `TxSpec.RunEndIs` | core/tx_list.go:162-177 | the run ends at the first nonce that is missing |
| `TxSpec.ReadyIs` | core/tx_list.go:162-177 | what is ready is that run, or nothing if the lowest nonce is too high |
| `TxSpec.OutbidsIs` | core/tx_list.go:235-246 | a replacement is dearer, and by the bump in percent up to rounding |
| `TxPool.Pool.constructor` | core/tx_pool.go:148-194 | an empty pool |
| `TxPool.Pool.PriceRemoved` | core/tx_list.go:405-420 | the price heap goes on covering all live transactions; it is built anew from exactly those when departures are more than a quarter of it |
| `TxPool.Pool.IsUnderpriced` | core/tx_list.go:451-475 | a transaction counts as underpriced exactly if it is not local, the pool is not empty, and no transaction in the pool is cheaper, stale heap entries notwithstanding |
| `TxPool.Pool.Discard` | core/tx_list.go:479-502 | live, not local, no dearer than any such transaction that stays, as many heap entries as asked for or all there are; none twice if the heap has none twice |
| `TxPool.Pool.EnqueueTx` | core/tx_pool.go:678-699 | the queue gains the transaction or rejects it; a demoted one is never rejected |
| `TxPool.Pool.PromoteTx` | core/tx_pool.go:601-630 | pending gains the transaction, the virtual nonce is one more and the account shows a sign of life, or an old one with the nonce stays |
| `TxPool.Pool.RemoveTx` | core/tx_pool.go:634-673 | gone from the lookup and from its list; later pending ones of its account are back in the queue and the virtual nonce is lowered |
| `TxPool.Pool.PromoteAccount` | core/tx_pool.go:440-483 | queue and pending list of the account afterwards, exactly: stale and unpayable transactions are gone, the run from the virtual nonce has moved to pending, the rest is cut to its limit from the highest nonce down unless local; other accounts stay as they are |
| `TxPool.Pool.EqualizePending` | core/tx_pool.go:488-556 | within the global limit or no account but local ones above its slots; whoever lost something lost its highest nonces, and is level with the largest and not below its slots; no more goes than has to: with one more for each loser there would be too much |
| `TxPool.Pool.Penalise` | core/tx_pool.go:504-533 | offenders so far are lowered to the size of the next one, all of them to the same length, or until the limit is met |
| `TxPool.Pool.TruncateQueue` | core/tx_pool.go:557-594 | within the global limit or only local transactions left; accounts lose their highest nonces, local ones nothing, and no more goes than has to; accounts with the latest sign of life lose first, although the comment there speaks of the oldest |
| `TxPool.Pool.EnforceLimits` | core/tx_pool.go:488-594 | both limits: only highest nonces of accounts that are not local go, and only as far as a limit asks for it |
| `TxPool.Pool.PromoteExecutables` | core/tx_pool.go:428-595 | for every account given, queue and pending are first brought up to date exactly as above, for others nothing changes; then pending and queue are cut, from the highest nonces down, only where the limits ask for it; both limits and the per-account one hold at the end; the partition and the runs without gaps are kept |
| `TxPool.Pool.DemoteAccount` | core/tx_pool.go:1018-1055 | pending list and queue of the account afterwards, exactly: stale and unpayable transactions are gone, those above the first unpayable one, or all if the front is missing, are in the queue, the rest is pending and starts at the state nonce |
| `TxPool.Pool.DemoteUnexecutables` | core/tx_pool.go:1017-1056 | the same, exactly, for all accounts; runs without gaps stay so |
| `TxPool.Pool.Settle` | core/tx_pool.go:1002-1008 | demotion and virtual nonces of all accounts, exactly |
| `TxPool.Pool.SetVirtual` | core/tx_pool.go:1004-1008 | the virtual nonce of every account is one above its last pending one, or as before without any; over runs without gaps pending nonces are then exactly the interval up to it |
| `TxPool.Pool.Add` | core/tx_pool.go:766-853 | the refusal that is due, or what it comes to: the cheapest are squeezed out of a full pool, and the transaction takes its place unless it is held by one that it does not outbid; every list, the lookup and the local accounts afterwards |
| `TxPool.Pool.Squeeze` | core/tx_pool.go:786-804 | with a full pool a transaction is turned away exactly if it is not local and no dearer than all there are; otherwise the cheapest go, and there is room then or only local ones are left, if no heap entry comes twice |
| `TxPool.Pool.MakeRoom` | core/tx_pool.go:795-803 | what goes is no dearer than what stays, and never local; no more goes than asked for, at least one goes if there is one, and exactly as many as asked for or all that are not local if no heap entry comes twice |
| `TxPool.Pool.ReplaceInPending` | core/tx_pool.go:805-832 | a pending transaction is replaced exactly if it is outbid by the bump |
| `TxPool.Pool.AddTx` | core/tx_pool.go:307-322 | the same as a batch of one: refused exactly as due, else in the pool unless a limit cut it off; with the next nonce of its account, and none queued with it, pending while the whole pool is below the pending slots; partition, runs and soundness are kept |
| `TxPool.Pool.AddTxs` | core/tx_pool.go:348-369 | each transaction is refused or placed as due in the state left by those before it, then the accounts with something new are promoted; every accepted one is in the pool afterwards unless a later one ousted it or a limit cut it off; below the limits an accepted one with the next nonce is pending |
| `TxPool.Pool.Evict` | core/tx_pool.go:247-261 | exactly the accounts that are not local and have been idle for the lifetime lose their queue, all of it; all else stays |
| `TxPool.Pool.Reset` | core/tx_pool.go:920-1012 | against a new head: transactions are brought back as a batch, all lists demoted and promoted exactly as the new state has it, and the limits enforced; whatever was in the pool and fits the new state, or is brought back and valid in it, is in the pool unless ousted, turned away for price, or cut off by a limit; with nothing to bring back the demoted lists are given exactly, and runs stay without gaps |
| `TxPool.Replay` | core/tx_pool.go:196-1056 | over every sequence of submissions, evictions and new heads: the lookup is the disjoint union of pending and queue, each list holds its own account's transactions, no transaction is oversized, of negative value, short of gas for its data or, unless local, below the price limit; and without reinjection pending nonces are the interval from the state nonce to the virtual one |
| `PoolSpec.InOnePlace` | core/tx_pool.go:601-699 | no transaction is in two places |
| `PoolSpec.FairMeans` | core/tx_pool.go:488-556 | equalisation spares local accounts and those within their slots, pushes nobody below them, and leaves nobody that lost something behind an account that did not |
| `PoolSpec.QueuedAboveVirtual` | core/tx_pool.go:462-469 | with runs without gaps, a queued nonce not below the state nonce is not below the virtual one |
| `PoolSteps.CheckedIs` | core/tx_pool.go:704-745 | each check exactly when it is the first to fail; all pass exactly for a transaction of at most 32768 bytes, no negative value, enough gas for its data and a price above the limit unless local, with a nonce not used up, gas and money granted by the state |
| `PoolSteps.SlotHeld` | core/tx_pool.go:805-832 | at most one transaction holds an account's nonce, wherever it is |
| `PoolSteps.AddsKeeps` | core/tx_pool.go:766-853 | whoever is gone after an addition was outbid in its place, or was not local and no dearer than what stayed when there was no room |
| `PoolSteps.AddsAccepts` | core/tx_pool.go:766-853 | whoever is accepted is there and passed the checks, and nobody else has come in |
| `PoolSteps.AddsSound` | core/tx_pool.go:766-853 | a pool of sound transactions stays one, even when a local one replaces a pending one without making its account local |
| `PoolSteps.ChainKeeps` | core/tx_pool.go:348-359 | what is in the pool at one moment of a batch is there at its end, or was ousted by one of those added since |
| `PoolSteps.BatchAccepts` | core/tx_pool.go:348-369 | whatever is accepted is in the pool after the batch, or was ousted later, or cut off by a limit |
| `PoolSteps.BatchPromotes` | core/tx_pool.go:348-369 | below the limits an accepted transaction with the next nonce is pending, if nobody takes its place |
| `PoolSteps.PromotionKeeps` | core/tx_pool.go:428-595 | of the transactions that fit the state, promotion loses only those that a limit cuts off the end of their list |
| `PoolSteps.DemotionKeeps` | core/tx_pool.go:1017-1056 | demotion loses none that fits the state |
| `PoolSteps.ResetKeeps` | core/tx_pool.go:992-1012 | what was in the pool and fits the new state survives a new head, or was ousted or cut off |
| `PoolSteps.ResetBrings` | core/tx_pool.go:992-1012 | what is brought back and valid in the new state survives as well, unless it was turned away as cheapest in a full pool or as not outbidding |
| `Feed.Broadcast.Find` | event/feed.go:197-204 | the first position of a channel, or -1 exactly if it is not there |
| `Feed.Broadcast.Subscribe` | event/feed.go:57-77 | a new subscription waits for the next Send |
| `Feed.Broadcast.Unsubscribe` | event/feed.go:88-99 | off the inbox at once, or in line for removal from the send cases |
| `Feed.Broadcast.RemoveIdle` | event/feed.go:101-108 | with no Send running the channel is found and goes |
| `Feed.Broadcast.BeginSend` | event/feed.go:113-138 | a Send starts with exactly the subscriptions there are |
| `Feed.Broadcast.Deliver` | event/feed.go:139-166 | one case is served and leaves the active part; none is lost or duplicated |
| `Feed.Broadcast.TrySendAll` | event/feed.go:140-149 | every delivery of the fast path is counted |
| `Feed.Broadcast.RemoveDuring` | event/feed.go:153-161 | a removal during a Send takes the channel out of the part it is in: missed if it was still active, served before otherwise |
| `Feed.Broadcast.EndSend` | event/feed.go:113-174 | everyone there at the start was served once or was removed first; the number returned is that of deliveries; the cases left are those at the start without the removed ones |
| `Feed.DeletedBag` | event/feed.go:207-209 | deleting a case takes out that one and no other |
| `Feed.SwappedBag` | event/feed.go:212-216 | deactivating a case takes it from the active part to the other |
| `Feed.Step` | event/feed.go:57-174 | one event of a run: what it does to the subscriptions, whether a removal took place, and what that means for a running Send |
| `Feed.Replay` | event/feed.go:57-174 | over every interleaving of subscriptions, removals and sends: each Send that gives back the lock has its round and has served every subscription there when it took the lock exactly once, unless it was removed first, and returns their number; those removed first and those removed after they were served are together exactly the removals that took place while it ran |
| `ChainSpec.MeetIsHighest` | core/rawdb/accessors_chain.go:313-337 | where two walks meet is a common ancestor, and there is none above it |
| `ChainSpec.MeetExists` | core/rawdb/accessors_chain.go:313-337 | with both ways to the same genesis block stored, they meet |
| `Reorg.FindCommonAncestor` | core/rawdb/accessors_chain.go:313-337 | the three loops find where the two walks meet, or that a block is missing |
| `Reorg.FindFork` | core/blockchain.go:392-429 | the walk of a reorganisation ends at the same block, with exactly the blocks passed on either side |
| `Reorg.Chain.Insert` | core/blockchain.go:488-496 | the block is canonical at its height and the head |
| `Reorg.Chain.WriteTxLookupEntries` | core/rawdb/accessors_indexes.go:33-50 | one entry for each transaction with its place; the last place counts |
| `Reorg.Chain.Adopt` | core/blockchain.go:452-460 | the blocks of the new branch become canonical from the lowest up, with all their entries |
| `Reorg.Chain.SwitchTo` | core/blockchain.go:384-479 | succeeds exactly if the branches meet; then the entries of the old branch that the new one does not have go and its own are added; an index that followed the old branch follows the new one at all heights, lookup entries lead to the new branch or shared ancestors only, and none is missing unless a transaction was repeated |
| `Reorg.Chain.SetHead` | core/blockchain.go:360-378 | the same when a stored block becomes head by difficulty, whether it extends the old head or not |
| `Reorg.FollowsNew` | core/blockchain.go:452-460 | index of the old branch and blocks of the new one make the index of the new branch |
| `Reorg.SoundNew` | core/blockchain.go:452-469 | after the entries of dropped transactions are gone, every entry leads to its transaction in the new chain |
| `Reorg.FullNew` | core/blockchain.go:452-469 | and every transaction of the new chain has one, if none was on the old branch and below the fork |
| `Reorg.Chain.GetAncestor` | core/blockchain.go:951-981 | the loop gives what the walk with the shortcut gives |
| `Reorg.AncestorByIndexIsWalk` | core/blockchain.go:951-981 | for a block not above the head: the answer is the ancestor by parents, and there is one if enough steps off the index are allowed |
| `Reorg.ByIndexIs` | core/blockchain.go:951-981 | over any index, with enough steps: the index answers if it names the block or an ancestor above the height asked for, the walk to parents otherwise; with fewer there may be no answer, but never another |
| `Reorg.ByIndexCosts` | core/blockchain.go:951-981 | what the walk with the shortcut gives and costs over any index: one step of the budget for each height down to the first that the index names; with a smaller budget no answer and nothing left of it |
| `Reorg.StaleIndexIff` | core/blockchain.go:951-981 | for a block of the old branch above the new head, whatever the bound on steps: right exactly for heights that the new branch did not take over |
| `Reorg.StaleIndexAnywhere` | core/blockchain.go:951-981 | after one switch, for a complete block above the new head on any branch: right exactly if it does not descend from the old branch's block next above the new head, or the height asked for is not one the new branch took over |
| `Reorg.StaleIndexMisleads` | core/blockchain.go:951-981 | a switch from three blocks to one, after which the old head's ancestor two down is said to be the new head |
| `Ethash.FnvHash` | consensus/pow/algorithm.go:214-218 | every word of the mix is mixed with the word of the data at its place |
| `Ethash.FnvIs` | consensus/pow/algorithm.go:209-211 | the first operand is scaled and the second is not, so that the data can be taken out again |
| `Ethash.GatherIs` | consensus/pow/algorithm.go:346-349 | an access reads the rows 2p and 2p+1 of page p, as 32-bit numbers |
| `Ethash.PagesAre` | consensus/pow/algorithm.go:325-327 | the number of pages is the size over 128, cut to 32 bits |
| `Ethash.GenerateDatasetItem` | consensus/pow/algorithm.go:222-251 | the in-place mixing of 256 cache rows gives the item defined step by step, 64 bytes long |
| `Ethash.MixRows` | consensus/pow/algorithm.go:241-244 | the loop mixes in the rows that the mix itself selects |
| `Ethash.BatchInBytes` | consensus/pow/algorithm.go:295-295 | the rows per worker computed from sizes in bytes are those computed from rows |
| `Ethash.SegmentsPartition` | consensus/pow/algorithm.go:295-300 | every row is in the segment of exactly one worker |
| `Ethash.RowWrittenIsRight` | consensus/pow/algorithm.go:308-308 | the 32-bit offset leads to the row modulo 2^26, which is the row itself exactly below that |
| `Ethash.FillSegment` | consensus/pow/algorithm.go:303-308 | a worker leaves in each row the last item of its segment written there, and other rows alone |
| `Ethash.LatestIs` | consensus/pow/algorithm.go:289-318 | with all workers done: rows below 2^26 hold an item for the same row modulo 2^26, their own if there are no more, and rows from there on are never written |
| `Ethash.LowRowsAreOverwritten` | consensus/pow/algorithm.go:308-308 | with one worker, each low row that has a counterpart 2^26 further on ends up with the item of a later one |
| `Ethash.GenerateDataset` | consensus/pow/algorithm.go:255-321 | in any order of workers: each row holds the last item written there, rows from 2^26 on are as before, and up to 2^26 rows all are right |
| `Ethash.Hashimoto` | consensus/pow/algorithm.go:325-363 | seed, 64 accesses and compression, in place, give digest and result as defined step by step |
| `Ethash.Compress` | consensus/pow/algorithm.go:352-356 | folding four words into one in place does not disturb words still needed |
| `Ethash.RowRead` | consensus/pow/algorithm.go:387-389 | the 32-bit word offset reads row `i` modulo 2^28 |
| `Ethash.HashimotoLight` | consensus/pow/algorithm.go:368-381 | evaluation with items computed from the cache |
| `Ethash.HashimotoFull` | consensus/pow/algorithm.go:386-392 | evaluation with items read from the dataset, of any size, as found with 32-bit indices |
| `Ethash.LightIsFull` | consensus/pow/algorithm.go:368-392 | on a dataset of at most 2^28 rows that is filled from the cache, both agree for every header hash and nonce |
| `Ethash.NumeratorIs` | consensus/pow/ethash.go:32 | the numerator of the target is 2 to the power of 256 |
| `Ethash.VerifySeal` | consensus/pow/pow.go:161-208 | no error exactly if the difficulty is positive, the mix digest is the one computed and the result times the difficulty is at most 2^256; each error exactly when its check is the first to fail; the same from the dataset and from the cache |
| `Ethash.TargetIs` | consensus/pow/pow.go:204-207 | the comparison with the target, without division |
| `Ethash.Mine` | consensus/pow/pow.go:279-340 | tries the nonces from the seed on, modulo 2^64, and returns the first good one, or none exactly if none of those tried is good; a sealed header differs from the block's in nonce and digest only, and the digest is that of the nonce |
| `Ethash.MineThenVerify` | consensus/pow/pow.go:161-340 | a seal that is found passes exactly if the difficulty is positive; with a negative one nothing is found down to -2^256; nothing found means no nonce tried was good |
| `Ethash.SealAndVerify` | consensus/pow/algorithm.go:255-392 | from the cache to the seal: on a dataset of at most 2^32 bytes filled by any workers in any order, every seal found passes |

## Left out

- Keccak, signatures, disk and network: parameters or plain maps; a write batch is written as one step, which may fail unless `works` is given.
- Locks and the moments between them: each call is one step. `Feed` is the exception: its steps interleave freely.
- Hash collisions: `CollisionFree` is asked for within a finite set of encodings, and nothing is claimed when it fails.
- Encodings of 2^64 bytes and more: excluded by `SIZE_LIMIT` and `Encodable`, as the length of a length is one byte.
- RLP type dispatch, the numeric, optional, struct and raw paths, and streams without an input limit.
- Stored nodes that no trie writes: a short node with an empty key string is reported as an error where the program would fail or walk on.
- The leaf callback of the hasher, the preimage store, and the counters and logs of the node cache.
- Database.Cache.Reference: does not cover a parent that is no newer than its child, or a child that is not lower, because then no order of insertion can flush children first.
- Database.Cache.Dereference: does not cover a cached root that other nodes refer to but nothing from outside; there the program drops a reference that is not its own.
- Database.Cache.Insert: covers children first, as the hasher inserts; parent counts are unbounded where the program has 16 bits.
- Sync.Scheduler.AddSubTrie: a parent has its data, as it has while its leaf callback runs; the program stops on a parent that is not pending.
- Sync.Scheduler.AddRawEntry: as for AddSubTrie, a parent has its data.
- Sync.Scheduler.Process: the leaf callback is given by what it registers and whether it fails; deliveries are not checked against their hash, as in the program.
- Sync.Scheduler.Missing: priorities are integers, not 32-bit floats.
- Iterator.NodeIterator.Next: over tries whose nodes can all be loaded; errors of missing nodes, leaf proofs and the union iterator are left out.
- Difference.DifferenceIterator.Next: the count of nodes scanned is kept but not claimed to be anything.
- TxList.SortedMap.Put: the heap is a list with its lowest element first; the order of the others, which is the library's, is left open.
- TxPool.Pool.Cheapest: the price heap is a list searched for its cheapest entry; its counter of stale entries is kept but not claimed to be exact.
- TxPool.Pool.MakeRoom: with a transaction in the price heap twice, as after it was removed and added again, fewer may go than asked for; how many is left open between one and that number.
- TxPool.Pool.Reset: the transactions to reinject are a parameter; contiguity is claimed when there are none, as only a gap at the front is repaired.
- TxPool.Pool.Penalise: the priority queue is a search for the largest account; nonces do not wrap at 64 bits.
- TxPool.Pool.constructor: the journal, subscriptions, the signer and the chain are left out; time is a number.
- TxPool.Pool.PromoteExecutables: signs of life are stated per account and promotion, not for a whole run.
- Reorg.Chain.SetHead: the path of a block that lost the comparison of difficulty is left out; it becomes head all the same, without a switch.
- Reorg.Chain.SwitchTo: events and logs are left out.
- Reorg.StaleIndexAnywhere: one switch over an index that names no ancestor of the block above the old head; for any other index, ByIndexIs says what the answer is.
- Feed.Broadcast.Subscribe: type checks by reflection are left out, and so is who waits for whom: only what happens is claimed, not that it happens.
- Ethash.GenerateDataset: workers take turns by whole segments; below 2^26 rows they write different rows, so a finer interleaving gives the same. Byte order and cache generation are left out.
- Ethash.VerifySeal: fake, test and shared modes are left out; the dataset is given or not.
- Ethash.Mine: being told to stop is a number of attempts.
- Secure trie, gas and state transition, virtual machine, wallets, RPC and the peer-to-peer layer.
