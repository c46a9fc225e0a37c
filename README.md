# File-integrity and file-lookup structures, modelled in Dafny

This project models the data structures of a small C file-management toolkit and proves what
each of them promises:

- **Merkle tree integrity checker** (`merkle.c`). Each file becomes a leaf whose hash is the
  SHA-256 hex text of its name and content. Leaves are paired level by level into parents,
  and each parent hashes the concatenated hex texts of its two children. `verify_file`
  re-hashes one leaf, rebuilds the tree and compares the new root with the old one.
  `tamper_file` overwrites a leaf's content. A chained hash map (`NameMap`, djb2 buckets)
  maps file names to leaves.
- **Path trie** (`trie.c`, and a second copy inside `PERSON3.c`). Each node has 128 child
  slots indexed by ASCII code and an end-of-file mark. It supports insert, exact search, a
  prefix test and the recursive listing `printFilesWithPrefix`.
- **Bounded n-ary tree** (`nary.c`). Each node has up to ten children kept in an array with
  a count. It supports `insertChild`, a preorder `search` and a preorder `traverse`.
- **Directory tree** (`Nary_tree_person_A.c`). Nodes are linked first-child/next-sibling. It
  supports `addChild`, which appends a child at the end of the sibling chain, and a
  recursive `searchFileSystem` and `displayFileSystem`.

## How the model is built

**Hashing**
- SHA-256 is only declared by the program, so it is a parameter `sha256: Sha256`: any total
  function from byte strings to 32-byte digests.
- The hex text, the C-string view of a buffer and `snprintf` truncation are modelled
  exactly (module `HexEncoding`).
- A claim that tampering is detected is stated as: the root changes, or SHA-256 maps two
  distinct inputs of a finite, named set to the same digest (`CollisionIn`). The set is made
  of the inputs hashed by the build before and the build after, taken together, so the
  colliding pair may come from one build or pair an input of one build with an input of the
  other. A build over n leaves hashes at most 2n - 2 inputs (`TreeInputsBound`). A
  collision somewhere among all byte strings always exists for a function to 32-byte
  digests, so neither injectivity nor the absence of any collision is assumed.
- The pure functions of `MerkleSpec` define the text of a leaf, of a parent, of one level of
  pairing and of the root. The imperative methods of `Merkle` are proved against them.

**Linked structures**
- The trie, the n-ary tree and the directory tree are Dafny classes whose fields the
  methods update in place.
- Each structure carries a ghost map from the path of each node to the node. A path is the
  sequence of child indices, characters or `Down`/`Next` links that leads to the node from
  the root.
- A validity predicate ties the map to the heap: the paths are prefix-closed, every link
  agrees with the map, and nodes are distinct.
- Recursion over a subtree terminates on the number of paths below its root (module
  `PrefixMaps`).

**Outputs**
- `traverse` and `displayFileSystem` return the sequence of names they would print, in
  printed order. `traverse` prints each name followed by a space on one line;
  `displayFileSystem` prints each name on a line of its own. The separators are not modelled.
- `printFilesWithPrefix` returns the sequence of paths it would print, in printed order.
  The two-space indent and the newline of each printed line are not modelled.
- The demos of the `main` functions are client methods. The postconditions of
  `DemoSession` state the reports of both rounds of the `main.c` demo, the report for the
  tampered `math.txt` up to a collision among at most ten named inputs. Those of
  `DemoListing` and `DemoListingAsWritten` state the listing of the `PERSON3.c` demo.

## Model

| member | source | states |
|---|---|---|
| HexEncoding.HexDigit | merkle.c:21-22 | a value below 16 becomes a lower-case hex digit, never NUL |
| HexEncoding.DigitValue | merkle.c:21-22 | a hex digit reads back as the value that produces it |
| HexEncoding.Hex | merkle.c:21-22 | the hex text of a digest has two hex digits per byte |
| HexEncoding.Unhex | merkle.c:21-22 | decoding a hex text halves its length |
| HexEncoding.UnhexHex | merkle.c:18-25 | decoding the hex text of any byte string gives the string back |
| HexEncoding.HexInjective | merkle.c:18-25 | two byte strings with the same hex text are equal |
| HexEncoding.HexAt | merkle.c:21-22 | characters 2i and 2i+1 are the high and low nibble of byte i |
| HexEncoding.HexAppend | merkle.c:21-22 | the hex text of a concatenation is the concatenation of hex texts |
| HexEncoding.CStr | merkle.c:23 | the C string in a buffer is its NUL-free prefix up to the first NUL |
| HexEncoding.CStrTerminated | merkle.c:23 | a NUL-free text followed by NUL reads back as itself |
| HexEncoding.Format | merkle.c:35 | `snprintf("%s%s")` keeps a prefix of the concatenation, cut to size-1 bytes when it does not fit |
| HexEncoding.Sha256Hex | merkle.c:18-25 | the 65-byte output buffer holds the hex text of the digest followed by NUL |
| MerkleSpec.LeafText | merkle.c:29-38 | a leaf's hash is a 64-character hex text |
| MerkleSpec.ParentText | merkle.c:40-53 | a parent's hash is a 64-character hex text |
| MerkleSpec.ParentInputWhole | merkle.c:47-50 | two hash texts always fit the 130-byte concatenation buffer whole |
| MerkleSpec.NextLevel | merkle.c:140-144 | one pass yields (n+1)/2 hash texts |
| MerkleSpec.NextLevelAt | merkle.c:143-144 | parent k hashes children 2k and 2k+1, or 2k alone when it is the odd last one |
| MerkleSpec.RootIsHashText | merkle.c:139-152 | the root of any non-empty level of hash texts is a hash text |
| MerkleSpec.PassesIsCeilLog2 | merkle.c:139-150 | the pairing loop runs ceil(log2 n) passes |
| MerkleSpec.LevelInputsBound | merkle.c:139-149 | one pairing pass hashes at most (n+1)/2 distinct inputs |
| MerkleSpec.TreeInputsBound | merkle.c:133-154 | a build over n leaves hashes at most 2n - 2 distinct inputs |
| MerkleSpec.TextBinds | merkle.c:18-25 | equal hash texts mean equal inputs or a SHA-256 collision between them |
| MerkleSpec.PairBinds | merkle.c:40-53 | equal parent hashes mean equal children or a collision on the two concatenations |
| MerkleSpec.NextLevelBinds | merkle.c:139-150 | equal next levels mean equal levels or a collision on that level's inputs |
| MerkleSpec.CollisionGrows | merkle.c:139-150 | a collision within a set of inputs is one within any superset |
| MerkleSpec.RootBinds | merkle.c:133-154 | equal roots of equal-size leaf levels mean equal leaves or a collision between two of the inputs hashed by the two builds together |
| MerkleSpec.ChangedLeafChangesRoot | merkle.c:158-186 | changing one leaf hash changes the root unless SHA-256 collides on two of the inputs hashed by the two builds together |
| MerkleSpec.LeafIgnoresOverflow | merkle.c:34-36 | content past the 1023 bytes that fit the leaf buffer does not affect the leaf hash |
| Merkle.MerkleNode.Leaf | merkle.c:29-38 | a leaf copies name and content, has no children, and hashes name followed by content |
| Merkle.MerkleNode.Parent | merkle.c:40-53 | a parent links both children and hashes the concatenation of their hashes, with a missing child reading as empty |
| Merkle.HashText | merkle.c:18-25 | the stored hash text is the hex text of the digest |
| Merkle.MerkleTree.constructor | merkle.h:22-26 | a zeroed tree: no root and no leaves |
| Merkle.BuildLeavesFromArrays | merkle.c:125-131 | returns 0; the tree holds n fresh leaves with the first n names and contents, each hashed from its own name and content |
| Merkle.BuildMerkleTree | merkle.c:133-154 | returns -1 exactly for a missing or empty tree and then leaves it unchanged; otherwise returns 0, the root is the Merkle root of the leaf hashes, the leaves are untouched, and a single leaf is its own root |
| Merkle.PairLevel | merkle.c:139-149 | the new level has (n+1)/2 fresh parents; parent k links left to node 2k and right to node 2k+1, or to null when 2k+1 is past the level; its hash is the next-level text at k |
| Merkle.PairAt | merkle.c:143-144 | the fresh parent made at even index i links to nodes i and i+1 (null past the level) and hashes the next-level text at i/2 |
| Merkle.FindLeaf | merkle.c:162-168 | the index of the first leaf with that name, or none |
| Merkle.VerifyFile | merkle.c:158-186 | an unknown name returns -1 and changes nothing; otherwise only that leaf's hash is refreshed, the tree is rebuilt, and the result is 1 exactly when the root text is unchanged; a leaf whose hash was current verifies as 1; a stale leaf gives 0 unless SHA-256 collides on two of the inputs hashed by the builds before and after, taken together |
| Merkle.RefreshAndRebuild | merkle.c:170-185 | leaf k's hash is recomputed from its name and content, the tree is rebuilt, and the result compares the old and new roots |
| Merkle.TamperFile | merkle.c:190-203 | returns -1 exactly when the tree, name or content is missing or no leaf has the name, and then changes nothing; otherwise returns 0 and replaces only that leaf's content; hashes and root stay as they were |
| NameMaps.CharValue | merkle.c:74-76 | a signed `char` value is in -128..127 and agrees with the byte modulo 256 |
| NameMaps.Djb2 | merkle.c:72-78 | the djb2 hash fits an unsigned 64-bit word |
| NameMaps.Djb2Hash | merkle.c:72-78 | the character loop computes djb2 of the name |
| NameMaps.ChainFind | merkle.c:114-120 | a found node belongs to the first entry of the chain with that name, which is the most recently put; none found means no entry has the name |
| NameMaps.NameMap.constructor | merkle.c:80-85 | the map has the requested number of empty buckets and no contents |
| NameMaps.NameMap.Put | merkle.c:102-110 | returns 0; the contents map the name to the node; the entry goes at the head of bucket djb2 mod nbuckets; other buckets are unchanged |
| NameMaps.NameMap.Get | merkle.c:112-121 | the node most recently put under the name, or null |
| MerkleDemo.VerifyLeaf | main.c:44-46 | verifying file i refreshes its hash and no other; it returns 1 if its hash was current, and otherwise 0 unless SHA-256 collides on two of the inputs hashed by the builds before and after the refresh |
| MerkleDemo.SoundExtend | main.c:44-46 | appending a verification result that is 1 for a current leaf, and 0 for a stale one up to a collision among the inputs of its refresh, keeps the results sound |
| MerkleDemo.VerifyEach | main.c:44-46 | after one round of verification every leaf hash is current; every file whose hash was current reports 1; the one stale file reports 0 unless SHA-256 collides on two of the inputs hashed by the builds over the hashes before and after the round |
| MerkleDemo.BuildTree | main.c:31-39 | the built tree holds the files in order, every leaf hash is current, and the root is built |
| MerkleDemo.IndexOfDistinct | main.c:34-36 | when the names are distinct, putting each leaf under its name maps every name to its own leaf and to nothing else |
| MerkleDemo.IndexLeaves | main.c:28-36 | a fresh valid map of 32 buckets whose contents are the leaves put in order under their names; with distinct names each name maps to its own leaf |
| MerkleDemo.SetUp | main.c:28-39 | the built tree of BuildTree, and a fresh 32-bucket map whose contents are its leaves put under the file names |
| MerkleDemo.TamperAndVerify | main.c:49-56 | after tampering one file, every other file verifies as 1; the tampered file reports 0 unless its hash input is unchanged or SHA-256 collides on two of the session's inputs: its leaf input before and after, and the inputs of the builds over the leaf texts before and after |
| MerkleDemo.SessionInputsBound | main.c:49-56 | a tamper session over n files hashes at most 4n - 2 distinct inputs |
| MerkleDemo.TamperSession | main.c:24-56 | the first round reports 1 for every file; the second reports 1 for every untouched file, and 0 for a truly changed file unless SHA-256 collides on two of the session's inputs |
| MerkleDemo.DemoSession | main.c:17-56 | with the three sample files and any hash function, the first round is [1, 1, 1]; after the tampering the untouched files report 1, and `math.txt` reports 0 unless SHA-256 collides on two of the session's inputs, of which there are at most ten |
| Optional.FirstIndex | nary.c:24-33 | the first position of a value in a sequence, or none exactly when it is absent |
| Optional.FirstIndexUnique | nary.c:24-33 | a position whose value does not occur earlier is the first index |
| Optional.FirstIndexAfter | nary.c:28-31 | behind a prefix without the value, the first index is shifted by the prefix length |
| PathTrie.TrieNode.constructor | trie.c:7-13 | a new node has no end mark and 128 empty child slots |
| PathTrie.Prefixes | trie.c:16-25 | the prefixes of a path, from the empty one to the path itself |
| PathTrie.PrefixesSnoc | trie.c:18-23 | one more character adds exactly one prefix |
| PathTrie.EmptyTrie | trie.c:7-13 | a fresh root is a valid trie storing no file |
| PathTrie.PrunedInsert | trie.c:16-25 | after an insert, every node still lies on the path of a stored file |
| PathTrie.PathsArePrefixes | trie.c:16-25 | a node exists exactly for the root and for prefixes of stored files |
| PathTrie.InsertFile | trie.c:16-25 | the stored files gain exactly the path; the nodes gain exactly its prefixes; existing nodes stay in place; new nodes are fresh |
| PathTrie.MarkEnd | trie.c:24 | setting the end mark adds exactly that path to the stored files |
| PathTrie.Descend | trie.c:20-22 | the child for the character exists afterwards; at most that one node is created; stored files are unchanged |
| PathTrie.AddLeaf | trie.c:20-21 | linking a fresh empty node into an empty slot keeps the trie valid |
| PathTrie.SearchFile | trie.c:28-37 | returns 1 exactly when the path is a stored file, else 0 |
| PathTrie.StartsWith | trie.c:40-49 | returns 1 exactly when the prefix is empty or begins a stored file, else 0 |
| PathTrie.OrderedAppend | trie.c:57-62 | two ordered listings, one entirely before the other, concatenate to an ordered listing |
| PathTrie.LexBranch | trie.c:57-62 | strings that share a prefix and then differ are ordered by that character |
| PathTrie.PrintFilesWithPrefix | trie.c:52-63 | the lines are in ascending order; each is the buffer prefix followed by a stored file's remainder below the node; every stored file below the node is listed |
| PathTrie.FindNode | trie.c:40-49 | the node for a prefix, or null exactly when no node has that path |
| PathTrie.PrintFilesUnder | PERSON3.c:122-129 | the files under a prefix, in order, are exactly the stored files beginning with it |
| PathTrie.SubLines | trie.c:57-62 | lines listed for child c begin with the prefix followed by c and name stored files |
| PathTrie.CoverChild | trie.c:57-62 | after child c's listing, every stored file whose next character is at most c is listed |
| PathTrie.CoverEmpty | trie.c:57-62 | an empty slot c adds no stored file that would need listing |
| PathTrie.SubAfter | trie.c:57-62 | lines listed earlier precede the lines of child c |
| PathTrieDemo.ElemsSnoc | PERSON3.c:99-100 | appending a file adds it to the set of listed files |
| PathTrieDemo.InsertAll | PERSON3.c:99-100 | after the insertion loop, the stored files are the old ones plus the listed paths |
| PathTrieDemo.InsertThenSearch | trie.c:16-37 | a path just inserted is found |
| PathTrieDemo.DemoFilesArePaths | PERSON3.c:87-94 | every sample path is an ASCII path without NUL |
| PathTrieDemo.BuildDemoTrie | PERSON3.c:84-100 | the demo trie stores exactly the six sample files |
| PathTrieDemo.DemoQueries | PERSON3.c:114-122 | the song is a sample file, the podcast is not, and both photos begin with the folder name |
| PathTrieDemo.FileAccessDemo | PERSON3.c:113-125 | the demo finds the song, does not find the podcast, and reports the folder prefix as present |
| PathTrieDemo.OnlyPhotosUnderVacation | PERSON3.c:87-94 | only the two photos begin with the folder name |
| PathTrieDemo.DemoListingAsWritten | PERSON3.c:127-129 | the listing as written prints the folder name followed by `/user/docs/report.txt`, and that path is not a stored file |
| PathTrieDemo.ListedPathNotStored | PERSON3.c:87-94 | the folder name followed by `/user/docs/report.txt` is none of the six stored files |
| PathTrieDemo.DemoListing | PERSON3.c:122-129 | the corrected listing prints exactly the two photos, in order |
| NaryTree.Node.constructor | nary.c:4-11 | a new node copies a name shorter than 50, has no children in use and ten empty slots |
| NaryTree.NamesStep | nary.c:39-40 | visiting child i appends that child's preorder names |
| NaryTree.FoundPrefix | nary.c:28-31 | a match among the nodes visited first is the result whatever follows |
| NaryTree.FoundSkip | nary.c:28-31 | visited nodes without a match do not change the result |
| NaryTree.SingleNode | nary.c:4-11 | a fresh node is a valid one-node tree whose preorder is itself |
| NaryTree.InsertChild | nary.c:14-21 | a full parent is left unchanged; otherwise a fresh childless node with the name goes in slot childCount, the count grows by one, the other slots are unchanged, and the tree stays valid with 0 ≤ childCount ≤ 10 |
| NaryTree.AddLeaf | nary.c:19-20 | linking a fresh empty node in the next slot keeps the tree valid |
| NaryTree.PreorderMembers | nary.c:36-41 | the preorder of a subtree visits exactly its nodes |
| NaryTree.KidsMembers | nary.c:39-40 | the first n children's preorders visit exactly those children's subtrees |
| NaryTree.PreorderInTree | nary.c:36-41 | every path of a subtree's preorder lies in that subtree |
| NaryTree.KidsPrefix | nary.c:39-40 | visiting fewer children gives a prefix of the visit |
| NaryTree.FoundInSubtree | nary.c:24-33 | the first preorder match is null exactly when no node of the subtree has the key, and otherwise has the key |
| NaryTree.FoundEnds | nary.c:25-26 | a root with the key is the result; with no match among the root and its children's subtrees the result is null |
| NaryTree.FoundStep | nary.c:28-31 | a match in child i's subtree is the overall result; no match there extends the set of nodes searched |
| NaryTree.PreorderSplit | nary.c:36-41 | the preorder is the root, the children before i, child i's preorder, then the rest |
| NaryTree.FoundSplit | nary.c:28-31 | a match in the current part is the result; no match extends the part already searched |
| NaryTree.Search | nary.c:24-33 | null for a null root; otherwise the first node in preorder with the key; null exactly when no node of the subtree has the key; any result carries the key |
| NaryTree.Traverse | nary.c:36-41 | the printed names are the subtree's names in preorder; nothing for a null root |
| FileSystemTree.Node.constructor | Nary_tree_person_A.c:29-35 | a new node copies a name shorter than 50 and has no child and no sibling |
| FileSystemTree.NamedSplit | Nary_tree_person_A.c:73-79 | a name occurs at or after a node exactly when it is the node's own, or occurs among its children or its later siblings |
| FileSystemTree.NamedAbsent | Nary_tree_person_A.c:70-71 | no name occurs at a missing link |
| FileSystemTree.Follow | Nary_tree_person_A.c:77-79 | following an existing link narrows the recursion; a missing one holds no name |
| FileSystemTree.SearchFileSystem | Nary_tree_person_A.c:69-80 | returns 0 for a null root; otherwise 1 exactly when the target names the node, a descendant, a later sibling or a descendant of one; the result is 0 or 1 |
| FileSystemTree.WalkMembers | Nary_tree_person_A.c:69-80 | the walk from a link visits exactly the nodes at or after it |
| FileSystemTree.DisplayMembers | Nary_tree_person_A.c:54-63 | the display of a node lists exactly the node and its descendants |
| FileSystemTree.SearchWalks | Nary_tree_person_A.c:69-80 | the search succeeds exactly when the target is among the names the walk visits |
| FileSystemTree.DisplayFileSystem | Nary_tree_person_A.c:54-63 | the printed names are the node and its descendants in preorder, children in sibling order; nothing for a null root |
| FileSystemTree.WalkStep | Nary_tree_person_A.c:58-62 | walking a chain displays the first node's subtree, then walks on from its sibling |
| FileSystemTree.ChainEnd | Nary_tree_person_A.c:44-47 | the end of a sibling chain is the first missing link after it, and equals the start only when the start is missing |
| FileSystemTree.ShiftChain | Nary_tree_person_A.c:47 | a sibling chain of an attached subtree, seen from its new position, is its old chain moved there |
| FileSystemTree.GraftChain | Nary_tree_person_A.c:47 | attaching a tree at a chain's end extends the chain by the attached node's own chain |
| FileSystemTree.ChildrenAfterAdd | Nary_tree_person_A.c:40-49 | after adding, the parent's children are the old children in order followed by the added chain |
| FileSystemTree.Shift | Nary_tree_person_A.c:47 | the attached subtree's nodes appear under the attachment point, and nowhere else |
| FileSystemTree.LastSibling | Nary_tree_person_A.c:44-46 | the loop stops at the last node of the chain, which has no sibling, right before the chain's end |
| FileSystemTree.AddChild | Nary_tree_person_A.c:40-49 | the child becomes the first child of a childless parent, and otherwise the last sibling; only that one link changes; the added nodes are untouched; the children keep their order with the new one last; the tree stays valid |
| FileSystemTree.Graft | Nary_tree_person_A.c:40-49 | attaching a disjoint valid tree at a missing link keeps the tree valid |
| FileSystemTree.GraftOutside | Nary_tree_person_A.c:47 | no existing path extends a missing link |
| FileSystemTree.GraftClosed | Nary_tree_person_A.c:47 | the combined paths stay prefix-closed |
| FileSystemTree.GraftDistinct | Nary_tree_person_A.c:47 | the combined nodes stay distinct |
| FileSystemTree.GraftLinkedOld | Nary_tree_person_A.c:47 | links of the old nodes agree with the combined map |
| FileSystemTree.GraftLinkedNew | Nary_tree_person_A.c:47 | links of the added nodes agree with the combined map |

## Left out

- SHA-256 itself (`sha256.h`, only declared): a parameter standing for any function to 32-byte digests.
- Printing, timing, `scanf` menus, file reading and CSV output of the drivers (`main.c`, `main_cli.c`, `main_trie.c`, `nary_main.c`, the `main` functions of `PERSON3.c` and `Nary_tree_person_A.c`): they are I/O. The demo of `main.c` and the demo of `PERSON3.c` are modelled as client methods; the driver of `nary_main.c` and the predefined tree of `Nary_tree_person_A.c` are not.
- `free_node_recursive`, `free_tree`, `namemap_free`, `freeTrie`, `freeFileSystem`: deallocation has no counterpart in Dafny.
- `print_tree_levelorder`: it only prints the root hash.
- The `parent` links of Merkle nodes: they are written but never read by the core.
- The unused `NameMap *map` parameter of `verify_file` and `tamper_file`: the lookup scans the leaves.
- `merkle.h` declares `build_merkle_tree` as returning `void` and `tamper_file` with three parameters; the model follows `merkle.c`.
- `strdup_safe` and `malloc`/`calloc` failure: allocation is taken to succeed.
- NUL bytes inside names and contents: the C strings are NUL-free by construction, and the model's byte strings are their contents.
- NaryTree.Node.constructor, FileSystemTree.Node.constructor, NaryTree.InsertChild: `strcpy` into a 50-byte buffer overflows on longer names; the model requires names shorter than 50 instead.
- PathTrie.InsertFile, PathTrie.SearchFile, PathTrie.StartsWith, PathTrie.FindNode, PathTrie.PrintFilesUnder: characters outside 1..127 would index outside the 128 slots through a signed `char`; the model requires ASCII paths.
- NameMaps.Djb2: the hash is taken modulo 2^64 with a signed `char`, as on LP64 platforms. `main.c` targets Windows, where `unsigned long` has 32 bits, so the bucket chosen there can differ. The contracts of NameMap.Put and NameMap.Get hold for any bucket choice and do not depend on the width.
- NaryTree.Traverse, FileSystemTree.DisplayFileSystem: the names are returned without the space after each name (`traverse`) or the newline (`displayFileSystem`).
- PathTrie.PrintFilesWithPrefix: each path is returned without the two-space indent and the newline of its printed line. The 256-byte buffer of `PERSON3.c` and its overflow on deep tries are not modelled; the lines are returned as unbounded strings.
- NaryTree.InsertChild: the message printed for a full parent is not modelled; the contract states that nothing changes.
- FileSystemTree.AddChild: requires the added tree to be disjoint from the parent's tree; adding a node already in the tree, which creates a cycle or a shared subtree, is not modelled.
- FileSystemTree.SearchFileSystem, NaryTree.Search: names are compared as whole strings; this is `strcmp(...) == 0` on NUL-free names.
- MerkleDemo.TamperAndVerify, MerkleDemo.TamperSession, MerkleDemo.DemoSession: the tampered file's report of 0 is stated only when its leaf hash input truly changed and SHA-256 maps no two of the session's inputs to the same digest. These are its leaf input before and after, and the inputs of the builds before and after. This is the most a hash function given as a parameter allows.

## Findings

| source | as written | input that shows it | evidently intended | confidence | as-written member | corrected member |
|---|---|---|---|---|---|---|
| PERSON3.c:129 | `printFilesWithPrefix` is called on the trie root with the folder name already in the buffer, so it prints every stored path appended to the folder name | the six sample files and the prefix `/photos/vacation`: one printed line is `/photos/vacation/user/docs/report.txt`, which is not a stored file | descend to the node of the prefix first and list only the files under it: `img1.jpg` and `img2.jpg` | high; not executed | PathTrieDemo.DemoListingAsWritten | PathTrie.PrintFilesUnder |
