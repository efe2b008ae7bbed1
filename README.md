# nikke storage core, modelled in Dafny

This project models four sequential pieces of the nikke embedded database
(a Rust crate) and proves properties of them:

- **B+ tree index** (`index.dfy`, with the stable sort it relies on in
  `sorting.dfy`). This is the in-memory tree of `src/index.rs`. Nodes hold
  keys, children and a leaf flag. `insert` pushes and sorts keys, splits
  overfull leaves and internal nodes, and grows a new root. `search` descends
  by the same routing rule as `insert`.
  - Each child has exactly one owner, so nodes are values (`datatype Node`).
    The tree object (`class BPlusTree`) replaces its root slot.
  - The proofs show that insertion keeps every node within `order - 1` keys
    and keeps every leaf strictly increasing.
  - The proofs also show that insert fails exactly when search finds the
    key, and that a key inserted into a leaf with room is found afterwards.
  - Two flaws of the routing are proved as lemmas about one case: when a
    full root leaf splits on a key larger than all of its keys, the separator
    becomes unreachable, and that same key can then be inserted a second
    time.
- **LRU buffer pool** (`buffer_pool.dfy`). This is `src/buffer_pool.rs`: a
  map from page id to page handle, plus a queue ordered from most to least
  recently used.
  - The bookkeeping is stated by the functions `Touch`, `Evict` and
    `Admit`. The methods of `class BufferPool` are proved to follow them.
  - The proofs about those functions give the pool's invariants: the queue
    holds each cached id exactly once, and the pool stays within capacity.
  - A storage error leaves the pool unchanged.
- **Fixed-slot page store** (`storage.dfy`). This is `src/storage.rs`. The
  file is a byte sequence, and page `id` occupies bytes
  `[id * 4096, (id + 1) * 4096)`.
  - bincode is a pair of abstract functions (`Codec`). Decoding an encoding
    gives the page back, with any bytes after it ignored; the read-after-write
    lemma takes this as a hypothesis.
  - The proofs cover the size check, zero padding, disjoint slots, reading
    back what was written, and the allocated id. That id is
    `len / PAGE_SIZE`, truncated to 32 bits.
- **SQL lexer and keyword classifiers** (`lexer.dfy`, `tokens.dfy`). These
  are `src/lexer.rs` and `src/tokens.rs`.
  - `class Lexer` keeps the character iterator, the current character and
    `peek_char`. Its methods are proved against `Lex`, a function giving the
    token and the remaining input of one `next_token` call.
  - The lemmas give, for each kind of literal, what `Lex` returns.
  - `peek_char` is set once, by the constructor, and never updated. The
    lemmas show the result: `a <= b` is lexed as `<` then `=`.

`wrappers.dfy` holds `Option` and `Result`.

### Where the code departs from the usual B+ tree

The model follows the code in each case.

- **Routing a key equal to a separator.** The code takes the first
  separator `>= key` and so sends an equal key to the left child
  (`src/index.rs:108-112`, and the same rule in `search`). The leaf split
  puts the separator in the right leaf as its first key
  (`src/index.rs:91-102`). So the separator can be stored but no longer
  found. `Index.SeparatorKeyLost` proves this for a full root leaf that
  splits on a key larger than all of its keys. The test at
  `src/index.rs:216-241` inserts 0 to 99 with order 4 and expects `search(i)`
  to find each `i` after all the insertions. `Index.FirstKeysOfTest` proves
  that `search(2)` already fails after the fourth insertion. The state after
  all 100 insertions is not covered by a lemma. The usual convention sends an
  equal key to the right.
- **Internal split.** The code's `split_off(mid + 1)` keeps the middle key
  in the left node as well as promoting it (`src/index.rs:131-142`). The
  usual convention promotes it without keeping it.
- **Duplicate rejection.** The code checks for a duplicate only in the
  target leaf (`src/index.rs:83-86`). A separator key that routing no longer
  reaches can therefore be inserted again. `Index.DuplicateAccepted` proves
  this after the same root leaf split.
- **What the tree holds.** The tree lives only in memory and never uses its
  buffer pool. `insert` drops the value (`src/index.rs:45-74`), and `search`
  answers `key * 10` for a found key (`src/index.rs:170-176`).
- **File length and errors.** The page store never checks that the file
  length is a multiple of `PAGE_SIZE`: `allocate_page` truncates
  `len / PAGE_SIZE` (`src/storage.rs:117`), so a partial last page is
  overwritten from its start. Errors are `std::io::Error` values. The model
  keeps three of them: a short read (`read_exact`, `src/storage.rs:84`),
  undecodable data (`InvalidData`, `src/storage.rs:87-88`) and an oversized
  encoding ("Page size exceeded", `src/storage.rs:98-103`).

## Model

| member | source | states |
|---|---|---|
| `Index.ChildIndex` | src/index.rs:108-112 | the routing index: every key before it is smaller than the probe, and the key at it (if any) is at least the probe |
| `Index.ValueOf` | src/index.rs:176 | the value search reports for a key: `key * 10` for every non-negative key (the cast and product wrap modulo 2^64) |
| `Index.LeafSplit` | src/index.rs:91-102 | the old leaf keeps exactly `order / 2` keys, the two halves concatenate to the overfull keys, and the separator is the new leaf's first key; both are leaves, the new one childless |
| `Index.InternalSplit` | src/index.rs:131-142 | the two halves' keys and children concatenate to the node's; the left keeps `order / 2 + 1` keys and as many children; the separator is `keys[order / 2]`, which is also the left node's last key |
| `Index.InsertLeaf` | src/index.rs:83-105 | fails exactly when the key is already in the leaf; otherwise the results are leaves and neither holds more than `order - 1` keys when the leaf did not |
| `Index.Absorb` | src/index.rs:120-143 | after a child split the rebuilt node and its sibling are internal, hold no more keys than children and no more than `order - 1` keys, and their children are a permutation of the old children with the split child replaced and the new sibling added |
| `Index.AbsorbContents` | src/index.rs:120-143 | the keys of the rebuilt node and its sibling, read in order, are the old keys plus the separator, sorted (not necessarily strictly); their children, read in order, are sorted by first key, with the separator standing in for a child without keys |
| `Index.InsertRec` | src/index.rs:75-149 | a successful insertion yields a node and a sibling in which every internal node still has at least as many children as keys, the property the internal split relies on |
| `Index.Rebuilt` | src/index.rs:118-144 | the node after its child at `pos` was rebuilt: still internal, no more keys than children, and within `order - 1` keys when the node was |
| `Index.RebuiltContents` | src/index.rs:118-144 | without a split the node keeps its keys and only the child at `pos` is replaced, and no split is passed up; after a split the keys of the node and its sibling are the old keys plus the separator |
| `Index.RebuiltChildren` | src/index.rs:118-142 | every child of the rebuilt node and of its new sibling is an old child, the rebuilt child, or that child's sibling |
| `Index.RebuiltKeeps` | src/index.rs:118-142 | any property of nodes that holds of the old children, the rebuilt child and its sibling holds of all children after rebuilding |
| `Index.SearchRec` | src/index.rs:163-196 | search returns `None` or `Some(key * 10)`, never the inserted value |
| `Index.Target` | src/index.rs:182-194 | the routing rule ends, if at all, in a leaf |
| `Index.InsertRoot` | src/index.rs:59-69 | `insert` on an existing root fails exactly when the recursive insert does; on success the new root is the grown root, and it keeps the children-cover-keys property |
| `Index.Grown` | src/index.rs:61-68 | after a root split the new root is internal, has the separator as its one key and `[old root, new sibling]` as its children; otherwise the root is the rebuilt old root |
| `Index.GrownKeeps` | src/index.rs:61-68 | a grown root keeps the children-cover-keys property, the `order - 1` key bound and strictly increasing leaves |
| `Index.InsertFailsIffFound` | src/index.rs:83-89 | insertion fails exactly when search finds the key, and the failure is always the duplicate-key error |
| `Index.NoChildNoEffect` | src/index.rs:114-147 | when the routing index is not a valid child, insert changes nothing and search finds nothing |
| `Index.InsertIntoLeaf` | src/index.rs:85-102 | a new key joins the leaf's keys at its sorted place, the keys stay strictly increasing, the two halves of a split concatenate to them, and a split happens exactly when the leaf already had at least `order - 1` keys (exactly `order - 1` in a tree within the bound) |
| `Index.InsertKeepsBound` | src/index.rs:83-143 | no insertion takes a node, or the new sibling, above `order - 1` keys |
| `Index.InsertKeepsLeavesIncreasing` | src/index.rs:83-143 | every leaf stays strictly increasing after an insertion |
| `Index.InsertWithRoom` | src/index.rs:75-196 | when the target leaf has room and lacks the key, insertion succeeds without a split, search then finds the key, and every other probe gets the same answer as before |
| `Index.RootLeafSplit` | src/index.rs:45-102 | a full root leaf receiving a larger key splits at `order / 2` under a new internal root whose one key is the right leaf's first key |
| `Index.SeparatorKeyLost` | src/index.rs:91-112 | when a full root leaf splits on a key larger than all of its keys, the separator is still stored (in the right leaf) but search no longer finds it, though it did before |
| `Index.DuplicateAccepted` | src/index.rs:83-118 | after that same root leaf split, inserting the separator again succeeds and leaves it in both leaves |
| `Index.FirstKeysOfTest` | src/index.rs:216-241 | with order 4, once 0, 1 and 2 fill the root leaf, the test's fourth insertion (3) splits it, and 2, found before, is no longer found; the state after all 100 insertions is not covered |
| `Index.AppendToLeaf` | src/index.rs:83-105 | a key above every key of a root leaf with room is appended to it and the root stays a leaf |
| `Index.BPlusTree.constructor` | src/index.rs:30-41 | the tree starts with the given order and an empty root leaf |
| `Index.BPlusTree.New` | src/index.rs:25-42 | fails with the order message exactly when the order is below 3; otherwise a fresh valid tree with an empty root leaf |
| `Index.BPlusTree.Insert` | src/index.rs:45-72 | an empty slot gets a one-key leaf; a failure leaves the root unchanged; a success installs the grown root; the tree stays valid (children cover keys, keys within `order - 1`, leaves strictly increasing) |
| `Index.BPlusTree.Search` | src/index.rs:152-160 | `None` for an empty slot, otherwise `None` or `Some(key * 10)` |
| `Sorting.InsertByKey` | src/index.rs:88-89 | inserting into place adds exactly one element: the length grows by one and the multiset gains the element |
| `Sorting.InsertedFrom` | src/index.rs:88-89 | every element after insertion is the new element or an old one |
| `Sorting.InsertSorted` | src/index.rs:89 | insertion into a sorted sequence keeps it sorted |
| `Sorting.SortByKey` | src/index.rs:124-129 | `sort` / `sort_by_key`: the result is a sorted permutation of the input |
| `Sorting.SortStable` | src/index.rs:124-129 | the sort is stable: the elements with any one key appear in the result in their input order |
| `Sorting.InsertAtEnd` | src/index.rs:88-89 | an element with the largest key is inserted at the end |
| `Sorting.SortSorted` | src/index.rs:89 | sorting a sorted sequence returns it unchanged |
| `Sorting.PushThenSort` | src/index.rs:88-89 | `push` then `sort` on a sorted vector equals insertion into place |
| `Sorting.InsertIncreasing` | src/index.rs:85-89 | inserting a new key into a strictly increasing sequence keeps it strictly increasing |
| `BufferPool.IndexOf` | src/buffer_pool.rs:48 | the first position holding the id, or `None` exactly when the id is not in the queue |
| `BufferPool.QueueLength` | src/buffer_pool.rs:17-20 | a queue matching the pool is exactly as long as the pool |
| `BufferPool.TouchKeepsQueue` | src/buffer_pool.rs:41-52 | a hit puts the id at the front, keeps the others in order, keeps the length, and keeps the queue matched to the pool |
| `BufferPool.PushFresh` | src/buffer_pool.rs:51 | pushing an absent id to the front keeps the queue duplicate-free |
| `BufferPool.WithoutKeepsDistinct` | src/buffer_pool.rs:49 | removing an id keeps the queue duplicate-free |
| `BufferPool.Without` | src/buffer_pool.rs:49 | the queue without the id holds exactly the other ids |
| `BufferPool.WithoutIsRemoval` | src/buffer_pool.rs:48-49 | in a duplicate-free queue, removing the first occurrence is removing every occurrence |
| `BufferPool.WithoutAbsent` | src/buffer_pool.rs:49 | removing an absent id changes nothing |
| `BufferPool.EvictDropsBack` | src/buffer_pool.rs:84-92 | eviction happens only when the pool is at capacity; it removes the back of the queue from both queue and pool and keeps them matched |
| `BufferPool.AdmitKeepsQueue` | src/buffer_pool.rs:84-95 | admitting an uncached id keeps the queue matched, puts the id at the front, and maps it to the given handle |
| `BufferPool.AdmitWithinCapacity` | src/buffer_pool.rs:84-95 | with capacity at least 1, admitting an uncached id never takes the pool above capacity |
| `BufferPool.AdmitCachedIdDuplicates` | src/buffer_pool.rs:84-95 | admitting an id that is already cached, while there is room, leaves it twice in the queue |
| `BufferPool.BufferPool.constructor` | src/buffer_pool.rs:24-33 | an empty pool and queue over the given storage engine, satisfying the pool invariant |
| `BufferPool.BufferPool.Position` | src/buffer_pool.rs:48 | the loop finds the first position of the id, as `IndexOf` states |
| `BufferPool.BufferPool.AdmitKeeps` | src/buffer_pool.rs:141-152 | admitting an uncached id keeps the pool invariant |
| `BufferPool.BufferPool.InsertPage` | src/buffer_pool.rs:80-96 | the new pool and queue are `Admit` of the old ones |
| `BufferPool.BufferPool.GetPage` | src/buffer_pool.rs:36-99 | a hit returns the cached handle, leaves the pool unchanged and touches the queue; a read error changes nothing; a miss returns a fresh handle holding the read page, cached under the page's own id by `Admit`; the pool invariant is kept unless the read page's id was already cached |
| `BufferPool.BufferPool.WritePage` | src/buffer_pool.rs:102-111 | pool and queue are unchanged; the file is exactly what the store's write produces, or unchanged on error |
| `BufferPool.BufferPool.AllocatePage` | src/buffer_pool.rs:114-155 | an allocation error changes nothing; a success caches a fresh handle holding the new page by `Admit` and keeps the pool invariant unless the new id was already cached |
| `Storage.NewPageData` | src/storage.rs:36-46 | the given id and type, empty keys, children and values, no links |
| `Storage.Page.constructor` | src/storage.rs:56-60 | `Page::new` holds `PageData::new(id, t)` |
| `Storage.Page.FromData` | src/buffer_pool.rs:71-73 | a page built around the given data |
| `Storage.Zeros` | src/storage.rs:107 | `n` zero bytes |
| `Storage.WriteAt` | src/storage.rs:109-111 | after seek and write: the buffer lands at the offset, every other old byte is kept, a gap past the old end reads as zeros, and the length is the larger of the old length and the buffer's end |
| `Storage.Padded` | src/storage.rs:106-107 | exactly `PAGE_SIZE` bytes: the encoding followed by zeros |
| `Storage.ReadSlot` | src/storage.rs:80-90 | fails with `UnexpectedEof` exactly when the slot does not lie wholly inside the file, and with `InvalidData` exactly when it does but its bytes do not decode; a slot inside the file that decodes is read successfully, and the result is its decoding |
| `Storage.StoreSlot` | src/storage.rs:93-113 | fails with the page-size error exactly when the encoding exceeds `PAGE_SIZE`; otherwise the slot holds the padded encoding, no other old byte changes, and the length is the larger of the old length and the slot's end |
| `Storage.AllocatedId` | src/storage.rs:117 | without 32-bit overflow the id is the number of whole pages in the file |
| `Storage.AllocateSlot` | src/storage.rs:116-121 | a success returns `PageData::new` under the allocated id |
| `Storage.WriteKeepsOtherSlots` | src/storage.rs:109-111 | writing a page leaves every other slot inside the file reading as before |
| `Storage.ReadAfterWrite` | src/storage.rs:80-113 | when decoding inverts encoding, reading a slot just written returns the page written |
| `Storage.AllocateAppendsOnePage` | src/storage.rs:116-121 | on a file of whole pages, allocation appends exactly one page holding the padded encoding of the new empty page |
| `Storage.AllocateRoundsUp` | src/storage.rs:116-121 | any successful allocation without overflow leaves the file a whole number of pages long, keeps earlier slots, and the new page reads back |
| `Storage.AllocateWrapsAround` | src/storage.rs:117 | a file of 2^32 pages allocates id 0 again, and a successful allocation leaves the file length unchanged: slot 0 is overwritten, no page is appended |
| `Storage.StorageEngine.constructor` | src/storage.rs:70-77 | the engine's file is the opened file's content |
| `Storage.StorageEngine.ReadPage` | src/storage.rs:80-90 | the result is `ReadSlot` of the file |
| `Storage.StorageEngine.WritePage` | src/storage.rs:93-113 | the file becomes `StoreSlot`'s result, or is unchanged on error |
| `Storage.StorageEngine.AllocatePage` | src/storage.rs:116-121 | the page and the file are `AllocateSlot`'s, or the file is unchanged on error |
| `Lexer.Span` | src/lexer.rs:128-135 | the length of the maximal prefix satisfying a character predicate |
| `Lexer.SpanUnique` | src/lexer.rs:128-135 | a prefix length with those properties is the span |
| `Lexer.IdentifierStep` | src/lexer.rs:106-124 | the identifier arm always consumes at least one character and leaves a suffix |
| `Lexer.NumberStep` | src/lexer.rs:126-152 | the number arm always consumes at least one character, also when an out-of-range integer yields no token, and leaves a suffix |
| `Lexer.StringStep` | src/lexer.rs:154-167 | the string arm always consumes at least the opening quote and leaves a suffix |
| `Lexer.Lex` | src/lexer.rs:30-94 | one `next_token` call leaves a suffix of the input, strictly shorter whenever a token is produced |
| `Lexer.Symbol` | src/lexer.rs:37-89 | each punctuation arm consumes at most two characters, and at least one when it yields a token |
| `Lexer.Advance` | src/lexer.rs:22-24 | `n` calls of `read_char` drop `n` characters, or all when fewer remain |
| `Lexer.Dispatch` | src/lexer.rs:33-91 | the match of `next_token` leaves a suffix, strictly shorter whenever a token is produced |
| `Lexer.IntegerStep` | src/lexer.rs:126-136 | a digit run not followed by `.` is consumed whole and yields its value when it fits in an i64, no token otherwise |
| `Lexer.FloatStep` | src/lexer.rs:137-148 | digits, `.`, digits are consumed whole and their text is the float |
| `Lexer.StringStepClosed` | src/lexer.rs:157-161 | with a closing quote, the text before it is the literal and the quote is consumed |
| `Lexer.StringStepOpen` | src/lexer.rs:157-166 | without a closing quote, the rest of the input is the literal |
| `Lexer.DecimalString` | src/lexer.rs:129 | the decimal digits of a number form a nonempty digit string |
| `Lexer.DigitsValueOfDecimal` | src/lexer.rs:150 | parsing a number's decimal digits gives the number back |
| `Lexer.IntegerLiteral` | src/lexer.rs:126-152 | an integer literal lexes to `Integer(n)` when `n` fits in an i64, to no token otherwise, and is consumed either way |
| `Lexer.StringLiteralRoundTrip` | src/lexer.rs:154-167 | a quoted text without quotes lexes to that text, and the closing quote is consumed |
| `Lexer.UnterminatedString` | src/lexer.rs:154-167 | an unterminated literal takes the rest of the input |
| `Lexer.KeywordLiteral` | src/lexer.rs:106-124 | a keyword is recognised in any letter case and reported upper-cased |
| `Lexer.WordLiteral` | src/lexer.rs:106-124 | a word followed by a non-identifier character lexes to its classification and is consumed |
| `Lexer.BangStalls` | src/lexer.rs:41-49 | `!` without `peek_char` `=` yields no token and consumes nothing, so the lexer makes no progress |
| `Lexer.SymbolLiteral` | src/lexer.rs:37-89 | a punctuation character after white space lexes to its arm's token and consumes that arm's characters |
| `Lexer.ComparisonIgnoresNextChar` | src/lexer.rs:41-69 | whether `<`, `>` or `!` forms a two-character operator does not depend on the character after it |
| `Lexer.LessEqualSplitAfterFirstToken` | src/lexer.rs:50-59 | in `a <= b` the lexer yields `a`, then `<`, then `=`, because `peek_char` is the input's second character |
| `Lexer.LoneLess` | src/lexer.rs:50-58 | unless `peek_char` is `=`, `<` after white space is a token on its own and leaves what follows it, even a `=` |
| `Lexer.EqualSign` | src/lexer.rs:37-40 | `=` is always a one-character token |
| `Lexer.FirstWordA` | src/lexer.rs:106-124 | `a` followed by a blank lexes as the identifier `a` |
| `Lexer.LessEqualAtStart` | src/lexer.rs:17-18 | at the start of the input, where `peek_char` is the second character, `<=` is one token |
| `Lexer.Lexer.constructor` | src/lexer.rs:11-20 | the remaining input is the whole input and `peek_char` is its second character |
| `Lexer.Lexer.ReadChar` | src/lexer.rs:22-24 | the current character becomes the iterator's next one, and the remaining input loses its first character |
| `Lexer.Lexer.ReadCharPeek` | src/lexer.rs:26-28 | `peek_char` becomes the iterator's next character without consuming it |
| `Lexer.Lexer.ReadWhile` | src/lexer.rs:128-135 | the loop consumes exactly the maximal run satisfying the predicate and returns it |
| `Lexer.Lexer.SkipWhitespace` | src/lexer.rs:96-104 | only leading white space is consumed, and the current character is then absent or not white space |
| `Lexer.Lexer.ReadIdentifier` | src/lexer.rs:106-124 | follows `IdentifierStep`: the maximal identifier run, classified as keyword, boolean or identifier |
| `Lexer.Lexer.ReadNumber` | src/lexer.rs:126-152 | follows `NumberStep` |
| `Lexer.Lexer.ReadStringLiteral` | src/lexer.rs:154-167 | follows `StringStep` |
| `Lexer.Lexer.NextToken` | src/lexer.rs:30-94 | the token and the remaining input are `Lex` of the old remaining input with the fixed `peek_char`, which the call does not change |
| `Tokens.Upper` | src/tokens.rs:24 | upper-casing keeps the length and maps every character |
| `Tokens.Lower` | src/tokens.rs:24 | lower-casing keeps the length and maps every character |
| `Tokens.UpperIdempotent` | src/tokens.rs:24 | upper-casing twice is upper-casing once |
| `Tokens.UpperOfLower` | src/tokens.rs:24 | upper-casing a lower-cased string is upper-casing it |
| `Tokens.KeywordCaseInsensitive` | src/tokens.rs:22-43 | a string, its upper-case and its lower-case form get the same `is_keyword` answer |
| `Tokens.KeywordLength` | src/tokens.rs:25-41 | every keyword has 2 to 6 characters, so the empty string is none |
| `Tokens.EqIgnoreCaseIsUpperEq` | src/tokens.rs:46 | ignoring ASCII case is comparing the upper-cased forms, in both directions |
| `Tokens.BooleanIff` | src/tokens.rs:45-47 | `is_boolean` holds exactly when the upper-cased string is `TRUE` or `FALSE` |
| `Tokens.KeywordNotBoolean` | src/tokens.rs:22-47 | no string is both a keyword and a boolean |

## Left out

- Concurrency is not modelled: the `RwLock`, `Mutex` and `Arc` wrappers, the
  lock order, the lock drops before recursion, and the multi-threaded test.
  Every operation runs atomically.
- bincode's byte format is a foreign library. `Codec` keeps `encode` and
  `decode` abstract, and `serialize` is taken to succeed.
- File-system calls are not modelled: opening the file (and its errors in
  `StorageEngine::new`), the file cursor, and errors of `seek`, `read_exact`
  and `write_all` other than a short file. A write past the end of the file
  zero-fills the gap, as POSIX files do.
- In-place node mutation: tree nodes are values and rebuilt on the insertion
  path. This is equivalent while every node has a single owner, which the
  code guarantees.
- `Index.SearchRec`: `binary_search` on a leaf is modelled as membership.
  That is equivalent on strictly increasing leaves, which
  `Index.InsertKeepsLeavesIncreasing` shows every leaf stays.
- `Index.BPlusTree.Search`: the `Result` wrapper is dropped because search
  never returns an error.
- `Index.ValueOf`: the contract states `key * 10` only for non-negative
  keys. For negative keys the body wraps modulo 2^64 as a release build does;
  a debug build would panic on the overflow.
- The tree's `_buffer_pool` field is never used and is not modelled.
- `BufferPool.AdmitWithinCapacity`: the bound needs capacity at least 1. With
  capacity 0 the source caches one page anyway.
- `BufferPool.BufferPool.GetPage`: the pool invariant is promised only when
  the page read from slot `pageId` carries an id that is not already cached.
  The source caches the page under the id stored in it. A slot holding another
  cached page's id puts that id in the queue twice when the pool has room
  (`BufferPool.AdmitCachedIdDuplicates`), and also when the pool is full and
  that id is not the one evicted from the back of the queue.
  `BufferPool.BufferPool.AllocatePage` has the same condition, for when the new
  id is already cached. That happens without any wrap-around: if slot 0 decodes
  to a page with id 1, `get_page(0)` caches id 1, and a later `allocate_page`
  on a one-page file returns id 1 again.
- `println!` logging is left out.
- The `f64` value of a float literal is not modelled; the token keeps the
  literal's text. Rust's parse accepts every such text.
- Character classes and case conversion are ASCII-only. Unicode letters,
  digits and white space outside ASCII are not modelled.
- `src/main.rs`, `src/parser.rs`, `src/executor.rs` and `src/ast.rs` are not
  part of this model. They are an interactive menu, stubs that do no work,
  and type declarations.
