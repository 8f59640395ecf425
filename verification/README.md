# A verified model of the pengyu skip list

This project models the skip list of `src/main/java/com/pengyu/SkipList.java` and
proves its behaviour. That class is an ordered key-value index. A sentinel `head`
node has `MAX_LEVEL + 1` forward links, `curLevel` is the highest occupied level and
`nodeCnt` counts the nodes. It offers `add`, `get`, `searchNode` and `del`, the level
generator `getRandomLevel`, and a line format `key:value;` written by `dumpFile` and
read back by `loadFile` through `isValidString` and `getKeyValueFromString`.

The project is organised as follows:

- `levels.dfy` (module `Levels`) holds `MAX_LEVEL = 32` and the coin-flip loop of
  `getRandomLevel`. The draws of `java.util.Random` are passed in as a sequence.
- `entries.dfy` (module `SortedEntries`) gives the abstract view: the level-0 chain
  read as a sorted sequence of `(key, value)` entries, and the map it denotes.
  - `Upsert` and `Remove` are the reference definitions that `add` and `del` are
    proved against.
- `arena.dfy` (module `Arena`) stores the nodes in an arena, a sequence of node
  records in which index `HEAD` (0) is the head and `NIL` (-1) is null.
  - For every level, the ghost chain lists the nodes reached from the head along
    that level's links.
  - The module states when the chains are linked and sorted (`ChainsOk`,
    `Structured`) and when every node is on exactly the levels `0..level` (`Nested`).
  - It proves that splicing a node in or out where the search stops keeps these
    properties.
- `skiplist.dfy` (module `SkipLists`) holds the class `SkipList`. Its fields are
  `nodes`, `curLevel`, `nodeCnt` and the ghost `chains`, and its methods follow the
  source's loops one by one.
  - `Shaped()` says the levels are linked, sorted and nested. It is all that
    `get`, `searchNode`, `add` and `del` need, since none of them reads `nodeCnt`.
  - `Valid()` adds that `nodeCnt` counts the level-0 nodes. `add` and the corrected
    `del` keep it.
  - `Entries()` and `Contents()` are the abstract views the method contracts are
    stated in.
- `records.dfy` (module `Records`) models the record line format and its decoder.
  It also models how `BufferedReader.readLine` cuts the file text into lines, and
  the pairs that `loadFile` hands to `add`.

Keys are `int`, standing in for `K extends Comparable<K>` with its total order.
Values are a type parameter. The record format is modelled on strings, which is
the `String, String` instantiation that `main` uses.

### Two versions of `del`

The source itself shows what `del` is meant to do:

- `main` prints "skiplist not exists the key" when `del` returns `false`
  (`SkipList.java:311-316`), so the result is meant to report whether the key was there;
- the loop at line 177 stops as soon as the recorded predecessor no longer links to
  the node (line 178), so it is meant to run through every level the node is on.

The code does something else:

- `del` always returns `true` and always decrements `nodeCnt`;
- its unlink loop stops below `curLevel`, so a node at level `curLevel` stays linked there.

`SkipLists.SkipList.Del` models the code as written. `SkipLists.SkipList.DelIntended`
models the behaviour meant above. See "Findings".

## Model

| member | source | states |
|---|---|---|
| Levels.RandomLevel | src/main/java/com/pengyu/SkipList.java:72-86 | the level is in 1..MAX_LEVEL; it is one more than the number of leading 1-draws, stopping at the first 0 or at MAX_LEVEL |
| SkipLists.SkipList.constructor | src/main/java/com/pengyu/SkipList.java:63-67 | a new list is valid and empty: only the head, with `curLevel` 0, `nodeCnt` 0 and every level's chain empty |
| SkipLists.SkipList.NodeOf | src/main/java/com/pengyu/SkipList.java:104-107 | the node the level-0 search lands on is non-null and carries key exactly when key is in the map; it is then a level-0 node holding the mapped value |
| SkipLists.SkipList.Advance | src/main/java/com/pengyu/SkipList.java:98-100 | the inner search loop stops at the position where the search for key stops in that level's chain (`Rank`), on that position's predecessor |
| SkipLists.SkipList.Walk | src/main/java/com/pengyu/SkipList.java:96-102 | needs only the shape, not the count; the recorded predecessors are, level by level up to `curLevel`, the node the search for key stops after; above `curLevel` they stay null |
| SkipLists.SkipList.SetValue | src/main/java/com/pengyu/SkipList.java:107-109 | overwriting the found node's value changes only that field; the shape holds and the entries are `Upsert(old, key, value)` |
| SkipLists.SkipList.RaiseLevel | src/main/java/com/pengyu/SkipList.java:116-122 | `curLevel` becomes max(old, level); the head is recorded as predecessor on the levels above the old `curLevel`, so every predecessor up to the level is where the search stops |
| SkipLists.SkipList.LinkNew | src/main/java/com/pengyu/SkipList.java:123-128 | a new node with key, value and level is appended; at each level 0..level it is spliced into the chain at the search position; the other chains are unchanged; the chains stay linked and sorted |
| SkipLists.SkipList.Insert | src/main/java/com/pengyu/SkipList.java:113-131 | for an absent key: the shape holds afterwards, entries are `Upsert(old, key, value)`, level 0 has one more node, `curLevel` is max(old, level), `nodeCnt` goes up by one, and the search for key now finds the new node |
| SkipLists.SkipList.Add | src/main/java/com/pengyu/SkipList.java:93-133 | needs only the shape, whatever `nodeCnt` is; always returns true; keeps the shape, and keeps `Valid()` when it held; the map becomes `old[key := value]`; a present key is overwritten in place and nothing else changes; an absent key gets a new node spliced in at levels 0..level, with `curLevel` max(old, level) and `nodeCnt` up by one |
| SkipLists.SkipList.Get | src/main/java/com/pengyu/SkipList.java:140-155 | needs only the shape, whatever `nodeCnt` is; read-only; returns the mapped value when key is in the map, null (`None`) otherwise |
| SkipLists.SkipList.SearchNode | src/main/java/com/pengyu/SkipList.java:197-208 | needs only the shape; read-only; true exactly when key is in the map, so it agrees with `Get` |
| SkipLists.SkipList.DumpRecords | src/main/java/com/pengyu/SkipList.java:213-225 | the level-0 traversal yields exactly the entries, in strictly increasing key order |
| SkipLists.SkipList.Unlink | src/main/java/com/pengyu/SkipList.java:176-182 | for i from 0 below the bound, while the recorded predecessor links to the node, the predecessor takes over the node's link; it ends after level min(bound, node level + 1) - 1, with the node taken out of exactly those chains |
| SkipLists.SkipList.Shrink | src/main/java/com/pengyu/SkipList.java:185-187 | lowers `curLevel` only, until it is 0 or the head has a successor there; the chains are linked again with `curLevel` tight, and `curLevel` stays put when its chain was non-empty |
| SkipLists.SkipList.UnlinkKey | src/main/java/com/pengyu/SkipList.java:163-182 | search then unlink: found iff key was present; entries become `Remove(old, key)`; level 0 loses exactly one node when found; the node leaves exactly the chains below min(bound, its level + 1) and every other chain is unchanged; no node changes key, value or level; nothing changes when not found; the levels stay nested iff the loop reached the node's level |
| SkipLists.SkipList.Del | src/main/java/com/pengyu/SkipList.java:161-189 | as written, needing only the shape, so it can follow another `del`: returns true and decrements `nodeCnt` in every case; the map loses key and `curLevel` never rises; no node changes key, value or level; an absent key leaves the links untouched and the shape intact; a found node leaves exactly the chains below min(old `curLevel`, its level + 1), the others unchanged; a node below `curLevel` leaves the shape (and `Valid()`, if it held) intact; a node at `curLevel` stays linked at that level and breaks the nesting |
| SkipLists.SkipList.DelIntended | src/main/java/com/pengyu/SkipList.java:161-189 | corrected del: found iff key was present; the list stays valid (count included); the map loses key; the found node leaves exactly the chains of levels 0..its level, every other chain is unchanged and `nodeCnt` drops by one; no node changes key, value or level; an absent key changes nothing |
| SkipLists.AddGetDelScenario | src/main/java/com/pengyu/SkipList.java:93-189 | inserting (1,a), (3,c), (2,b) gives get(2) = b and level 0 holding (1,a), (2,b), (3,c) in key order; deleting 2 makes get(2) null and leaves entries 1, 3 with `nodeCnt` 2 |
| SkipLists.DelScenario | src/main/java/com/pengyu/SkipList.java:176-182 | as written: after add(1) at level 1 and del(1), the head's level-0 link is null but its level-1 link still leads to the deleted node |
| SkipLists.DelMissingScenario | src/main/java/com/pengyu/SkipList.java:161-189 | as written: on a new list del(5) returns true with `nodeCnt` -1, get(3) still returns null, and a second del(5) leaves `nodeCnt` at -2 |
| SkipLists.DelIntendedScenario | src/main/java/com/pengyu/SkipList.java:161-189 | corrected: the same input leaves the head's level-1 link null and `curLevel` 0; deleting a missing key reports false and leaves `nodeCnt` 0 |
| Arena.Rank | src/main/java/com/pengyu/SkipList.java:98-100 | where the search along one chain stops: every earlier node's key is below key, and the node there (if any) does not have a key below it |
| Arena.RankSplits | src/main/java/com/pengyu/SkipList.java:98-100 | the entries of a sorted chain are strictly sorted, and the rank splits them at key |
| Arena.LookupChain | src/main/java/com/pengyu/SkipList.java:104-107 | key is in a sorted chain's map iff the node at the rank carries key, and the map then gives that node's value |
| Arena.RankOfMember | src/main/java/com/pengyu/SkipList.java:176-178 | the search for a node's own key stops exactly at that node |
| Arena.Descend | src/main/java/com/pengyu/SkipList.java:97-101 | dropping a level keeps the search position valid: the node reached is the head or also on the level below, and every node before it there has a smaller key |
| Arena.ChainFrame | src/main/java/com/pengyu/SkipList.java:108 | changing nodes without touching their keys, levels or level-i links keeps a level-i chain linked and sorted |
| Arena.RankFrame | src/main/java/com/pengyu/SkipList.java:125-128 | the rank depends only on keys, so it is unchanged when no key changes |
| Arena.AppendNode | src/main/java/com/pengyu/SkipList.java:123 | a new node with all links null leaves every chain linked and sorted |
| Arena.SpliceLevel | src/main/java/com/pengyu/SkipList.java:125-128 | one splice round keeps all chains linked and sorted, with the new node put in at the rank |
| Arena.LinkingStart | src/main/java/com/pengyu/SkipList.java:123-125 | the state after creating the node satisfies the splice loop's invariant |
| Arena.LinkingStep | src/main/java/com/pengyu/SkipList.java:125-128 | one round of the splice loop takes the invariant from level i to level i + 1 |
| Arena.SpliceOk | src/main/java/com/pengyu/SkipList.java:126-127 | the two link assignments put the node into the chain at the rank, linked and sorted |
| Arena.SpliceSorted | src/main/java/com/pengyu/SkipList.java:126-127 | keys still increase along the spliced chain |
| Arena.SpliceLinked | src/main/java/com/pengyu/SkipList.java:126-127 | every link along the spliced chain leads to the next node, and the last one to null |
| Arena.SplicedMembers | src/main/java/com/pengyu/SkipList.java:126-127 | the spliced chain holds the old nodes and the new one |
| Arena.EntriesSpliced | src/main/java/com/pengyu/SkipList.java:125-128 | the spliced chain's entries are the old ones with the new entry at the rank |
| Arena.EntriesUpdated | src/main/java/com/pengyu/SkipList.java:108 | setting one node's value replaces exactly that entry |
| Arena.AbsentEverywhere | src/main/java/com/pengyu/SkipList.java:115 | a key missing from level 0 is missing from every level |
| Arena.NestedAfterSplice | src/main/java/com/pengyu/SkipList.java:125-128 | a node spliced in at levels 0..level keeps every node on exactly its levels |
| Arena.InsertShape | src/main/java/com/pengyu/SkipList.java:116-129 | after raising `curLevel` and splicing, the shape holds at max(old, level); level 0 has one more node; entries are `Upsert`; the search for key stops at the new node |
| Arena.UnspliceOk | src/main/java/com/pengyu/SkipList.java:181 | the predecessor taking over the node's link takes it out of the chain, which stays linked and sorted |
| Arena.UnsplicedSorted | src/main/java/com/pengyu/SkipList.java:181 | keys still increase along the unspliced chain |
| Arena.UnsplicedMembers | src/main/java/com/pengyu/SkipList.java:181 | the unspliced chain holds the old nodes but the removed one |
| Arena.UnlinkLevel | src/main/java/com/pengyu/SkipList.java:181 | one unlink at level i keeps every chain linked and sorted and changes no key, value or level |
| Arena.UnlinkingStart | src/main/java/com/pengyu/SkipList.java:176-177 | before the unlink loop, its invariant holds with nothing unlinked |
| Arena.UnlinkingBreak | src/main/java/com/pengyu/SkipList.java:178 | the recorded predecessor at level i links to the node iff the node's level is at least i |
| Arena.UnlinkingStep | src/main/java/com/pengyu/SkipList.java:176-182 | one unlink round takes the loop invariant from level i to level i + 1 |
| Arena.UnlinkingNext | src/main/java/com/pengyu/SkipList.java:181 | the bookkeeping of one round: the node is out of the chains below i + 1 and the others are unchanged |
| Arena.UnlinkedEntries | src/main/java/com/pengyu/SkipList.java:176-182 | once level 0 is unlinked, entries are `Remove(old, key)`, level 0 has one node fewer, and the node's level is at most `curLevel` |
| Arena.UnlinkedNested | src/main/java/com/pengyu/SkipList.java:176-182 | unlinked at all its levels, the node leaves the levels nested |
| Arena.UnlinkedPartly | src/main/java/com/pengyu/SkipList.java:177 | unlinked only below its own level, the node is still on its top level but not on level 0, so the nesting breaks |
| Arena.UnlinkedAll | src/main/java/com/pengyu/SkipList.java:176-182 | the state the unlink loop leaves for a bound of at least `curLevel`: linked chains, `Remove` entries, one node fewer; nested iff the bound exceeds the node's level |
| Arena.RemoveMissing | src/main/java/com/pengyu/SkipList.java:176 | removing a key a sorted chain does not hold leaves its entries as they are |
| Arena.EntriesUnspliced | src/main/java/com/pengyu/SkipList.java:181 | the unspliced chain's entries are the old ones without the entry at the node's position |
| Arena.FirstOfChain | src/main/java/com/pengyu/SkipList.java:215 | the head's link at a level leads to the first node of that chain, or is null |
| Arena.EmptyEverywhere | src/main/java/com/pengyu/SkipList.java:185-187 | with nested levels, no node at level 0 means no node anywhere and `curLevel` 0 |
| SortedEntries.SearchPos | src/main/java/com/pengyu/SkipList.java:98-100 | where a search over sorted entries stops: every earlier key is smaller and the one there is not |
| SortedEntries.LookupAt | src/main/java/com/pengyu/SkipList.java:104-107 | in sorted entries, key is in the map iff the entry where the search stops carries it, and the map gives its value |
| SortedEntries.UpsertMap | src/main/java/com/pengyu/SkipList.java:93-133 | inserting or overwriting an entry is a map update |
| SortedEntries.RemoveMap | src/main/java/com/pengyu/SkipList.java:161-189 | removing an entry is a map deletion |
| SortedEntries.UpsertAt | src/main/java/com/pengyu/SkipList.java:104-128 | `Upsert` overwrites in place where the search finds key, and otherwise splices one entry in there |
| SortedEntries.RemoveAt | src/main/java/com/pengyu/SkipList.java:174-182 | in sorted entries, `Remove` drops the entry where the search stops if it carries key, and nothing otherwise |
| SortedEntries.UpsertSorted | src/main/java/com/pengyu/SkipList.java:93-133 | `Upsert` keeps entries sorted and adds an entry exactly when the key is new |
| SortedEntries.RemoveSorted | src/main/java/com/pengyu/SkipList.java:161-189 | `Remove` keeps entries sorted and drops one entry exactly when the key is present |
| Records.IndexOf | src/main/java/com/pengyu/SkipList.java:268 | the first position of the character, or -1 exactly when it is absent |
| Records.IsValidString | src/main/java/com/pengyu/SkipList.java:251-259 | a line is valid iff it is non-null and holds ':'; the empty line is rejected with the rest |
| Records.GetKeyValueFromString | src/main/java/com/pengyu/SkipList.java:266-274 | invalid lines give null; a line whose first ':' is its last character throws; otherwise the key is the text before the first ':' and the value the rest minus the last character |
| Records.DecodeEncode | src/main/java/com/pengyu/SkipList.java:217 | decoding the record `key:value;` of a key without ':' gives back key and value |
| Records.ColonInKeyMisread | src/main/java/com/pengyu/SkipList.java:268 | a key holding ':' does not round-trip: `a:b` with value `c` reads back as key `a`, value `b:c` |
| Records.Encode | src/main/java/com/pengyu/SkipList.java:217 | the record is the key, then ':', then the value, then ';' |
| Records.DumpFile | src/main/java/com/pengyu/SkipList.java:213-225 | one `key:value;` line per entry, in traversal order |
| Records.LineEnd | src/main/java/com/pengyu/SkipList.java:233 | a line read ends at the first `\n` or `\r` of the text, or at its end |
| Records.ReadLines | src/main/java/com/pengyu/SkipList.java:233 | the lines `readLine` returns hold no line break and are at most as many as the characters of the text |
| Records.LineEndAt | src/main/java/com/pengyu/SkipList.java:233 | a line without a break followed by a break ends right before the break |
| Records.ReadLineFirst | src/main/java/com/pengyu/SkipList.java:233 | a line without a break followed by `\n` is returned as one line, and reading resumes right after the `\n` |
| Records.WriteLines | src/main/java/com/pengyu/SkipList.java:218-219 | each line is written followed by one line separator: the text is as long as the lines together plus one per line |
| Records.WriteLinesSeparators | src/main/java/com/pengyu/SkipList.java:218-219 | when no line holds a `\n`, the written text holds exactly one `\n` per line |
| Records.ReadWriteLines | src/main/java/com/pengyu/SkipList.java:218-219 | reading back the text written with `newLine` after every line gives the same lines, when none holds a line break |
| Records.DumpNoBreak | src/main/java/com/pengyu/SkipList.java:217 | the records of keys and values without line breaks hold no line break |
| Records.LoadDumpLines | src/main/java/com/pengyu/SkipList.java:230-243 | loading the dumped lines hands `add` the dumped pairs in order when no key holds ':' |
| Records.LoadDump | src/main/java/com/pengyu/SkipList.java:212-243 | loading the dumped file, cut into lines as `readLine` does, hands `add` the dumped pairs in order when no key holds ':' and no key or value holds a line break |
| Records.LineBreakSplits | src/main/java/com/pengyu/SkipList.java:233 | a value `\nx` under key `k` is dumped as one record but read back as the two lines `k:` and `x;` |
| Records.LineBreakInValue | src/main/java/com/pengyu/SkipList.java:233-240 | that dump then ends the load with an exception before any pair reaches `add` |
| Records.ColonLastAborts | src/main/java/com/pengyu/SkipList.java:271 | "a:" passes the validity test yet ends the load with an exception before the next valid line; the corrected load skips it |
| Records.GetKeyValueChecked | src/main/java/com/pengyu/SkipList.java:266-274 | corrected decoder: never throws, and decodes exactly the lines the original decodes, to the same pair |
| Records.SkippingAgrees | src/main/java/com/pengyu/SkipList.java:230-243 | wherever the original load completes, the corrected load hands `add` the same pairs |
| Records.LoadFile | src/main/java/com/pengyu/SkipList.java:230-243 | as written: hands `add` at most one pair per line, none with ':' in its key; it aborts exactly when some line's first ':' is its last character |
| Records.LoadFileSkipping | src/main/java/com/pengyu/SkipList.java:230-243 | corrected load: at most one pair per line, none with ':' in its key, and every pair is what the decoder makes of some line |
| Records.LoadDumpSkipping | src/main/java/com/pengyu/SkipList.java:212-243 | the corrected load also reads a dumped file back exactly, under the same conditions as `LoadDump` |

## Left out

- `main`, the console loop and `displaySkipList` are out. They are console I/O only.
- The file I/O of `dumpFile` and `loadFile` is out:
  - `STORE_PATH`, the readers and writers, the `println` of each line, and the wrapping of exceptions in `RuntimeException`;
  - the model keeps the lines written (`DumpFile`) and the pairs handed to `add` (`LoadFile`), or the fact that the load aborted.
- `loadFile` is not composed with `SkipList.Add`. The records are strings and the class is modelled with integer keys; the unchecked casts `(K)` and `(V)` have no counterpart.
- `synchronized` and concurrency are out. The model is sequential, so the missing lock on `get` and `searchNode` is not represented.
- `java.util.Random` is replaced by the sequence of its draws (`flips` in `Levels.RandomLevel`).
- SkipLists.SkipList.Add: the level is a parameter, supplied on every call. The source draws it only on the insert path. An overwrite ignores it, so behaviour is the same.
- The second test of line 115 and the `return false` of line 132 have no branch in the model. They are unreachable because line 107 already returned for a present key.
- Unlinked nodes stay in the arena. Garbage collection of unreachable Java objects has no counterpart.
- SkipLists.SkipList.Del: `nodeCnt` is an unbounded integer, so Java's 32-bit wrap-around after 2^31 decrements is not modelled. The same holds for `Insert` and `DelIntended`.
- The contracts of the operations after a `Del` that broke the nesting are not covered. `Add`, `Get`, `SearchNode` and `Del` require `Shaped()`, which such a `Del` does not restore. A drifted `nodeCnt` does not matter to them.
- Records.GetKeyValueFromString: strings are modelled as sequences of Unicode scalar values, not as Java's UTF-16 code units, so `indexOf`, `length()` and `substring` count characters rather than code units. They agree wherever a line holds only characters of the Basic Multilingual Plane. A line that ends in a supplementary character (such as `a:😀`) loses that whole character here, where Java drops only its low surrogate and keeps a lone high surrogate as the value. Every dumped record ends in `;`, so the round-trip lemmas are unaffected.
- Records.WriteLines: `newLine` writes the platform's line separator; the model writes `\n`. `readLine` treats `\r\n` and `\r` as line ends too, so the read-back is the same.

## Findings

| source | as written | input that shows it | evidently intended | confidence | as-written member | corrected member |
|---|---|---|---|---|---|---|
| src/main/java/com/pengyu/SkipList.java:177 | the unlink loop of `del` runs only while `i < curLevel` | add key 1 (level 1) to an empty list, then del(1): level 0 is empty but the head's level-1 link still leads to the deleted node | unlink through `i <= curLevel`, i.e. at every level of the node | not executed | SkipLists.DelScenario | SkipLists.SkipList.DelIntended |
| src/main/java/com/pengyu/SkipList.java:188-189 | `del` decrements `nodeCnt` and returns true even when no node carries the key | del(5) on an empty list returns true and leaves `nodeCnt` at -1; a second del(5) leaves it at -2 | report not-found and leave the count unchanged | not executed | SkipLists.DelMissingScenario | SkipLists.SkipList.DelIntended |
| src/main/java/com/pengyu/SkipList.java:271 | `substring(indexOf(":") + 1, length() - 1)` is taken for every valid line | the line `a:` passes `isValidString`, then `substring(2, 1)` throws and ends the load | treat the line as malformed and skip it | not executed | Records.ColonLastAborts | Records.GetKeyValueChecked |
