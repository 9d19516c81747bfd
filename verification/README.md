# A verified model of sqlproc

sqlproc is a small SQL processor: it executes `INSERT` and `SELECT` against CSV files and
keeps, per table with an `id` primary key, an in-memory B+ tree from ids to the byte
offsets of their rows. This project models its core in Dafny and proves what the pieces
promise each other.

## What is modelled

| file | models | in the form of |
|---|---|---|
| `SortedEntries.dfy` | the contents of an index: a list of (key, offset) in strictly ascending key order, also read as a finite map | functions |
| `TreeSpec.dfy` | the B+ tree as a value for every order from 3 up: insertion, invariant, occupancy, height, allocations | functions |
| `BPlusTree.dfy` | the linked nodes with their fixed arrays and in-place insertion, splits included | classes, arrays, loops |
| `LeafChain.dfy` | the list of leaves through `next` over the same nodes | functions on the heap |
| `BPlusIndex.dfy` | the index as a whole: insert with root growth, search, both range visits | class |
| `Limits.dfy` | the buffer and table sizes of `include/sqlproc.h` | constants |
| `Numbers.dfy` | `strtol` with the full-match and range checks, `%d` | functions |
| `Csv.dfy` | writing and parsing one CSV row | functions, loops |
| `Schemas.dfy`, `Sql.dfy` | schemas and statements | datatypes |
| `TableFile.dfy` | a table file as bytes: lines as `fgets` cuts them, rows, offsets, appending | functions |
| `RowIndex.dfy`, `Selection.dfy` | what the rows say: index, largest id, membership, WHERE, index range against scan | functions |
| `Storage.dfy` | the storage layer: open files with a position, reading loops, append | classes, loops |
| `Database.dfy` | every operation of the executor as a function on files and table states | functions |
| `TableStates.dfy`, `Executor.dfy` | the array of 32 table states and the executor itself | classes, arrays, loops |
| `Coherence.dfy`, `Runs.dfy` | the invariant between indexes and files, over single statements and whole runs | lemmas |
| `RowBuilding.dfy`, `AutomaticIds.dfy` | which row an INSERT makes, which ids are handed out and which are lost | lemmas |
| `Answers.dfy`, `Inserts.dfy` | what a SELECT shows and what an INSERT accepts and stores, in the words of the statement | lemmas |
| `Locality.dfy`, `Restarts.dfy` | what a statement depends on and touches; memory as a cache of the files, and tables that no process can load | lemmas |
| `Tokenizer.dfy`, `Parser.dfy` | tokenizer and recursive-descent parser, with positions | functions, classes, loops |
| `FrontEnd.dfy`, `Writings.dfy`, `Recognized.dfy` | the two together: which texts are read as which programs, byte by byte | lemmas |
| `Rejections.dfy` | where a text that is no program is rejected | lemmas |
| `Program.dfy` | SQL texts through all passes, in one process and in many | methods, loops |

Each imperative member is proved to compute a function, and the properties are proved of
those functions. The main results:

- **The tree and the chain.** `BPlusIndex.Index.Insert` refines map insertion on the linked
  structure for every order from 3 up; the chain from the leftmost leaf is always exactly
  the leaves of the tree in order (`Index.ChainIsLeaves`); search and range visits are exact.
- **Index and file.** `Runs.RunIsCoherent`: over every run of statements and restarts, from
  any files without cut lines (see below), each index in memory is the index of its file.
  From it follow restart equivalence, agreement with the linear scans, that a SELECT answered
  from the index shows what the scan would show exactly when the table can be loaded, and that
  an inserted row is found again by its id. `Program.RunSessions` closes the argument on the
  heap: executors are constructed, run texts and are replaced by new ones.
- **Statements mean what they say.** What a SELECT shows is stated on the rows of the file, the
  names, the operator and the text in the statement (`Answers.SelectByKey`, `SelectByNumber`,
  `SelectByText`, `SelectAll`), and which INSERTs are accepted and what they store on the same
  (`Inserts.InsertsExactly`, `InsertStores`). `Program.RunSqlText` executes every statement of a
  text in turn up to the first that fails.
- **Memory is a cache.** A statement depends on the files and on the state of its own table
  alone, and touches nothing else (`Locality.ExecutedTouches`, `Restarts.ExecutedSame`). Restarts
  are invisible over whole runs (`Restarts.RestartsAreInvisible`) as long as each finds every
  next id to be the largest id plus one, and which statements keep it so is stated exactly.
- **The codec.** Writing and reading back is exact for values without newline, carriage return
  and NUL and for no others; reading and writing back is exact for canonical lines and for no
  others (`Csv.WriteBackExactly`). The line buffer is exactly large enough.
- **Ids.** Automatic ids are new and increase; which refused statements use one up, and when the
  live next id is the one a restart computes, is stated exactly (`RowBuilding.RefusedInsertTakesId`,
  `AutomaticIds.InsertKeepsAgreement`).
- **The front end.** A text is read as a program if and only if its bytes spell that program
  (`Recognized.ReadExactly`). A text that is not tokenized is reported at the first byte where no
  token can be read (`Writings.FailsExactly`), and a rejected program at the first token with which
  no program goes on, with two named exceptions (`Rejections.RejectedExactly`).

## Premises

- Allocation succeeds. If `create_node` fails in the middle of an internal split or of root
  growth (`src/bptree.c:247-251`, `351-354`) a right sibling is left out of the tree.
- One configuration per process, and nobody else writes the data or schema files.
- Schemas are as the loader delivers them (`src/schema.c:107-174`): 1 to 16 columns with
  distinct names, and a primary key that is an int column. In addition column names hold no
  quote (`Schemas.WellFormed`), since the header is written raw (`src/storage.c:303-317`) and
  read back with quote handling (`277`): the files of all other tables can be created but never
  read again (`TableFile.HeaderIsReadExactly`).

Where an expected property fails, an input shows it and a theorem says exactly when it holds:

- The length check measures a line up to its first NUL (`src/storage.c:48-49`), so a last line
  that fills the buffer without a newline and holds a NUL is accepted. The newline that an
  append supplies after such a *cut line* (`TableFile.HasCutLine`) is then read as a line of its
  own. Appending is exact if and only if there is none (`TableFile.AppendSafe`,
  `TableFile.CutLineBecomesTwo`, `Coherence.StoredInStep`). The run theorems therefore start
  from files in which no table with a primary key has one (`Coherence.UncutFiles`); files the
  program wrote never have one.
- Reading a line and writing it again need not give the line back (`Csv.ParseThenWriteDiffers`,
  `Csv.WriteBackExactly`).
- A table can be loaded again unless a row has the largest int as its id. One accepted INSERT is
  enough for that, and from then on no process can use the table except by scanning it
  (`Restarts.LargestIdLocksTable`, `Restarts.LoadsAfterInsert`, `Restarts.LockedForGood`).
- The header written for a schema is accepted unless a column name holds a quote
  (`TableFile.QuotedNameIsRefused`, `TableFile.HeaderIsReadExactly`).
- A refused INSERT may use up an id (`RowBuilding.RefusedAfterTakingId`,
  `RowBuilding.RefusedInsertTakesId`).

Bytes are modelled as characters, one per byte; integers that C keeps in `int` are checked
against the 32-bit range where the program checks them; file offsets are unbounded.

## Where documents and code differ

`AGENTS_7.md:48-51` lists `>`, `<` and `!=` as not supported. The parser and the executor
support all three (`src/parser.c:135-165`, `src/executor.c:778-786`), and so does the model.
The comment on `storage_int_value_exists` calls it the check for duplicate keys
(`src/storage.c:1031-1034`); the executor uses the index instead
(`src/executor.c:253-279`), and `Runs.IndexAgreesWithScans` shows that both answers agree.

## Model

| member | source | states |
|---|---|---|
| `SortedEntries.InsertedContents` | include/bptree.h:4-10 | inserting an absent key into the sorted entry list is updating the map id -> offset at that key and nowhere else, and the list stays strictly sorted |
| `SortedEntries.LookupContents` | src/bptree.c:366-391 | looking a key up in the entry list is looking it up in that map |
| `SortedEntries.RangesAreSlices` | src/bptree.c:427-492 | the entries below a key are a prefix and the entries above it a suffix of the sorted list |
| `SortedEntries.RangesPartition` | src/bptree.c:366-492 | below, at and above a key, in this order, are the whole contents: nothing is missed or seen twice by the three queries together |
| `SortedEntries.SortedUnique` | src/bptree.c:393-407 | a sorted entry list is determined by its members, so equal maps mean equal lists |
| `TreeSpec.EntriesSorted` | src/bptree.c:393-425 | read left to right, the leaves of a valid tree hold strictly ascending keys |
| `TreeSpec.OnlyChild` | src/bptree.c:103-113 | every key left of the child that find_child_position picks is below the searched key, every key right of it above |
| `TreeSpec.SearchCorrect` | src/bptree.c:366-391 | descending to one leaf finds exactly what the whole tree holds for the key |
| `TreeSpec.LeafSplits` | src/bptree.c:132-189 | a full leaf splits its overfull contents at order / 2, and the promoted key is the first of the right half |
| `TreeSpec.LeafInsertCorrect` | src/bptree.c:191-209 | insertion into a leaf keeps order, bounds and contents in all three outcomes |
| `TreeSpec.HalvesCorrect` | src/bptree.c:231-294 | both halves of an overfull internal node are valid subtrees of the old height, separated by the promoted key, and together hold all entries |
| `TreeSpec.AbsorbCorrect` | src/bptree.c:211-294 | an internal node that takes in a split child, in place or by splitting, stays valid and holds the old entries with the new one in place |
| `TreeSpec.InsertCorrect` | src/bptree.c:296-327 | at every level insertion of an absent key keeps sorted nodes, left < separator <= right, equal leaf depth and the occupancy bounds and adds exactly that entry; a present key is reported |
| `TreeSpec.InsertRootCorrect` | src/bptree.c:329-364 | the public insert, including the first root and root growth, succeeds exactly for absent keys and then gives exactly the contents with the entry inserted |
| `TreeSpec.NewRootValid` | src/bptree.c:350-361 | two valid halves under a new root are a valid tree one level higher |
| `TreeSpec.SubtreeIsFull` | src/bptree.c:167-180 | a non-root subtree of height h holds at least floor(order/2) * (order - floor(order/2))^h entries |
| `TreeSpec.TreeIsFull` | src/bptree.c:271-288 | a tree of height h >= 1 holds at least twice what a subtree of height h - 1 must hold |
| `TreeSpec.SearchIsLogarithmic` | src/bptree.c:375-379 | for every order from 3 up a path of v >= 2 nodes from root to leaf exists only in a tree of at least 2 * floor(order/2) * (order - floor(order/2))^(v-2) entries; for order 4 of at least 2^v |
| `TreeSpec.NodesConserved` | src/bptree.c:146-180 | for every insertion below the root the nodes afterwards are the nodes before plus those allocated: no node is lost |
| `TreeSpec.RootNodesConserved` | src/bptree.c:329-364 | the same for the public insert with first root and root growth |
| `TreeSpec.NodesBounded` | src/bptree.c:43-54 | for every order from 4 up a tree of n entries has at most max(1, n - 1) nodes |
| `TreeSpec.BuildConserves` | src/bptree.c:329-364 | over any run of inserts into an empty tree all nodes ever created are still in the tree and the successful inserts are the entries stored |
| `TreeSpec.AllocationsBounded` | src/bptree.c:43-54 | over any such run the nodes ever created are at most max(1, successes - 1) |
| `BPlusTree.FindLeafPosition` | src/bptree.c:91-101 | the loop finds the first position whose key is not below the key |
| `BPlusTree.FindChildPosition` | src/bptree.c:103-113 | the loop finds the first separator above the key |
| `BPlusTree.ShiftRight` | src/bptree.c:122-125 | the downward loop moves a[from..to] one place to the right and leaves the rest |
| `BPlusTree.InsertLeafWithoutSplit` | src/bptree.c:115-130 | the leaf holds its old entries with the new one in sorted place; its next link, footprint and validity stay |
| `BPlusTree.WithNewEntry` | src/bptree.c:151-165 | the temporary arrays hold the overfull leaf in order |
| `BPlusTree.SplitLeafAndInsert` | src/bptree.c:132-189 | the leaf keeps the lower half and is linked to the new right leaf, which holds the upper half and takes over the old next link; the promoted key is the first on the right |
| `BPlusTree.InsertIntoLeaf` | src/bptree.c:191-209 | duplicate, in-place and splitting insertion into a leaf as the value-level insertion says; a duplicate changes no field |
| `BPlusTree.InsertInternalWithoutSplit` | src/bptree.c:211-229 | keys and children of the node become the old ones with separator and right child spliced in |
| `BPlusTree.WithNewChild` | src/bptree.c:246-268 | the temporary arrays hold the overfull internal node in order |
| `BPlusTree.RowHalves` | src/bptree.c:270-288 | cutting a row of subtrees at a separator gives two rows with disjoint footprints, valid subtrees and an unbroken chain of leaves across the cut |
| `BPlusTree.SplitInternalAndInsert` | src/bptree.c:231-294 | both nodes are valid, their footprints are disjoint, their keys, subtrees and leaves are the two halves around the promoted key, and the chain runs from one into the other |
| `BPlusTree.LinkedKept` | src/bptree.c:308-314 | a child that changed in place leaves the row valid: disjoint footprints, chained leaves |
| `BPlusTree.LinkedSplit` | src/bptree.c:311-326 | a child that split leaves the row valid with the new child spliced in |
| `BPlusTree.InsertBelowLeaf` | src/bptree.c:296-302 | the leaf case of the recursion |
| `BPlusTree.InsertBelowChild` | src/bptree.c:304-327 | one level of the recursion: tree value, disjointness, first leaf and the chain around the subtree are as they must be in each outcome |
| `BPlusTree.InsertRecursive` | src/bptree.c:296-327 | insertion below any node of the linked tree computes the value-level insertion, touches only its own subtree and new nodes, and keeps the leaf chain; a duplicate changes no object at all |
| `LeafChain.LeavesFacts` | src/bptree.c:393-425 | the leaves of a subtree in order form a chain through next from its first to its last leaf, and hold its entries in order |
| `LeafChain.LeavesValid` | src/bptree.c:393-407 | every node of that chain is a valid leaf |
| `LeafChain.ChainAcyclic` | src/bptree.c:444-461 | a chain that ends never meets a node twice |
| `LeafChain.LeavesAround` | src/bptree.c:409-425 | the leaves of a node are the leaves left of a child, of the child, and right of it, with the entries of those subtrees |
| `BPlusIndex.InsertAt` | src/bptree.c:343-363 | insertion at the root, with root growth on a split |
| `BPlusIndex.NewRoot` | src/bptree.c:350-361 | a split root gets a parent whose row is valid and whose last leaf still ends the chain |
| `BPlusIndex.VisitsArePrefix` | src/bptree.c:427-492 | the calls a visitor gets are the whole list in order if all answer true; otherwise a prefix that ends with the first call answered false |
| `BPlusIndex.FindFirstAbove` | src/bptree.c:437-441 | the first position in the leaf above the key, also when the key itself is there |
| `BPlusIndex.LeafForNarrows` | src/bptree.c:409-425 | the leaf find_leaf reaches splits the chain: all entries in leaves before it are below the key, all after it above |
| `BPlusIndex.WalkToEnd` | src/bptree.c:443-461 | the nested loops visit exactly the remaining entries of the chain in order, and terminate |
| `BPlusIndex.WalkBelow` | src/bptree.c:464-492 | the walk from the first leaf visits exactly the entries below the key, stops at the first key that is not, and terminates |
| `BPlusIndex.Index.constructor` | src/bptree.c:70-76 | a new index is valid and empty |
| `BPlusIndex.Index.EntriesAreSorted` | src/bptree.c:393-407 | the entries of an index are strictly ascending |
| `BPlusIndex.Index.ChainIsLeaves` | src/bptree.c:393-407 | from the leftmost leaf through next: exactly the leaves of the tree in order, each once, ending in null, holding the entries of the index |
| `BPlusIndex.Index.NoNodeIsLost` | src/bptree.c:43-54 | the nodes an index ever created, counted where they are created, are exactly the nodes of its tree, and for order 4 and up at most max(1, entries - 1) |
| `BPlusIndex.Index.Insert` | src/bptree.c:329-364 | returns true exactly for absent keys and then inserts exactly that entry; otherwise changes no object; tree and chain stay consistent for every order from 3 up |
| `BPlusIndex.Index.Search` | src/bptree.c:366-391 | returns exactly the lookup in the entry list; the nodes the loop reads, counted as it goes, are the path to the leaf and obey that bound: at most log2(n) for order 4 and more than one leaf |
| `BPlusIndex.Index.LeftmostLeaf` | src/bptree.c:393-407 | reaches the first leaf of the chain |
| `BPlusIndex.Index.FindLeaf` | src/bptree.c:409-425 | reaches the leaf the key belongs to |
| `BPlusIndex.Index.AboveFrom` | src/bptree.c:427-442 | the entries above a key are the rest of its leaf and all leaves after it |
| `BPlusIndex.Index.VisitGreaterThan` | src/bptree.c:427-462 | calls the visitor on precisely the entries above the key, once each, ascending, until one call answers false |
| `BPlusIndex.Index.VisitLessThan` | src/bptree.c:464-492 | the same for the entries below the key |
| `Numbers.IntRoundTrip` | src/executor.c:388-394 | an id written with %d is read back by the strtol checks as the same id, for every 32-bit int |
| `Numbers.IntIsShort` | src/executor.c:394-394 | such a text has at most 11 bytes and fits a value |
| `Numbers.IntIsNumeral` | src/executor.c:394-394 | such a text has the form of a number token |
| `Numbers.ParseExactly` | src/executor.c:72-88 | a text is accepted as the int n exactly if n is in range and the text is, after blanks and with or without a sign, digits that denote n by their places; or if it is empty and n is 0 |
| `Numbers.NumeralExactly` | src/executor.c:72-88 | a number token, leading zeros included, is accepted exactly if the number its digits denote is in range |
| `Numbers.OutOfRangeIsRefused` | src/executor.c:72-88 | the decimal text of a number out of range is refused |
| `FrontEnd.IdIsGoodValue` | src/tokenizer.c:127-158 | so every id can be written in a statement |
| `Csv.WriteField` | src/storage.c:116-154 | the two loops write the field that the specification gives: quoted exactly when it holds a comma, quote or newline, quotes doubled |
| `Csv.WriteRow` | src/storage.c:156-176 | the loop writes the fields with commas between them and one newline |
| `Csv.ParseCsvLine` | src/storage.c:57-114 | the scanning loop computes the parse of the line, including every refusal (17th column, 64th byte) |
| `Csv.ParseBounds` | src/storage.c:57-114 | whatever the line, a successful parse has 1 to 16 values of at most 63 bytes |
| `Csv.RoundTrip` | src/storage.c:57-176 | for 1 to 16 values of at most 63 bytes without line ends and NUL, parsing the written row gives back exactly those values |
| `Csv.RoundTripExactly` | src/storage.c:57-176 | and for rows with any other byte in a value it does not: the round trip holds if and only if no value holds a newline, carriage return or NUL |
| `Csv.WriterInjective` | src/storage.c:156-176 | two storable rows with the same text are the same row |
| `Csv.ParseThenWriteDiffers` | src/storage.c:57-176 | the other direction fails for the line "a" in quotes: it is read as a, which is written without quotes |
| `Csv.WriteBackExactly` | src/storage.c:57-176 | for every readable line: writing what was read gives the line back if and only if the line is canonical, which is a condition on its bytes alone: plain fields hold no quote, quoted fields hold a comma or a doubled quote, and the one line end is the last byte |
| `Csv.RowIsCanonical` | src/storage.c:116-176 | every row the writer writes is canonical |
| `Csv.ScanClean` | src/storage.c:57-114 | no value that is read holds a newline, carriage return or NUL |
| `Csv.ScanQuotes` | src/storage.c:71-88 | of every two quotes in a line at most one becomes part of a value |
| `Csv.ParseKeepsText` | src/storage.c:57-114 | whatever line is read, but for quotes nothing of it is lost, added or moved: the values without quotes are the stretches between the commas that an even number of quotes comes before |
| `Csv.PlainExactly` | src/storage.c:116-139 | a value is written as it is exactly if it holds no comma, quote or newline |
| `Csv.RowFits` | include/sqlproc.h:25-32 | every row the program can hold is written in at most 2064 bytes, newline included |
| `Csv.BoundAttained` | include/sqlproc.h:25-32 | and a storable row of exactly 2064 bytes exists, so the 2065-byte buffer has not one byte to spare |
| `Csv.NewlineIgnored` | src/storage.c:71-71 | a line parses the same with and without its newline |
| `Csv.RowIsOneLine` | src/storage.c:156-176 | a stored row has exactly one line end, its last byte, and no NUL |
| `Schemas.FindSchemaColumn` | src/executor.c:39-51 | the position of the first column of that name, or none |
| `TableFile.RowKept` | src/storage.c:178-218 | after any append, repaired newline included, a row read at any old offset is what it was |
| `TableFile.NewRowLine` | src/storage.c:36-55 | one read takes the whole row just written, and the length check never refuses it |
| `TableFile.NewRowRead` | src/storage.c:347-394 | reading at the returned offset gives back the inserted row |
| `TableFile.AppendToFile` | src/storage.c:178-394 | what an append makes of any file with a good header: the rows before and the new one at its offset (a file that could not be read to its end still cannot); but if the end of the file cuts the header or a row, the newline supplied is read as a line of its own, an extra row of one empty value in a one-column table and an unreadable line in any other |
| `TableFile.CutLineBecomesTwo` | src/storage.c:48-54 | a concrete such file: one column, a last line of a 1, a NUL and filling up to the buffer size is read as one row, and after an append there are three |
| `TableFile.HeaderIsRow` | src/storage.c:303-326 | for column names without quotes and commas the raw header is what the row writer would write |
| `TableFile.HeaderIsReadExactly` | src/storage.c:262-317 | of the schemas the loader delivers, the header written for one is accepted on reading if and only if no column name holds a quote |
| `TableFile.QuotedNameIsRefused` | src/storage.c:262-317 | a concrete schema, with one column named a"b, whose header is written and then refused |
| `TableFile.NewFile` | src/storage.c:244-327 | a file just created has a header that is accepted, no rows and no cut line |
| `TableFile.RowsAreAtTheirOffsets` | src/storage.c:1195-1206 | offsets ascend, and seeking to the offset of any row reads that row |
| `TableFile.RowsAreWholeLines` | src/storage.c:36-55 | in a file without NULs no part of a line is taken for a row: every row starts behind a newline |
| `TableFile.AppendSafe` | src/storage.c:178-394 | append as a whole, on any file: refused exactly for a file whose header cannot be read or differs (an empty file included); otherwise the old bytes are a prefix, every row readable at an old offset stays, and the table gains exactly the new row at the offset returned if and only if the header and no row is cut by the end of the file |
| `RowIndex.IndexedDescribes` | src/storage.c:1195-1258 | the index built from the rows is exactly the set of (id, offset of its line) pairs, sorted, one per row |
| `RowIndex.IndexedExactly` | src/storage.c:1228-1245 | it exists exactly when every row has an id and no two rows share one |
| `RowIndex.NoIndexLater` | src/storage.c:1228-1245 | once a row without id or a repeated id was met, no later row can repair that |
| `RowIndex.MaxIdIsMaximum` | src/storage.c:913-1018 | the scan for the largest value finds a maximum of all rows, also when all are negative |
| `RowIndex.MaxIdIsMaxKey` | src/storage.c:913-1262 | on every table that can be indexed it is the last key of the index, which is the max_value of the rebuild; 0 for no rows |
| `RowIndex.OccursIsMembership` | src/storage.c:1020-1125 | the early-stopping search reports a value exactly when some row has it |
| `RowIndex.OccursIsLookup` | src/storage.c:1020-1262 | on every table that can be indexed the search agrees with the index lookup |
| `Selection.FilteredIsMeeting` | src/storage.c:738-789 | when every row can be compared, the scan shows exactly the rows meeting the condition, in file order |
| `Selection.FetchedIsAllAt` | src/storage.c:897-911 | reading at offsets of indexed rows never fails and shows one row per offset in order |
| `Selection.IndexLeads` | src/storage.c:1195-1258 | every entry of an index leads to a readable row with that id |
| `Selection.RangeInserted` | src/bptree.c:427-492 | inserting an entry adds it to a range exactly when its key lies in the range |
| `Selection.RangeFindsTheSame` | src/executor.c:649-707 | the rows an index range leads to are the rows the scan selects, each as often |
| `Selection.IndexRefinesScan` | src/executor.c:562-707 | for =, > and < on the primary key the index shows what the scan shows: the same list for =, the same rows in ascending id order for the ranges, and both succeed |
| `Storage.Reader.Gets` | src/storage.c:1210-1212 | reads the next line and moves on by its length; nothing at the end of the file |
| `Storage.HeaderMatches` | src/storage.c:220-242 | true exactly when the values are the column names in order |
| `Storage.ReadHeader` | src/storage.c:262-295 | accepts exactly the files whose first line is the header of the schema |
| `Storage.WriteHeader` | src/storage.c:303-326 | the loop writes the column names with commas and a newline |
| `Storage.EnsureDataFile` | src/storage.c:244-327 | creates a missing file with its header, leaves an existing one alone, and fails exactly for a header that cannot be used |
| `Storage.EnsureAppendStartsOnNewLine` | src/storage.c:178-218 | adds a newline exactly when the file is not empty and does not end with one |
| `Storage.AppendRow` | src/storage.c:347-394 | the file and the offset are those of TableFile.Appended; on failure no file changes |
| `Storage.ReadNext` | src/storage.c:1204-1226 | the checks of every reading loop: end, unreadable line, or the values of the row at the position |
| `Storage.RegisterRow` | src/storage.c:1228-1250 | search and insert add the row to the index unless it has no id or the id is taken |
| `Storage.IndexRow` | src/storage.c:1187-1254 | one turn of the rebuild loop keeps index and largest id in step with the rows seen, or ends with the right answer |
| `Storage.IndexRows` | src/storage.c:1187-1258 | the rebuild loop |
| `Storage.RebuildPkIndex` | src/storage.c:1127-1262 | succeeds exactly when the table can be read to its end and its ids are distinct, and then index and maximum are those of the rows |
| `Storage.FindMaxIntValue` | src/storage.c:913-1018 | the loop computes the largest value, 0 for a missing or empty file, failure for an unreadable one |
| `Storage.IntValueExists` | src/storage.c:1020-1125 | the loop computes the early-stopping search |
| `Storage.PrintRows` | src/storage.c:396-496 | shows the selected columns of all rows up to the first unreadable one, and says whether it came to the end |
| `Storage.PrintRowsWhere` | src/storage.c:675-789 | shows the selected columns of the rows the scan selects |
| `Storage.ShownFirst` | src/storage.c:738-785 | one turn of the scan loop: stop, skip or show |
| `Storage.PrintRowAtOffset` | src/storage.c:498-602 | shows the row at the offset; nothing, successfully and without opening the file, for a negative offset |
| `Storage.PrintRowsAtOffsets` | src/storage.c:840-911 | shows the rows at the offsets in the order given; the file is not opened for an empty list |
| `Storage.ReadRowAt` | src/storage.c:791-838 | seeks and reads one row, or fails |
| `Coherence.FreshIsGood` | src/executor.c:125-179 | a newly created state is in step with its file and its next id is above every stored id |
| `Coherence.LoadedIsCoherent` | src/executor.c:181-193 | getting a table state changes no file and no other state and keeps the invariant |
| `Coherence.AllocatedIsNew` | src/executor.c:195-215 | an automatic id is in range, is never the largest int, is not stored, and the next one is exactly one larger; next_id cannot overflow |
| `Coherence.RememberedIsAhead` | src/executor.c:217-231 | after an explicit id was stored, next_id is above every stored id (the largest int aside) and has not decreased |
| `Coherence.InOrderOk` | src/executor.c:298-335 | without a column list every cell of an accepted row can be stored and, for int columns, read back |
| `Coherence.PlacedOk` | src/executor.c:337-383 | the same with a column list |
| `Coherence.BuiltRowIsCoherent` | src/executor.c:281-407 | building a row changes at most loaded states and next ids, and an accepted row has one storable cell per column |
| `Coherence.WrittenTableIsInStep` | src/executor.c:443-460 | after the row is appended and its id inserted the index is again the index of the file, if and only if no line of the table was cut |
| `Coherence.StoredInStep` | src/executor.c:425-466 | the same for storing a row as a whole, whether the table was in use already or is loaded for it |
| `Coherence.OtherTablesStay` | src/executor.c:109-123 | a table that is not written to stays in step |
| `Coherence.RegisteredIsCoherent` | src/executor.c:443-463 | append, index insertion and remember_explicit_primary_key together keep the invariant |
| `Coherence.PlainAppendIsCoherent` | src/executor.c:443-447 | appending to a table without primary key keeps the invariant |
| `Coherence.StoredIsCoherent` | src/executor.c:425-466 | storing a row happens completely or not at all: bptree_insert never fails after the row is in the file |
| `Coherence.InsertIsCoherent` | src/executor.c:409-466 | an INSERT keeps the invariant; rejected, it changes no file byte and no index entry (next_id may advance); accepted, it adds one row to one file and its id to that index |
| `Runs.SelectIsCoherent` | src/executor.c:732-835 | a SELECT keeps the invariant and changes no file and no index |
| `Runs.RunIsCoherent` | src/executor.c:837-858 | over every run of INSERT, SELECT and restart, from any files in which no line of a table with a primary key is cut by the end of the file, the index of every loaded table is the index of its file |
| `Runs.IndexIsTheIdMap` | src/executor.c:125-179 | so ids in the file are pairwise distinct and the index is the map from each id to the offset of its line |
| `Runs.RestartRebuilds` | src/executor.c:125-179 | rebuilding from the bytes written gives the live index; it succeeds exactly when the largest id is not the largest int, with a next_id no larger than the live one |
| `Runs.RestartReloads` | src/executor.c:125-193 | after a restart the table loads with that index |
| `Runs.IndexAgreesWithScans` | src/storage.c:913-1262 | on a running system the linear searches agree with the index, for maximum and membership |
| `Runs.SelectThroughIndex` | src/executor.c:732-835 | a SELECT with =, > or < on the primary key succeeds with the rows of the linear scan, each as often, if and only if the table can be loaded (CanLoad); then it shows them in ascending id order, and for = the outputs are equal |
| `Runs.LoadsExactly` | src/executor.c:125-193 | a table can be loaded exactly when it is in use already, or its file can be read to the end, its ids are present, distinct and not the largest int, and a state is free |
| `Runs.InsertThenRead` | src/executor.c:409-466 | after an accepted INSERT its table reads as before with exactly the new row at the end, if and only if no line of it was cut, which holds for every table with a primary key; every other file is untouched |
| `Runs.InsertThenSelect` | src/executor.c:562-599 | and SELECT ... WHERE id = the inserted id, in any spelling of the number, shows exactly that row |
| `Runs.PickedBag` | src/storage.c:785-795 | projecting to the selected columns preserves that agreement |
| `AutomaticIds.RunNeverGoesBack` | src/executor.c:195-231 | within a process next_id never decreases |
| `AutomaticIds.AutomaticIdsIncrease` | src/executor.c:195-231 | automatic ids of a table increase strictly along a run, with any statements, accepted or rejected, in between |
| `RowBuilding.PlacedExactly` | src/executor.c:337-383 | listed values are accepted exactly when every name is a column, no name repeats and every value fits its column |
| `RowBuilding.PlacedCells` | src/executor.c:337-383 | each cell then holds the value paired with its column |
| `RowBuilding.PlacedInAnyOrder` | src/executor.c:337-383 | permuting the (column, value) pairs gives the same cells or the same refusal |
| `RowBuilding.ColumnOrderIrrelevant` | src/executor.c:281-466 | and the same statement outcome, files and states |
| `RowBuilding.CompletedTakesId` | src/executor.c:385-406 | an accepted row takes an id exactly for an omitted primary key and changes nothing else |
| `RowBuilding.CompletedState` | src/executor.c:385-406 | accepted or refused, completing takes an id exactly when the primary key is empty and every cell before it is not |
| `RowBuilding.BuiltState` | src/executor.c:281-407 | the same for the whole row: the list can be placed, lacks the primary key and has every column before it |
| `RowBuilding.ListedRow` | src/executor.c:281-407 | a row from a column list holds in every column the listed value, or a newly allocated id in the omitted primary key |
| `RowBuilding.AutomaticIdIsNew` | src/executor.c:385-406 | that id was not stored before, is the next_id of a loaded table, and next_id is then one larger |
| `RowBuilding.RefusedInsertState` | src/executor.c:281-466 | what a refused INSERT leaves behind: the allocation when it called for an id, otherwise at most a loaded state |
| `RowBuilding.RefusedInsertTakesId` | src/executor.c:195-466 | on a refused INSERT the next automatic id moves, by one, if and only if the statement calls for an id, the state loads and next_id is not the largest int |
| `RowBuilding.RefusedAfterTakingId` | src/executor.c:385-402 | a concrete such statement: INSERT INTO t (name) VALUES (the string a) on columns id, name, age and an empty directory is refused and leaves next_id at 2, where a restart computes 1 |
| `AutomaticIds.RestartAgrees` | src/executor.c:125-179 | a restart gives back the whole live state, next_id included, if and only if next_id is the largest id plus one |
| `AutomaticIds.InsertKeepsAgreement` | src/executor.c:195-466 | from a state a restart would give back, in memory or only now loaded, an INSERT leads to another such state if and only if: refused, it took no id; accepted, the stored id is not the largest int and is not a negative id in an empty table |
| `Locality.ExecutedTouches` | src/executor.c:409-835 | every statement, accepted or refused, changes no file and no state but those of its table, and loads no other state |
| `Locality.InsertingAlone` | src/executor.c:409-466 | an INSERT into a table in use does to its file and state what it would do were they alone, whatever slot holds the state |
| `Locality.InsertingLoaded` | src/executor.c:181-466 | loading the table beforehand changes nothing about an INSERT, except that one refused before it needs the state then leaves the loaded state behind |
| `Restarts.InsertFromState` | src/executor.c:409-466 | outcome, file and new state of an INSERT are a function of the files and the state of its table, in memory or still to be loaded |
| `Restarts.ExecutedSame` | src/executor.c:837-858 | any statement has the same output, files and new state in two databases with the same files and the same state of its table |
| `Restarts.CacheExactly` | src/executor.c:125-193 | a restart leaves the state of a table what it is if and only if next_id is the largest id plus one or, for a table not in use, it cannot be loaded or a slot is free |
| `Restarts.RestartIsInvisible` | src/executor.c:125-858 | then no statement on the table can tell whether the program was restarted before it |
| `Restarts.StepAlike` | src/executor.c:837-858 | with a slot for every table with a primary key, databases alike in files and states stay alike under every statement, with the same output |
| `Restarts.CachedExactly` | src/executor.c:125-193 | a restart leaves all states what they are if and only if every state in memory has the largest id plus one as its next_id |
| `Restarts.RestartsAreInvisible` | src/executor.c:837-858 | over a whole run, restarts at such moments change no output, no file and no state |
| `Restarts.InsertKeepsCache` | src/executor.c:195-466 | on an INSERT that can load its table this stays so if and only if: refused, it took no id; accepted, the stored id is not the largest int and is not a negative id in an empty table |
| `Restarts.SelectKeepsCache` | src/executor.c:732-835 | and on a SELECT always |
| `Restarts.LoadsAfterInsert` | src/executor.c:149-153 | after an accepted INSERT a new process can load the table if and only if no row, the new one included, has the largest int as its id |
| `Restarts.LockedStatement` | src/executor.c:149-153 | on a table that has such a row and is not in use every INSERT is refused, every SELECT through the index fails, and nothing changes |
| `Restarts.LockedForGood` | src/executor.c:149-153 | and no run of statements and restarts ever changes that or the file |
| `Restarts.LargestIsStored` | src/executor.c:409-466 | INSERT INTO t VALUES (2147483647) on an empty directory is accepted |
| `Restarts.LargestIdLocksTable` | src/executor.c:149-153 | and after a restart the table cannot be loaded and looking the id up fails, although the scan shows it |
| `Answers.SelectAll` | src/executor.c:732-760 | SELECT without WHERE shows every row in file order: under each selected name the value of that column, for * the row itself; it succeeds exactly if the table can be read to its end |
| `Answers.SelectByText` | src/storage.c:617-629 | WHERE on a string column: = shows exactly the rows with that text in the column, != exactly the others, in file order |
| `Answers.SelectByNumber` | src/storage.c:632-672 | WHERE on an int column by scan: exactly the rows whose number stands as the operator says to the number in the statement, in file order, up to the first value that is no number |
| `Answers.SelectByKey` | src/executor.c:562-707 | =, > and < on the primary key: if the table can be loaded, exactly the rows whose id stands so to the number in the statement, in ascending id order; if not, failure and no row |
| `Answers.SelectIsRefused` | src/executor.c:468-544 | an unknown table or column, a value of the wrong type, a number out of range, > or < on a string: failure, no row, and no change |
| `Inserts.BuiltRowExactly` | src/executor.c:281-407 | the values make a row exactly when each fits its column (type, int range, no formula prefix), none is listed twice and only the primary key may be missing, and then only if an id can be had |
| `Inserts.InsertsExactly` | src/executor.c:409-466 | an INSERT is accepted exactly when the table exists, its file if any has its header, the values make a row, and for a table with a primary key it can be loaded and the given id is not in the file; refused, it changes no file |
| `Inserts.InsertStores` | src/executor.c:409-466 | accepted, it appends the row of the statement: in every column the value given for it, in an omitted primary key the next automatic id; and its id goes into the index |
| `TableStates.States.FindTableState` | src/executor.c:109-123 | finds the first slot of the table, or none |
| `TableStates.States.FirstFree` | src/executor.c:155-156 | finds the first free slot, or none when all 32 are used |
| `TableStates.States.Occupy` | src/executor.c:155-174 | takes the slot for the new state; all other states and indexes stay |
| `TableStates.States.SetNextId` | src/executor.c:212-213 | changes next_id of one state and nothing else |
| `TableStates.States.InsertEntry` | src/executor.c:457-460 | inserts into one index; every other index, although in the same heap, stays what it was |
| `TableStates.States.VisitRange` | src/executor.c:673-684 | the range visits on the index of a slot |
| `Executor.Executor.constructor` | src/executor.c:27-27 | a process starts with no table state |
| `Executor.Executor.CreateTableState` | src/executor.c:125-179 | creates a state exactly when the index can be rebuilt, the largest id is not the largest int and a slot is free |
| `Executor.Executor.GetTableStateIndex` | src/executor.c:181-193 | finds or creates |
| `Executor.Executor.AllocateNextPrimaryKey` | src/executor.c:195-215 | hands out next_id, or fails at the largest int |
| `Executor.Executor.RememberExplicitPrimaryKey` | src/executor.c:217-231 | raises next_id above an explicit id, never for the largest int |
| `Executor.Executor.ValidatePrimaryKeyUnique` | src/executor.c:253-279 | refuses an id that is in the index |
| `Executor.Executor.PlaceValues` | src/executor.c:337-383 | the loop over listed columns fills the cells array |
| `Executor.Executor.CompleteCells` | src/executor.c:385-406 | the loop over empty cells, allocating at the primary key |
| `Executor.ValuesInOrder` | src/executor.c:298-335 | the loop without column list |
| `Executor.Executor.BuildInsertRowValues` | src/executor.c:281-407 | both forms of INSERT, including the state changes of a refused row |
| `Executor.Executor.StoreRow` | src/executor.c:425-466 | parse the id, check it, append, register, remember, in this order |
| `Executor.Executor.ExecuteInsert` | src/executor.c:409-466 | the whole INSERT: effect and result are those of Database.Inserting |
| `Executor.ResolveSelectedColumns` | src/executor.c:468-503 | all columns, or the positions of the named ones, or failure |
| `Executor.CollectsOffsets` | src/executor.c:607-630 | the visitor collects the offsets of the range in order and never stops it |
| `Executor.Executor.SelectWithIndex` | src/executor.c:562-599 | = on the primary key: one lookup, one row |
| `Executor.Executor.SelectWithIndexRange` | src/executor.c:649-707 | > and < on the primary key: a range visit, then the rows at the offsets collected |
| `Executor.Executor.AnswerWhere` | src/executor.c:761-833 | the dispatch between index lookup, index range and scan |
| `Executor.Executor.ExecuteSelect` | src/executor.c:732-835 | the whole SELECT: effect and output are those of Database.Selecting |
| `Executor.Executor.ExecuteProgram` | src/executor.c:837-858 | statements in order, up to the first that fails |
| `Tokenizer.SameLine` | src/tokenizer.c:281-337 | along one line the line number stays and the column counts bytes |
| `Tokenizer.TokenList.Append` | src/tokenizer.c:62-84 | appends, or fails at 512 tokens |
| `Tokenizer.ReadWord` | src/tokenizer.c:86-125 | the longest word, lower-cased unless it is a keyword; refused from 64 bytes on |
| `Tokenizer.ReadNumber` | src/tokenizer.c:127-158 | an optional minus and the longest digits; refused from 64 bytes on |
| `Tokenizer.ReadString` | src/tokenizer.c:160-201 | the text between single quotes, with its three kinds of error |
| `Tokenizer.ReadSymbol` | src/tokenizer.c:203-266 | the one- and two-byte symbols |
| `Tokenizer.TokenizeSql` | src/tokenizer.c:268-338 | the running line and column counters give exactly the positions defined by counting newlines and bytes, for every token and every error |
| `Tokenizer.LexShape` | src/tokenizer.c:281-337 | a token takes at least one byte, lies on one line, fits its buffer, and its length is what the column counter adds |
| `Tokenizer.LineBreakIsReported` | src/tokenizer.c:174-181 | a line break inside a string is reported at its own position |
| `Tokenizer.TokensStandInText` | src/tokenizer.c:268-338 | every token of a whole text stands at the byte its position names, in ascending order; the list has exactly one end token, at the end; texts fit, strings are clean, numbers are numerals |
| `Parser.ParserState.AdvanceToken` | src/parser.c:41-47 | moves on by one, never past the end token |
| `Parser.ParserState.ConsumeToken` | src/parser.c:55-68 | consumes the expected token or names the current one in the error |
| `Parser.ParserState.NameList` | src/parser.c:252-273 | names separated by commas, at most 16; every turn advances |
| `Parser.ParserState.ValueList` | src/parser.c:167-213 | literals separated by commas, at most 16, and exactly as many as expected |
| `Parser.ParserState.InsertStatement` | src/parser.c:215-300 | the INSERT production, with every error position |
| `Parser.ParserState.SelectStatement` | src/parser.c:302-375 | the SELECT production |
| `Parser.ParserState.Program` | src/parser.c:392-432 | statements closed by semicolons, at most 32, up to the end token, which is never passed |
| `Parser.ParseValues` | src/parser.c:167-213 | a value list has 1 to 16 literals, as many as expected, and ends before the end token |
| `FrontEnd.ReadIsAcceptable` | src/parser.c:215-432 | every statement the front end delivers meets what the executor asks: as many values as listed columns, texts without line ends and NUL, at most 63 bytes |
| `Writings.PieceIsRead` | src/tokenizer.c:86-266 | bytes that spell a well-formed token, whatever letters of a word are capitals, are read as that token up to where they end |
| `Writings.WritingIsRead` | src/tokenizer.c:268-338 | a text that spells a list of tokens, with any blanks between them, is tokenized into exactly that list |
| `Writings.LexemeWasWritten` | src/tokenizer.c:86-266 | whatever is read as a token is well-formed, and the bytes read spell it |
| `Writings.ReadIsWritten` | src/tokenizer.c:268-338 | whatever is tokenized spells the tokens it gives |
| `Writings.TokenizedExactly` | src/tokenizer.c:268-338 | so a text is tokenized into given tokens if and only if it spells them, each is well-formed and there are at most 512 with the end |
| `Writings.FailsExactly` | src/tokenizer.c:160-338 | a text that is not tokenized is reported at the first byte where no token can be read, or at the line break in the string that starts there, and everything before spells tokens; or there are too many tokens |
| `FrontEnd.InsertIsRead` | src/parser.c:215-300 | the tokens of an INSERT are parsed back into it |
| `FrontEnd.SelectIsRead` | src/parser.c:302-375 | the tokens of a SELECT are parsed back into it |
| `FrontEnd.StatementsAreRead` | src/parser.c:392-432 | the tokens of a program are parsed back into it |
| `Recognized.StatementWasRead` | src/parser.c:215-390 | the tokens a statement was parsed from are the tokens of that statement written out, and the statement keeps the limits |
| `Recognized.StatementsWereRead` | src/parser.c:392-432 | the same for a program up to the end token |
| `Recognized.AcceptedIsGood` | src/parser.c:392-432 | a text that is read as a program is tokenized into that program written out, and the program keeps the limits |
| `Recognized.ReadExactly` | src/parser.c:392-432 | a text is read as a program if and only if the program keeps the limits (16 columns, 32 statements, 512 tokens, 63-byte texts, names that are no keywords) and the bytes of the text spell it: words in any mixture of capitals and small letters, blanks of any kind between tokens or none where they do not run together |
| `Recognized.FrontEndRoundTrip` | src/parser.c:392-432 | in particular the rendering of any program within the limits is read back as the program |
| `Recognized.ReadableExactly` | src/parser.c:392-432 | so the programs within the limits are exactly those that some text is read as |
| `Rejections.StatementsDecided` | src/parser.c:392-432 | what is read from a position on, or where it is rejected, depends on no token behind the one reported, or behind the one after it if that is a literal |
| `Rejections.RejectedExactly` | src/parser.c:41-432 | a rejected program is rejected at the first token with which no readable program goes on: every list with the same tokens up to there is rejected there, and some readable list has the same tokens before it; the exceptions are named: the last of too few values, and the token behind the comma after the last item a list may have |
| `Program.ProgramIsCoherent` | src/executor.c:837-858 | executing a parsed program keeps the invariant |
| `Program.ProgramGoesThrough` | src/executor.c:837-858 | a program takes the database through states, one per statement reached: each statement executed on the state before it gives the state after it and its output, every output before the last is of a success, and if not all statements were reached the last failed |
| `Program.RunSqlText` | src/app.c:170-192 | SQL text through tokenizer, parser and executor: a text that is no program changes nothing, any other is executed statement by statement in that sense up to the first failure; the call succeeds exactly when the text is a program and all its statements succeed; every index stays the index of its file |
| `Program.RunSession` | src/app.c:170-192 | a new executor on a data directory runs the texts one after the other, each as RunSqlText does; the invariant holds from its construction on |
| `Program.RunSessions` | src/app.c:170-192 | any number of processes one after the other on the same directory, each on the files the one before left; the next can always start |
| `Program.SessionsAreCoherent` | src/app.c:170-192 | and in each of them, whatever ran before, every index is the index of its file |

## Left out

- Parser.ParserState.InsertStatement: the source locations kept inside statements are left out; they only serve error messages. Positions of tokens and of parse errors are modelled.
- Arguments, prompts, directories, timing and printing (`src/main.c`, the rest of `src/app.c`, `src/benchmark.c`, `benchmarks/bench_index.c`).
- Loading schema files (`src/schema.c`); a schema is looked up by table name, and a missing one is an error.
- Real file calls: a file is a byte sequence with a position, and operations on it do not fail for reasons of I/O.
- Failing `malloc` and `realloc`, `bptree_destroy`, `free`, and the union of leaf and internal data; leaf and internal arrays are separate fields.
- A null visitor or index: the callers never pass one.
- A table state for a table without primary key: the executor never creates one, so the states of the model always have an index.
- The second call of `get_table_state_index` after an append (`src/executor.c:452`): the slot found before the append is used, which is the same one.
- Error message texts, `[INDEX]`, `[INDEX-RANGE]` and `[SCAN]` lines and the printed header; output is the list of shown rows and whether the statement succeeded.
- Locale: letters and digits are those of ASCII.
