# BuzzDB storage engine and graph layer, modelled in Dafny

This project models the core of `buzzdb_ec.cpp`, a small page-oriented
storage engine with a graph layer built on top of it.

- **Wire** (`wire.dfy`): the whitespace-delimited text format of fields and
  tuples (`Field::serialize`/`deserialize`, `Tuple::serialize`/`deserialize`,
  `getSize`). Reading follows the token rules of `std::istream >>`.
- **Page** (`slotted_page.dfy`): the slotted page. It has a directory of 512
  slot descriptors in its first 3072 bytes, and records are placed after it by
  a first-fit scan (`addTuple`, `deleteTuple`, `print`).
- **Storage** (`storage.dfy`): the database file as a sequence of whole pages,
  together with the page counter `num_pages` (`load`, `flush`, `extend`,
  `extend(till)`).
- **Lru** (`lru.dfy`): the LRU replacement policy. It keeps a recency list,
  most recent first, and the set of pages it tracks (`touch`, `evict`).
- **Buffer** (`buffer.dfy`): the buffer manager (`fix_page`, `flushPage`,
  `extend`, `getNumPages`, the destructor). Each operation is specified by a
  function on a `Pool` value: the file, the resident pages and the recency
  list.
- **Property** (`property.dfy`): property values, covering equality, ordering
  and the typed getters. It also covers the map-based `Node`/`Edge` records,
  the packed `SNode`/`SEdge` records stored in pages, and `convert`.
- **Adjacency** (`adjacency.dfy`): the 180×180 adjacency matrix and what is
  defined over it:
  - the levels of a breadth-first search;
  - reachability within k steps, by walks;
  - the lines `printEdges` prints.
- **Graph** (`graph.dfy`): the graph manager. It covers `createNode`,
  `addNodeProperty`, `createEdge` and `addEdgeProperty`, and the two queries
  `findNthDegreeConnections` and `findConnectionsAndLikes`.

A field is *portable* when it survives the text format whatever text follows
it: every INT, and every STRING that is non-empty and holds neither
whitespace nor NUL. An empty STRING comes back only at the end of the text;
anywhere else the read takes the next word as its value.

Exceptions and process exits of the source become `Err` values of
`Common.Result`:

| error | source condition |
|---|---|
| `Overflow` | `std::overflow_error` |
| `OutOfRange` | `std::out_of_range` |
| `InvalidArgument` | `std::invalid_argument` |
| `BadVariantAccess` | a typed getter on the wrong type |
| `IoAbort` | a short page read, after which the source exits |
| `Malformed` | a number `>>` cannot extract: no digits, or out of range |
| `Unsupported` | a FLOAT field in the wire format |

The graph layer keeps its pages as a sequence of records, one per page id, as
seen through the buffer manager. `Buffer.FixReadsContent` and
`Buffer.FlushWrites` justify this: `fix_page` changes what no page reads as,
and `flushPage` stores the resident copy.

### Quirks of the code

- **Eviction.** `fix_page` writes an evicted page back but leaves it in
  `pageMap` (buzzdb_ec.cpp:506-513). The map therefore only grows, and a later
  request for the evicted page is a hit.
- **Edge endpoints.** The guard of `createEdge` admits node id 0, whose row
  `source - 1` wraps in `uint32_t` to 0xFFFF_FFFF (see Findings). The model
  uses the corrected guard, which admits only ids 1..180.
- **Node ids.** `addNodeProperty` refuses ids from 180 up, so it refuses node
  180 and accepts id 0. This is kept as written.
- **Likes.** `findConnectionsAndLikes` sums likes in a `uint32_t` counter and
  stores the sum through an `int`.
  - The counter wraps modulo 2^32 and the conversion to `int` is two's
    complement; both are modelled.
  - A `type` property that is not a string throws `bad_variant_access`, and
    so does a non-int `likes`; both are modelled as errors.

## Model

| member | source | states |
|---|---|---|
| Common.ToInt32 | buzzdb_ec.cpp:997-1003 | the conversion of a uint32 to int keeps the value modulo 2^32 and is the identity below 2^31 |
| Wire.DataLength | buzzdb_ec.cpp:64-68 | a field's payload size is positive; for a string it is its length plus the NUL |
| Wire.TupleSize | buzzdb_ec.cpp:148-154 | getSize, which nothing in the source calls, is at least the number of fields |
| Wire.TupleSizeAppend | buzzdb_ec.cpp:148-154 | getSize (never called in the source) of two runs of fields is the sum of their sizes; a run of INT fields takes 4 bytes per field |
| Wire.CString | buzzdb_ec.cpp:300-306 | what is read from a char buffer is its longest NUL-free prefix, ending at a NUL or at the end |
| Wire.SerializeField | buzzdb_ec.cpp:97-108 | the text of a field: type tag, payload size and value, each followed by a blank; its properties are Wire.FieldTextNoNul and the round trips below |
| Wire.SerializeTuple | buzzdb_ec.cpp:156-163 | the field count and a blank, then each field's text in order; Wire.TupleTextNoNul and Wire.TupleRoundTrip state its properties |
| Wire.DeserializeField | buzzdb_ec.cpp:115-129 | reads the tag and the size, then a word for STRING or an int for INT; an unknown tag gives the null field with the value unread, and a failed numeric read is an error; Wire.FieldRoundTrip, Wire.EmptyStringAtEnd, Wire.EmptyStringTakesNext and Wire.BlankSplitsString state what it gives back |
| Wire.DeserializeTuple | buzzdb_ec.cpp:170-177 | reads the field count, then that many fields in order; Wire.TupleRoundTrip proves it inverts Wire.SerializeTuple on portable fields |
| Wire.FieldRoundTrip | buzzdb_ec.cpp:97-129 | deserializing a serialized INT or non-blank STRING field gives the field back, whatever follows, and leaves the separator unread |
| Wire.FieldsRoundTrip | buzzdb_ec.cpp:156-177 | a run of serialized portable fields reads back one by one, in order |
| Wire.TupleRoundTrip | buzzdb_ec.cpp:156-177 | Tuple::deserialize inverts Tuple::serialize when every field is portable: same count, same tags, same values |
| Wire.EmptyStringAtEnd | buzzdb_ec.cpp:97-129 | an empty STRING field at the end of the text reads back as the empty string, since a failed `>>` leaves the string empty and the stream state is never checked |
| Wire.EmptyStringTakesNext | buzzdb_ec.cpp:97-129 | an empty STRING field followed by a word reads back as that word, and the read resumes after it |
| Wire.BlankSplitsString | buzzdb_ec.cpp:97-129 | a STRING holding a blank reads back cut at the blank, and the rest stays in the stream |
| Wire.FieldTextNoNul | buzzdb_ec.cpp:97-108 | a serialized field contains no NUL character |
| Wire.TupleTextNoNul | buzzdb_ec.cpp:156-163 | a serialized tuple contains no NUL, so a C-string copy of it stops exactly at its end |
| Wire.CStringAppend | buzzdb_ec.cpp:275-277 | reading a NUL-free text followed by anything gives that text followed by what the rest reads as |
| Page.FirstFit | buzzdb_ec.cpp:229-234 | the first slot that is empty and long enough, with no fitting slot before it, or the end when there is none |
| Page.OffsetsFromMetadata | buzzdb_ec.cpp:204 | every assigned slot starts at or after the slot directory |
| Page.EndsBefore | buzzdb_ec.cpp:244-258 | assigned slots do not overlap: an earlier one ends before a later one starts |
| Page.PlaceFacts | buzzdb_ec.cpp:229-264 | placement fails exactly when no slot fits; a reused slot keeps its offset; a fresh slot follows its predecessor; an accepted record ends inside the page; a rejected one leaves the directory unchanged |
| Page.AfterAdd | buzzdb_ec.cpp:217-280 | the directory after addTuple, of unchanged length: unchanged without a fitting slot, the slot unassigned again on overflow, else the slot filled at its offset; Page.AddKeepsLayout and Page.AddKeepsRecords prove what it keeps |
| Page.AfterDelete | buzzdb_ec.cpp:282-291 | the directory after deleteTuple, of unchanged length: the slot marked empty when it was occupied; Page.DeleteKeepsLayout proves nothing else changes |
| Page.AddKeepsLayout | buzzdb_ec.cpp:217-280 | addTuple keeps the directory valid, assigns at most one more slot, and never moves or resizes an assigned slot |
| Page.DeleteKeepsLayout | buzzdb_ec.cpp:282-291 | deleteTuple only sets the empty flag of the index and changes nothing for an index that is out of range or already empty |
| Page.Written | buzzdb_ec.cpp:275-277 | memcpy leaves the buffer size unchanged and puts the bytes in place |
| Page.WrittenOutside | buzzdb_ec.cpp:275-277 | memcpy leaves every byte outside its target as it was |
| Page.AddKeepsRecords | buzzdb_ec.cpp:217-280 | a successful addTuple keeps every stored record readable and stores the new one in the chosen slot |
| Page.DeleteKeepsRecords | buzzdb_ec.cpp:282-291 | deleteTuple forgets the deleted record and keeps all the others |
| Page.OccupiedBelow | buzzdb_ec.cpp:296-310 | exactly the occupied slots below k, in ascending order |
| Page.ListingBelow | buzzdb_ec.cpp:296-310 | the lines print gives for the slots below k, skipping empty ones; Page.ListingLength and Page.ListingAt state which slots they show |
| Page.ListingLength | buzzdb_ec.cpp:296-310 | print prints one line per occupied slot |
| Page.ListingAt | buzzdb_ec.cpp:296-310 | the i-th printed line shows the i-th occupied slot |
| Page.SlotReadsBack | buzzdb_ec.cpp:300-306 | the text read from a slot holding a portable tuple deserializes to that tuple's fields, whatever bytes follow the record |
| Page.PrintShowsRecords | buzzdb_ec.cpp:296-310 | print shows, for every stored tuple, the fields of that tuple |
| Page.SlottedPage.constructor | buzzdb_ec.cpp:206-214 | a new page has every slot unassigned and holds no record |
| Page.SlottedPage.FindSlot | buzzdb_ec.cpp:229-234 | the first-fit loop returns the first slot that is empty and long enough |
| Page.SlottedPage.AddTuple | buzzdb_ec.cpp:217-280 | succeeds exactly when a placement is found; then the serialized tuple is copied to its offset and the tuple is stored in that slot; otherwise nothing changes; the page invariant is kept |
| Page.SlottedPage.ResetSlot | buzzdb_ec.cpp:260-264 | the overflow path unassigns the slot again, which leaves the directory as it was |
| Page.SlottedPage.PlaceRecord | buzzdb_ec.cpp:266-277 | the chosen slot takes the record's offset and length, and the bytes are copied there |
| Page.SlottedPage.DeleteTuple | buzzdb_ec.cpp:282-291 | the slot is marked empty, its record is forgotten, and the bytes are untouched |
| Page.SlottedPage.Print | buzzdb_ec.cpp:296-310 | the lines printed are those of the occupied slots in slot order |
| Storage.Repeat | buzzdb_ec.cpp:390-404 | n copies of a page |
| Storage.Overwrite | buzzdb_ec.cpp:365-372 | the file after writing a page: an existing page replaced, a write past the end padded with zero pages; Storage.OverwriteReads proves what each page then holds |
| Storage.OverwriteReads | buzzdb_ec.cpp:365-372 | a write puts the page at its id, grows the file only to that page, fills any gap with zero pages, and leaves every other page unchanged |
| Storage.OverwriteCommutes | buzzdb_ec.cpp:365-372 | writes to two different pages commute |
| Storage.StorageManager.constructor | buzzdb_ec.cpp:322-341 | a truncated or empty file starts as one fresh page; otherwise the file keeps its pages and num_pages counts them |
| Storage.StorageManager.Load | buzzdb_ec.cpp:350-362 | reading a page in the file returns it; reading past the end aborts |
| Storage.StorageManager.Flush | buzzdb_ec.cpp:365-372 | the file after the write, with num_pages unchanged |
| Storage.StorageManager.Extend | buzzdb_ec.cpp:375-388 | one fresh page is appended and num_pages goes up by one |
| Storage.StorageManager.ExtendTill | buzzdb_ec.cpp:390-404 | zero pages are appended until num_pages is till + 1 |
| Lru.Without | buzzdb_ec.cpp:438-461 | removing a page never lengthens the list |
| Lru.WithoutFacts | buzzdb_ec.cpp:438-461 | removing a page takes out exactly that page, keeps the list duplicate-free, and shortens it by one if the page was there |
| Lru.DropLastFacts | buzzdb_ec.cpp:463-472 | evict removes the tail, which is in the list, and returns INVALID for an empty list |
| Lru.Touched | buzzdb_ec.cpp:438-461 | the recency list after touch: the page taken out, the tail dropped when the list is full, the page put at the head when there is room; Lru.TouchKeepsBound, Lru.TouchOrder and Lru.TouchTracks state its properties |
| Lru.TouchKeepsBound | buzzdb_ec.cpp:438-461 | touch keeps the list duplicate-free and within capacity, and puts the touched page at the head |
| Lru.TouchOrder | buzzdb_ec.cpp:438-461 | after touch the touched page is first and the others keep their order; the tail is dropped exactly when the page was untracked and the list was full |
| Lru.TouchTracks | buzzdb_ec.cpp:438-461 | touch tracks the page and nothing that was not tracked before |
| Lru.LruPolicy.constructor | buzzdb_ec.cpp:425-436 | a new policy tracks nothing |
| Lru.LruPolicy.Touch | buzzdb_ec.cpp:438-461 | returns whether the page was tracked; the list becomes the touched list and the invariant is kept |
| Lru.LruPolicy.Evict | buzzdb_ec.cpp:463-472 | returns the least recently used page, which was tracked, and no longer tracks it; returns INVALID when nothing is tracked |
| Buffer.PageIdOf | buzzdb_ec.cpp:499 | the int-to-PageID conversion keeps the value modulo 2^16 and is the identity in range |
| Buffer.Evicted | buzzdb_ec.cpp:506-513 | the pool after the eviction step: the LRU victim dropped from the recency list and written back, still resident; Buffer.EvictedFacts proves it keeps the pool invariant and what every page reads as |
| Buffer.Fix | buzzdb_ec.cpp:499-520 | fix_page: a hit touches the page; a miss evicts when the pool is full, then loads the page or aborts past the file; Buffer.FixKeepsPool, Buffer.FixReadsContent, Buffer.FixHit and Buffer.FixMissWritesVictim state its properties |
| Buffer.EvictedFacts | buzzdb_ec.cpp:506-513 | eviction writes the victim's resident copy to the file, keeps it resident, and changes what no page reads as |
| Buffer.FixKeepsPool | buzzdb_ec.cpp:499-520 | fix_page keeps the invariant: the recency list is bounded and names only resident pages, and every resident page is in the file |
| Buffer.FixReadsContent | buzzdb_ec.cpp:499-520 | fix_page returns what a reader of the page sees and changes what no page reads as; it fails exactly for a page past the end of the file |
| Buffer.FixNeverRemoves | buzzdb_ec.cpp:499-520 | no page ever leaves the page map, and no resident copy is changed |
| Buffer.FixHit | buzzdb_ec.cpp:500-504 | a hit changes neither the file nor the resident pages, and moves the page to the head of the recency list |
| Buffer.FixMissWritesVictim | buzzdb_ec.cpp:506-520 | a miss with a full pool writes the LRU victim back and keeps it resident, then loads the requested page from the file |
| Buffer.Flushed | buzzdb_ec.cpp:522-524 | flushPage: a non-resident page first made resident as a fresh page, then the resident copy written to the file; Buffer.FlushWrites and Buffer.FlushKeepsPool state its properties |
| Buffer.FlushWrites | buzzdb_ec.cpp:522-524 | after flushPage the file holds the resident copy; a page that was not resident is first replaced by a fresh page; no other page changes |
| Buffer.FlushKeepsPool | buzzdb_ec.cpp:522-524 | flushPage keeps the invariant |
| Buffer.BufferManager.constructor | buzzdb_ec.cpp:487-491 | nothing is resident and the file is extended to MAX_PAGES + 1 pages |
| Buffer.BufferManager.FixPage | buzzdb_ec.cpp:499-520 | the new pool state and the returned page are those of Fix |
| Buffer.BufferManager.FlushPage | buzzdb_ec.cpp:522-524 | the new pool state is that of Flushed |
| Buffer.BufferManager.Update | buzzdb_ec.cpp:848-852 | a caller changing a fixed page in place changes only that resident copy |
| Buffer.BufferManager.Extend | buzzdb_ec.cpp:526-528 | one fresh page is appended to the file |
| Buffer.BufferManager.GetNumPages | buzzdb_ec.cpp:530-532 | returns num_pages |
| Buffer.BufferManager.Teardown | buzzdb_ec.cpp:493-497 | every resident page is written back, and no other page changes |
| Property.StringLessIrreflexive | buzzdb_ec.cpp:587-600 | std::string's < is irreflexive |
| Property.StringLessTransitive | buzzdb_ec.cpp:587-600 | std::string's < is transitive |
| Property.StringLessTotal | buzzdb_ec.cpp:587-600 | of two different strings, one is below the other |
| Property.Equal | buzzdb_ec.cpp:571-584 | operator==: false for different types, else the values compared; Property.EqualIsSameValue proves it is equality outside FLOAT |
| Property.Less | buzzdb_ec.cpp:587-600 | operator<: by type first, then by value; Property.LessIrreflexive, Property.LessTransitive and Property.Trichotomy prove it is a strict total order outside FLOAT |
| Property.EqualIsSameValue | buzzdb_ec.cpp:571-584 | outside FLOAT, operator== holds exactly for the same type and value |
| Property.TypeFirst | buzzdb_ec.cpp:571-600 | values of different types are never equal and are ordered by type |
| Property.LessIrreflexive | buzzdb_ec.cpp:587-600 | operator< is irreflexive |
| Property.LessTransitive | buzzdb_ec.cpp:587-600 | operator< is transitive |
| Property.Trichotomy | buzzdb_ec.cpp:571-600 | outside FLOAT, exactly one of a < b, a == b, b < a holds |
| Property.AsInt | buzzdb_ec.cpp:603-608 | succeeds exactly on an INT and returns its value; otherwise bad_variant_access |
| Property.AsFloat | buzzdb_ec.cpp:611-616 | succeeds exactly on a FLOAT; otherwise bad_variant_access |
| Property.AsString | buzzdb_ec.cpp:619-624 | succeeds exactly on a STRING and returns its value; otherwise bad_variant_access |
| Property.GetProperty | buzzdb_ec.cpp:649-655 | getProperty: the value under the name or none; Property.AddProperty and Property.RemoveProperty state what it reads after each update |
| Property.AddProperty | buzzdb_ec.cpp:640-646 | refused exactly once the count reaches 10; otherwise it sets the name, raises the count by one, and leaves every other name as it was |
| Property.RemoveProperty | buzzdb_ec.cpp:657-666 | reports whether the name was there, removes it, leaves the other names as they were, and lowers the count only on removal |
| Property.AddKeepsBagOk | buzzdb_ec.cpp:640-646 | addProperty keeps the count at or above the number of properties held |
| Property.RemoveKeepsBagOk | buzzdb_ec.cpp:657-666 | removeProperty keeps the count at or above the number of properties held |
| Property.OverwriteStillCounts | buzzdb_ec.cpp:640-646 | overwriting a name replaces its value and keeps the same names, but still counts as one more addition |
| Property.AddEntry | buzzdb_ec.cpp:690-697 | the packed addProperty appends the pair at index property_count and is refused, with nothing changed, at 10 |
| Property.EntriesMapLast | buzzdb_ec.cpp:700-706 | a converted map holds a name iff some entry has it, and maps it to the last such entry's value |
| Property.ConvertEntries | buzzdb_ec.cpp:700-706 | the convert loop never overflows and yields the map of the entries with their count |
| Property.ConvertNode | buzzdb_ec.cpp:700-706 | SNode::convert keeps the id and gives the map of the entries |
| Property.ConvertEdge | buzzdb_ec.cpp:787-793 | SEdge::convert keeps the id, the source and the target and gives the map of the entries |
| Property.ConvertedBagOk | buzzdb_ec.cpp:700-706 | a converted record keeps the count at or above the number of properties |
| Adjacency.WithinIsWalk | buzzdb_ec.cpp:904-924 | a node is within k steps of s iff some walk of at most k edges leads there from s |
| Adjacency.WithinHasWalk | buzzdb_ec.cpp:904-924 | every node within k steps has a walk of at most k edges from s |
| Adjacency.WalkIsWithin | buzzdb_ec.cpp:904-924 | the end of a walk of at most k edges from s is within k steps |
| Adjacency.ScanBelow | buzzdb_ec.cpp:918-923 | the scan queues only columns below its bound |
| Adjacency.ScanFacts | buzzdb_ec.cpp:918-923 | the scan queues every unvisited neighbour below the bound exactly once |
| Adjacency.NextLevelFacts | buzzdb_ec.cpp:904-924 | expanding a level queues, each once, exactly its unvisited successors |
| Adjacency.PendingStep | buzzdb_ec.cpp:904-924 | expanding one more node of a level appends its scan to the nodes queued for the next level |
| Adjacency.PendingDone | buzzdb_ec.cpp:904-924 | once a level is expanded, what is queued is the next level |
| Adjacency.Level | buzzdb_ec.cpp:904-924 | the nodes the search queues with degree k, in queue order; Adjacency.LevelIsDistance proves they are exactly the nodes at shortest distance k |
| Adjacency.LevelFacts | buzzdb_ec.cpp:904-924 | every level is duplicate-free and new, and the visited set after k levels is the set of nodes within k steps |
| Adjacency.LevelIsDistance | buzzdb_ec.cpp:904-924 | level 0 is the start node and level k is exactly the set of nodes at shortest distance k, each once |
| Adjacency.EmptyLevelStays | buzzdb_ec.cpp:904-924 | after an empty level every later level is empty |
| Adjacency.EdgeListing | buzzdb_ec.cpp:1030-1050 | the lines printEdges prints, row by row; Adjacency.ListingLines, Adjacency.ListingCovers and Adjacency.ListingOnce state which lines they are |
| Adjacency.ListingLines | buzzdb_ec.cpp:1030-1050 | printEdges prints a line exactly for each set cell whose mirror is not set in an earlier row; the line says "Undirected" exactly when the mirror cell is set |
| Adjacency.ListingCovers | buzzdb_ec.cpp:1030-1050 | every set cell has its pair of nodes printed, in one of the two orders |
| Adjacency.ListingOnce | buzzdb_ec.cpp:1030-1050 | no pair of nodes is printed twice, in either order |
| Adjacency.RowKeysHas | buzzdb_ec.cpp:1030-1050 | a key is marked processed in a row exactly when one of its two cells was met there |
| Adjacency.KeysBelowHas | buzzdb_ec.cpp:1030-1050 | a key is marked after the earlier rows exactly when one of its two cells lies in them |
| Adjacency.MarkedUnlessReported | buzzdb_ec.cpp:1030-1050 | at a set cell, its key is already marked exactly when the cell is not printed |
| Graph.Capped | buzzdb_ec.cpp:834-836 | a created record holds all its properties, or the first 10 when there are more |
| Graph.AddAll | buzzdb_ec.cpp:834-836 | the creation loop stores the capped properties and succeeds exactly when there are at most 10 |
| Graph.GuardAdmitsZero | buzzdb_ec.cpp:857-870 | the guard as written admits node id 0, whose row lies far outside the matrix |
| Graph.GuardKeepsInRange | buzzdb_ec.cpp:857-872 | the corrected guard admits exactly the ids whose rows and columns are in the matrix, and refuses everything the guard as written refuses |
| Graph.IsUser | buzzdb_ec.cpp:908-913 | whether a node's converted "type" property equals the string "user"; Graph.IsUserMeans states it in terms of the stored record |
| Graph.IsUserMeans | buzzdb_ec.cpp:908-913 | a node counts as a user exactly when its "type" property is the string "user" |
| Graph.UsersIn | buzzdb_ec.cpp:908-916 | the ids of a level's users, in level order; Graph.UsersInFacts proves each appears once and exactly the users are there |
| Graph.UsersInFacts | buzzdb_ec.cpp:908-916 | the users of a level: each id once, and exactly the level's members that are users |
| Graph.TurnCollects | buzzdb_ec.cpp:908-916 | at the requested degree, a turn only pops the node and collects it if it is a user |
| Graph.TurnExpands | buzzdb_ec.cpp:918-923 | below the requested degree, a turn pops the node, queues its unvisited neighbours with the next degree, and marks them |
| Graph.Turn | buzzdb_ec.cpp:904-924 | a turn marks more nodes or shortens the queue, so the loop ends |
| Graph.Run | buzzdb_ec.cpp:904-924 | what the search loop collects when run until its queue is empty; Graph.RunFrom and Graph.RunFindsLevelUsers prove it is the users of the requested level |
| Graph.RunFrom | buzzdb_ec.cpp:904-924 | from any point of the search, running the loop to the end collects the users of the requested level |
| Graph.RunFindsLevelUsers | buzzdb_ec.cpp:888-927 | the loop from the start node collects exactly the users of the requested level, in queue order |
| Graph.NthDegreeMeans | buzzdb_ec.cpp:888-927 | the answer holds each id once, and exactly the users at shortest distance `degree` from the start |
| Graph.StartFlags | buzzdb_ec.cpp:897-902 | the visited flags start with only the start node set |
| Graph.PostLikes | buzzdb_ec.cpp:975-995 | the likes loop over a node's post neighbours, kept in a uint32, with the throws of a wrongly typed property; Graph.CountIsTotal proves it is the true total modulo 2^32 |
| Graph.CountIsTotal | buzzdb_ec.cpp:975-995 | when nothing throws, the uint32 likes counter holds the true total of the posts' likes modulo 2^32 |
| Graph.PostLikesErrStays | buzzdb_ec.cpp:975-995 | an exception in the likes loop is its answer |
| Graph.Connection | buzzdb_ec.cpp:941-1003 | what one neighbour contributes: nothing unless it is a named user over an edge with a relationship, else the relationship and the (name, likes) entry; Graph.ConnectionMeans states it |
| Graph.ConnectionMeans | buzzdb_ec.cpp:962-1003 | a contributed entry comes from a user neighbour with a name, over an edge with that relationship, and carries the neighbour's likes total as an int |
| Graph.AddConnectionHas | buzzdb_ec.cpp:997-1003 | a bucket gains exactly the contribution made to it, at its end |
| Graph.FoldBuckets | buzzdb_ec.cpp:997-1003 | each bucket of the answer lists the contributions to it, in order |
| Graph.BucketHas | buzzdb_ec.cpp:997-1003 | an entry is in a bucket iff some contribution puts it there |
| Graph.ConnectionsFold | buzzdb_ec.cpp:934-1003 | the loop's answer is the fold of the neighbours' contributions |
| Graph.ConnectionsBelow | buzzdb_ec.cpp:934-1003 | the answer after the neighbours below n are examined, always with the two buckets; Graph.ConnectionsHas proves what each bucket holds |
| Graph.ConnectionsHas | buzzdb_ec.cpp:929-1007 | in an answer, bucket b holds, in neighbour order, exactly the entries the neighbours contribute to it |
| Graph.ConnectionsErrStays | buzzdb_ec.cpp:934-1003 | an exception for one neighbour is the answer of the whole query |
| Graph.ConnectionsNoThrow | buzzdb_ec.cpp:934-1003 | an answer is given only when every neighbour was examined without exception |
| Graph.GraphManager.constructor | buzzdb_ec.cpp:813-824 | a new manager has no record and no edge, and starts the ids at 1 and 181 |
| Graph.GraphManager.CreateNode | buzzdb_ec.cpp:826-840 | refused beyond 180 nodes with nothing changed; otherwise the next id is used and the node record is written to its page; more than 10 properties throw after the first 10 are stored |
| Graph.GraphManager.AddNodeProperty | buzzdb_ec.cpp:842-854 | ids from 180 up return false with nothing changed; otherwise the property is appended to the record, or the call throws when the record is full |
| Graph.GraphManager.CreateEdge | buzzdb_ec.cpp:856-877 | refused with nothing changed unless both ends are node ids; otherwise the next edge id is used and the record is written to its page; the matrix gets the edge id at [source-1][target-1], and also at the mirror cell if undirected; an id past the file aborts |
| Graph.GraphManager.AddEdgeProperty | buzzdb_ec.cpp:879-886 | the id is not checked: a page past the file aborts; otherwise the property is appended, or the call throws when the record is full |
| Graph.GraphManager.IsUserNode | buzzdb_ec.cpp:908-913 | the type check of the search |
| Graph.GraphManager.Expand | buzzdb_ec.cpp:918-923 | the neighbour scan queues every unvisited neighbour, in order, with the next degree, and marks it |
| Graph.GraphManager.TakeTurn | buzzdb_ec.cpp:905-923 | one iteration of the loop does what Turn does |
| Graph.GraphManager.FindNthDegreeConnections | buzzdb_ec.cpp:888-927 | out-of-range start or degree 0 fail; otherwise the result is the users of the requested level of the breadth-first search, in order |
| Graph.GraphManager.CountLikes | buzzdb_ec.cpp:975-995 | the likes loop computes PostLikes |
| Graph.GraphManager.Contribution | buzzdb_ec.cpp:941-1003 | the examination of one neighbour computes its Connection |
| Graph.GraphManager.Examine | buzzdb_ec.cpp:940-1003 | one iteration of the query loop adds one more neighbour to the answer |
| Graph.GraphManager.FindConnectionsAndLikes | buzzdb_ec.cpp:929-1007 | an out-of-range user id fails; otherwise the answer is that of ConnectionsBelow over all neighbours |
| Graph.GraphManager.PrintEdges | buzzdb_ec.cpp:1030-1050 | the loop with its processed-key set prints exactly the listing characterised by the Adjacency listing lemmas |

## Left out

- **File I/O.** The file is a sequence of page values, and a short read is
  `Err(IoAbort)`. The source then ends the process, so no state after an
  abort is modelled.
- **Locking.** The buffer manager's mutex and any concurrency are not
  modelled.
- **Floats.**
  - A FLOAT field in the wire format yields `Err(Unsupported)`.
  - A FLOAT property value is kept as its 32-bit pattern, and its
    comparisons are written out from the bits. Of them, only that `<` is
    irreflexive and transitive is proved. Float printing is not modelled.
- **Overlaid records.** The graph layer places records into page memory and
  reinterprets it (`new (page_data)`, `reinterpret_cast`); a page is a
  value here. A page that holds no record of the kind being read reads as an
  empty record with id 0, where the source's behaviour is undefined.
- **Characters.** A `char` stands for one byte (0..255) of a
  `std::string` or a page buffer; no character encoding is modelled.
- **Page bytes.** The slot directory's own bytes at the head of the page are
  a separate array.
- **Memory management.** Field's copy and move operations and the
  memcpy-based value storage are not modelled.
- **Map iteration order.**
  - Where a source `unordered_map` is iterated (`createNode`/`createEdge`
    properties, `Edge::print`), the iteration order is taken to be the order
    of the given sequence.
  - `Teardown` writes the resident pages back in an unspecified order.
- **Printing.** Output that is not modelled: `Field::print`, `Tuple::print`,
  `PropertyValue::print`, the `Node`/`SNode`/`Edge`/`SEdge` print functions,
  `printList` and `printNodes`. `SlottedPage::print` and `printEdges` return
  their lines instead of printing them.
- **Outside the core.** `populateGraph`, CSV reading, the menu, `main` and the
  test functions are not part of this model.
- **Debugging assert.** The `assert(tuple_size == 38)` in `addTuple` is
  dropped.
- **Unused conversion.** The `Edge edge = sedge->convert()` in `createEdge`
  is unused and is not modelled.
- **Failed numeric reads.** A number `>>` cannot extract (no digits, or
  out of range) is `Err(Malformed)`. The source instead stores 0 or clamps
  (INT_MAX/INT_MIN for `int`, SIZE_MAX for `size_t`), sets failbit, and
  leaves the variables of all later reads untouched; the uninitialised `type`
  then read is undefined behaviour.
- Storage.StorageManager.ExtendTill: requires `num_pages <= till + 1`. Past
  that, the unsigned subtraction at buzzdb_ec.cpp:392 wraps, so
  `new char[write_size]` asks for about 2^64 bytes and throws
  `std::bad_alloc`: nothing is written and `num_pages` is unchanged. Every
  buffer manager the program builds truncates the file first and meets the
  requires.
- Property.RemoveProperty: the count is stated only under `BagOk`. Without it
  the source's `size_t` decrement could wrap, and `BagOk` is kept by every
  operation.
- Graph.GraphManager.IsUserNode: requires `1 <= v <= 180`, which every queued
  node satisfies.

## Findings

| source | as written | input that shows it | evidently intended | confidence | as-written member | corrected member |
|---|---|---|---|---|---|---|
| buzzdb_ec.cpp:857-870 | `createEdge` refuses only `source > MAX_NODES \|\| target > MAX_NODES`, then writes `adj_matrix[source - 1][target - 1]` | `createEdge(0, 1, {})`: the guard lets id 0 through, and `source - 1` is `uint32_t(-1)` = 0xFFFF_FFFF, far out of the matrix | both ends must be node ids 1..180 | not executed | Graph.GuardAdmitsZero | Graph.GuardKeepsInRange, Graph.GraphManager.CreateEdge |
