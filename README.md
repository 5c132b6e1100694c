# AST similarity detector: the parser and the file record

This project models the engine of a source-code similarity detector for
JavaScript. The engine has two parts:

- `Parser` reads the files being compared and builds one syntax tree per
  file. It fingerprints groups of nodes into a candidate index (`keyMap`),
  then reports, for each match, the line ranges that occur in more than
  one file.
- `File` holds one file's lines and the similarities recorded against it.

How the model stands in for the engine:

- **Syntax trees** are the datatype `Ast.Node`. Each node has a type, a line
  location and its own properties in key order.
- **Node identity** is a `Ast.Ref`: the number of the parse a node belongs
  to plus its child-index path. The parser counts its parses (`parses`), so
  a later `compareCodes` call never reuses a number. A ref stands for one
  object only while no object is reachable along two paths of one parse;
  "## Left out" says what the model loses where the parser library shares
  an object.
- **Child discovery** goes through a per-type key cache (`nodeTypes`). The
  model carries this cache explicitly, because the first node of a type
  decides which keys are read for every later node of that type.
- **Module layout:**
  - `Parsing.Parser` is a class with the parser's fields. It has one method
    per loop of the original code.
  - The state the methods build is tied to pure functions in `Ast`,
    `CandidateIndex`, `MatchResolver` and `Parsing`.
  - Lemmas about those functions prove what the engine promises. Examples:
    windows are 30-node runs of a file's preorder; kept groups are disjoint;
    after a match, no group in the index touches a matched node; the line
    total equals the lines the files record.
- **Files** are `Files.File`, a class with the two maps of the original.
- **Insertion-ordered dictionaries** (`Map`, and object keys in JavaScript
  order) are `OrderedMaps.OMap`.

The file system, the parser library and SHA-1 are parameters:

- `read: string -> string` gives each path's text.
- `parse: (string, SourceType) -> Option<Node>` parses as script or as module,
  and returns `None` where the library throws.
- `fingerprint: string -> Key` is the base64 SHA-1 of the concatenated type
  labels.
- `digest: string -> string` is the hex SHA-1 of the tokens.

The model keeps three behaviours of the code exactly as the code is written:

- `exists` always answers true, so `expand` never grows a group.
- The extension of a span to the last node's end line can never fire.
- A file that parses neither as script nor as module ends `compareCodes`
  before `analyze` runs.

## Model

| member | source | states |
|---|---|---|
| Parsing.Parser.constructor | back-end/src/Parser.ts:24-30 | A new parser has no trees, an empty type cache, an empty index and a zero total, and the consistency invariant holds |
| Parsing.Parser.GetFiles | back-end/src/Parser.ts:35-37 | Returns the files the parser was built with |
| Parsing.Parser.GetTotalSimilarityLines | back-end/src/Parser.ts:42-44 | Returns the running line total that analyze keeps in balance with the recorded similarities |
| Parsing.Parser.CompareCodes | back-end/src/Parser.ts:49-75 | The new trees, index, tags and similarity maps are those of `Compare`: the file loop over the files' names, then analyze unless a file failed to parse |
| Parsing.CompareSpec | back-end/src/Parser.ts:49-75 | After compareCodes the index is consistent and the ledger is well formed with its balance unchanged. An aborted run leaves the ledger untouched. Analyze never changes the cache, the tags or the trees, and only shrinks the index |
| Parsing.CompareAt | back-end/src/Parser.ts:54-74 | compareCodes is the file loop followed, only when the loop finished, by analyze on the stage the loop built |
| Parsing.NamesOf | back-end/src/Parser.ts:50-51 | The path list has one entry per file: the i-th file's name |
| Parsing.SimsOf | back-end/src/Parser.ts:257-266 | The i-th similarity map is the i-th file's |
| Parsing.Parser.IndexFiles | back-end/src/Parser.ts:54-72 | The staged state is the outcome of the file loop, and the method reports success exactly when no file failed to parse |
| Parsing.IndexFromPreserves | back-end/src/Parser.ts:54-72 | The file loop keeps the candidate index consistent with the occurrence records |
| Parsing.Parser.IndexOne | back-end/src/Parser.ts:68-70 | Indexing one parsed file is a full visit, then walkTree, then storing the preorder under the file's name; the parse gets the next number |
| Parsing.IndexFromFresh | back-end/src/Parser.ts:54-72 | The file loop keeps every tagged node's parse number below the counter, never lowers the counter, keeps the nodes tagged before, and gives every node it tags a number no earlier parse had |
| Parsing.CompareFresh | back-end/src/Parser.ts:49-75 | A second comparison only adds nodes of new parses, so none of them equals a node of an earlier comparison |
| Parsing.Parser.AnalyzeStage | back-end/src/Parser.ts:74 | Analyze run on a staged state changes only the index and the ledger, as `MatchResolver.Analyze` says |
| Parsing.Parser.GetNodesDFS | back-end/src/Parser.ts:155-165 | The cache and the produced array are `Dfs`. The array extends the caller's. The appended nodes are tagged with the file name when they have none, and get an empty record when they have none |
| Parsing.DfsFull | back-end/src/Parser.ts:155-165 | Without a threshold the visit appends the subtree's whole preorder and leaves the cache that has learnt every type below the node |
| Parsing.DfsBounded | back-end/src/Parser.ts:155-165 | With a threshold and a cache closed over the subtree, the visit appends the first (threshold minus the array's length) nodes of the preorder and leaves the cache as it was |
| Parsing.DfsWindow | back-end/src/Parser.ts:106-107 | A bounded visit from an empty array gives the first 30 nodes of the subtree's preorder, or all of them when there are fewer |
| Parsing.Parser.GetChildrenDFS | back-end/src/Parser.ts:163-164 | The loop over the children is the children part of `Dfs`, with the same tagging facts |
| Parsing.Parser.TagNode | back-end/src/Parser.ts:159-160 | A node gets the file name only when its name is missing or empty. It gets an empty record only when it has none |
| CandidateIndex.TagFiles | back-end/src/Parser.ts:159 | Every visited node ends up tagged. An existing non-empty name is kept; otherwise the name is the file. Nodes not visited keep their names |
| CandidateIndex.TagOcc | back-end/src/Parser.ts:160 | Every visited node ends up with a record. Existing records are untouched, and new ones are empty |
| CandidateIndex.TagFilesTwice | back-end/src/Parser.ts:159 | Tagging twice with one file is tagging once with the union of the nodes, so tagging is idempotent |
| CandidateIndex.TagOccTwice | back-end/src/Parser.ts:160 | Creating records twice is creating them once for the union |
| CandidateIndex.TagOccRecords | back-end/src/Parser.ts:160 | Tagging never changes what any node has recorded under any key |
| Parsing.Parser.GetChildren | back-end/src/Parser.ts:171-192 | The cache learns the node's type on first sight and keeps every entry. The children are those the old cache shows |
| Ast.LearnSpec | back-end/src/Parser.ts:175-179 | Learning only adds entries. The node's type is then present, with its object-valued keys other than `loc` when it was new. The keys read and the children are the same before and after |
| Ast.ObjectKeys | back-end/src/Parser.ts:176-178 | The cached key list never contains `loc` |
| Ast.Lookup | back-end/src/Parser.ts:182 | A property read gives undefined or a value the node really holds under that key |
| Ast.ArrayChildren | back-end/src/Parser.ts:186-187 | Children taken from an array are nodes present in it, never holes and never whitespace-only JSXText, and there are at most as many as elements |
| Ast.ChildrenVia | back-end/src/Parser.ts:181-189 | Every child read through the keys is a proper part of the node, so recursion into the tree terminates |
| Ast.Children | back-end/src/Parser.ts:171-192 | Every child is a proper part of the node |
| Ast.ChildrenStable | back-end/src/Parser.ts:181 | Once a type is cached, a larger cache shows the same children for nodes of that type |
| Ast.ClosedStable | back-end/src/Parser.ts:175-179 | A subtree whose types are all cached stays so when the cache grows |
| Ast.PreorderStable | back-end/src/Parser.ts:155-165 | The preorder of a closed subtree does not change when the cache grows |
| Ast.LearnAllSpec | back-end/src/Parser.ts:68 | A full visit only adds to the cache and leaves the visited tree closed |
| Ast.LearnAllClosed | back-end/src/Parser.ts:107 | Visiting a closed subtree teaches the cache nothing |
| Ast.Preorder | back-end/src/Parser.ts:162-164 | A preorder is never empty and starts with the subtree's root |
| Ast.PreorderPaths | back-end/src/Parser.ts:162-164 | Every node of a preorder belongs to the same parse and lies at or below the root's path |
| Ast.Take | back-end/src/Parser.ts:157 | Taking k keeps min(k, length) elements (none for k <= 0) and is a prefix |
| Ast.TakeConcat | back-end/src/Parser.ts:157 | Filling a window from a concatenation takes from the first part, then only what is still missing from the second |
| Ast.TreeWindowsShape | back-end/src/Parser.ts:104-118 | Every group walkTree fingerprints has exactly 30 nodes, is a contiguous run of the file's full preorder after its first position, and never contains the root |
| Ast.SubtreeWindowsShape | back-end/src/Parser.ts:105-114 | Every window of a subtree has `threshold` nodes and is a contiguous run of that subtree's preorder |
| Ast.TreeVisitedInPreorder | back-end/src/Parser.ts:68-69 | The bounded visits of walkTree only reach nodes of the full preorder, so their tagging adds nothing after the full visit |
| Parsing.Parser.WalkTree | back-end/src/Parser.ts:104-118 | The cache is unchanged. Tags, records and index are marked with the tree's windows and reached nodes, in visiting order |
| Parsing.Parser.Visit | back-end/src/Parser.ts:105-114 | Visiting a subtree marks its own window first, then its children's subtrees in order |
| Parsing.Parser.VisitOwn | back-end/src/Parser.ts:106-110 | The node's first window is tagged. When it has 30 nodes it is inserted under its fingerprint; otherwise the index is unchanged |
| Parsing.Parser.OwnWindow | back-end/src/Parser.ts:106-107 | The bounded visit returns the first 30 preorder nodes and tags exactly those |
| Parsing.Parser.VisitChildren | back-end/src/Parser.ts:111-117 | The loop over the children marks every child's subtree, in child order |
| Parsing.Parser.VisitChild | back-end/src/Parser.ts:112 | Visiting the i-th child does the i-th step of the children's marking |
| Parsing.OwnMark | back-end/src/Parser.ts:106-110 | Marking a node's own window tags its nodes, and inserts the window only when it reaches the threshold |
| Parsing.SubtreeMark | back-end/src/Parser.ts:105-114 | A subtree's marking is its own window's marking followed by that of its children's subtrees |
| Parsing.MarkTwice | back-end/src/Parser.ts:68-69 | Two rounds of marking for one file are one round with both window lists and both node sets |
| Parsing.MarkPreserves | back-end/src/Parser.ts:104-118 | Marking with non-empty groups keeps the index consistent |
| Parsing.Parser.InsertNode | back-end/src/Parser.ts:126-145 | The group goes at the end of the index list under the fingerprint of its type labels, and into every node's record under that key. Nothing else changes |
| Parsing.Parser.Labels | back-end/src/Parser.ts:127-130 | The loop builds exactly the concatenated type labels of the group |
| Parsing.Parser.AddOccurrences | back-end/src/Parser.ts:136-139 | Each node of the group, in order, appends the group to its record under the key |
| CandidateIndex.TypeLabelsConcat | back-end/src/Parser.ts:127-130 | The labels of a concatenation are the concatenated labels |
| CandidateIndex.InsertGroup | back-end/src/Parser.ts:141-144 | The key's list gains the group at its end. Every other key's list is unchanged. No key disappears, and the map stays well formed |
| CandidateIndex.OccAdd | back-end/src/Parser.ts:137-138 | The record map now covers the node as well |
| CandidateIndex.OccInsertAll | back-end/src/Parser.ts:136-139 | Every node of the group ends up with a record |
| CandidateIndex.OccAddSpec | back-end/src/Parser.ts:137-138 | Only that node's list under that key changes, and it gains the group at its end |
| CandidateIndex.OccInsertAllGrows | back-end/src/Parser.ts:136-139 | Records only grow by appending. Other keys are untouched. Every node of the group gains the group under the key |
| CandidateIndex.InsertPreserves | back-end/src/Parser.ts:126-145 | insertNode keeps the index consistent: no empty key, every group non-empty and filed under its fingerprint, and the records cover every copy in `keyMap` |
| CandidateIndex.InsertGroupsPreserve | back-end/src/Parser.ts:104-118 | Inserting a list of non-empty groups keeps the index consistent |
| CandidateIndex.TagPreserves | back-end/src/Parser.ts:159-160 | Giving nodes empty records keeps the index consistent |
| CandidateIndex.TagOccInsertGroups | back-end/src/Parser.ts:104-118 | Tagging and inserting commute, so the way walkTree interleaves them does not matter |
| Parsing.Parser.Analyze | back-end/src/Parser.ts:197-273 | The new index and ledger are `MatchResolver.Analyze` of the old ones. The invariant is kept |
| MatchResolver.Analyze | back-end/src/Parser.ts:197-273 | Analyze keeps the index consistent and the ledger well formed |
| Parsing.Parser.CandidateKeys | back-end/src/Parser.ts:198-203 | The loop collects the keys with at least two groups, in key order |
| MatchResolver.Candidates | back-end/src/Parser.ts:198-203 | A key is a candidate exactly when it is present and holds at least two groups |
| MatchResolver.SortByCountSpec | back-end/src/Parser.ts:207-209 | The sorted keys are a permutation of the candidates, in non-increasing group count, with the keys of equal count in their original order |
| Parsing.Parser.ReportKeys | back-end/src/Parser.ts:212-272 | The key loop's index and ledger are `AnalyzeKeys` of the old ones |
| MatchResolver.AnalyzeKeys | back-end/src/Parser.ts:212-272 | The key loop keeps the index consistent and the ledger well formed |
| MatchResolver.AnalyzeKeysPreserves | back-end/src/Parser.ts:212-272 | Over the whole key loop the line total stays balanced against the recorded lines, and the index only shrinks |
| MatchResolver.EmittedFrom | back-end/src/Parser.ts:212-272 | Every match the key loop reports has at least two groups, and each of them was a group of the index when the loop started |
| MatchResolver.EmittedDisjoint | back-end/src/Parser.ts:212-272 | No node appears in two groups the key loop reports, whether in one match or in two different matches |
| MatchResolver.MatchesSpec | back-end/src/Parser.ts:197-273 | Over the whole of analyze, every match has at least two groups from the index and no node is reported twice |
| Parsing.Parser.ReportKey | back-end/src/Parser.ts:213-271 | One iteration of the key loop is `AnalyzeKey` |
| MatchResolver.AnalyzeKey | back-end/src/Parser.ts:213-271 | The ledger keeps one similarity map per file |
| MatchResolver.AnalyzeKeyPreserves | back-end/src/Parser.ts:213-271 | One key keeps the invariant and the balance, and only shrinks the index |
| MatchResolver.AnalyzeKeySpec | back-end/src/Parser.ts:213-271 | A key that is gone, keeps fewer than two groups, or keeps only groups from one file changes nothing. Otherwise the kept groups are a pairwise disjoint subsequence of the key's groups; afterwards no group left in the index shares a node with them; the balance holds |
| Parsing.Parser.MatchOf | back-end/src/Parser.ts:213-232 | It reports exactly when the key is present, at least two groups survive overlap removal and they are not all from one file. It then returns those groups and their match id |
| Parsing.Parser.ReportMatch | back-end/src/Parser.ts:236-270 | A reported key's groups are recorded under their id and then leave the index, as `AnalyzeKey` says |
| Parsing.Parser.ReportGroups | back-end/src/Parser.ts:236-270 | The groups' ranges are recorded, then all their nodes are removed from the index |
| Parsing.Parser.CollectTokens | back-end/src/Parser.ts:224 | The tokens are `name || type` of every node of every group, group by group |
| MatchResolver.TokensCount | back-end/src/Parser.ts:224 | There is one token per node of the groups |
| MatchResolver.GroupTokensCount | back-end/src/Parser.ts:224 | The i-th token of a group is the token of its i-th node |
| Parsing.Parser.RecordAll | back-end/src/Parser.ts:236-267 | Each group's span is recorded under the id in the files named by its first node, as `RecordGroups` says |
| Parsing.Parser.RecordGroup | back-end/src/Parser.ts:237-266 | One group's span is recorded in the files carrying its first node's file name |
| Parsing.Parser.LineSpan | back-end/src/Parser.ts:238-255 | The computed range is `Span` of the group |
| MatchResolver.MinStart | back-end/src/Parser.ts:242 | The least start line of the group, reached by some node |
| MatchResolver.MaxStart | back-end/src/Parser.ts:243 | The greatest start line of the group, reached by some node |
| MatchResolver.MaxEnd | back-end/src/Parser.ts:244 | The greatest end line of the group, reached by some node |
| MatchResolver.SpanSpec | back-end/src/Parser.ts:236-255 | The start is the least start line. The end is some node's start or end line. With well-formed locations, start <= end, every node starts by the end, and either every node ends by the end or some node ends more than two lines after it |
| Parsing.Parser.Record | back-end/src/Parser.ts:257-266 | The file loop's ledger is `RecordIn` from the first file |
| Parsing.Parser.RecordOn | back-end/src/Parser.ts:258-265 | One file of that loop is `RecordStep` at its position |
| MatchResolver.RecordInSpec | back-end/src/Parser.ts:257-266 | Files with another name are untouched, and a file that already has the id is untouched. Each file only ever gains the id with the range. When no file of that name has the id yet, all of them gain it |
| MatchResolver.RecordInBalanced | back-end/src/Parser.ts:263-264 | Recording keeps every similarity map well formed and the total equal to the recorded lines plus the starting difference |
| MatchResolver.RecordGroupsBalanced | back-end/src/Parser.ts:236-267 | Recording all kept groups keeps the ledger well formed and the balance |
| MatchResolver.SimLinesPut | back-end/src/Parser.ts:263-264 | Adding a new id adds the width of its range to the file's recorded lines |
| MatchResolver.RecordIn | back-end/src/Parser.ts:257-266 | Recording keeps one similarity map per file |
| MatchResolver.RecordGroups | back-end/src/Parser.ts:236-267 | Recording keeps one similarity map per file |
| Parsing.Parser.RemoveAll | back-end/src/Parser.ts:270 | Every node of every group leaves the index in turn, as `DropAll` says |
| Parsing.Parser.RemoveNodes | back-end/src/Parser.ts:270 | The nodes of one group leave the index in turn |
| CandidateIndex.DropAllRemoves | back-end/src/Parser.ts:270 | After the removal no group left under any key shares a node with a reported group. The index stays consistent and only shrinks |
| CandidateIndex.DropNodesRemoves | back-end/src/Parser.ts:270 | After removing a list of nodes no group left contains any of them |
| Parsing.Parser.RemoveOverlappingGroup | back-end/src/Parser.ts:280-294 | The in-place splicing loop keeps exactly the greedy selection |
| MatchResolver.GreedyIsKeptRef | back-end/src/Parser.ts:280-294 | The greedy selection equals the reference: a group is kept exactly when it repeats no node and shares none with the groups kept before it |
| MatchResolver.GreedySpec | back-end/src/Parser.ts:280-294 | The kept groups are a subsequence of the input. Each repeats no node, and no two share a node |
| MatchResolver.FreshIff | back-end/src/Parser.ts:288 | The size test passes exactly when the group repeats no node and is disjoint from the nodes kept so far |
| Parsing.ExistsIgnoresMembership | back-end/src/Parser.ts:347-352 | A column whose node is in no group and one whose node is in a group both get true, so the callback's test is never the answer |
| Parsing.Parser.Expand | back-end/src/Parser.ts:302-340 | The groups come back unchanged |
| Parsing.Exists | back-end/src/Parser.ts:347-352 | The answer is always true |
| Parsing.Parser.RemoveNode | back-end/src/Parser.ts:358-375 | The index becomes `DropNode`: a node without a record changes nothing |
| CandidateIndex.DropNodeSpec | back-end/src/Parser.ts:358-375 | removeNode takes out of each key's list exactly the groups the node recorded under that key. The map stays well formed with no empty key |
| CandidateIndex.DropNodeRemoves | back-end/src/Parser.ts:358-375 | After removeNode no group under any key contains the node. The index stays consistent and only shrinks |
| CandidateIndex.DropKeysSpec | back-end/src/Parser.ts:360-373 | The outer loop removes, under every key of the record, the groups recorded there, and nothing under other keys |
| Parsing.Parser.RemoveGroups | back-end/src/Parser.ts:362-371 | The inner loop is `DropGroups`: it stops once the key is gone |
| CandidateIndex.DropGroupsSpec | back-end/src/Parser.ts:362-371 | Under the key, exactly the given copies (as far as present) leave the list. Every other key is untouched, and no key is left empty |
| Parsing.Parser.RemoveGroup | back-end/src/Parser.ts:363-370 | One splice is `DropOne` |
| CandidateIndex.DropOneSpec | back-end/src/Parser.ts:364-370 | One copy of the group leaves the key's list and other keys are untouched. An emptied key is deleted |
| CandidateIndex.IndexOf | back-end/src/Parser.ts:364 | The first position of the element, or -1 exactly when it is absent |
| CandidateIndex.RemoveFirst | back-end/src/Parser.ts:364-367 | The splice removes one copy of the element when present, and nothing otherwise |
| OrderedMaps.RemoveSpec | back-end/src/Parser.ts:369 | Deleting a key removes it from the entries and from the order. The other keys keep their values and their relative order |
| Files.File.constructor | back-end/src/File.ts:10-19 | A new file has its name, no similarities, and the line map of the "\n"-split of its contents |
| Files.LineMapKeys | back-end/src/File.ts:14-18 | The content map's keys are exactly the numerals "1" to "n" for n pieces |
| Files.LineMapValues | back-end/src/File.ts:14-18 | Piece i, counting from 1, is stored verbatim under the numeral of i |
| Files.ContentRoundTrip | back-end/src/File.ts:13-18 | Reading the lines back in numeric order and joining them with "\n" restores the contents |
| Files.KeepsCarriageReturn | back-end/tests/FileTest.spec.ts:19-21 | A carriage return stays at the end of its line |
| Text.JoinSplitLines | back-end/src/File.ts:15 | Joining the pieces of a split with "\n" gives back the text |
| Text.SplitLinesPieces | back-end/src/File.ts:15 | No piece holds a line feed, and there is one piece more than there are line feeds |
| Text.SplitLinesJoin | back-end/src/File.ts:15 | Splitting the "\n"-join of pieces free of line feeds recovers them |
| Text.NatToString | back-end/src/File.ts:16 | A number's numeral is a non-empty string of decimal digits |
| Text.NatToStringInjective | back-end/src/File.ts:16 | Distinct line numbers give distinct keys |
| Files.File.AddSimilarity | back-end/src/File.ts:28-30 | The similarity map becomes `Put` of the id and the range. The content map is unchanged |
| OrderedMaps.PutSpec | back-end/src/File.ts:29 | A new key goes to the end of the order. A present key keeps its place and takes the new value. Other keys keep their values |
| OrderedMaps.Empty | back-end/src/File.ts:11 | The new map has no keys and no entries |
| Files.File.GetContentMap | back-end/src/File.ts:35-37 | Returns the line map built by the constructor |
| Files.File.GetSimilarityKeys | back-end/src/File.ts:42-44 | Every recorded id exactly once, in first-insertion order |
| Files.File.GetSimilarities | back-end/src/File.ts:49-61 | One `{id, startLine, endLine}` per recorded id, in key order, each matching the map |
| Files.SimilarityList | back-end/src/File.ts:52-58 | The i-th element carries the i-th key and that key's range |
| Files.File.GetName | back-end/src/File.ts:66-68 | Returns the name given to the constructor |
| Files.File.ToString | back-end/src/File.ts:73-81 | The text is `Description`: the name, a line feed, and one `Key:/Start Line:/End Line:` block per id in key order |
| Files.DescriptionFresh | back-end/src/File.ts:74 | With nothing recorded, the description is the name and a line feed |
| Files.DescribePut | back-end/src/File.ts:75-79 | A new id appends its block. Re-adding an id keeps the key order, so its block stays in place |
| Files.FileTestBlocks | back-end/tests/FileTest.spec.ts:11-12 | After recording "asdf" then "qwerty", the blocks are those two, in that order |
| Files.FileTestDescription | back-end/tests/FileTest.spec.ts:33-39 | The description after the test's two additions is exactly the expected text |

## Left out

- Reading files (`fs.readFileSync`) is the parameter `read`. The `File`
  constructor takes the contents as a string instead of reading from disk.
- The parser library (`parseFile`, back-end/src/Parser.ts:84-93) is the
  parameter `parse`, with its options left out. A throw is `None`, and the
  script-then-module retry is modelled.
- SHA-1 (base64 for keys, hex for match ids) is the uninterpreted
  parameters `fingerprint` and `digest`. Nothing is claimed about collisions.
- The package `stable` is modelled as a stable insertion sort by
  non-increasing group count. This is the order its comparator defines.
- `console.log` and the HTTP server, upload and folder walk around the engine
  (back-end/index.ts, back-end/src/Main.ts) are not part of this model, and
  neither is the score computed there.
- Parsing.Parser.constructor: requires the files to be distinct objects with
  well-formed similarity maps. The code would also accept one `File` object
  passed twice, whose map would then be written through two positions.
- Parsing.Parser.GetNodesDFS: the bounded mode is stated exactly only when the
  type cache is already closed over the subtree, which is how walkTree calls
  it (after the full visit of the same tree). In general the cache and result
  are those of `Dfs`.
- Parsing.Parser.Expand: requires non-empty groups, as the code does by reading
  `nodes[0]`. A group whose file has no stored preorder is looked up in an
  empty one, where the code would throw. This cannot happen after the file
  loop, which stores every file it tags.
- Token: a `name` property that is a number or a boolean is treated as absent,
  so the node's type is used. Only string and object names are told apart.
- Array elements are either nodes or holes (`null`/`undefined`). Other
  primitive array elements are not represented.
- Shared objects inside one parse are not modelled. The parser library
  attaches one comment object both as the `trailingComments` of one node and
  the `leadingComments` of the next, so a parse is a graph, not a tree. The
  model gives such an object one `Ref` per path, as if each object were
  reachable along exactly one path. Two behaviours are lost with it:
  - removeOverlappingGroup's size test (back-end/src/Parser.ts:280-293) also
    drops a group that repeats one object. Model windows never repeat a ref,
    so the "repeats no node" half of `MatchResolver.FreshIff` never decides.
  - removeNode (back-end/src/Parser.ts:358-375) reads the one occurrence
    record the shared object has. The model has one record per path, so a
    match that claims the object through one path leaves in the index the
    groups that reached it through the other.
- Every parse yields fresh objects: the parse number plus the path is unique
  across files and across `compareCodes` calls.
- The dead extension of a span to the last node's end line
  (back-end/src/Parser.ts:249) is not in `Span`; `Parsing.Parser.LineSpan`
  says why.
- `delete node.occurrences[key]` (back-end/src/Parser.ts:372) removes an object
  property, not an entry of the `Map`, so occurrence records never shrink.
- Line numbers are strictly `int`; JavaScript numbers are floating point, and
  their `toString` is modelled only for integers.
- `keyMap` lists are shared between the index and the node records in the
  code. The model holds them as values, which is the same because a group is
  never changed after it is inserted (`expand` never grows one).
