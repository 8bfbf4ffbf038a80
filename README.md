# astruc in Dafny

A model of `CodeStruc` from `astruc/astruc.py`, with proofs about it.
`CodeStruc` turns one parsed Python syntax tree into a token-level graph:

- **`get_node`** wraps a syntax node in a graph node. The node gets a non-empty token list and one fresh position per token, taken from the running counter `le`.
- **`walk`** makes one explicit-stack pass over the tree and emits one `{current, children}` record per materialised node.
  - Store/Load context children are never materialised. The first one sets the parent's read/write flag `sl` and ends the scan of that parent's children.
  - After the pass, the tokens are collected in emission order. The records are then sorted by first position, and the result is memoised.
- **`get_text`** chooses the text that stands for a node. **`iter_children`** chooses which children the walk visits.
- **`matrix`** and **`tree`** export the records: an adjacency matrix over positions, and a tree of (tokens, positions) pairs.

The model is split by the structure of the program:

- `ast.dfy` (module `Ast`): the syntax tree as a datatype, plus `iter_children` and `get_text`. These are pure case logic.
- `walk.dfy` (module `Walk`):
  - graph nodes, records and position allocation;
  - what the stack loop computes, written as the function `Run` over the list of pending nodes (the stack read from its top);
  - how `Run` relates to a recursive left-to-right pre-order of the tree.
- `sorting.dfy` (module `Sorting`): the stable sort by first position, as an insertion sort on values, and what it preserves.
- `export.dfy` (module `Export`):
  - the three matrix rules as predicates, and the properties of the edge relation they define;
  - the methods that fill a rule into an `array2<bool>` in place;
  - the tree view.
- `astruc.dfy` (module `Astruc`): the class `CodeStruc` with the mutable fields `ast`, `tokens` and `le`, and the imperative methods.
  - `GetNode` advances the counter.
  - `Walk` runs the stack loop on a `seq` stack with the source's fixed insertion index, appends records and tokens, and sorts.
  - `Matrix` fills a fresh array.
  - Each method is proved against the functions of the modules above.

Points about the code that the model follows:

- The `Module` wrapper is replaced by its FIRST child only (`[0]` at `astruc/astruc.py:40`).
  - The comment at `astruc/astruc.py:38` calls the wrapper nothing but an entry, yet a snippet with several top-level statements is walked from its first statement alone.
  - For example, in `x = 1` followed by `y = x`, the second statement is never visited and gets no data-flow edge. `WalkRoot` and `Walk` model the code as written.
- The token list is in emission (pre-order) order. Record order is sorted order, so `tokens[k]` is in general not the token at position `k`.
- The data-flow rule of `matrix` scans the records before the current one in the sorted list. Positions are handed out in creation order, so sorting by first position puts the records in creation order. `Sorting.SortByFirstStrict` shows that the first positions are distinct.

## Model

| member | source | states |
|---|---|---|
| Ast.IterChildren | astruc/astruc.py:133-150 | every child yielded (none for an f-string, the present keys and the values for a dict display, the stored children otherwise) is a proper part of the node: their sizes sum below the node's, so no walk over yielded children runs forever |
| Ast.DictItemsLayout | astruc/astruc.py:142-147 | entry `i` of a dict display lands right after everything earlier entries yield: its key first when present, its value immediately after |
| Ast.DictItemsMembers | astruc/astruc.py:142-147 | a dict display yields a node exactly when it is some entry's present key or some entry's value (both directions) |
| Ast.AllMarkersIff | astruc/astruc.py:92 | the recursive all-markers test holds exactly when every child is a Store/Load marker |
| Ast.GetTextPolicy | astruc/astruc.py:78-97 | a function definition stands for its name; another node stands for its literal text when that is non-empty and every child yielded is a marker (vacuously when there are none); otherwise, including empty or absent text, for its category label |
| Ast.LiteralTextNodesAreLeaves | astruc/astruc.py:86-93 | a node that is no function definition, has non-empty literal text and yields only Store/Load markers stands for that text and has no materialised children |
| Ast.FirstMarker | astruc/astruc.py:46-52 | index of the first Store/Load marker among the children (or their count): every child before it is not a marker |
| Ast.Materialised | astruc/astruc.py:46-53 | the children that become nodes are the ones before the first marker; none is a marker, and together they are smaller than the node |
| Walk.AllocFacts | astruc/astruc.py:63-76 | a created node is unflagged, wraps the given syntax node, has at least one token and one position per token, and its positions are `[le, le + #tokens)` |
| Walk.ScanPositions | astruc/astruc.py:46-55 | the nodes created for one parent's children hold exactly the consecutive positions handed out during the scan, in order |
| Walk.ScanNodes | astruc/astruc.py:46-55 | a node is created for exactly the children before the first marker, in order; the parent's flag is that marker's (Write for Store, Read for Load), Plain without one |
| Walk.ScanWellFormed | astruc/astruc.py:53-55 | every node the scan creates is well formed and unflagged |
| Walk.ScanBounded | astruc/astruc.py:46-55 | every node the scan creates is well formed, unflagged and holds only positions handed out during the scan |
| Walk.KidsSmaller | astruc/astruc.py:46-55 | the syntax nodes of the created child nodes are the materialised children, and they are smaller than the parent (the loop terminates) |
| Walk.RunPreOrder | astruc/astruc.py:41-56 | the loop emits the records of the pending subtrees in left-to-right pre-order, one subtree after the other |
| Walk.RunPositions | astruc/astruc.py:41-56 | the counter never decreases; the emitted records hold the pending nodes' positions plus every position handed out meanwhile, each exactly once |
| Walk.PopRecord | astruc/astruc.py:43-56 | the record emitted for a popped node has the materialised children and the first marker's flag, all its positions were handed out, and each child starts after it |
| Walk.RunShape | astruc/astruc.py:41-56 | every emitted record has the materialised children and the marker flag, a well-formed node, children that start after it, and positions (its own and its children's) inside the range handed out |
| Walk.ScanStarts | astruc/astruc.py:46-55 | every node the scan creates starts inside the range handed out during the scan |
| Walk.ScanInOrder | astruc/astruc.py:46-55 | the nodes created for one parent's children have strictly increasing first positions, in list order |
| Walk.RunKidsFrom | astruc/astruc.py:41-56 | every child entry of the records the loop emits starts inside the range handed out by the loop |
| Walk.RunOneParent | astruc/astruc.py:41-56 | each emitted record's children are in creation order, and no node is a child entry of two different records |
| Walk.RunEmits | astruc/astruc.py:41-56 | every pending node, and every child entry of every emitted record, gets a record of its own |
| Walk.RunParents | astruc/astruc.py:41-56 | every emitted record is that of a pending node or of some record's child entry |
| Walk.WalkFromPreOrder | astruc/astruc.py:37-56 | the whole walk emits one record per materialised node below the root, in left-to-right pre-order |
| Walk.WalkFromPositions | astruc/astruc.py:37-56 | the whole walk advances the counter, and the records' positions are exactly the positions handed out, each once |
| Walk.WalkFromShape | astruc/astruc.py:37-56 | every record of the whole walk is shaped and holds only positions handed out by the walk |
| Walk.WalkFromLinks | astruc/astruc.py:41-56 | in the whole walk the root's node has a record, every child entry has a record, and every record is the root's or some child entry's |
| Walk.WalkFromOneParent | astruc/astruc.py:41-56 | in the whole walk each record's children are in creation order and no node is a child entry of two different records |
| Walk.TokenStreamLength | astruc/astruc.py:58-59 | the collected tokens number exactly as many as the records' positions |
| Sorting.Insert | astruc/astruc.py:60 | inserting one record keeps the multiset of records and every key, and puts the new record first or keeps the old first |
| Sorting.InsertSorted | astruc/astruc.py:60 | inserting into a key-sorted list leaves it key-sorted |
| Sorting.SortByFirst | astruc/astruc.py:60 | the sort returns a rearrangement of its input (same multiset) in which every record has a key |
| Sorting.SortByFirstSorted | astruc/astruc.py:60 | the sorted list is in non-decreasing key order between neighbours |
| Sorting.SortedOrdered | astruc/astruc.py:60 | neighbour-wise key order implies key order between every pair |
| Sorting.SortByFirstOrdered | astruc/astruc.py:60 | the sort is a permutation in key order |
| Sorting.SortByFirstPositions | astruc/astruc.py:60 | sorting moves records but keeps every position (positions are not reassigned) |
| Sorting.DistinctKeys | astruc/astruc.py:60 | when no position occurs twice among the records, no two records share a first position |
| Sorting.SortByFirstMembers | astruc/astruc.py:60 | a record is in the sorted list exactly when it is in the input |
| Sorting.SortByFirstStrict | astruc/astruc.py:60 | records that share out a run of positions, each once, come out of the sort in strictly increasing first position |
| Export.Side | astruc/astruc.py:101 | the matrix side is at least 512 and at least `le`, and it is 512 or `le` |
| Export.SelfLoopsEverywhere | astruc/astruc.py:104-105 | every position of every record has a self-loop |
| Export.ChildEdgesBothWays | astruc/astruc.py:106-109 | every position of a record is linked with every position of each of its children, in both directions |
| Export.ReadReachesEarlierWrites | astruc/astruc.py:110-114 | a read record has an edge from each of its positions to every position of every earlier write record with the same tokens |
| Export.SymmetricRules | astruc/astruc.py:104-109 | apart from data flow, every cell a record sets is set in its mirrored form too |
| Export.OneWayEdgesAreDataFlow | astruc/astruc.py:104-114 | an edge whose reverse is absent is a data-flow edge |
| Export.DataFlowIsOneWay | astruc/astruc.py:110-114 | when positions are unique, no record sets the reverse of a data-flow edge through the data-flow rule |
| Export.EdgesWithin | astruc/astruc.py:101-116 | when every record lies in `[lo, hi)`, so do both ends of every edge |
| Export.SetRow | astruc/astruc.py:108 | `matrix[p, cols] = 1` sets exactly the cells of row `p` at those columns |
| Export.SetColumn | astruc/astruc.py:109 | `matrix[rows, p] = 1` sets exactly the cells of column `p` at those rows |
| Export.AddSelfLoops | astruc/astruc.py:104-105 | sets exactly the self-loops of a node's positions, other cells unchanged |
| Export.LinkChild | astruc/astruc.py:107-109 | sets exactly the parent/child cells for one child, both ways |
| Export.AddChildEdges | astruc/astruc.py:106-109 | sets exactly the parent/child cells of all children, both ways |
| Export.AddDataFlow | astruc/astruc.py:110-114 | sets nothing unless the record is a read; otherwise sets exactly the read-to-write cells for every earlier matching write |
| Export.AddRecordEdges | astruc/astruc.py:103-114 | one iteration of the record loop: a cell becomes set exactly when it was set already or one of the three rules sets it for this record |
| Export.TreeViewMatchesEdges | astruc/astruc.py:118-131 | the tree view has one entry per record, with the tokens and positions of its node and of each child in order, and every (node, child) position pair it shows is an edge both ways |
| Astruc.CodeStruc.constructor | astruc/astruc.py:19-27 | a new object holds the tree and tokenizer and has no records, no tokens and counter 0 |
| Astruc.CodeStruc.GetNode | astruc/astruc.py:63-76 | tokens are the tokenizer's words of the node's text, or `["_"]` when there are none; without a tokenizer the text is the only token. The positions are `[old le, le)` and the counter grows by the token count, which is at least 1 |
| Astruc.CodeStruc.ScanChildren | astruc/astruc.py:44-55 | the inner loop computes the scan: the created nodes, the popped node's flag and the counter; the stack gains the created nodes, read from its top in creation order |
| Astruc.CodeStruc.Emit | astruc/astruc.py:42-56 | one pass of the outer loop: the record appended is exactly the next record of the walk, and the remaining walk is the rest |
| Astruc.CodeStruc.Traverse | astruc/astruc.py:41-56 | the stack loop from the root's node appends exactly the records of the walk and leaves the counter where the walk does |
| Astruc.CodeStruc.CollectTokens | astruc/astruc.py:58-59 | the token list grows by every record's tokens, in record order |
| Astruc.CodeStruc.Build | astruc/astruc.py:37-60 | the records are those of the walk from the root, sorted by first position. They share out the positions handed out, each once, in strictly increasing first position, each shaped and within range. They form the tree of the walk: the first is the root's, every child entry has exactly one record, which is later, and every later record is exactly one earlier record's child. The token list grows by one token per position, in emission order |
| Astruc.CodeStruc.Walk | astruc/astruc.py:29-61 | a second call returns the remembered records and changes nothing. An empty Module fails and changes nothing. Otherwise the result is the walk's records sorted by first position: the counter passes every position handed out, each lies on exactly one record, keys strictly increase, the records form the tree of the walk (first the root's; each child entry has exactly one, later, record; each later record is exactly one earlier record's child), and tokens grow by one per position in emission order |
| Astruc.CodeStruc.Matrix | astruc/astruc.py:99-116 | a fresh square matrix of side `Side(le)`: a cell is set exactly when one of the three rules sets it, and every rule's cell lies inside the matrix |
| Astruc.CodeStruc.Tree | astruc/astruc.py:118-131 | one entry per record, in order, with the tokens and positions of its node and of each of its children |
| Astruc.WalkFacts | astruc/astruc.py:37-59 | the walk from a non-negative counter hands out at least one position, and every position lies on exactly one record. Every record is shaped and in range, and there is one token per position |
| Astruc.SortedFacts | astruc/astruc.py:60 | sorting keeps the position partition, shape and range of the records, and makes first positions strictly increasing |
| Astruc.WalkResult | astruc/astruc.py:37-60 | the sorted records of the whole walk satisfy `Laid` (non-empty, partitioning the handed-out positions, strictly ordered, shaped, in range), with one token per position |
| Astruc.WalkOutcome | astruc/astruc.py:41-60 | the stack loop run from the created root node is the walk from the root, and what `WalkResult` and `WalkLinks` state holds of its records |
| Astruc.WalkLinks | astruc/astruc.py:37-60 | after sorting, the records of the whole walk form the tree rooted at the root's node (`TreeLinked`) |
| Astruc.ChildRecordsOrdered | astruc/astruc.py:56-60 | in a list with strictly increasing first positions, where every child entry has a record and starts after its parent, each child entry has exactly one record and it comes after its parent's |
| Astruc.RootFirst | astruc/astruc.py:41-60 | when the records share out the positions from `lo` on, the record of the node that starts at `lo` (the root's) comes first |
| Astruc.ParentBefore | astruc/astruc.py:56-60 | with strictly increasing first positions, a later record that is the root's or some child entry's is the child entry of an earlier record |
| Astruc.ParentUnique | astruc/astruc.py:56-60 | with strictly increasing first positions and no node a child entry of two records, a record is the node of at most one child entry |
| Astruc.ParentsBefore | astruc/astruc.py:56-60 | every record after the first is exactly one child entry, of an earlier record |
| Astruc.SortedLinks | astruc/astruc.py:56-60 | the record links of the unsorted walk carry over to the sorted list as links between indices, with a child's record after its parent's |

## Left out

- Parsing and source-span text (`asttokens.ASTTokens`, `get_text` of the library): a syntax node carries its literal source text as an optional field. The `source` and `astok` fields are not modelled.
- `ast.iter_child_nodes`: a node carries its children as a stored list, in field order.
- The class-name slicing `str(node.__class__)[13:-2]`, which depends on the interpreter's class repr. `Ast.Label` gives the kinds the walker tells apart (`Dict`, `JoinedStr`, `Module`, `FunctionDef`, `Store`, `Load`) fixed labels; only the other kinds carry their own label. Of the fixed ones, only `Dict` and `JoinedStr` labels can become tokens, and neither kind ever carries a flag, so the matrix does not depend on them.
- The tokenizer's internals: `tokenize(text).words()` is an arbitrary function `string -> seq<string>`. Exceptions it might raise are not modelled.
- numpy: the matrix is an `array2<bool>` created all false. The dtype (including that `np.bool` is missing from recent numpy) is not modelled.
- `setup.py`: packaging metadata only.
- Aliasing of `Node` objects: a graph node is a value, and the popped node's flag is set on the record emitted for it. In the source, the same object also sits in its parent's `children` list, so the parent's child entry shows the later flag. In the model, a child entry keeps the flag it was created with (always 0). No exporter reads a child entry's flag, so the matrix and the tree view are unaffected.
- `list.sort`: modelled as a stable insertion sort on values (`Sorting.SortByFirst`), not as the in-place Timsort.
- Astruc.CodeStruc.Walk: the source raises IndexError on a Module with no statements. The model returns None and changes nothing, which is the state the exception leaves behind.
