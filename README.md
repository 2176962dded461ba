# FP-tree construction of fpt.cpp, modelled in Dafny

fpt.cpp mines frequent itemsets with an FP-tree. The program:

1. scans a transaction database and counts the support of every item (`pass1`);
2. sorts the items by descending support with `q_sortD`;
3. keeps the items whose support reaches the threshold (the frequent 1-itemsets);
4. builds the FP-tree (`buildTree`). For each transaction it projects the items onto the frequent ones and sorts them by their position in the frequent-item list with `q_sortA`. It then merges the sorted projection into a prefix tree with `insert_tree`, which keeps per node a count and the number of leaves below it (`numPath`), and chains the nodes of each item through a header table;
5. walks the finished tree depth first (`test_tree`), counting the leaves. For each leaf it lists itemsets built from the branch from the root (`combine_string`). As written, `combine_string` lists every non-empty sub-itemset only for branches of at most three items; on longer branches it loses some (see Findings).

The Dafny project follows that structure, one module per concern:

| file | module | what it holds |
|---|---|---|
| sort.dfy | `Sort` | `swap`, and the shared Hoare-partition quicksort behind `q_sortD` and `q_sortA`, in place on two arrays |
| frequency.dfy | `FrequencyPass` | `pass1`: support counting, `realK`, the frequent-item prefix |
| combinations.dfy | `Combinations` | `combine_string`, as written and corrected |
| tree_spec.dfy | `TreeSpec` | the FP-tree as a value (node arena plus header table) and `insert_tree` as the function `Insert` |
| tree_facts.dfy, chain_order.dfy | `TreeFacts`, `ChainOrder` | facts about item paths and horizontal chains |
| insert_effect.dfy, insert_shape.dfy, insert_chains.dfy | `InsertEffect`, `InsertShape`, `InsertChains` | what one `insert_tree` call does to the tree, and the shape it keeps |
| tree_log.dfy | `TreeLog` | what node counts and `numPath` mean after a sequence of insertions |
| chain_support.dfy | `ChainSupport` | the counts along each header chain add up to the item's support |
| branches.dfy | `Branches` | the leaves in `test_tree`'s visiting order and the itemset lists it emits |
| fptree.dfy | `FpTree` | the class `FPTree`, where `insert_tree` and `test_tree` update the tree in place |
| build.dfy | `Build` | `buildTree`'s projection loop and the part of `main` that runs `pass1`, `buildTree` and `test_tree` |

Node addresses become node ids in an arena, with node 0 as the root, and `NULL` becomes -1. A node's linked child list becomes the sequence of its children's ids, in list order. The header table is an `array<int>` indexed by the rank of the item. The program's globals (`root`, `headerTableLink`, `total_leaf_node`, `branch_i`, `branch_j`) become fields of `FPTree`. The data file becomes a sequence of transactions.

The main results:

- `insert_tree` keeps the tree well-formed:
  - child lists and parent links agree;
  - siblings hold distinct items, so no two nodes share an item path;
  - every node holds a frequent item;
  - each header chain lists the nodes holding its item, in creation order.
- After `buildTree`, the count of every node is the number of transactions whose sorted projection starts with the node's item path. Every projection is the path of some node.
- After `buildTree`, following an item's header chain and adding up the node counts gives the item's support, as `pass1` counted it.
- After `buildTree`, `numPath` is the number of leaves below the node.
- `test_tree` visits exactly those leaves. For each one it emits the list `combine_string` builds, as written, from the leaf's branch.
  - Each listed itemset picks items of the branch in branch order.
  - For a branch of at most three items the list holds every non-empty sub-itemset.
  - For a branch of four or more distinct items it lacks the itemset of the branch's last two items.
- A corrected `combine_string`, which extends every itemset of the previous level, yields every non-empty sub-itemset of a branch, in branch order. The walk keeps the source's version; the corrected one is stated beside it.

## Model

| member | source | states |
|---|---|---|
| Sort.Swap | fpt.cpp:197-209 | entries x and i of both arrays are exchanged and every other entry is unchanged |
| Sort.SwapKeepsPairs | fpt.cpp:197-209 | exchanging two positions of both arrays keeps every (key, value) pair of the range equally often |
| Sort.ScanFromHead | fpt.cpp:321-331 | the head scan moves past the keys that strictly precede the pivot's and stops at the first key that does not, or at `size` |
| Sort.ScanFromTail | fpt.cpp:333-343 | the tail scan moves past the keys the pivot's key strictly precedes and stops at the first key from the top that it does not precede, never below the pivot |
| Sort.Partition | fpt.cpp:319-350 | the do-while loop and the final pivot swap change only `low..high` and keep the multiset of pairs. The pivot pair from `low` ends at `mid`. No key before it follows it, and no key after it precedes it |
| Sort.QuickSort | fpt.cpp:312-357 | the range `low..high` ends up sorted in the requested direction, holds the same (key, value) pairs, and nothing outside it changes, although the left scan is bounded by `size` only |
| Sort.QSortD | fpt.cpp:238-283 | `support[low..high]` becomes non-increasing, each support staying beside its own item, and nothing outside the range changes |
| Sort.QSortA | fpt.cpp:312-357 | `indexList[low..high]` becomes non-decreasing, each position staying beside its own item, and nothing outside the range changes |
| FrequencyPass.MaxSizeIsMax | fpt.cpp:591-593 | `maxSize` is at least every transaction size and equals one of them (0 for an empty database) |
| FrequencyPass.RealK | fpt.cpp:609-611 | realK is expectedK when 0 < expectedK <= maxSize and maxSize otherwise |
| FrequencyPass.NumLargeOverflow | fpt.cpp:617 | with a single empty transaction, the allocation as written gives `numLarge` no entries |
| FrequencyPass.NumLargeSize | fpt.cpp:617-627 | the corrected `numLarge` has realK entries but never fewer than one, so entry 0 exists |
| FrequencyPass.Iota | fpt.cpp:573-576 | the initial `largeItem1` lists the item ids 0..numItem-1 in order |
| FrequencyPass.SupportTable | fpt.cpp:586-600 | entry k is the number of occurrences of item k over all transactions |
| FrequencyPass.ScanDatabase | fpt.cpp:566-600 | fills `support1` with every item's support and `largeItem1` with 0..numItem-1, and returns the largest transaction size |
| FrequencyPass.RearrangedSupportTable | fpt.cpp:630 | after a pair-preserving rearrangement, every item still sits beside its own support, and the items are still exactly 0..numItem-1, each once |
| FrequencyPass.SortBySupport | fpt.cpp:630 | after `q_sortD` the supports are non-increasing, and each sits beside the item whose support it is, the items being 0..numItem-1, each once |
| FrequencyPass.CountAtThreshold | fpt.cpp:638-640 | `numLarge[0]` is the length of the prefix of supports that reach the threshold |
| FrequencyPass.NumLargeCountsFrequentItems | fpt.cpp:629-640 | on the sorted table, that prefix length is the number of frequent items, and the prefix of `largeItem1` holds exactly the frequent items |
| FrequencyPass.Pass1 | fpt.cpp:557-645 | `pass1`: the sorted support table; realK; `numLarge[0]` equal to the number of frequent items, its prefix of `largeItem1` being exactly those items; the other `numLarge` entries 0 |
| Combinations.CombineAsWritten | fpt.cpp:882-913 | `combine_string` as written yields \|v\| + 1 + i(i+1) entries for branch positions 0..i |
| Combinations.AsWrittenAgreesUpToTwo | fpt.cpp:906-909 | for branches of up to three items, the as-written loop bound covers the whole previous level and the result is the complete one |
| Combinations.AsWrittenMissesItemset | fpt.cpp:906-909 | for the branch 0,1,2,3 the as-written result lacks the itemset {2,3} |
| Combinations.CombineAsWrittenSound | fpt.cpp:882-913 | every itemset the as-written `combine_string` produces picks branch items at strictly increasing positions, and the last one is the newest item alone |
| Combinations.WithoutLater | fpt.cpp:882-913 | when the branch items are distinct, an itemset of the branch up to position i holds no item from a later position |
| Combinations.ExtendedPrefixMissesSingleton | fpt.cpp:906-910 | from index 2 on, the item p[index] alone is not among the first 2*index+1 entries of the as-written result |
| Combinations.AsWrittenLosesPair | fpt.cpp:906-910 | for every branch of four or more distinct items, the as-written result lacks the itemset of the last two items, although it is a selection of the branch |
| Combinations.CombineStringAsWritten | fpt.cpp:882-913 | the recursive `combine_string` with the source's loop bound 2*index-1 returns `CombineAsWritten` |
| Combinations.CombineAll | fpt.cpp:882-913 | the corrected combination list has 2^i(\|v\|+2)-1 entries |
| Combinations.CombineAllCount | fpt.cpp:882-913 | from an empty vector, a branch of i+1 items yields 2^(i+1)-1 itemsets, one per non-empty subset |
| Combinations.CombineAllSound | fpt.cpp:882-913 | every itemset produced picks branch items at strictly increasing positions |
| Combinations.CombineAllComplete | fpt.cpp:882-913 | every choice of branch items at increasing positions is produced |
| Combinations.SelectionListed | fpt.cpp:898-910 | a selection of branch positions up to i is in the corrected list: at its end, in the copied level, or among the extended entries |
| Combinations.ListedBefore | fpt.cpp:898 | a selection stopping before position i is in the copy of the previous level |
| Combinations.ListedExtended | fpt.cpp:906-909 | a selection ending at position i after other positions is among the corrected list's extended entries |
| Combinations.CombineString | fpt.cpp:882-913 | the recursive `combine_string` with the corrected loop bound returns the complete combination list `CombineAll` |
| TreeSpec.ChildWith | fpt.cpp:465-471 | the child-list search finds a child holding the item, or NULL exactly when no child holds it |
| TreeSpec.FirstWith | fpt.cpp:446-449 | a chain head is NULL or a node at or after `from` that holds the item |
| TreeSpec.LastWith | fpt.cpp:452-457 | the chain's tail is NULL or a non-root node below n that holds the item |
| TreeSpec.AddNode | fpt.cpp:429-458 | creating a child keeps parents below their children and adds exactly one node |
| TreeSpec.AddPaths | fpt.cpp:462 | `T->numPath += *path` changes only the numPath of node n, by d |
| TreeSpec.Insert | fpt.cpp:405-529 | `insert_tree` only adds nodes, keeps the arena shaped and keeps the header table's size |
| TreeSpec.Descent | fpt.cpp:465-469 | the matched walk starts at t, has at most one node per remaining item, and goes to higher ids |
| TreeFacts.PathLength | fpt.cpp:857-861 | only the root has an empty item path, and a node's path is its parent's path plus its own item |
| TreeFacts.AddNodeChains | fpt.cpp:445-458 | appending a new node to its item's chain, as the head or after the last node, keeps every chain listing its item's nodes in id order |
| TreeFacts.HeaderAdded | fpt.cpp:446-449 | after the new node, each header entry is still the first node holding its item |
| TreeFacts.LinksAdded | fpt.cpp:452-457 | after the new node, each horizontal link is still the next node holding the same item |
| TreeFacts.PathsDistinctAll | fpt.cpp:465-513 | a tree whose siblings hold distinct items has no two nodes with the same item path |
| ChainOrder.ChainListsHolders | fpt.cpp:446-458 | following a header entry's horizontal links lists exactly the nodes holding its item, each once, in creation order |
| InsertEffect.DescentFrame | fpt.cpp:465-469 | the walk depends only on the items and child lists, not on counts or numPath |
| InsertEffect.InsertHasEffect | fpt.cpp:405-529 | `insert_tree` raises the counts along the matched walk, creates a chain of new nodes for the unmatched items, and raises numPath along the walk by the new-branch indicator |
| InsertShape.DescentSteps | fpt.cpp:465-469 | each step of the walk goes to a child holding the next item, and the walk stops only when items run out or no child matches |
| InsertShape.InsertChildrenLinked | fpt.cpp:439-443 | after `insert_tree`, child lists and parent links still agree |
| InsertShape.InsertSiblingsDistinct | fpt.cpp:464-493 | after `insert_tree`, siblings still hold distinct items |
| InsertShape.InsertWellFormed | fpt.cpp:405-529 | `insert_tree` of ranked frequent items keeps the tree well-formed |
| InsertChains.InsertKeepsChains | fpt.cpp:445-458 | `insert_tree` keeps the header table and horizontal links chaining each item's nodes |
| TreeLog.ThroughAppend | fpt.cpp:519 | one more logged projection adds one to the count of a path exactly when the path is its prefix |
| TreeLog.WalkPath | fpt.cpp:465-469 | the i-th node of the matched walk has the first i items as its path |
| TreeLog.OnWalk | fpt.cpp:465-522 | a non-root node is on the matched walk exactly when its path is a prefix of the inserted items |
| TreeLog.NewPath | fpt.cpp:436-461 | the new nodes carry the unmatched items in order, each one's path extending the walk |
| TreeLog.EffectCounts | fpt.cpp:437-519 | after the insertion, every node's count is the number of logged projections its path is a prefix of |
| TreeLog.EffectCovered | fpt.cpp:405-529 | after the insertion, every logged projection, the new one included, is the path of some node |
| TreeLog.EffectOnLog | fpt.cpp:428-461 | nodes are created only for the items being inserted, so after the insertion every non-root node's path is a prefix of a logged projection, the new one included |
| TreeLog.OnLogAppend | fpt.cpp:757 | a node on some logged projection stays on one when another projection is logged |
| TreeLog.ThroughSome | fpt.cpp:437-519 | a path that is a prefix of some logged projection is counted at least once |
| TreeLog.LoggedCountsPositive | fpt.cpp:437-519 | in a tree built from logged projections, every non-root node has a count of at least 1 |
| TreeLog.EmptyLogRootAlone | fpt.cpp:692-698 | a tree that logs no projection is the root alone, as `buildTree` leaves it for an empty database |
| TreeLog.EffectPathSums | fpt.cpp:438-524 | after the insertion, every leaf has numPath 1 and every other node the sum of its children's |
| TreeLog.InsertLogged | fpt.cpp:757 | inserting a sorted projection from the root with count 1 keeps the tree well-formed and logs the projection: counts stay the number of projections through a node, every projection is a node path and every node lies on a projection. numPath stays equal to the leaf count |
| Branches.LeafCount | fpt.cpp:848 | where numPath sums up as above, a node's numPath is the number of leaves `test_tree` reaches from it |
| Branches.CombosAppend | fpt.cpp:842-873 | the lists emitted for two runs of leaves are those of the first followed by those of the second |
| Branches.BranchCombosShort | fpt.cpp:869 | for a branch of at most three items, the list emitted at its leaf holds every non-empty sub-itemset of the branch |
| Branches.BranchCombosLosePair | fpt.cpp:869 | for a branch of four or more distinct items, the list emitted at its leaf lacks the itemset of its last two items |
| Branches.SubBelow | fpt.cpp:842-845 | every node reached through child lists from n has n as an ancestor |
| Branches.SiblingSubsDisjoint | fpt.cpp:842-845 | the subtrees of two different children share no node, so consuming one leaves the other intact |
| FpTree.FirstLastNull | fpt.cpp:446-458 | a chain's header entry is NULL exactly when the chain has no last node |
| FpTree.FPTree.constructor | fpt.cpp:680-700 | a root with numPath 1 and no children, NULL header entries, zeroed counters; this tree is well-formed and logs nothing |
| FpTree.FPTree.FindChild | fpt.cpp:465-469 | walking t's child list returns the child holding x, or NULL |
| FpTree.FPTree.ChainTail | fpt.cpp:452-455 | following horizontal links from a non-empty header entry reaches the last node holding the item |
| FpTree.FPTree.AddChild | fpt.cpp:429-458 | the in-place node creation and chain append leave the tree `AddNode` describes |
| FpTree.FPTree.InsertTree | fpt.cpp:405-529 | the in-place `insert_tree` leaves the tree and path that `Insert` gives, and keeps the chain invariant |
| FpTree.FPTree.NewChild | fpt.cpp:418-513 | cases 1 and 2, a new child followed by the recursive insertion, agree with `Insert` |
| FpTree.FPTree.MatchChild | fpt.cpp:515-525 | case 3, a matching child's count raised followed by the recursive insertion, agrees with `Insert` |
| FpTree.FPTree.BranchItems | fpt.cpp:855-868 | `pp` holds the items from the root down to the leaf, root side first |
| FpTree.FPTree.VisitLeaf | fpt.cpp:847-873 | at a leaf, the leaf counters go up by one, and the list the as-written `combine_string` builds from the leaf's branch is emitted |
| FpTree.FPTree.VisitNextChild | fpt.cpp:842-845 | one round of the child loop walks the first remaining child's subtree and drops it from the list. It counts that subtree's leaves and emits their as-written lists |
| FpTree.FPTree.VisitChildren | fpt.cpp:839-846 | the child loop empties the subtree's child lists and counts its leaves. It emits their as-written `combine_string` lists in visiting order |
| FpTree.FPTree.TestTree | fpt.cpp:836-875 | `test_tree` counts the leaves below n and empties the child lists it walks. It emits, in depth-first order, the as-written `combine_string` list of each leaf's branch |
| FpTree.ConsumeStep | fpt.cpp:842-845 | after walking one child and unlinking it, the remaining children's subtrees are untouched |
| Build.RankOf | fpt.cpp:739-748 | the position of the first occurrence of x in the frequent-item list, or -1 when x is not frequent |
| Build.SearchLarge | fpt.cpp:739-748 | the inner search returns the item's position in the frequent-item list, or numLarge[0] when there is none |
| Build.Ranks | fpt.cpp:731-749 | the positions collected for a transaction are at most as many as its items and each indexes the frequent-item list |
| Build.ItemsAtRanks | fpt.cpp:742-744 | `freqItemP[k]` is the frequent item at position `indexList[k]`, for every k |
| Build.ItemsAreFrequent | fpt.cpp:736-748 | the projection holds exactly the transaction's items that are frequent |
| Build.RanksPrefix | fpt.cpp:731-749 | the projection count never exceeds the transaction's total of frequent entries |
| Build.RanksCount | fpt.cpp:745 | `count` ends as the number of entries of the transaction that are frequent items |
| Build.Project | fpt.cpp:728-749 | the projection loop leaves the frequent items of t in transaction order in `freqItemP` and their positions in `indexList` |
| Build.SortedProjection | fpt.cpp:754 | sorting the projection's pairs by position gives a sorted projection |
| Build.SortedProjectionOf | fpt.cpp:728-754 | projection and `q_sortA` leave in the arrays the transaction's frequent items, ascending by position |
| Build.ProjectedRanked | fpt.cpp:751-757 | a sorted projection names ranked frequent items, as `insert_tree` needs, and holds exactly the transaction's frequent items |
| Build.AddTransaction | fpt.cpp:726-757 | one round of the transaction loop inserts the sorted projection and keeps the tree well-formed, logged and leaf-counted |
| Build.AllProjectedStep | fpt.cpp:723-758 | the log gains the projection of the next transaction |
| Build.BuildTree | fpt.cpp:668-767 | `buildTree` gives a well-formed FP-tree whose counts and numPath account for the sorted projections of every transaction. Every node other than the root lies on one of them, so an empty database leaves the root alone |
| ChainSupport.HoldingCounts | fpt.cpp:437-519 | in a logged tree, the counts of the nodes holding an item add up to, for each such node, the number of logged projections through it |
| ChainSupport.HoldThroughSnoc | fpt.cpp:757 | logging one more projection adds, for an item, the number of its nodes on that projection |
| ChainSupport.HoldThroughLog | fpt.cpp:723-758 | the per-node counts of an item's nodes, added up, equal the per-projection number of its nodes on each projection, added up |
| ChainSupport.NoneThrough | fpt.cpp:692-698 | before any insertion no node of the item is passed through |
| ChainSupport.OnEmpty | fpt.cpp:692-698 | no node other than the root lies on the empty projection |
| ChainSupport.OnSnoc | fpt.cpp:433-439 | when node m's item path is P, the nodes on P are those on P without its last item, and m itself |
| ChainSupport.OnPathCount | fpt.cpp:405-529 | a projection that is a node's item path passes through exactly one node per occurrence of an item in it |
| ChainSupport.RanksOfItems | fpt.cpp:739-745 | each position stored in `indexList` is the rank of the item stored beside it in `freqItemP` |
| ChainSupport.ItemsCount | fpt.cpp:736-748 | the projection keeps every occurrence of a frequent item of the transaction |
| ChainSupport.CountInPairs | fpt.cpp:754 | where an item always sits beside one position, its occurrences are the occurrences of that (position, item) pair |
| ChainSupport.PairCounted | fpt.cpp:754 | a pair at some place of the arrays is counted among them |
| ChainSupport.PairOccurs | fpt.cpp:754 | a counted pair occurs at some place of the arrays |
| ChainSupport.ProjectionCount | fpt.cpp:728-754 | after projection and `q_sortA`, the arrays hold each frequent item exactly as often as the transaction does |
| ChainSupport.AllProjectedFront | fpt.cpp:723-758 | the projections logged before the last transaction are those of the front of the database |
| ChainSupport.LogOnPSupport | fpt.cpp:586-600 | over all logged projections, the nodes of a frequent item lying on them add up to its support as `pass1` counts it |
| ChainSupport.ChainCountsSupport | fpt.cpp:446-458 | in a well-formed, logged tree built from the database, following each frequent item's header chain and adding up the node counts gives the item's support |
| Build.SupportPositive | fpt.cpp:598 | an item with positive support occurs in some transaction |
| Build.RootHasChild | fpt.cpp:1016-1022 | when the most frequent item has positive support, the built tree's root has a child, so `test_tree` starts from a non-leaf |
| Build.ProjectionsFit | fpt.cpp:703-713 | transactions with at most numItem frequent entries fit `freqItemP` and `indexList` |
| Build.BuildAndWalk | fpt.cpp:1016-1024 | `buildTree` then `test_tree(root)`: the leaf total equals the root's numPath and the number of leaves, and one as-written `combine_string` list is emitted per leaf, in visiting order |
| Build.Run | fpt.cpp:1012-1037 | the tree is built exactly when some item is frequent; it is then over exactly the frequent items, and built and walked as above |

## Left out

- `input` is not modelled: reading the configuration file and computing `threshold = thresholdDecimal * numTrans` in floating point are left out.
- Build.Run takes the threshold already clamped by fpt.cpp:812-813 and requires it to be at least 1. That holds for the documented range (0, 1] of `thresholdDecimal`.
- File I/O is not modelled. The data file is the sequence of transactions passed in. A failing `fopen`, `fscanf` or `malloc`, and the `exit(1)` after it, are not modelled.
- Printing is not modelled. `emitted` records, per leaf, the list that `test_tree` prints after `vector: `. That list is built by `combine_string` as written, so it lacks itemsets on branches of four or more items. Each itemset is a sequence of item ids rather than their decimal strings joined by spaces.
- Memory release is not modelled (`destroy`, `destroyTree`, `free`), because it has no observable effect on the results.
- `read_file_and_display` and `show_time` are not modelled: `main` does not call them.
- FP-growth mining is not modelled: its call is commented out in `main`, and `FPgrowth` is not part of this model.
- The `largeItemset` array (fpt.cpp:616, 624-627) is not modelled because nothing reads it. Only `numLarge` is modelled.
- The root's `item` and `count` are never initialised in the source. The model gives them -1 and 0; neither is read.
- Integer widths are not modelled: counts and supports are unbounded integers, with no 32-bit overflow.
- Items must lie in 0..numItem-1 (`ItemsBelow`), because `support1[item]++` indexes by item.
- Build.BuildTree requires each transaction to have at most numItem frequent entries, the room `freqItemP` and `indexList` have.
- `insert_tree`'s `path` out-parameter becomes a value passed in and returned, starting at 0 per transaction as at fpt.cpp:729.
- Memory layout is not modelled. The child lists are sequences of node ids rather than heap cells, so aliasing between list cells is outside the model.
- FpTree.FPTree.TestTree requires that the walk not start at a childless root. There the source would call `combine_string(pp, -1, ...)`, whose recursion never reaches index 0. `main` never does this, because a frequent item gives the root a child (Build.RootHasChild).
- `test_tree`'s function parameter `f` is not modelled: the model calls the combination function directly. `branch_j` is only ever reset to 0 and is modelled as such.

## Findings

| source | as written | input that shows it | evidently intended | confidence | as-written member | corrected member |
|---|---|---|---|---|---|---|
| fpt.cpp:906-909 | `combine_string` extends only the first 2*index-1 entries of the previous level with the new item | the branch 0,1,2,3 (index 3): 7 itemsets precede the loop, only 5 are extended, and {2,3} never appears | extend every entry of the previous level (2^index-1 of them), so every non-empty sub-itemset of the branch appears. `test_tree` keeps the source's version (Combinations.CombineStringAsWritten); Combinations.AsWrittenLosesPair shows the loss on every branch of four or more distinct items | not executed | Combinations.AsWrittenMissesItemset | Combinations.CombineString |
| fpt.cpp:617, 638 | `numLarge` gets realK entries, but `numLarge[0]` is written and read regardless | a database whose only transaction is empty: maxSize 0, so realK 0 and `numLarge` is empty | allocate at least one entry | not executed | FrequencyPass.NumLargeOverflow | FrequencyPass.NumLargeSize |
