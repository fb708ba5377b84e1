# The injector's database

This project models the database of the injector: the content-addressed B-tree of `src/btree.cpp`,
the way `BTree::insert` coalesces concurrent callers, the `Republisher` that announces each new
root, `InjectorDb::update` which puts the two together, and the bounded work queue of `Injector`.
It proves what these parts are for, over every input and every interleaving: the tree always stands
for the map it should and keeps its shape; in a storage of its own that can remove, the blobs are
exactly those that its root and links name, one for each node after a store that went through; and
whenever nobody is inserting and the last store went through, the root hash that the Republisher was asked for last
gives back every key handed in so far (keys that a blob can carry, that is, non-empty and free of NUL).
After a store that failed, that value names no stored blob; which of the two holds is decided exactly.

`dafny verify dfyconfig.toml` checks everything.

## How it is built

There are three layers.

*Node values.* A node is the sequence of its `std::map`'s entries, with INF as the last id; a link is a
child, a hash, both or neither. `Insertion`, `Storage` and `LazyFind` say on such values what
`Node::insert`, `Node::store` and `Node::find` compute. What they mean is said without them: by the
in-order traversal (`Tree.Flat`), by `OrderedMap.Put`, by the tree's shape (`Shape`), by the multiset of
hashes held in links against the blobs (`Storage.Agree`, `Ledger.Conserved`), and by the map that a
partly resident tree stands for together with its blobs (`LazyFind.View`).

*Objects.* In `Nodes`, `HeapNode` owns its children and is updated in place by the methods of the source,
loop by loop; `BTree` holds the root, the insert buffer and the inserter's flag (nodes and tree know each
other, as in the source, and share a module); `RepublisherObject` and `InjectorQueue` hold the other two objects,
`InjectorDbObject` the one made of both, `ClientDbObject` the reader's side. Each method is tied to the function
on values that says what it computes. What other callers do at a suspension point is a schedule that
the object runs there: loads while a find waits for `cat`, inserts while an insert is under way,
further publishes or the destructor while a callback runs.

*Step machines.* `Coalescing`, `Publishing`, `InjectorQueue` and `InjectorDb` are state machines whose runs are all
interleavings. `FirstCome`, `Outcomes`, `AddOutcomes` and `Requests` compare their states with what the events of a run
say by themselves: what was handed in, what the backend reported, which add failed, which update returned. `BTree.Insert`, `Republisher.Complete` and `InjectorDatabase.Update` are proved to be runs of them.

The storage is the one of the repository's own tests: `add` gives a fresh id every time
(`test/test_btree.cpp:80-118`). It accepts a given number of blobs (`credit`) and then fails, so that a
store can break off after any number of adds. A blob is the parsed JSON object (section 4 of RFC 8259):
its members in order, each with an optional value and an optional child.

Other users of the same storage are allowed for: `others` is the multiset of blobs that are not the tree's.

An insert suspends in every remove and add operation. A caller that comes in there finds somebody inserting and
touches nothing but `_insert_buffer`, which the inserter reads only when a round ends; so its step
commutes with those of the inserter within the round, and the machine lets it fall between two
`raw_insert`s or before the end of the round. What such a caller reads of the root hash when it uploads
is kept apart in `InjectorDb`: the old hash while pairs are being put in, none while the tree is stored.

## What the code does that one might not expect

- A key already in a leaf keeps its old value, a key above the leaves is overwritten, and the buffer
  keeps the first value of a key (`Database.RawInsertRefinesMap`, `FirstCome.FirstOneWaits`). So after
  coalescing a key has *one* of the values it was handed in with.
- Nodes must hold at least two keys: with fewer, a split may give no right half
  (`Invariants.SplitNeedsTwoKeys`), and some run of insertions from the empty tree fails the assertions of
  `insert_node`: of a, b, c, d the fourth if nodes may hold one key, the second if none
  (`NodeSize.AssertionsNeedTwoKeys`).
- `check_invariants` compares a child's keys only with the separator right above them, not with the one
  before it. It tells whether the keys are in order in trees of a single node and in no others: for every
  greater height it accepts a tree, right in every other respect, with one child of the root out of place
  (`Disorder.CheckDecidesOrderOfLeavesOnly`; the smallest is `Disorder.CheckMissesDisorder`). The order proved
  here is the full one.
- A node comes back from its blob exactly if its keys are non-empty and free of NUL
  (`Codec.RoundTripIffGoodKeys`).
- After a failed `cat` an empty node stays behind, and the same find then says not found instead of
  failing again (`LazyFind.RepeatFind`).
- The destructor of `Republisher` posts every callback without asking whether it is empty, while the timer
  adds an empty one. So an empty function is called exactly if the object is destroyed while a
  publish is outstanding that is one of the timer's (`Publishing.DestroyedWhileRepeating`,
  `Publishing.EmptyCallHappens`); never when a callback destroys it. (Requests are taken to come with a callback that is not
  empty; the source would call an empty one of theirs in the destructor just the same.) The call throws out
  of the event loop, which is where `example/injector.cpp:161-166` ends. What the machine does after it is
  for programs that run the loop again.
- An update that finds somebody inserting returns from the insert at once and without an error, and
  publishes the root that is there, which need not hold its key, or nothing. If the store then fails,
  only the inserter is told: the key is left in the buffer, in no stored root, until somebody updates again
  (`InjectorDb.UpdateLost`). A caller can rely on its key being stored after a successful insert exactly
  if nobody was inserting when it called (`InjectorDb.SuccessMeansStored`).
- The end of a round removes the old root before it stores the new one, and a failed store is not uploaded.
  So after a failed store the Republisher goes on announcing, at every timer, a root that has been removed,
  until the next insert succeeds. When nobody is inserting, what it announces is stored exactly if the last
  store went through (`Announced.AnnouncedRootIsThere`).

## Model

| member | source | states |
|---|---|---|
| Keys.IdLessIsStrictTotalOrder | src/btree.cpp:119-130 | the comparator is a strict total order with INF on top, as `std::map` needs |
| Keys.LessIsLexicographic | src/btree.cpp:119-130 | keys are compared as `std::string` compares them: one is below another exactly if it is a proper beginning of it, or has the smaller character where the two first differ |
| OrderedMap.PutSorted | src/btree.cpp:559-569 | inserting into an ordered map keeps it ordered and brings no key but the new one |
| OrderedMap.PutKeys | src/btree.cpp:559-569 | after it the keys are the old ones and the new one |
| OrderedMap.PutRefinesMap | src/btree.cpp:559-569 | inserting is the update of a map, where a key that is there keeps its value unless it is overwritten |
| InOrder.HalvesInOrder | src/btree.cpp:257-298 | a split gives halves of sizes floor(s/2) and s-1-floor(s/2), the median's old child becomes the left half's INF child, and left, median and right are the old traversal; all other entries move as they are, so that only the median's hash is given up |
| InOrder.WayStep | src/btree.cpp:219-255 | at an inner node, in any tree in order: the child's entry is replaced by what came back for it, only the hash on that link is given up there, and then the node splits if it has to |
| InOrder.AbsorbPlace | src/btree.cpp:200-217 | the node handed up by a child goes where that child was and nowhere else: its key is not there yet and its place is right in front of the split entry |
| InOrder.InnerStep | src/btree.cpp:225-249 | where insert descends, what it does with what comes back, and that insert_node is only called where its assertions hold |
| InOrder.InsertInOrder | src/btree.cpp:219-255 | insert on any tree in order, partly resident ones too, changes its traversal to the one with k put in: a value that is there is replaced exactly if its key sits above the leaves |
| Shape.SplitKeepsShape | src/btree.cpp:257-298 | a node with one key too many splits into two legal halves under a legal one-key node |
| Shape.InsertInShape | src/btree.cpp:219-255 | insert keeps the shape below a node (equal leaf depth, half to full nodes, a child under every inner entry with INF last): the node stays within its bounds or hands up one key over two legal halves |
| Invariants.ShapeIsChecked | src/btree.cpp:358-388 | a tree in shape passes check_invariants, at every level |
| Checked.CheckIsNodeByNode | src/btree.cpp:358-388 | check_invariants accepts a tree if and only if, at every resident node, the size is within the limit and each separator is above the keys of the node right below it, and all nodes without a resident child are equally deep |
| Checked.DepthsOfLeaves | src/btree.cpp:167-189 | min_max_depth gives the depths of the highest and of the lowest node without a resident child, each of them reached |
| Checked.HashedIsNodeByNode | src/btree.cpp:332-351 | every_node_has_hash holds if and only if at every resident node all links to resident nodes have a hash |
| Invariants.SplitNeedsTwoKeys | src/btree.cpp:200-211 | every overfull leaf splits into two halves if and only if nodes may hold at least two keys |
| NodeSize.AssertionsNeedTwoKeys | src/btree.cpp:200-211 | in every sequence of insertions from the empty tree all of insert_node's assertions hold, if and only if nodes may hold at least two keys |
| Disorder.CheckDecidesOrderOfLeavesOnly | src/btree.cpp:358-388 | for every height and size: that check_invariants accepts a tree, right in shape and ordered node by node, means that its keys are in order, if and only if the tree is a single node |
| Disorder.CheckMissesDisorder | src/btree.cpp:371-380 | the smallest such tree that it accepts: c in front of m, a behind it |
| Invariants.HeightIsLogarithmic | src/btree.cpp:167-298 | with t = floor(max/2), a tree of height h has between 2(t+1)^(h-1) - 1 and (max+1)^h - 1 keys |
| Codec.RoundTripIffGoodKeys | src/btree.cpp:390-473 | restoring a stored node gives back ids, values and child hashes, INF last and dropped only if it has no hash, if and only if its keys are non-empty and free of NUL |
| Codec.EncodeMeans | src/btree.cpp:390-425 | any node, whatever its keys, is stored under names cut at a NUL, "" for INF: each name gets the value of its last entry and the child of its last entry with a hash |
| Codec.CStrCuts | src/btree.cpp:399 | the name of a key is the key up to its first NUL |
| Codec.DecodeForm | src/btree.cpp:427-473 | any object in the library's order, written by store or not, is restored member by member: "" is INF and comes last, a value or child that is missing is empty |
| Storage.StoreNodeCorrect | src/btree.cpp:390-425 | store, complete or broken off anywhere, keeps links and blobs in agreement and the traversal as it is, adds exactly the blobs whose hashes it puts on links, and succeeds exactly if the storage accepts one blob per unhashed resident node; then every node has a hash |
| Storage.StoreNodeSpends | src/btree.cpp:390-425 | each id given out is one accepted add; a store fails only when the storage accepts nothing more |
| Storage.StoreStopsThere | src/btree.cpp:390-425 | a node whose store breaks off has hashes up to one child, none on that child, and the entries behind it as they were |
| Storage.StoreKeepsShape | src/btree.cpp:390-425 | store keeps the shape of the tree |
| Ledger.InsertConserves | src/btree.cpp:219-298 | the hashes left in links and those passed to try_remove are together the ones there were, all links left agree with the blobs, and a fully hashed node of height h is left with at most 3h - 1 links to store |
| Economy.InsertIsSparing | src/btree.cpp:219-298 | on any tree in order, insert gives up every hash on the way down to the key, and besides these at most one for each node it makes |
| LazyFind.RestoreIsTransparent | src/btree.cpp:427-473 | a restored node stands for the same map as the hash it was restored from |
| LazyFind.FindHashCorrect | src/btree.cpp:501-526 | find through a hash answers from the map stored under it, leaves a node standing for the same map, and calls cat at most once per level |
| LazyFind.FindCorrect | src/btree.cpp:300-330 | find on a partly resident node answers from the map it stands for with its blobs, does not change that map, and calls cat less than once per level |
| LazyFind.FindLinkCorrect | src/btree.cpp:501-526 | the same for lazy_find on a link that may be resident, stored, both or neither; what it leaves behind can be read as before |
| LazyFind.RepeatFind | src/btree.cpp:300-330 | a find repeated calls cat no more and gives the same answer, except that a failed cat turns into not found |
| LazyFind.FailureIsReported | src/btree.cpp:300-330 | however far down a cat fails, find fails: any other answer, with the node left behind and the number of cats, is the one given when all missing blobs are there |
| LazyFind.FailedLinkIsReported | src/btree.cpp:501-526 | the same for lazy_find on a link |
| Economy.OneCatPerNode | src/btree.cpp:300-330 | each cat of a find, one that fails included, makes one node resident, and no node is made without |
| LazyFind.StoredTreeReads | src/btree.cpp:390-473 | the blob of a fully hashed tree alone stands for the tree's whole map, with as many levels |
| Database.RootInsert | src/btree.cpp:545-557 | raw_insert from an empty tree or one in shape gives a tree in shape with k put in, at most one level taller, which passes the assertion at its end |
| Database.RawInsertRefinesMap | src/btree.cpp:545-557 | as a map: a fresh key and a key above the leaves get v, a key in a leaf keeps its value, every other key is as it was |
| Database.RawInsertOk | src/btree.cpp:545-557 | raw_insert keeps the tree in shape, links and blobs in agreement and every blob accounted for, and changes the pairs to those with k put in; it adds no blob and leaves the root hash |
| Database.RemovalAccounted | src/btree.cpp:624-631 | removing the hashes that links gave up leaves exactly the blobs still linked, and those as they were; without a remove operation it does nothing |
| Database.EndRoundOk | src/btree.cpp:586-600 | the end of a round keeps all that and the pairs, whether the store fails or not; it succeeds exactly if the storage accepts enough blobs, and then the root hash names the tree as it is; on failure there is no root hash |
| Database.OneBlobPerNode | src/btree.cpp:475-485 | with a remove operation there are after a successful insert as many blobs as local_node_count, and those of others |
| Database.NothingDangles | src/btree.cpp:586-600 | with a remove operation and a storage of its own, the blobs are exactly those that the root and the links name, each once, and every child hash in any of them is live; after failed stores too, and whatever the keys |
| Distinct.BlobsShareNoKey | src/btree.cpp:390-425 | in the same states, if the keys are good: no two blobs have a key in common, so no two are equal |
| Database.FreshTreeFinds | src/btree.cpp:528-543 | from the root hash alone, find gives for every key what the resident tree holds, not_found included, with at most one cat per level |
| Database.InsertCostsAtMost3h | src/btree.cpp:390-425 | one insert into a fully hashed tree of height h (1 if empty) adds at most 3h blobs |
| Coalescing.StepOk | src/btree.cpp:559-604 | every step of every interleaving keeps the database in order and one inserter at most, loses no key and invents no pair |
| FirstCome.FirstOneWaits | src/btree.cpp:559-577 | over every run: a key waits in the buffer if and only if it was handed in since the buffer was last taken, with the first value it was handed in with since |
| FirstCome.FirstOneIsDrained | src/btree.cpp:575-584 | over every run: what is still to be put into the tree are such first values of the batch that was taken |
| FirstCome.ApplyIsInsert | src/btree.cpp:579-584 | each turn of the drain puts the next pair of the batch into the tree, by the map update of raw_insert, and touches nothing else |
| Coalescing.QuietMeansComplete | src/btree.cpp:559-604 | over every run, failed stores included: at most one caller drains; when nobody inserts and the root has a hash, the buffer is empty and the tree holds exactly the keys handed in so far, those of failed inserts too |
| Coalescing.IdleMeansComplete | src/btree.cpp:559-604 | for a tree without an add operation: whenever nobody inserts the buffer is empty and the tree holds exactly the keys handed in so far |
| Coalescing.QuietReadsBack | src/btree.cpp:559-604 | then the root hash alone gives the whole tree back, there is one blob per node, and every child hash in a blob is live |
| Coalescing.DrainEnds | src/btree.cpp:575-601 | n calls cause at most 2n steps of the drain loop, and while somebody inserts there is a step to take |
| Coalescing.EveryCallReturns | src/btree.cpp:559-604 | over every run: every call either has returned, once, and has a root hash (or none) on record that it found then, or is the one that inserts |
| Nodes.HeapNode.MoveOut | src/btree.cpp:264-297 | the loop of split moves the entries to the two halves and the median over the left one, and removes the median's hash |
| Nodes.HeapNode.Split | src/btree.cpp:257-298 | nothing happens within the size limit; beyond it the node is emptied and the halves are handed up |
| Nodes.HeapNode.InsertNode | src/btree.cpp:200-217 | the median entry goes in front of the split entry, whose child is refilled with the right half |
| Nodes.HeapNode.FindOrCreate | src/btree.cpp:192-198 | the lower bound of the key, with an INF entry made if there is none |
| Nodes.HeapNode.CheckLeaf | src/btree.cpp:142-149 | whether no entry has a resident child |
| Nodes.HeapNode.Insert | src/btree.cpp:219-255 | insert in place computes the insertion on values: what stays in the node, what is handed up, and which hashes are removed |
| Nodes.HeapNode.Store | src/btree.cpp:390-425 | store in place computes the store on values: the hashes put on links, the blobs added, the hash returned or the failure |
| Nodes.HeapNode.Restore | src/btree.cpp:427-473 | with one cat the node becomes the decoded blob, or is left as it was if cat fails, whatever others load meanwhile |
| Nodes.HeapNode.Find | src/btree.cpp:300-330 | find in place gives the answer, the restored nodes and the number of cats of find on values |
| Nodes.HeapNode.LocalNodeCount | src/btree.cpp:475-485 | the number of resident nodes |
| Nodes.HeapNode.EveryNodeHasHash | src/btree.cpp:332-351 | whether every resident link below has a hash |
| Nodes.HeapNode.MinMaxDepth | src/btree.cpp:167-189 | the least and the greatest depth of a leaf |
| Nodes.HeapNode.CheckInvariants | src/btree.cpp:358-388 | sizes, equal depths, and each child's keys below the separator right above |
| Nodes.BTree.Load | src/btree.cpp:606-622 | nothing if the root has this hash already; otherwise a new root with this hash and no node, an empty buffer, and the old root's blob removed; the old root object lives on with its node and loses its hash |
| Nodes.BTree.Find | src/btree.cpp:528-543 | from the buffer first; otherwise, whatever is loaded while it waits, the lookup in what the root that was current when it began stood for; if that root is still current it stands for the same afterwards |
| Nodes.BTree.RawInsert | src/btree.cpp:545-557 | raw_insert in place, on any tree in order, computes raw_insert on values; the assertion at its end holds if the tree was in shape |
| Nodes.BTree.EndRound | src/btree.cpp:586-600 | the root's old blob is removed, the tree is stored and the root gets its hash, or none if the store fails |
| Nodes.BTree.Insert | src/btree.cpp:559-604 | a call that finds somebody inserting only adds to the buffer, where a key that waits keeps its value and another gets this one; any other is a run of the step machine that begins with its pair and ends idle, and on success nothing is left in the buffer and the root has a hash |
| Publishing.StepOk | src/republisher.cpp:29-93 | every step of every interleaving keeps the batch, the list, the timer and the records in order |
| Publishing.OneOutstanding | src/republisher.cpp:29-79 | at most one backend publish is outstanding, and the loop never pops an empty list |
| Publishing.CalledInOrder | src/republisher.cpp:59-76 | callbacks are called in order and none twice, each, unless aborted, for a publish that was made of a cid requested no earlier than its own; only the destructor aborts |
| Outcomes.ToldAsReported | src/republisher.cpp:59-76 | over every run: a callback that is not aborted is told what the backend reported for the first publish made after its request, which was of the last cid requested by then |
| Publishing.AlwaysWatched | src/republisher.cpp:42-79 | from the first request until the destructor a publish is under way, or the timer waits, or its handler is about to run |
| Outcomes.PublishesLatest | src/republisher.cpp:29-79 | a step publishes exactly if it is a request that finds the object idle, the end of a batch behind which callbacks wait, or the handler of an expired timer in an idle object; and then it publishes the last cid requested |
| Outcomes.RepeatsNeedExpiries | src/republisher.cpp:42-52 | over every run: publishes of nothing new are no more than the expiries of the timer; a cancelled wait never publishes |
| Outcomes.EveryWaitEnds | src/republisher.cpp:44-54 | over every run: the timer is set whenever a batch ends with nobody waiting, and each wait, whether it expires or is cancelled, has its handler run once |
| Publishing.DrainedIsCurrent | src/republisher.cpp:42-79 | when nothing is being published, the last publish was of the last cid requested, and every callback has been called |
| Publishing.PublishingEnds | src/republisher.cpp:29-93 | a request or a timer causes at most three steps; when none is left every callback has been called exactly once; after the destructor too, as far as the event loop is run on past an empty function |
| Publishing.DestroyedWhileRepeating | src/republisher.cpp:81-93 | wherever the destructor may run, inside callbacks too: an empty function is called if and only if a publish is outstanding then that repeats the one before it, as only the timer's does |
| Publishing.EmptyCallHappens | src/republisher.cpp:42-93 | a run in which it happens |
| RepublisherObject.Republisher.Publish | src/republisher.cpp:29-40 | publish is the machine's step |
| RepublisherObject.Republisher.StartPublishing | src/republisher.cpp:42-79 | start_publishing is the machine's: with nothing to call back the timer is set, otherwise the timer is cancelled and the value published |
| RepublisherObject.Republisher.RunTimer | src/republisher.cpp:47-52 | the timer's handler, stale ones too, is the machine's step |
| RepublisherObject.Republisher.Complete | src/republisher.cpp:62-78 | the completion handler with its loop is a run of the machine, whatever the callbacks do: publish again or destroy the object; everybody called on the way is told how this publish ended |
| RepublisherObject.Republisher.Destroy | src/republisher.cpp:81-93 | the destructor is the machine's step |
| InjectorQueue.Bounded | src/injector.cpp:30-93 | in every reachable state the job count is the number of outstanding adds and at most 8, an entry waits only while it is 8, and entries start in the order of their submission |
| InjectorQueue.CalledOnce | src/injector.cpp:40-76 | no callback is called twice; without destruction, once nothing is outstanding each has been called exactly once |
| AddOutcomes.ToldByOutcome | src/injector.cpp:42-76 | over every run: a caller is called back without an update of its entry having begun if and only if its add failed; an entry whose add failed is never updated, and one whose add succeeded is on its way to be, or has been, unless the Injector is destroyed |
| AddOutcomes.EntriesHandedIn | src/injector.cpp:78-93 | over every run: the entries are the inserts' keys and values in the order of the calls; in that order they go to the backend, and nobody else is called back |
| InjectorQueue.QueueDrains | src/injector.cpp:30-77 | an entry causes at most three more steps, and while one waits there is a step to take |
| InjectorQueue.Injector.InsertContentFromQueue | src/injector.cpp:30-46 | the front entry, if any, goes to the backend and is counted |
| InjectorQueue.Injector.InsertContent | src/injector.cpp:79-93 | insert_content is the machine's step and keeps its invariant |
| InjectorQueue.Injector.AddDone | src/injector.cpp:42-76 | the completion of an add is the machine's step and keeps its invariant |
| InjectorDb.StepOk | src/db.cpp:148-175 | every step keeps both machines in order and, while nobody inserts, the Republisher asked for the root there is |
| Requests.OneRequestEach | src/db.cpp:148-175 | over every run: the Republisher's requests are those of the updates whose inserts have returned without an error and found a root hash, one each, for that root, in the order they returned in |
| InjectorDb.PublishedRootHoldsEveryUpdate | src/db.cpp:148-175 | over every interleaving, when nobody inserts and the last insert went through: the Republisher's value is the root hash, from which every key updated so far is found with a value it was updated with and no other key is; once nothing is being published, that hash was published last and every caller called back |
| Announced.AnnouncedRootIsThere | src/db.cpp:148-175 | after any run, when nobody inserts and something has been requested: the Republisher's value is the id of a stored blob if and only if the last store went through |
| Settling.SystemSettles | src/db.cpp:148-175 | an update causes at most eleven steps of tree and Republisher together and a timer three; when none is left nobody inserts, nothing is being published and every caller has been called back |
| Injecting.ToldMeansPublished | src/injector.cpp:42-76 | over every run of queue, tree and Republisher: when nobody inserts and the last store went through, the key of every entry whose caller has been called back, and whose add did not fail, is found from the root that the Republisher was asked for last; no callback runs twice |
| Injecting.CalledByOutcome | src/injector.cpp:51-76 | there, too, whoever is called back without an update has a failed add, and the database is updated for entries whose adds succeeded and for no others |
| InjectorDb.QuietUnlessInserting | src/db.cpp:148-175 | if no store fails, that is so from the first update on whenever nobody inserts |
| InjectorDb.UpdateLost | src/db.cpp:148-163 | runs in which an update returns without an error and without publishing anything, and its key is in no stored root: the store that was under way has failed |
| InjectorDb.SuccessMeansStored | src/db.cpp:148-163 | after any run: that the insert of an update has returned without an error means that its key is in the stored root as soon as nobody is inserting, if and only if nobody was when the update was called |
| InjectorDbObject.InjectorDatabase.UploadDatabase | src/db.cpp:165-175 | the Republisher is asked for the root hash, whatever it has been asked for before, or left alone if there is none |
| InjectorDbObject.InjectorDatabase.Update | src/db.cpp:148-163 | update is a run of the whole system that begins with it and ends with nobody inserting, the uploads of callers that come meanwhile included; if somebody is inserting, it is one step: the pair goes to the buffer and the root there is is uploaded. The requests grow by one for each caller that found a root: for a busy one at once, for the inserter last |
| ClientDbObject.ClientDatabase.Download | src/db.cpp:198-213 | a root is loaded; the tree stands for what is stored under it |
| ClientDbObject.ClientDatabase.Query | src/db.cpp:176-196 | the lookup in what is stored under the root that was loaded when the query began, whatever is downloaded while it waits |
| ClientDbObject.ClientDatabase.DownloadAndQuery | src/db.cpp:176-213 | a published root that is downloaded and queried gives the lookup in what was published |

## Left out

- Backend handles (`src/backend.cpp`): the add, cat, remove and publish operations are steps of the environment.
- JSON text, malformed blobs and value types other than strings: a blob is a parsed object as store writes it.
- Storages that give equal blobs the same id: as in the repository's tests, ids are fresh, and the ids in a blob are smaller than its own. Under fresh ids the blobs of a tree alone in its storage, with a remove operation and good keys, are all different when nobody is inserting (Distinct.BlobsShareNoKey); that a run with shared ids keeps its blobs is not proved.
- Database.RemovalAccounted: takes it that a remove takes its blob away; the code ignores the error of one that fails, and the blob then stays behind. What the links name is there all the same.
- Pinning after an add: an add whose pin fails counts as an add that failed.
- `load_db` and `save_db`, the timing and the resolving of the client's download loop, the client wrappers, `get_content`: file and network loops.
- Nodes.BTree.Insert: is stated for trees grown from empty or in shape as a whole. After a load the code takes a node that is not resident for an empty one; what it then does to the part that is there is Nodes.BTree.RawInsert and InOrder.InsertInOrder.
- Nodes.BTree.RawInsert: does not say that the assertion at its end holds for a tree of which only parts are resident; it need not.
- Nodes.HeapNode.Restore: knows blobs that cat gives and that are JSON objects as store writes them; for others the source answers bad_descriptor.
- InjectorDbObject.InjectorDatabase.UploadDatabase: leaves out save_db, which writes the root hash to a file.
- Destruction in the middle of a tree operation (the `_was_destroyed` paths of `src/btree.cpp`, and of `update`).
- Finds that overlap each other or an insert: the code does not keep them apart. A find may overlap loads.
- Nodes.BTree.Find: speaks of loads without a remove operation, or of no loads; a load with one removes the blob that the find may be waiting for.
- Nodes.HeapNode.Split: creates both halves before its loop, where the code creates the right one at its first entry; a half that stays empty is not linked.
- InjectorDbObject.InjectorDatabase.Update: other callers come between two keys of a round, and the Republisher's own events do not happen while it waits; the machine has calls while the tree is stored, and the other events, too.
- InjectorQueue.QueueDrains: does not say that the database's own update returns; that tree and Republisher come to rest is Settling.SystemSettles.
- Injecting.ToldMeansPublished: lets a caller be told at any time after its update has begun; the source tells it after its publish. Runs in which the Injector is destroyed are InjectorQueue's alone.
- ClientDbObject.ClientDatabase.Download: is the load; resolving the name, the waiting between rounds and the callbacks flushed after them are left out.
- Coalescing.StepCall: the record of the roots that callers found has, for one that comes while the tree is stored, the hash from before; what such a caller uploads is InjectorDb.StepUpdate.
- The JSON value with content id and time that the injector stores under a key: the update's value is any string.
- The example programs, the Go bindings, error categories and the coroutine library.
