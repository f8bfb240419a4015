# SuperDB verification model

SuperDB is a small SQL engine (internal/engine) behind a session server (internal/server), with a
write-ahead log (internal/storage) and a replicated range directory (internal/cluster). This project
models its hard parts in Dafny and proves what they are for. Check all of it with
`dafny verify dfyconfig.toml`.

One module per part:

- `Lex`, `Values`, `Literals`: byte order of strings, values of INT, TEXT, BOOL and NULL columns with their
  renderings and order, SQL literals.
- `Storage`, `TableState`, `Tables`, `TableRuns`, `Listings`, `TableWitnesses`: one table with its redundant
  parts (rows, insertion order with tombstones, secondary indexes, the positional fast array). `Core` says that
  rows, order and indexes agree, `FastOK` that the array is an exact copy, `View` is what the table shows.
  `Tables` has the mutations as methods of a class; `TableRuns` has whole runs, `Listings` what
  statements do to the rows in order whatever their keys, `TableWitnesses` the tables that go wrong.
- `Conditions`, `Projection`, `OrderBy`, `Select`, `Lookups`, `Group`: the physical plans of a query against
  one reference: filter, first-occurrence distinct, sort, project, drop OFFSET, take LIMIT.
- `Like`, `InsertValues`, `Payloads`, `Bind`, `Json`, `Spellings`: text transformations against independent
  meanings.
- `Sessions`, `Transactions`, `Durability`, `Wal`, `Hosts`: optimistic commit as interleaved steps, what is
  on disk, its bytes, and a node that serves, stops and starts over them.
- `Ranges`, `Replica`, `Databases`: fenced range operations applied in log order, agreement of members, and
  members whose engine is made of tables.
- `Sequences`, `Engines`: concatenation of lists, and statement execution as a parameter.

Several claims one would like to make are false of the code. Each has its exact condition:

- Appending rows keeps the fast array exact unless the array exists while the order has fewer than 256 keys,
  or is built over a row with the empty key (`TableState.InsertFastIff`, `TableState.BatchFastIff`); only some
  scan DELETEs lead to the first (`Tables.ShortIff`); `TableWitnesses.StaleArray` and
  `TableWitnesses.HoleOverRowLater` reach both.
- A rekey keeps a table consistent unless it revives a tombstone, and its array exact unless there is one and
  the new key is empty (`TableState.RekeyCoreIff`, `TableWitnesses.RevivedKey`, `TableWitnesses.HoleOverRow`).
- A loaded table is consistent exactly when its image is (`Tables.Table.Restore`). It shows what the saved one
  showed, but it has no tombstones and its own array, so the same statement can break one of the two only
  (`TableWitnesses.TombstoneTells`, `TableWitnesses.ArrayTells`). They stay alike exactly as long as no
  statement breaks either (`Listings.AlikeStep`), and so do a restored member of a cluster and the others
  (`Databases.RestoredMemberAgrees`); that a replay reproduces the same result
  (internal/cluster/state.go:57-59) holds for a restored member only under that guard.
- An index scan with LIMIT or OFFSET gives lines that depend on the order of a map, except in the cases of
  `Lookups.AnyOrder`.
- LIKE is exact for a pattern, or for a value, exactly when it has no percent sign (`Like.FaithfulPatterns`,
  `Like.FaithfulValues`), and never accepts wrongly (`Like.NeverAcceptsWrongly`).
- The primary-key shortcut is the scan unless it takes NULL for the text NULL (`Lookups.KeyLookupIff`,
  `Lookups.NullIsMistaken`).
- LIMIT 0 without OFFSET over a match returns a row under DISTINCT and reads an empty heap under ORDER BY
  (`Select.Deliver`, `OrderBy.TopK`).
- A plain batch is logged in running order exactly when no COMMIT publishes after a direct write of the batch
  (`Durability.OrderIff`, `Durability.CommitOvertakes`).
- A direct write whose append fails stays executed and is not recovered, if it made the database larger
  (`Durability.WriteLost`); a COMMIT whose append fails is refused, and recovered in part unless no byte was
  taken (`Hosts.RefusedAppend`, `Hosts.HalfCommit`).
- A compaction stopped before it removes the log is harmless exactly when the log was empty, for statements
  that make the database larger (`Durability.CompactInterrupted`, `Durability.CompactedTwice`).
- A split keeps the partition exactly when its key lies within the parent (`Ranges.SplitPartitionIff`).
- A clone can publish exactly when the publishes since it was taken are a multiple of 2^64
  (`Sessions.PublishIff`).

Where code and comments disagree the model follows the code: internal/engine/marshal.go:174-179 says that
U+2028 and U+2029 are escaped, and the code writes them raw; internal/engine/fastpath.go:107-108 says that
TEXT keys keep their quotes, and they do not; internal/engine/select.go:102-104 says that NULL never collides
with the text NULL, which holds for the keys of DISTINCT but not for row keys (internal/engine/schema.go:64-82).

Parameters stand for what is not modelled: statement execution in `Sessions`, `Durability`, `Hosts` and
`Replica` (a partial function that changes nothing on error), the compilation of SQL text in `Databases` (by
anything the tables show), CRC-32C and zlib in `Wal` (decompression undoes
compression), the library sort in `OrderBy` (any sorted permutation), the row predicate of DELETE and UPDATE
in `Tables`, what the file system makes of each append. One `char` stands for one byte or one rune; `Json`
works on bytes.

## Model

| member | source | states |
|---|---|---|
| Ranges.RangeStore.constructor | internal/cluster/ranges.go:52-54 | a new store is the empty directory with counter 1 |
| Ranges.RangeStore.CheckFence | internal/cluster/ranges.go:240-248 | the fence passes exactly when every listed range exists at its listed generation, in whatever order the map is visited |
| Ranges.RangeStore.RemoveRanges | internal/cluster/ranges.go:249-251 | exactly the listed ids go |
| Ranges.RangeStore.PlaceRanges | internal/cluster/ranges.go:252-260 | post-images are placed in order; id 0 takes the counter, other ids push it |
| Ranges.RangeStore.UnassignTables | internal/cluster/ranges.go:264-266 | exactly the listed tables lose their assignment |
| Ranges.RangeStore.ApplyOp | internal/cluster/ranges.go:239-268 | an entry whose fence fails changes nothing at all; otherwise the whole post-image is applied |
| Ranges.RangeStore.SetRangeLeader | internal/cluster/ranges.go:222-229 | only the leader of an existing range changes, never its generation, and no other range |
| Ranges.RangeStore.Lookup | internal/cluster/ranges.go:88-97 | a range is found exactly when one owns the key; in a partition the answer is unique whatever the map order |
| Ranges.RangeStore.TableRange | internal/cluster/ranges.go:116-132 | the assigned range while it exists, else the one with the lowest id |
| Ranges.SameStrings | internal/cluster/node.go:824-839 | the counting loop decides equality of replica lists as multisets |
| Ranges.RebalanceOp | internal/cluster/node.go:790-822 | one entry that moves every unbalanced range and no other, each fenced by the generation seen |
| Ranges.SplitCoversParent | internal/cluster/node.go:646-682 | for an interior or boundary key every string of the parent is in exactly one child |
| Ranges.SplitEffect | internal/cluster/node.go:646-682 | a split removes the parent and puts its children under the next two ids |
| Ranges.SplitPartitionIff | internal/cluster/node.go:646-682 | a split keeps the partition of the keyspace if and only if the split key lies within the parent, which the code does not check |
| Ranges.SplitPartition | internal/cluster/node.go:646-682 | a split computed from an older view with the same bounds still keeps the partition |
| Ranges.SplitOutside | internal/cluster/node.go:646-682 | every split key outside the parent breaks the partition |
| Ranges.GenesisEffect | internal/cluster/node.go:256-290 | the genesis entry writes range 1 over the whole keyspace |
| Ranges.GenesisPartitionIff | internal/cluster/node.go:256-290 | a genesis entry leaves a partition if and only if every other range is empty |
| Ranges.ChildrenAreExact | internal/cluster/node.go:696-704 | looking for the ranges that touch the split key finds exactly the two children |
| Ranges.TablesOn | internal/cluster/node.go:684-694 | exactly the tables assigned to the range, in whatever order the map is visited |
| Ranges.AssignChildren | internal/cluster/node.go:661-676 | the second entry of a split is fenced by both children and by nothing else; every listed table goes left, every other table of the parent right, and no other table is named |
| Ranges.NoTableStranded | internal/cluster/node.go:661-676 | applied to any directory whose tables on the parent it names, it leaves no table on the removed parent, moves no table it does not name and changes no range |
| Ranges.AcceptedIsCurrent | internal/cluster/node.go:646-743 | an accepted entry was computed from the current value of every range it names, but for leaders: no lost update |
| Ranges.InPlaceShape | internal/cluster/node.go:707-822 | accepted moves, assignments and rebalances rewrite existing ranges with the same bounds and the next generation |
| Ranges.InPlaceStep | internal/cluster/ranges.go:239-268 | such a rewrite keeps the partition, the ids and the bounds |
| Ranges.SplitStep | internal/cluster/ranges.go:239-268 | a guarded split keeps the partition and never reuses an id |
| Ranges.StepKeeps | internal/cluster/ranges.go:239-268 | any proposal computed from any earlier state and applied now keeps the directory well formed: splits, the assignment of their children under its own fence, moves, rebalances |
| Ranges.LaterTransitive | internal/cluster/ranges.go:239-268 | ids never reused, bounds fixed for life and growing generations compose along the log |
| Ranges.RunKeeps | internal/cluster/ranges.go:239-268 | in every run of the log from the empty directory every state is well formed and every pair of states is ordered by that relation |
| Ranges.RunPartitions | internal/cluster/ranges.go:239-268 | from the genesis entry on, the ranges partition the whole keyspace in every state of every run |
| Ranges.RunNonEmpty | internal/cluster/ranges.go:239-268 | in every run whose splits lie inside their ranges no range is ever empty |
| Ranges.RunChildren | internal/cluster/node.go:657-660 | so anywhere in such a run the lookup after a split finds exactly its two children |
| Ranges.StepRewrites | internal/cluster/ranges.go:239-268 | an accepted operation leaves a range as it was exactly when it does not name it, and otherwise removes it or raises its generation |
| Ranges.RunRewrites | internal/cluster/ranges.go:239-268 | in every run a range has the generation of an earlier state if and only if no accepted operation since named it, and is there if and only if none removed it |
| Ranges.MoveIs | internal/cluster/node.go:707-731 | an accepted move gives the range the replicas asked for, a leader among them, the old one if it is there, and the next generation; bounds and everything else stay |
| Ranges.RebalanceIs | internal/cluster/node.go:790-822 | an accepted rebalance leaves the ranges that were in place as they are; every other one it saw then serves from the voters under the leader |
| Ranges.ChildrenServe | internal/cluster/node.go:646-655 | the children of a split serve where their parent did, with its bounds divided at the key |
| Ranges.AssignmentIs | internal/cluster/ranges.go:261-266 | assigned tables go where the operation says, unassigned ones nowhere, no other table moves |
| Like.LikeMatch | internal/engine/parser.go:402-428 | the two-index loop terminates; it means LIKE whenever the pattern or the value has no percent sign |
| Like.GreedyIsLike | internal/engine/parser.go:402-428 | from any reachable position the greedy search answers the recursive meaning of the rest |
| Like.LikeIsExact | internal/engine/parser.go:402-428 | the code is LIKE if the pattern or the value has no percent sign |
| Like.FaithfulPatterns | internal/engine/parser.go:402-428 | a pattern is right on every value if and only if it has no percent sign |
| Like.FaithfulValues | internal/engine/parser.go:402-428 | a value is judged right under every pattern if and only if it has no percent sign |
| Like.RejectsWrongly | internal/engine/parser.go:402-428 | for every pattern ending in a wildcard and a literal tail, a value that is wrongly rejected because its percent sign was taken literally |
| Like.RejectedWrongly | internal/engine/parser.go:402-428 | for every value with a percent sign, a pattern under which it is wrongly rejected |
| Like.NeverAcceptsWrongly | internal/engine/parser.go:402-428 | for every pattern and value, what the code accepts is LIKE: all its errors are rejections |
| Values.IntRoundTrip | internal/engine/schema.go:64-82 | every 64-bit integer parses back from its rendering |
| Lex.LessIs | internal/engine/select.go:908-911 | the order of strings by position: up to some place they agree, and there one ends or has the smaller character |
| Values.KeyInjective | internal/engine/schema.go:64-82 | two values of one column share a row key if and only if they are equal or are NULL and the text NULL |
| Values.NullRank | internal/engine/select.go:902-928 | where NULL stands in the order: after all integers, before both booleans, beside the text <nil> |
| Values.OrderIs | internal/engine/select.go:902-928 | the order of values is that of the integers, false before true, and of texts by the first differing character with a proper prefix first; of two values one is at most the other |
| Values.ValueOrder | internal/engine/select.go:902-928 | on the values of one column, NULL included, that order is a strict weak order |
| Literals.UnquoteQuote | internal/engine/parser.go:94-100 | a quoted literal unquotes to the text it was made from, for every text |
| Literals.CollapseEscape | internal/engine/parser.go:94-100 | collapsing doubled quotes undoes doubling them |
| Literals.ParseValTrims | internal/engine/parser.go:134-151 | a literal means the same with white space around it |
| Literals.IntTexts | internal/engine/parser.go:143-144 | an integer is written as digits with a sign in front or not, within 64 bits, and in no other way |
| Literals.BoolTexts | internal/engine/parser.go:147-148 | the six texts for true and the six for false, and no other |
| Literals.NullTexts | internal/engine/parser.go:134-138 | NULL is written in any mix of cases and in no other way, for every column type |
| Literals.HalfQuoted | internal/engine/parser.go:94-100 | a text that is not quoted on both sides loses the quotes it has on one |
| InsertValues.SplitRows | internal/engine/insert.go:279-310 | the row groups of a payload, whatever its quotes and stray or nested parentheses |
| InsertValues.SplitVals | internal/engine/parser.go:113-132 | the pieces between unquoted commas |
| InsertValues.SplitTrimmed | internal/engine/parser.go:113-132 | trimming a group before splitting it does not change its trimmed pieces |
| InsertValues.ParseRow | internal/engine/insert.go:248-275 | one row of the two-stage parser: typed fields, then the key policy against the rows before it |
| InsertValues.ParseTwoStage | internal/engine/insert.go:240-277 | the two-stage parser gives the meaning of the payload: its rows or its first error |
| InsertValues.FlushRow | internal/engine/insertfast.go:41-75 | one row of the single pass: the same fields and the same key policy |
| InsertValues.Structure | internal/engine/insertfast.go:90-111 | one structural character keeps the pass in step with the scan of the payload |
| InsertValues.ParseSinglePass | internal/engine/insertfast.go:30-117 | the single-pass parser gives the same meaning for every string, in both duplicate modes, so both parsers agree on rows and on the first error |
| Payloads.RowsByPlace | internal/engine/insert.go:279-310 | rows by position: one for each unquoted parenthesis that closes depth one, in order, and each the text since the last one that opened it |
| Payloads.PiecesJoin | internal/engine/parser.go:113-132 | the pieces of a row with commas between them are the row, and there is one more than there are unquoted commas |
| Payloads.FieldsIff | internal/engine/insert.go:248-275 | literals make a row if and only if each is one of its column type; then the row has exactly their values, under the key of the primary one |
| Payloads.RowsIff | internal/engine/insert.go:240-277 | groups are taken if and only if each makes a row with a key where one is needed and, unless the last of a key is kept, no key comes twice; the rows are theirs in order |
| Payloads.PayloadIff | internal/engine/insert.go:240-277 | exactly which payloads INSERT takes |
| Bind.PlaceholderCount | internal/engine/bind.go:80-98 | counts the question marks outside quotes |
| Bind.HasPlaceholder | internal/engine/bind.go:59-76 | finds one exactly when the count is positive |
| Bind.BindParams | internal/engine/bind.go:19-57 | succeeds if and only if there are as many arguments as placeholders, and then fills them in order |
| Bind.NothingLeftToBind | internal/engine/bind.go:19-57 | the output has no placeholder left, whatever the bound texts contain |
| Bind.InertWhole | internal/engine/bind.go:100-141 | a rendered argument placed outside quotes changes neither the quoting nor the row and comma structure around it |
| Bind.ParamRoundTrip | internal/engine/bind.go:100-141 | every INT, TEXT, BOOL and NULL argument parses back from its rendering for a column that can hold it |
| Bind.FieldsRoundTrip | internal/engine/bind.go:100-141 | so does a whole row |
| Bind.FillRows | internal/engine/bind.go:19-57 | filling rows of placeholders gives the rows of renderings |
| Bind.RowsTextScans | internal/engine/insert.go:279-310 | the filled text splits into exactly those rows |
| Bind.BindThenParse | internal/engine/bind.go:19-141 | binding values into any VALUES rows and parsing gives back exactly those values if and only if the keys are present and distinct |
| Storage.LiveCount | internal/engine/fastpath.go:80-104 | the live keys of the order are the row keys, and the tombstone counter is the rest |
| Storage.NoTombstones | internal/engine/fastpath.go:80-104 | the counter is 0 if and only if the order has no tombstone |
| Storage.ExactlyOnce | internal/engine/insert.go:187-204 | each live key occurs exactly once in the order |
| Storage.IndexIsUnique | internal/engine/schema.go:47-60 | exact buckets are unique: a maintained index is what rebuilding would give |
| Storage.AddFits | internal/engine/schema.go:145-153 | adding a key to its bucket keeps every bucket exact |
| Storage.RemoveFits | internal/engine/schema.go:155-163 | removing one keeps every bucket exact and none empty |
| Storage.FreshAgrees | internal/engine/fastpath.go:12-39 | a rebuilt array is an exact copy |
| Storage.AppendAgrees | internal/engine/fastpath.go:41-55 | appending an entry keeps it exact |
| Storage.HoleAgrees | internal/engine/fastpath.go:57-74 | punching a hole keeps it exact, its positions inverse and its hole count right |
| Storage.RewriteAgrees | internal/engine/fastpath.go:123-136 | swapping the values of an entry keeps it exact |
| TableState.InsertCore | internal/engine/insert.go:205-231 | appending a row keeps order, density, indexes and typing, and shows one more row at the end |
| TableState.InsertFastIff | internal/engine/fastpath.go:41-55 | after appending one row the array is exact if and only if, below 256 keys, there was none, and from there on no row has the empty key |
| TableState.EmptyKeyDisagrees | internal/engine/fastpath.go:57-74 | a row with the empty key is never in an exact array, for that key marks holes |
| TableState.ReplaceKeeps | internal/engine/insert.go:212-224 | an upsert keeps the place of its row and every redundant part |
| TableState.ReclaimKeeps | internal/engine/insert.go:187-204 | reclaiming tombstones shows the same table with none left |
| TableState.BatchAppend | internal/engine/insert.go:205-231 | one more appended row of a batch keeps the account of the array |
| TableState.BatchReplace | internal/engine/insert.go:205-231 | one more replaced row does too |
| TableState.BatchFastIff | internal/engine/insert.go:205-231 | after a whole batch the array is exact if and only if the batch neither appended to an array over a short order nor built one over a row with the empty key; both are conditions on the state before it |
| TableState.DeleteStep | internal/engine/delete.go:30-38 | removing a row updates indexes, order and array together |
| TableState.CompactKeeps | internal/engine/fastpath.go:80-104 | compaction changes nothing that shows and restores the density bound |
| TableState.ThinKeeps | internal/engine/delete.go:40-42 | dropping the holes of the array changes nothing that shows |
| TableState.WriteKeeps | internal/engine/update.go:70-76 | writing one column keeps every redundant part |
| TableState.OrderRekey | internal/engine/update.go:126-131 | renaming a key in the order keeps it right if and only if the new key is not in it already, dead or alive |
| TableState.RekeyCoreIff | internal/engine/update.go:105-137 | a rekey keeps the table consistent if and only if the new key is not a tombstone, and then the array exact if and only if the key is not empty or there is no array |
| TableState.RekeyFast | internal/engine/fastpath.go:152-166 | the array stays exact if and only if the new key is not the one that marks holes, or there is no array |
| TableState.SchemaKeeps | internal/engine/schema.go:108-125 | a column change keeps every redundant part |
| TableState.WidenKeeps | internal/engine/schema.go:108-125 | a new column is NULL in every row |
| TableState.NarrowKeeps | internal/engine/drop.go:86-125 | a dropped column takes its index and its values along and nothing else |
| Tables.Table.constructor | internal/engine/create.go:57-57 | a new table is empty and consistent |
| Tables.Table.RebuildFast | internal/engine/fastpath.go:12-39 | below 256 keys no array, else one entry per row in order |
| Tables.Table.BuildEntries | internal/engine/fastpath.go:27-38 | the loop builds the entries of the live keys and their positions |
| Tables.Table.ColumnPositions | internal/engine/fastpath.go:20-23 | names map to positions and back |
| Tables.Table.AppendFast | internal/engine/fastpath.go:41-55 | skipped, rebuilt or appended, by the two lengths |
| Tables.Table.RemoveFast | internal/engine/fastpath.go:57-74 | dropped or holed, by the length of the order |
| Tables.Table.AddToIndexes | internal/engine/insert.go:227-229 | the key joins its bucket in every index |
| Tables.Table.RemoveFromIndexes | internal/engine/delete.go:31-33 | the key leaves its bucket in every index and no empty bucket stays |
| Tables.Table.Squeeze | internal/engine/fastpath.go:89-103 | the order keeps exactly its live keys |
| Tables.Table.Reclaim | internal/engine/insert.go:187-204 | tombstones go before a batch appends |
| Tables.Table.InsertNew | internal/engine/insert.go:225-230 | a new row goes to rows, order, indexes and array |
| Tables.Table.ReplaceRow | internal/engine/insert.go:212-224 | an existing key gets new values in every part |
| Tables.Table.CheckDuplicates | internal/engine/insert.go:167-186 | passes if and only if no key of the batch is in use or twice in the batch |
| Tables.Table.NextSyntheticKey | internal/engine/fastpath.go:111-119 | terminates with a made-up key that is not in use |
| Tables.Table.InsertItem | internal/engine/insert.go:205-231 | one item of a batch, with its key made up if it has none |
| Tables.Table.ApplyInsertRows | internal/engine/insert.go:165-233 | INSERT and INSERT OR REPLACE: refused with nothing changed exactly on a clash; else the rows are put in turn, the table stays consistent, and the array stays exact if and only if `Outdated` does not name the batch beforehand |
| Tables.Table.CompactOrder | internal/engine/fastpath.go:80-104 | compacts once a quarter of the order is dead |
| Tables.Table.Thin | internal/engine/delete.go:40-42 | rebuilds the array once a quarter of it is holes |
| Tables.Table.DeleteByKey | internal/engine/delete.go:29-46 | DELETE by key: that row goes and nothing else shows; the order keeps a tombstone below a quarter |
| Tables.Table.DeleteDuringScan | internal/engine/delete.go:58-66 | one row of a scan DELETE |
| Tables.Table.DeleteScan | internal/engine/delete.go:47-78 | DELETE by scan: exactly the matching rows go, the order is filtered, everything stays consistent; it leaves an array over a short order exactly when `LeavesShort` says so |
| Tables.Table.AddIndexValue | internal/engine/schema.go:145-153 | one key joins one bucket |
| Tables.Table.RemoveIndexValue | internal/engine/schema.go:155-163 | one key leaves one bucket |
| Tables.Table.WriteColumn | internal/engine/fastpath.go:138-149 | one value is written to the row, its index and the array |
| Tables.Table.UpdateRow | internal/engine/update.go:70-76 | one row with one new value; every part in step |
| Tables.Table.UpdateByKey | internal/engine/update.go:68-81 | UPDATE by key |
| Tables.Table.UpdateScan | internal/engine/update.go:85-100 | UPDATE by scan: exactly the rows that matched before get the value, in whatever order they are visited |
| Tables.Table.MoveRow | internal/engine/update.go:120-135 | the moves of a rekey through rows, order, indexes and array |
| Tables.Table.ReplaceInOrder | internal/engine/update.go:126-131 | the first place of the old key takes the new one |
| Tables.Table.RekeyPrimary | internal/engine/update.go:105-137 | refused with nothing changed exactly when another row has the key; else the row moves, and the table stays consistent if and only if no tombstone is revived |
| Tables.Table.UpdatePrimaryScan | internal/engine/update.go:178-197 | UPDATE of the primary column by scan: at most one row may match, with the same outcome as a rekey |
| Tables.Table.BuildIndex | internal/engine/schema.go:47-58 | a new index has exact buckets |
| Tables.Table.CreateIndex | internal/engine/schema.go:30-62 | succeeds if and only if the column exists, is not indexed and the name is free; then exactly that name and column are added, with exact buckets |
| Tables.Table.DropIndex | internal/engine/drop.go:46-78 | by name or by column; exactly that index and every name of it go |
| Tables.Table.AddColumn | internal/engine/schema.go:103-125 | succeeds if and only if the name is new and not empty |
| Tables.Table.DropColumn | internal/engine/drop.go:86-125 | succeeds if and only if the column exists and is not the last |
| Tables.Table.Truncate | internal/engine/drop.go:129-156 | no rows, same columns and indexes, consistent again |
| Tables.Table.RepairOrder | internal/engine/snapshot.go:65-73 | the live keys of a saved order, each once |
| Tables.Table.AttachMissing | internal/engine/snapshot.go:74-82 | rows the saved order misses are attached |
| Tables.Table.RebuildIndexes | internal/engine/snapshot.go:83-88 | every index gets exact buckets |
| Tables.Table.Restore | internal/engine/snapshot.go:29-100 | for any image: order, tombstone count and indexes fit the saved rows, there is an array exactly from 256 rows on, the saved order is kept if it was right, and the table is consistent if and only if the rows are typed and stored under their primary value; the array is exact if and only if no row has the empty key or there is none |
| Tables.ReclaimedStale | internal/engine/insert.go:187-204 | only a table without tombstones can be outdated by an append |
| Tables.ShortIff | internal/engine/delete.go:73-77 | exactly which scan DELETEs leave an array over fewer than 256 keys |
| TableRuns.Exec | internal/engine/database.go:94-122 | any statement in any consistent state breaks the table if and only if `Breaks` says so beforehand, and otherwise does exactly what it means to a plain list of rows with its indexes and their names; it is refused exactly when `Succeeds` does not hold, and then nothing changes |
| TableRuns.Update | internal/engine/update.go:64-101 | the same for both kinds of UPDATE on plain and primary columns |
| TableRuns.Run | internal/engine/database.go:94-122 | every run of any statements from any sound table keeps it consistent, with an exact array and the meaning of every statement, and stops only at a statement that breaks it |
| TableRuns.HealthyStep | internal/engine/database.go:94-122 | a statement that breaks nothing leaves a healthy table healthy if and only if `Endangers` does not name it |
| TableRuns.EmptyKeyComes | internal/engine/update.go:105-137 | a row gets the empty key only by a rekey of one matching row to it |
| TableRuns.RunHealthy | internal/engine/database.go:94-122 | from a healthy table a run goes on through every INSERT, up to the first UPDATE or DELETE that breaks or endangers it |
| TableRuns.HealthyInsert | internal/engine/insert.go:165-233 | in a healthy table no INSERT is dangerous |
| TableRuns.AddedIs | internal/engine/insert.go:205-231 | how many rows of a batch get a new place can be told before keys are made up |
| TableRuns.RekeyIff | internal/engine/update.go:105-137 | a rekey breaks a sound table exactly when it takes the key of a tombstone, or the empty key under an array |
| TableRuns.ParsedFits | internal/engine/insertfast.go:30-117 | every row the VALUES parsers return is typed and keyed as the insert tail needs |
| TableWitnesses.StaleArray | internal/engine/delete.go:73-77 | a reachable table whose array has lost a row: 256 rows, two deleted by scan, one put back |
| TableWitnesses.RevivedKey | internal/engine/update.go:117-131 | a reachable inconsistent table: of five rows one is deleted by key and another takes its key |
| TableWitnesses.HoleOverRow | internal/engine/fastpath.go:152-166 | a reachable table whose array reads a row as a hole: 256 rows, one rekeyed to the empty text |
| TableWitnesses.HoleOverRowLater | internal/engine/fastpath.go:27-38 | the same by an INSERT: 255 rows, one rekeyed to the empty text, one more row |
| TableWitnesses.TombstoneTells | internal/engine/update.go:117-131 | a table and the same table loaded from its image, which show the same, after the same rekey onto a tombstone: one is inconsistent and shows five rows, the other shows four |
| TableWitnesses.ArrayTells | internal/engine/snapshot.go:29-100 | the same by an INSERT: an array over a short order loses the row, and the loaded table has no array |
| Listings.AcceptedIs | internal/engine/update.go:64-101 | whether any statement is refused can be told from the rows in order, without the keys they are stored under |
| Listings.ActsOnList | internal/engine/database.go:94-122 | what any statement does to the rows in order, to columns and to indexes is a function of them alone, whatever keys are made up, for tables with and without a primary column |
| Listings.SameAnswer | internal/engine/database.go:94-122 | a statement is refused on both or on neither of two tables in step that show the same |
| Listings.AlikeStep | internal/engine/database.go:94-122 | it leaves both in step and showing the same if and only if it breaks neither, wherever their tombstones and arrays are |
| Listings.RunsStayAlike | internal/engine/database.go:94-122 | so do runs of any length |
| Listings.LoadedAlike | internal/engine/snapshot.go:29-100 | a saved table loads as one that shows the same, in step if and only if it has no row under the empty key among 256 or more |
| Databases.Catalog.constructor | internal/engine/database.go:24-24 | a new database has no tables |
| Databases.Catalog.Change | internal/engine/database.go:94-122 | a statement on one table leaves every other table as it was, and a refused one the whole database |
| Databases.Catalog.Make | internal/engine/create.go:52-58 | a new empty table beside the others |
| Databases.Catalog.Execute | internal/engine/database.go:94-122 | any text on any database in step, compiled from what the tables show, does to the table objects what the relation `Gives` says |
| Databases.StepAgrees | internal/engine/database.go:94-122 | the same text on two databases that show the same is refused on both or carried out on both, and leaves them showing the same, if it breaks no table of either |
| Databases.EnginesAgree | internal/engine/database.go:94-122 | two engines made of such tables agree on every safe statement, however they make up keys and visit maps |
| Databases.LoadAlike | internal/engine/snapshot.go:29-100 | a saved database loads as one that shows the same, in step if and only if no table of 256 or more rows has one under the empty key |
| Databases.StaysSound | internal/cluster/state.go:45-113 | a member whose entries are safe where it commits them keeps every table in step |
| Databases.RestoredMemberAgrees | internal/cluster/state.go:124-168 | a member that loads a snapshot taken anywhere and commits the rest of the log shows the same tables as one that committed it all, and agrees on ranges and index, if no statement breaks a table on either |
| OrderBy.RankOrder | internal/engine/orderby.go:67-75 | on entries of one column, NULL included, ranking is a strict total order |
| OrderBy.StableSortRanks | internal/engine/orderby.go:23-27 | a stable insertion sort by value alone is the ranking of the collected entries |
| OrderBy.SortedUnique | internal/engine/orderby.go:63-66 | a ranking has one sorted arrangement, so an unstable sort gives the stable result |
| OrderBy.BestOfInsert | internal/engine/orderby.go:102-115 | one more candidate pushes out the last of the best k or changes nothing |
| OrderBy.RootIs | internal/engine/orderby.go:77-79 | the heap root is the entry that ranks last among those kept |
| OrderBy.EntryHeap.constructor | internal/engine/orderby.go:80-83 | a new heap is empty |
| OrderBy.EntryHeap.Up | internal/engine/orderby.go:86-90 | sifting up restores the heap and keeps its members |
| OrderBy.EntryHeap.Down | internal/engine/orderby.go:86-98 | sifting down restores the heap and keeps its members |
| OrderBy.EntryHeap.Push | internal/engine/orderby.go:90-90 | one more member, still a heap |
| OrderBy.EntryHeap.Pop | internal/engine/orderby.go:91-98 | exactly the root goes, still a heap |
| OrderBy.EntryHeap.Offer | internal/engine/orderby.go:104-113 | what one candidate does to a heap of at most k |
| OrderBy.TopK | internal/engine/orderby.go:102-115 | the heap ends with exactly the first k of the full stable sort; it fails exactly when k is 0 and there is an entry |
| OrderBy.ResolveIs | internal/engine/orderby.go:36-49 | the sort value read from the array is the one in the row |
| OrderBy.SortInOrder | internal/engine/orderby.go:23-27 | the reference sort arranges the keys that way |
| OrderBy.OrderKeys | internal/engine/orderby.go:28-61 | the keys of the first `cap` entries of the full stable sort: by values that are at most, or for DESC at least, the next as `Values.OrderIs` says, ties in the order they came; fails exactly when the cap is 0 and there is a key |
| Projection.RowProjectionKey | internal/engine/select.go:979-1002 | the loop renders tag, length and rendering of each value |
| Projection.KeyIsRow | internal/engine/select.go:979-1002 | two projected rows of any widths share a key if and only if they are equal |
| Projection.ElementIs | internal/engine/select.go:979-1002 | a rendered value cannot be confused with what follows it |
| Conditions.TermMeets | internal/engine/parser.go:555-586 | what each operator asks of a value, in plain terms: comparisons, both bounds of BETWEEN, some place of an IN list, LIKE on text |
| Conditions.IntTerms | internal/engine/parser.go:555-586 | on integers the operators are those of the numbers and BETWEEN is a <= n <= b |
| Conditions.Complements | internal/engine/parser.go:555-586 | of `<` and `>=`, `<=` and `>`, `=` and `<>` exactly one holds, and BETWEEN is its two comparisons |
| Conditions.MatchesMap | internal/engine/parser.go:500-514 | the loops select a row if and only if all terms of some group are met in those terms |
| Conditions.MatchesFast | internal/engine/parser.go:516-531 | on positional values they select the same |
| Conditions.FastTermIs | internal/engine/select.go:523-540 | every type-specialised comparison is the compiled equality |
| Select.CapIsEnough | internal/engine/select.go:82-101 | stopping at the row cap loses neither a row of the answer nor the row-limit error, for any LIMIT, OFFSET and MaxRows, saturation included |
| Select.CapZero | internal/engine/select.go:82-91 | the cap is 0 exactly for LIMIT 0 without OFFSET |
| Select.AddLine | internal/engine/select.go:106-118 | a line is taken as a duplicate if and only if it occurred before |
| Select.ChosenIs | internal/engine/select.go:352-372 | filtering and dropping repeats in one pass is filtering, then first-occurrence distinct |
| Select.FirstsAreDistinct | internal/engine/select.go:297-317 | first-occurrence distinct has no line twice and every line once |
| Select.FilteredPlaces | internal/engine/select.go:352-372 | what the filter keeps, by place: in order, exactly the places whose row is wanted |
| Select.FirstsPlaces | internal/engine/select.go:297-317 | what DISTINCT keeps, by place: in order, exactly the first place of every line |
| Select.AnswerPlaces | internal/engine/select.go:82-101 | OFFSET, LIMIT and the row limit by place: which line stands where, how many there are, and exactly when it is an error |
| Select.WantedFast | internal/engine/select.go:279-288 | the condition on an array entry is the condition on its row |
| Select.SelectedFastValues | internal/engine/select.go:949-960 | projecting an array entry is projecting its row |
| Select.SelectedValues | internal/engine/select.go:941-947 | the projection of a row |
| Select.LineOf | internal/engine/select.go:121-129 | the same line whether the array holds the key or not |
| Select.FastScan | internal/engine/select.go:178-296 | the array plan returns filter, distinct, project, drop OFFSET, take LIMIT, or the row-limit error exactly when that exceeds MaxRows, for every LIMIT |
| Select.CollectKeys | internal/engine/select.go:352-372 | the scanned keys, up to the cap when nothing is ordered |
| Select.CutKeys | internal/engine/select.go:387-389 | the truncation before rows are built |
| Select.Materialise | internal/engine/select.go:390-413 | the lines of the keys, up to the cap |
| Select.Deliver | internal/engine/select.go:373-415 | the common end of the keyed plans, for any collected keys: sort, cut, project and count give the reference answer whenever LIMIT is absent or positive, or OFFSET is positive, or nothing matches; for LIMIT 0 without OFFSET over a match ORDER BY alone reads an empty heap, DISTINCT after a scan returns one row, and otherwise the answer is empty as it should be |
| Select.KeyedScan | internal/engine/select.go:352-415 | the scan plan, ordered or not, delivers the rows of filter, first-occurrence distinct and stable sort |
| Lookups.LiteralsAre | internal/engine/parser.go:335-341 | a literal becomes a value of the column type, or text that does not parse for it |
| Lookups.SameKey | internal/engine/select.go:443-453 | a stored value and a literal share a rendering if and only if they are equal or are NULL and the text NULL |
| Lookups.KeyLookup | internal/engine/select.go:134-154 | the row stored under the rendering of the literal, after OFFSET and LIMIT |
| Lookups.KeyLookupIff | internal/engine/select.go:134-154 | that is what the full scan finds if and only if NULL and the text NULL are not mistaken |
| Lookups.CountAll | internal/engine/select.go:733-735 | COUNT(*) without a condition is the number of rows |
| Lookups.CountKeyIff | internal/engine/select.go:738-744 | COUNT(*) by primary key is right in exactly the same cases |
| Lookups.HitsInBucket | internal/engine/select.go:318-351 | every row an equality wants is in the bucket of its literal |
| Lookups.Verify | internal/engine/select.go:329-337 | a candidate is verified with the meaning of the condition, on the array or on the row |
| Lookups.CountIndex | internal/engine/select.go:872-896 | the index count is the size of the full scan, whatever the bucket order |
| Lookups.IndexKeys | internal/engine/select.go:318-351 | whatever the bucket order, the index plan collects the first `cap` of a list that has the rows of the full scan, each once, or under DISTINCT its lines, each once |
| Lookups.IndexScan | internal/engine/select.go:318-415 | the whole index plan: that list, sorted, delivered with OFFSET, LIMIT and the row limit as by the scan plan |
| Lookups.SameMultiset | internal/engine/select.go:318-351 | the lines of that list are those of the full scan, as often |
| Lookups.AnyOrder | internal/engine/select.go:318-351 | without ORDER BY the lines of the answer are independent of the order in which a bucket is visited if and only if OFFSET and LIMIT cut away nothing or everything, or all lines are the same, or the row limit is exceeded |
| Lookups.BucketOrder | internal/engine/select.go:318-351 | so two runs of the index plan that visit the bucket differently give the same lines there |
| Lookups.FirstTaken | internal/engine/select.go:318-351 | of two rows LIMIT 1 takes the one visited first |
| Lookups.QuotedNull | internal/engine/parser.go:335-341 | in a WHERE the literal of the text NULL is read as NULL, which INSERT stores as text |
| Lookups.NullIsMistaken | internal/engine/select.go:134-154 | a one-row table inserted under the text NULL: for every equality with that literal the shortcut finds the row and the scan does not |
| Lookups.ScanFinds | internal/engine/select.go:352-372 | the full scan finds each wanted row exactly once |
| Group.Accumulate | internal/engine/group.go:101-146 | a row goes to the group of its values, made at the end when new |
| Group.AddCells | internal/engine/group.go:114-144 | every aggregate of the group takes the row |
| Group.GroupFast | internal/engine/group.go:149-167 | the pass over the array builds the reference groups in first-seen order |
| Group.GroupMap | internal/engine/group.go:168-188 | the pass over the rows builds the same groups in the same order |
| Group.GroupedRows | internal/engine/group.go:147-188 | so a grouped query does not depend on whether there is an array |
| Group.GroupsSnoc | internal/engine/group.go:101-146 | a row changes only the group of its values |
| Group.OneGroupEach | internal/engine/group.go:101-113 | every matching row is in exactly one group and groups differ in their values |
| Group.MembersAre | internal/engine/group.go:101-113 | the members of a group are exactly the rows with its values |
| Group.CountsAddUp | internal/engine/group.go:121-124 | the COUNT(*) results over all groups add up to the number of matching rows |
| Group.CountIs | internal/engine/group.go:121-124 | COUNT(*) of a group is the number of its members |
| Group.CountColumnIs | internal/engine/group.go:121-124 | COUNT(column) is the number of members with a value in the column |
| Group.ExtremeIs | internal/engine/group.go:135-142 | MIN and MAX are NULL exactly without another value, else a value of the column that is at most, or at least, every other one |
| Sessions.Server.constructor | internal/engine/database.go:24-24 | a new database has revision 0 and no session |
| Sessions.Server.WriteStatements | internal/server/server.go:364-372 | the statements that do not only read, in order |
| Sessions.Server.CommitFrom | internal/engine/snapshot.go:120-147 | publishes if and only if the revision is the one cloned at and the persist succeeds; else nothing changes |
| Sessions.Server.Begin | internal/server/server.go:244-260 | BEGIN takes a clone with the current revision |
| Sessions.Server.Rollback | internal/server/server.go:261-268 | ROLLBACK drops it (`Transactions.RollbackEnds`) |
| Sessions.Server.Offer | internal/server/server.go:269-284 | what COMMIT or an atomic batch hands to the log: nothing on a conflict or without writes, else exactly what it would publish |
| Sessions.Server.Commit | internal/server/server.go:269-290 | COMMIT without writes ends; with writes it publishes or stays open; the list it returns is the one published |
| Sessions.Server.Execute | internal/server/server.go:291-308 | a statement runs on the clone, is recorded or aborts over the limit, or runs on the shared database and counts a revision |
| Sessions.Server.StartBatch | internal/server/server.go:188-209 | an atomic batch runs on a private clone, all of it or none |
| Sessions.Server.FinishBatch | internal/server/server.go:210-216 | and publishes like a COMMIT |
| Sessions.PublishIff | internal/engine/snapshot.go:124-147 | a clone can publish if and only if the publishes since it was taken are a multiple of 2^64 |
| Sessions.PublishRuns | internal/engine/snapshot.go:124-147 | a published image is the published database with the recorded writes run on it |
| Sessions.WritesEnough | internal/server/server.go:196-209 | the recorded writes alone lead to the image |
| Sessions.StepKeeps | internal/server/server.go:188-319 | every step of every session keeps the published database the fold of the published lists and every clone faithful to its start |
| Sessions.RunKeeps | internal/server/server.go:188-319 | in any interleaving of any sessions with fewer than 2^64 publishes the published database is the fold of the published statement lists in publishing order, none of which fails there |
| Sessions.CommitSawNothing | internal/server/server.go:279-289 | a COMMIT or atomic batch that publishes saw no publish since it began |
| Sessions.StaleStep | internal/server/server.go:269-290 | a transaction that has seen a publish publishes nothing and stays that way until given up |
| Sessions.StaleNeverCommits | internal/server/server.go:269-290 | in no continuation of any length does it commit: nothing it asks for is published, up to and including the step that ends it |
| Transactions.RollbackEnds | internal/server/server.go:261-268 | after ROLLBACK the connection has no transaction and nothing else has changed; without one it does nothing |
| Transactions.RolledBack | internal/server/server.go:244-268 | in any interleaving a transaction from BEGIN to ROLLBACK can be left out: database, revision, all other sessions and everything published are the same, then and ever after |
| Transactions.Isolated | internal/server/server.go:291-308 | while a transaction is open everybody else has the world they would have without it |
| Transactions.NothingToCommit | internal/server/server.go:261-290 | after its end COMMIT and ROLLBACK publish and change nothing until the connection asks for something else |
| Transactions.BeginIs | internal/server/server.go:244-260 | BEGIN takes the published database and revision, and nobody notices |
| Transactions.BeginRefused | internal/server/server.go:245-251 | BEGIN does nothing if and only if a transaction is open or the database is too large |
| Transactions.DirectIs | internal/server/server.go:291-316 | a statement outside a transaction acts on the published database at once, and is published by itself if it writes |
| Transactions.PrivateIs | internal/server/server.go:291-308 | the clone of a transaction is the database at its BEGIN with its statements that succeeded run on it in order, and the writes among them are recorded |
| Transactions.TransactionIff | internal/server/server.go:269-290 | a COMMIT among any others publishes if and only if the transaction wrote something, nobody published since its BEGIN and the log took it, as long as the 64-bit revision has not come round; then the database is the one at BEGIN with its statements run, and otherwise nothing changes |
| Transactions.AbortIff | internal/server/server.go:301-308 | a statement ends its transaction if and only if it would be one write over the limit |
| Transactions.StaysLimited | internal/server/server.go:301-308 | so no transaction ever has more writes than the limit |
| Transactions.BatchIff | internal/server/server.go:188-216 | an atomic batch among any others publishes if and only if all its statements succeed, nobody published since it began and the log took it; otherwise nothing changes, and either way it is over |
| Transactions.BatchRefused | internal/server/server.go:189-191 | inside a transaction it is refused |
| Wal.WordRoundTrip | internal/storage/format.go:119-123 | a 32-bit big-endian number reads back |
| Wal.EncodeFrame | internal/storage/format.go:72-126 | encodes exactly the combinations a reader takes, within the size limit |
| Wal.FrameParts | internal/storage/format.go:128-161 | every part of a frame is where the reader looks, whatever follows |
| Wal.FrameRoundTrip | internal/storage/format.go:128-185 | a frame of any readable kind and version gives back its payload and its length, whatever follows |
| Wal.TornFrame | internal/storage/format.go:128-161 | no proper prefix of a frame decodes |
| Wal.Writer.constructor | internal/storage/wal.go:47-56 | an opened log keeps its bytes |
| Wal.Writer.EncodeBatch | internal/storage/wal.go:78-91 | the buffer holds one frame per statement |
| Wal.Writer.Append | internal/storage/wal.go:58-103 | appends the batch or as much as the file takes; succeeds exactly when all sizes fit, the log is open, everything is taken and the sync succeeds |
| Wal.Replay | internal/storage/wal.go:117-148 | succeeds if and only if every frame decodes and every record is taken; what was taken before the first failure stays (`Wal.OnlyFrames`, `Wal.ReplayOfDamage`) |
| Wal.ReplayFrames | internal/storage/wal.go:125-137 | the loop over frames; the offset is the measure |
| Wal.ReplayLines | internal/storage/wal.go:138-147 | the loop over the lines of an old log |
| Wal.FramesOfCut | internal/storage/wal.go:125-137 | frames of a cut log: the records wholly before the cut |
| Wal.WholeFits | internal/storage/wal.go:125-137 | those are the most records that fit before the cut |
| Wal.ReplayOfCut | internal/storage/wal.go:117-137 | a log of any readable versions cut at any byte from 8 on replays exactly the records wholly before the cut and fails if and only if the cut is inside a record |
| Wal.ReplayOfStub | internal/storage/wal.go:138-147 | cut before byte 8 it reads as an old line log: nothing, or the stub itself as one statement without an error |
| Wal.ReplayOfLog | internal/storage/wal.go:117-137 | a whole log replays as its records |
| Wal.ReplayOfBatches | internal/storage/wal.go:58-137 | any appended batches replay as their concatenation |
| Wal.ReplayOfTornBatch | internal/storage/wal.go:58-137 | after a torn append all earlier batches and the whole records of the torn one replay, with an error unless the tear is between records |
| Wal.ReplayOfDamage | internal/storage/format.go:155-161 | a log with the checksum and stored bytes of any version-3 record overwritten: if the checksum is not that of the bytes, exactly the records before it replay and then the replay fails; otherwise the bytes replay for the record |
| Wal.ForgedFrame | internal/storage/format.go:128-167 | a version-3 record decodes if and only if its checksum is that of the stored bytes and its length is theirs |
| Wal.OnlyFrames | internal/storage/format.go:128-185 | what decodes is, byte for byte but for the reserved ones, a frame of that kind and a readable version around a stored form of the payload |
| Wal.LinesRoundTrip | internal/storage/wal.go:138-147 | an old line log replays exactly its statements, blank lines and outer white space left out |
| Durability.OrderKept | internal/server/server.go:167-178 | a batch is logged in the order it ran when no COMMIT publishes after a direct write |
| Durability.OrderIff | internal/server/server.go:167-178 | and only then, if no statement is published twice |
| Durability.CommitOvertakes | internal/server/server.go:167-178 | a batch whose log replays to another database than was published |
| Durability.EffectsRun | internal/server/server.go:229-319 | what a list of commands publishes takes the old database to the new one |
| Durability.RequestKeeps | internal/server/server.go:124-181 | after every request, answered by the log in any way, that is orderly and lost no direct write, loading the snapshot and replaying the log gives exactly the published database |
| Durability.WriteLost | internal/server/server.go:313-316 | and only then: after any orderly request the published database is recovered if and only if the log took every direct write of it, and otherwise a smaller one, if those it did not take make the database larger |
| Durability.CompactInterrupted | internal/server/persistence.go:44-60 | stopped before the log is removed, a compaction starts as a whole one does if and only if the log was empty, and otherwise gives a larger database or none, if its statements make the database larger and loading keeps its size |
| Durability.CompactedTwice | internal/server/persistence.go:44-60 | a disk with one statement that an interrupted compaction applies twice |
| Durability.LifeKeeps | internal/server/persistence.go:11-60 | a request keeps the node durable; a start gives exactly the published database, or after a compaction what loading makes of it |
| Durability.LifeIsDurable | internal/server/persistence.go:11-60 | in any life of such requests, stops, compactions and starts the disk recovers exactly what is published, with any engine |
| Hosts.Host.constructor | cmd/superdb/main.go:176-224 | a started node has the recovered database at revision 0 and the log open at its end |
| Hosts.Host.Persist | internal/server/server.go:393-406 | an append is taken exactly when sizes and file system allow; then its statements are in the file, and if no byte was taken the file is as before |
| Hosts.Host.Dispatch | internal/server/server.go:229-319 | one command: COMMIT and atomic batches append after the conflict check and publish only if the append succeeded; what is returned is what was published |
| Hosts.Host.ServeMany | internal/server/server.go:167-178 | in a plain batch every COMMIT is persisted before it is published, and direct writes at the end, whatever the answers |
| Hosts.Host.ExecuteRequest | internal/server/server.go:124-181 | after any request under any file-system answers the shared state is that of the model; if no append left a part of itself so is the log file |
| Hosts.Recover | internal/server/persistence.go:11-34 | loading and replaying the bytes of the files succeeds if and only if the modelled disk recovers, with the same database |
| Hosts.CompactFiles | internal/server/persistence.go:49-60 | a compaction leaves the files of the compacted disk, and on an error the files as they were |
| Hosts.Start | cmd/superdb/main.go:176-224 | a node starts if and only if its disk recovers |
| Hosts.Live | internal/server/server.go:124-181 | a whole life over the bytes: from any durable node, any requests, stops, compactions and starts keep files and database those of the model, every start succeeds, and starting once more gives exactly the database last published |
| Hosts.TornContents | internal/storage/wal.go:58-137 | what replay finds after part of an append: the first records of the batch, at least one if it ends well |
| Hosts.RefusedAppend | internal/server/server.go:279-286 | after an append that failed, so that its COMMIT was refused, starting gives exactly the published database if and only if no byte of it was taken, if its statements make the database larger |
| Hosts.HalfCommit | internal/storage/wal.go:58-103 | torn after any number of records, the file is a well-formed log with that much of the refused COMMIT |
| Replica.ReplicatedState.constructor | internal/cluster/state.go:34-36 | a new member has the empty directory at index 0 |
| Replica.ReplicatedState.ExecLocked | internal/cluster/state.go:64-103 | fenced by range and generation; atomic entries all or nothing, others up to the first failure |
| Replica.ReplicatedState.ApplyCommitted | internal/cluster/state.go:45-62 | the index moves on even on failure, but not for an unknown kind |
| Replica.ReplicatedState.Snapshot | internal/cluster/state.go:124-143 | the image lists every range once by increasing id |
| Replica.ReplicatedState.Restore | internal/cluster/state.go:145-168 | loading rebuilds the directory and raises the counter above every id |
| Replica.FencedEntry | internal/cluster/state.go:65-73 | in every run an entry for a range with the generation read on the member earlier is carried out if and only if no accepted operation since removed or rewrote that range, and without a generation if and only if none removed it; otherwise only the index moves |
| Replica.EntryIs | internal/cluster/state.go:64-103 | carried out, an atomic entry is executed whole or not at all, and of any other exactly the statements before the first that fails take effect |
| Replica.PassingIs | internal/cluster/state.go:94-103 | which statements those are |
| Replica.UnfencedEntry | internal/cluster/state.go:65-65 | an entry for no range is always carried out |
| Replica.AtomicEntry | internal/cluster/state.go:64-92 | an atomic entry is executed whole if and only if its fence holds and every statement succeeds; otherwise only the index moves |
| Replica.ChangeEntry | internal/cluster/state.go:105-113 | a range entry applies its operation if and only if the fence of that holds; the index moves on either way |
| Replica.IndexIs | internal/cluster/state.go:45-62 | the index of a member is that of the last entry of a known kind, failed or not |
| Replica.CommitAgrees | internal/cluster/state.go:45-113 | members that agree give the same outcome to an entry that is safe on both and agree afterwards, though their engines may differ in what statements leave open |
| Replica.ChangeAgrees | internal/cluster/ranges.go:239-268 | range entries do not depend on leaders |
| Replica.LeadersDoNotMatter | internal/cluster/ranges.go:220-229 | leader updates can be left out of any history without changing engine, index or any range but for its leader |
| Replica.SameMembersAgree | internal/cluster/state.go:45-113 | two members with the same engine and start that commit the same entries agree exactly on engine, assignment, next id, index and every range but for its leader, whatever the statements and however their leader updates fall |
| Replica.MembersAgree | internal/cluster/state.go:45-113 | members that start alike up to a relation and commit the same entries agree up to it, if the relation is kept by the statements that are safe and every statement is safe where it is executed |
| Replica.RunKeepsIds | internal/cluster/ranges.go:239-268 | in every history ids are the map keys and below the counter, whatever the entries |
| Replica.RestoreIs | internal/cluster/ranges.go:184-204 | a listed directory comes back as it was |
| Replica.SnapshotAnywhere | internal/cluster/state.go:124-168 | restoring a snapshot taken at any index and committing the rest agrees with committing the whole log, under the same guard and if the loaded engine is related to the saved one |
| Json.Utf8RoundTrip | internal/server/requestfast.go:309-330 | every character from U+0080 on is encoded in the one well-formed sequence that stands for it (section 3 of RFC 3629) |
| Json.RuneRoundTrip | internal/server/requestfast.go:309-330 | every well-formed sequence is the encoding of its character |
| Json.EncodeRune | internal/server/requestfast.go:309-330 | the buffer gets the UTF-8 form |
| Json.DecodeU | internal/server/requestfast.go:286-306 | four hexadecimal digits in either case, as a number |
| Json.UnitReads | internal/server/requestfast.go:260-279 | a number escape gives the UTF-8 form of its character (section 7 of RFC 8259) |
| Json.PairReads | internal/server/requestfast.go:260-279 | the escapes of a surrogate pair give the UTF-8 form of the character it stands for |
| Json.LoneSurrogate | internal/server/requestfast.go:267-276 | half a pair is refused |
| Json.AppendOne | internal/engine/marshal.go:143-184 | one step of the writer |
| Json.AppendJSONString | internal/engine/marshal.go:140-187 | the quoted text is appended |
| Json.SanitizeIff | internal/engine/marshal.go:166-173 | text is written unchanged in content if and only if it is valid UTF-8 |
| Json.FastParser.Consume | internal/server/requestfast.go:155-161 | one expected byte or no move |
| Json.FastParser.ReadEscape | internal/server/requestfast.go:243-283 | the bytes an escape stands for and its length |
| Json.FastParser.Copied | internal/server/requestfast.go:206-238 | the copying loop from the first escape on |
| Json.FastParser.String | internal/server/requestfast.go:176-238 | reads exactly the strings of the reference reader and stops after the closing quote |
| Json.BodyReads | internal/server/requestfast.go:176-238 | whatever the bytes, all that was written is consumed and comes back with U+FFFD for what was not UTF-8 |
| Json.StringRoundTrip | internal/server/requestfast.go:176-238 | reading what was written gives the text back if and only if it is valid UTF-8, and consumes exactly that |
| Json.WrittenSafe | internal/engine/marshal.go:143-184 | whatever the text, what is written has no control character, angle bracket or ampersand |
| Spellings.HexIs | internal/server/requestfast.go:286-306 | four bytes read as a number if and only if they are its hexadecimal digits, each in either case |
| Spellings.SpellingReads | internal/server/requestfast.go:176-283 | however a string is spelled, with any escapes of section 7 of RFC 8259, the reader gives its characters and stops after the closing quote |
| Spellings.OnlySpellings | internal/server/requestfast.go:176-283 | and it takes nothing else: what it reads is some spelling of what it gives |

## Left out

- FLOAT values, SUM and AVG, and float formatting and parsing: library rounding, and NaN breaks order and keys.
- HAVING, ORDER BY and LIMIT over groups, select lists and the parsing of aggregates: groups and their COUNT, MIN and MAX are modelled.
- SQL keyword search and statement text outside VALUES payloads and literals, and the compilation of WHERE text: statements and conditions start parsed.
- SHOW and DESCRIBE, INSERT ... SELECT coercion, and the matching of raw WHERE values in UPDATE and DELETE.
- Mid-statement cancellation, timeouts and row tickers: statements run to completion.
- Mutexes: each operation under the commit lock is one step. Aliasing between a clone and its source: images are values.
- Overlapping requests in wal mode, where direct writes are persisted after execution and outside the lock, and snapshot mode.
- Raft, elections, membership gossip, the join path that preloads the directory, transports, TLS, the CLI, metrics and configuration.
- internal/remote/session.go repeats the session logic of internal/server/server.go, which is modelled once.
- zlib, CRC-32C and SHA-256 internals and the JSON text of snapshots: a saved engine is a value that loads as an equivalent one.
- Request parsing beyond strings: arrays, numbers and keys of requests.
- Ranges and generations are unbounded numbers; the 64-bit range counters do not wrap. Synthetic keys use an unbounded counter.
- Tables.Table.NextSyntheticKey: the 64-bit counter does not wrap, because reaching that needs 2^64 inserts.
- Tables.Table.Restore: column names of an image differ, as those of every saved table do.
- Tables.Table.ApplyInsertRows: takes rows as the VALUES parsers return them (`TableRuns.ParsedFits`).
- Replica.MembersAgree: the engine is a function of its state; INSERT ... SELECT by an index with LIMIT or OFFSET takes whichever rows a map yields first (internal/engine/select.go:322-337), so members and replays can differ on it outside the cases of `Lookups.AnyOrder`.
- Databases.RestoredMemberAgrees: texts come back from a snapshot as they were, which holds for valid UTF-8 only (`Json.SanitizeIff`), and statements are compiled from what the tables show, which leaves out the same index scans.
- Durability.LifeIsDurable: the engine is a function of its state, with the same exception.
- Hosts.RefusedAppend: what later appends do to a file that already has part of a record is not modelled.
- OrderBy.EntryHeap.Pop: the sift runs on the entries below the removed one rather than on the full slice with a bound.
