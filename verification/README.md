# ldms-test: a verified model

ldms-test drives LDMS daemons in containers and on clusters and checks what they
do. Most of it starts processes and scrapes their output; the parts modelled here
are the algorithms and protocols in between, with proofs of what they promise.

| part | files |
|---|---|
| IP address allocation: range lists edited in place, their text form, the database | `Ranges`, `HexText`, `HexRanges`, `AddrTable`, `IpAddrDb` |
| stream tallies over several sliding windows | `Windows`, `TallyChain`, `StreamTally` |
| the spec language: templates, scopes, `%VAR%` | `VarSubst`, `VarLoops`, `SpecExpand`, `ExpandRun`, `SpecLang`, `SpecExample` |
| placing containers on hosts | `Placement`, `DockerPlacement`, `HostHeap` |
| comparison that ignores order | `XCompare` |
| the aggregation tree of the scalability test | `Blocks`, `Lists`, `DaemonNames`, `LevelTables`, `AggTree`, `LdmsDaemon` |
| the endpoint log monitor | `EpLog`, `EpMonitor` |
| completion by reference count in `ldms_ls` | `LsProtocol`, `LdmsLs` |
| framed stream messages: one writer, two readers, one checker | `Frames`, `StreamCheck`, `FrameFiles` |

Where the program updates objects in place the model is a class whose methods are
proved against a function on values (`HexRangesModel.HexRanges.Prune` against
`Ranges.Prune`), and the laws are proved about the function. `dafny verify
dfyconfig.toml` checks everything.

What the code was found to do, where that is not what one would expect:

- `HexRanges.prune` and `HexRanges.ins` set an upper end without taking a maximum.
  They keep every address exactly under the conditions of `Ranges.PruneExact` and
  `Ranges.InsExact`; the allocator always meets them.
- The counter in `Spec._subst_str` (LDMS_Test.py:724-731) is never increased,
  although the comment promises a limit. `VarSubst.SettlesExactly` says when the
  loop ends without a placeholder, `VarLoops.ReturnsExactly` when it ends at all; two
  names that stand for each other keep it going for ever. Likewise
  `SpecExpand.CirclesExactly` for `!extends`.
- A spec that keeps a placeholder can change when it is processed again
  (`SpecLang.UnresolvedIsNotIdempotent`). It does not exactly when one pass over each
  string of the processed spec leaves it alone (`SpecLang.IdempotentExactly`).
- Greedy matching in `list_xeq` can be wrong with `None` wildcards.
  `XCompare.GreedyExact` says for which values it never is. `obj_xeq` of a list and
  a dictionary compares the list with the keys; the other way round it raises.
- `dir_verify` (scalability/test.py:84-101) has its last verdict in the `else` part
  of a loop without `break`, so outside debugging a failed check is followed by a
  verdict of success.
- The reader of python/stream_check.py leaves the position at the end of the file
  exactly when the text of a frame is cut short; after every other failure the
  position is put back.
- `ldms_ls` would wait for ever with nothing to look up; the main routine asks first.

How the outside is represented: the clock of the tallies is a parameter and does
not run backwards; a file lock makes each database call one step, and JSON keeps
names and texts, in order; a network address and its host mask share no bit, so
their `or` is a sum; Python's sort is stable insertion and `heapq` is the standard
library's sift; the JSON decoder of the readers is an arbitrary function; a file is
a string of characters; after daemons died, a daemon is taken to list what its live
producers list. An exception is a result (`None`, `Raise`, `false`).

## Model

| member | source | states |
|---|---|---|
| `Ranges.MergeNormal` | runtime/singularity.py:151-159 | the merging loop of `prune` yields a sorted, disjoint list from any sorted list of ranges |
| `Ranges.MergeSound` | runtime/singularity.py:151-159 | merging never adds an address |
| `Ranges.MergeMembers` | runtime/singularity.py:151-159 | what it keeps, for any sorted list: exactly the addresses that the last range starting at or before them contains |
| `Ranges.MergeExact` | runtime/singularity.py:151-159 | merging keeps every address if and only if what each range shares with or has beyond its successor's start is covered by later ranges |
| `Ranges.PruneExact` | runtime/singularity.py:151-159 | `prune` always normalises and never adds; it denotes the same set of addresses if and only if the sorted list has that covering |
| `Ranges.PruneLosesNested` | runtime/singularity.py:154-159 | a nested range makes `prune` drop addresses: a concrete input |
| `Ranges.InsNormal` | runtime/singularity.py:174-196 | `ins` of any range into a sorted, disjoint list leaves it sorted and disjoint |
| `Ranges.InsExact` | runtime/singularity.py:174-196 | `ins` denotes union if and only if the range is not nested in its left neighbour and does not span beyond its right one uncovered |
| `Ranges.InsKeeps` | runtime/singularity.py:174-196 | for any range the list then has exactly the addresses of both, without the part of a left neighbour beyond the range, or the part of the range beyond a right neighbour it reaches that no later one has |
| `Ranges.InsLosesNested` | runtime/singularity.py:181-186 | a range inserted inside another one makes `ins` drop addresses: a concrete input |
| `Ranges.InvNormal` | runtime/singularity.py:198-210 | the gaps computed by `inv` are sorted and disjoint |
| `Ranges.InvExact` | runtime/singularity.py:198-210 | `inv` is the complement within the two bounds if and only if no gap sticks out of them |
| `Ranges.InvMembersExactly` | runtime/singularity.py:198-210 | whatever the bounds, the gaps hold exactly the addresses outside the ranges that are neither before both the lower bound and the first range nor behind both the upper bound and the last |
| `Ranges.InvSticksOut` | runtime/singularity.py:198-210 | a range beyond the upper bound makes `inv` yield addresses beyond it: a concrete input |
| `Ranges.WithinFits` | runtime/singularity.py:198-210 | ranges inside the bounds always meet that condition |
| `Ranges.SizeIsCardinality` | runtime/singularity.py:305-315 | the lengths added up by the allocation loop are the number of addresses |
| `Ranges.TakeLowNormal` | runtime/singularity.py:303-317 | first fit over normalised free ranges yields normalised ranges |
| `Ranges.TakeLowIsLowest` | runtime/singularity.py:303-317 | first fit hands out the lowest free addresses |
| `Ranges.TakeLowCounts` | runtime/singularity.py:303-317 | it takes exactly `n`, or all and reports how many are missing |
| `Ranges.AddressesInOrder` | runtime/singularity.py:219-222 | iteration yields every address of a normalised list once, in increasing order |
| `HexText.DigitsAre` | runtime/singularity.py:131-137 | which characters are digits, upper case when printed and either case when read |
| `HexText.ValueIsDigitSum` | runtime/singularity.py:137 | a text is worth the sum of its digits, each times the power of sixteen of its place |
| `HexText.HexLeads` | runtime/singularity.py:166-170 | no number is printed with a leading zero |
| `HexText.HexRoundTrip` | runtime/singularity.py:131-137 | `int(s, 16)` inverts the `{:X}` form |
| `HexText.FindAllPrint` | runtime/singularity.py:131-141 | the regular expression finds exactly the printed ranges, single addresses included |
| `HexText.MatchOneExactly` | runtime/singularity.py:131 | at the front of any text: one run of digits matches if and only if a comma, the end or a final newline follows it |
| `HexText.MatchTwoExactly` | runtime/singularity.py:131 | two runs with a dash between match if and only if such an end follows the second, and nothing else does |
| `HexText.ParsePrint` | runtime/singularity.py:131-172 | parsing the printed form of a normalised list gives the list back |
| `HexText.PrintedText` | runtime/singularity.py:161-172 | a range and a single address printed, in full |
| `HexText.ReadText` | runtime/singularity.py:131-141 | the same read from mixed case, in full |
| `HexRangesModel.HexRanges.constructor` | runtime/singularity.py:133-141 | the object built from a text holds what the text parses to, in new cells |
| `HexRangesModel.BisectRight` | runtime/singularity.py:178 | the binary search finds the position behind every entry not greater |
| `HexRangesModel.HexRanges.Prune` | runtime/singularity.py:151-159 | the in-place loop computes `Ranges.Prune`; when nothing is merged no shared cell changes |
| `HexRangesModel.HexRanges.Insert` | runtime/singularity.py:174-196 | the in-place `ins` computes `Ranges.Ins`, storing the given cell or editing a neighbour |
| `HexRangesModel.HexRanges.Inverse` | runtime/singularity.py:198-210 | `inv` builds a new list of new cells with the gaps and leaves the old one alone |
| `HexRangesModel.HexRanges.Str` | runtime/singularity.py:161-172 | the loop prints the text form |
| `HexRangesModel.HexRanges.Pop` | runtime/singularity.py:216-217 | the first range goes, the cells of the others stay |
| `HexRangesModel.HexRanges.Iterate` | runtime/singularity.py:219-222 | the nested loops yield the addresses of the list |
| `HexRangesModel.Union` | runtime/singularity.py:143-149 | `union` shares the cells of its arguments; no cell changes when no two ranges overlap |
| `HexRangesModel.FirstFit` | runtime/singularity.py:303-317 | the loop that pops and edits available ranges computes first fit |
| `AddrTable.AvailableIsFree` | runtime/singularity.py:297-302 | for a consistent table, what the allocator chooses from is exactly the free addresses strictly between network and broadcast address |
| `AddrTable.AllocExact` | runtime/singularity.py:288-326 | a new cluster gets exactly the `n` lowest free addresses, which stop being free; it gets nothing and nothing changes exactly when fewer are free |
| `AddrTable.AllocKnown` | runtime/singularity.py:293-296 | a known cluster gets its old ranges back and nothing changes |
| `AddrTable.FreeExact` | runtime/singularity.py:328-334 | releasing a cluster makes exactly its addresses free again, and is no change for an unknown one |
| `AddrTable.FreeOthers` | runtime/singularity.py:328-334 | releasing takes out the row of that cluster and leaves every other row as it was, in the old order |
| `AddrTable.FreeConsistent` | runtime/singularity.py:328-334 | releasing keeps the table consistent |
| `AddrTable.StepConsistent` | runtime/singularity.py:288-334 | each call keeps allocations sorted, disjoint, inside the network and apart from each other |
| `AddrTable.RunConsistent` | runtime/singularity.py:288-334 | so does every sequence of calls |
| `AddrTable.StepOthers` | runtime/singularity.py:288-334 | a call leaves the ranges of every cluster that it does not name as they were, and no allocation changes ranges that are there |
| `AddrTable.RunOthers` | runtime/singularity.py:288-334 | over any calls, the ranges of a cluster change only by calls that name it |
| `AddrTable.KeptUntilFreed` | runtime/singularity.py:288-334 | once allocated, they stay until that cluster is released |
| `AddrTable.HoldersAtMostOne` | runtime/singularity.py:288-334 | no address is in the ranges of two clusters |
| `AddrTable.Conservation` | runtime/singularity.py:297-302 | every address of the network is either free or belongs to exactly one cluster, none outside does either, the two counts add up to the network, and an empty table leaves everything free |
| `AddrTable.AllocThenFree` | runtime/singularity.py:288-334 | an allocation followed by the release of the same new cluster is undone |
| `IpAddrDbModel.DecodeEncode` | runtime/singularity.py:255-279 | writing a consistent table and reading it is the identity |
| `IpAddrDbModel.IPAddrDb.constructor` | runtime/singularity.py:227-286 | a file that is new or unreadable becomes an empty table, any other is kept as found; the addresses are those between network and broadcast address |
| `IpAddrDbModel.IPAddrDb.Read` | runtime/singularity.py:255-270 | the object lists read from the file hold the decoded table, in cells of their own |
| `IpAddrDbModel.IPAddrDb.Write` | runtime/singularity.py:272-279 | the file then is the encoded table |
| `IpAddrDbModel.IPAddrDb.AllocAddr` | runtime/singularity.py:288-326 | the call on objects and file does to the stored table what `AddrTable.Alloc` does; the ranges returned are in the file under the name, every old entry of the file is there to the letter, and no other is new |
| `IpAddrDbModel.IPAddrDb.FreeAddr` | runtime/singularity.py:328-334 | the call does to the stored table what `AddrTable.Free` does; in the file the entry of the cluster is gone and every other one is there to the letter |
| `IpAddrDbModel.UnionOfAll` | runtime/singularity.py:297 | taking the union of the stored allocations edits none of their shared cells |
| `Windows.WindowMembers` | python/ldms_qgroup_common.py:78-82 | the window holds the entries with `t + sec >= ts` and no others |
| `Windows.WindowIsSuffix` | python/ldms_qgroup_common.py:78-82 | with non-decreasing timestamps the unexpired entries are a suffix of the history |
| `Windows.TableExact` | python/ldms_qgroup_common.py:73-76 | the per-source table kept by increments is the table of sums over what is still counted |
| `Windows.SumsAreReceived` | python/ldms_qgroup_common.py:90-105 | totals over a window, and those of one source, are the characters of the names and data received in it |
| `TallyChain.PruneExact` | python/ldms_qgroup_common.py:78-88 | pruning down the chain leaves every tally counting exactly its own window, handing expired entries on |
| `TallyChain.AddTracks` | python/ldms_qgroup_common.py:90-105 | adding data keeps every tally at its window over the longer history |
| `TallyChain.PruneTracks` | python/ldms_qgroup_common.py:78-88 | so does pruning at a later moment |
| `TallyChain.TallyIsWindow` | python/ldms_qgroup_common.py:65-105 | total and per-source table of every tally equal the sums over all history with `t + sec >= ts` |
| `TallyChain.QueuedIsWindow` | python/ldms_qgroup_common.py:78-88 | the deques, last tally to first, are the unexpired suffix of the history, in order |
| `StreamTallyModel.StreamTally.TallyInc` | python/ldms_qgroup_common.py:73-76 | the fields change as the specification's counters do |
| `StreamTallyModel.StreamTally.TallyPrune` | python/ldms_qgroup_common.py:78-88 | the linked objects, pruned in place, follow `TallyChain.PruneAll` |
| `StreamTallyModel.StreamTally.AddData` | python/ldms_qgroup_common.py:90-105 | the linked objects follow `TallyChain.Add` |
| `StreamTallyModel.StreamThroughput.constructor` | python/ldms_qgroup_common.py:110-117 | windows are sorted, one tally each, linked in order |
| `StreamTallyModel.StreamThroughput.AddData` | python/ldms_qgroup_common.py:119-120 | the history grows by the data and the time, each entry counts the characters of the name and the data for their source, and every tally stays at its window |
| `StreamTallyModel.StreamThroughput.TallyPrune` | python/ldms_qgroup_common.py:122-123 | pruning changes the moment only, never the history answered for |
| `StreamTallyModel.StreamThroughput.Answers` | python/ldms_qgroup_common.py:108-129 | after any adds and prunes every tally object answers its window over the whole history |
| `StreamTallyModel.StreamThroughput.Summary` | python/ldms_qgroup_common.py:125-126 | each window is listed with the characters of all names and data received inside it |
| `StreamTallyModel.StreamThroughput.Details` | python/ldms_qgroup_common.py:128-129 | each window length has the characters received inside it, in all and from each source ever heard of |
| `VarSubst.ScanExactly` | LDMS_Test.py:609 | where the expression matches at the front of a string the match is taken, else one character is left alone |
| `VarSubst.ScanConcat` | LDMS_Test.py:609 | without stray `%` the matches in a concatenation are the matches in its parts |
| `VarSubst.SubRef` | LDMS_Test.py:725 | a placeholder at the front is replaced by the value of its name |
| `SpecExample.SubBehind` | LDMS_Test.py:725 | text in front of the first `%` stays |
| `SpecExample.NameChars` | LDMS_Test.py:609 | which characters a name may have, by their codes |
| `VarSubst.PassKeepsMeaning` | LDMS_Test.py:725-731 | one `sub` uses up one level of reference and keeps the recursive meaning |
| `VarSubst.StableHasNoRefs` | LDMS_Test.py:727-732 | when a pass changes nothing and references resolve, no placeholder is left |
| `VarSubst.EvalHasNoRefs` | LDMS_Test.py:721-732 | the value of a string holds no placeholder and is left alone by another pass |
| `VarSubst.PassesExact` | LDMS_Test.py:721-732 | where no stray `%` can be met from the string, `k` passes leave no placeholder if and only if references resolve within `k` levels, and then give the recursive evaluation; names not referred to, `""` among them, do not matter |
| `VarSubst.StopsOnce` | LDMS_Test.py:724-732 | where the passes stop, by a pass that changes nothing or one that raises, does not depend on when one looks |
| `VarSubst.AcyclicGround` | LDMS_Test.py:721-732 | references to ranked names, each of which refers to lower ranks only, resolve |
| `VarSubst.ResolvesExactly` | LDMS_Test.py:721-732 | references resolve if and only if they are closed and acyclic, that is, some ranking of the names exists |
| `VarSubst.GroundSettles` | LDMS_Test.py:721-732 | what resolves is settled by the loop at its recursive evaluation |
| `VarSubst.SettlesExactly` | LDMS_Test.py:721-732 | where no stray `%` can be met from the string, the loop ends without a placeholder if and only if its references are closed and acyclic |
| `VarLoops.PassesAreImages` | LDMS_Test.py:721-732 | where no stray `%` can be met, passes over a string are passes over its tokens: they raise exactly where a name has no value, and yield the tokens of the names' values |
| `VarLoops.RefersExactly` | LDMS_Test.py:721-732 | after `k` passes a string refers exactly to the names at the end of chains of `k` references |
| `VarLoops.RaisesExactly` | LDMS_Test.py:724-731 | there, some pass raises if and only if a chain of references leads to a name without a value |
| `VarLoops.VanishesExactly` | LDMS_Test.py:721-732 | what `k` passes leave nothing of is what resolves within `k` levels and evaluates to the empty string |
| `VarLoops.ReturnsExactly` | LDMS_Test.py:724-732 | there, the loop returns if and only if every name reached has a value and every one that leads back to itself refers to itself directly and once, with the rest of its value coming to nothing; it goes on for ever if and only if all names reached have values and one leads back otherwise |
| `VarSubst.SelfReferenceStays` | LDMS_Test.py:724-732 | a name that stands for itself stops the loop with its placeholder left: a concrete input |
| `VarSubst.CyclesDoNotResolve` | LDMS_Test.py:724-731 | two names that stand for each other take turns for ever: no number of passes stops |
| `VarSubst.SubstStr` | LDMS_Test.py:721-732 | whenever the passes stop at all, the loop ends, and returns the string they stop at or raises with them, stray `%` and `%%` included |
| `SpecExpand.FollowExactly` | LDMS_Test.py:675-682 | the chain is the object, then the template that each one names, up to one that names none; the loop raises if and only if some name on the way is no template that is an object |
| `SpecExpand.OverlayIsNearest` | LDMS_Test.py:683-688 | popping from the end and updating gives each attribute its nearest definition along the chain |
| `SpecExpand.ExpandExpands` | LDMS_Test.py:654-690 | what expansion returns extends nothing and is within the depth limit |
| `SpecExpand.ExpandFixed` | LDMS_Test.py:654-690 | expanding what is expanded changes nothing, whatever the templates |
| `SpecExpand.ExpandIsNearest` | LDMS_Test.py:674-690 | along that chain, each attribute of an expanded object is the expansion of its nearest definition, and there are no others |
| `SpecExpand.ExpandsExactly` | LDMS_Test.py:674-690 | an object expands if and only if it has such a chain and every nearest definition along it expands |
| `SpecExpand.ItemsInPlace` | LDMS_Test.py:668-672 | the items of a list are expanded one by one, in place |
| `SpecExpand.DepthExactly` | LDMS_Test.py:654-658 | lists nested sixty-four deep expand, deeper ones do not |
| `SpecExpand.AcyclicEnds` | LDMS_Test.py:674-682 | following acyclic `!extends` always ends |
| `SpecExpand.AcyclicExactly` | LDMS_Test.py:674-682 | templates can be ranked so if and only if none comes back to itself |
| `SpecExpand.CirclesExactly` | LDMS_Test.py:676-682 | from an object the loop goes on for ever, having a next template after every number of turns, if and only if the object reaches a template that comes back to itself |
| `SpecExpand.CyclesExactly` | LDMS_Test.py:676-682 | some object makes it go on for ever if and only if some template comes back to itself |
| `SpecExpand.SelfExtensionCircles` | LDMS_Test.py:676-682 | a template that extends itself does: a concrete input |
| `SpecExpand.Collect` | LDMS_Test.py:675-682 | whenever the walk ends, the loop has collected the chain, or fails because the chain breaks off |
| `SpecExpand.Merge` | LDMS_Test.py:683-688 | the popping loop computes the overlay |
| `ExpandRun.FailsExactly` | LDMS_Test.py:654-690 | there is no expansion if and only if the call can raise or can go on for ever, whichever attribute comes first |
| `ExpandRun.EndsExactly` | LDMS_Test.py:654-690 | every value can be expanded without going on for ever if and only if no template comes back to itself |
| `ExpandRun.ExpandValue` | LDMS_Test.py:654-690 | the recursion over both loops of `_expand_dict`, on calls that do not go on for ever, returns the expansion, or raises if and only if the call can raise |
| `ExpandRun.ExpandList` | LDMS_Test.py:668-669 | items are expanded in order, up to one that raises |
| `ExpandRun.ExpandAttrs` | LDMS_Test.py:690 | attributes are expanded in any order; one that raises makes the object raise |
| `SpecLang.ScopeIsNearest` | LDMS_Test.py:709-719 | a variable means what the nearest enclosing object with such a primitive attribute says |
| `SpecLang.AcyclicClosed` | LDMS_Test.py:721-732 | in a scope where the references of a string are closed and acyclic it settles, at its recursive evaluation |
| `SpecLang.SubstResolves` | LDMS_Test.py:692-732 | after substitution no placeholder is left if and only if every string settles in its scope |
| `SpecLang.SubstFixed` | LDMS_Test.py:692-732 | a value without placeholders is left alone in any scope |
| `SpecLang.SubstAt` | LDMS_Test.py:692-719 | what stands at any path is replaced by its meaning in the overlay of the objects around it |
| `SpecLang.SettledExactly` | LDMS_Test.py:692-732 | that is so if and only if each string settles in the overlay of the objects around the place where it stands |
| `SpecLang.SpecIsFinal` | LDMS_Test.py:612-652 | outside templates a processed spec has nothing left to extend, and nothing to resolve if and only if its strings settle |
| `SpecLang.SpecIsIdempotent` | LDMS_Test.py:612-652 | processing a spec that expands and whose strings settle once more succeeds, within the depth limit, and changes nothing |
| `SpecLang.UnresolvedIsNotIdempotent` | LDMS_Test.py:612-732 | with a placeholder left processing once more can change the spec: a family of inputs |
| `SpecLang.StillExactly` | LDMS_Test.py:692-732 | substituting a value succeeds and changes nothing if and only if one pass leaves each of its strings alone in its scope |
| `SpecLang.IdempotentExactly` | LDMS_Test.py:612-652 | processing a processed spec once more succeeds and changes nothing if and only if that is so of every attribute outside the templates |
| `SpecLang.AcyclicSpec` | LDMS_Test.py:612-652 | both hold of every spec that expands and whose strings refer, each in its own scope, to closed and acyclic names |
| `SpecExample.ExampleProcessed` | LDMS_Test.py:534-605 | one spec in full: two templates, an overridden attribute, a number at the top, a name overridden inside |
| `SpecLang.Substitution.SubstValue` | LDMS_Test.py:692-719 | the recursion that saves and restores `VAR` computes the substitution and leaves `VAR` as it was |
| `SpecLang.Substitution.SubstList` | LDMS_Test.py:703-707 | element by element, `VAR` unchanged |
| `SpecLang.Substitution.SubstAttrs` | LDMS_Test.py:716 | attribute by attribute in the object's own scope, whatever the order |
| `Placement.LowerBound` | runtime/docker.py:591-616 | no placement keeps all hosts below the larger of the initial maximum and the average rounded up |
| `Placement.OptimalIsBest` | runtime/docker.py:591-616 | a placement reaching that bound is at least as good as any other |
| `Placement.BalancedIsOptimal` | runtime/singularity.py:922-932 | a placement whose receivers end at most one above any host reaches the bound |
| `DockerPlacement.SortByLoad` | runtime/docker.py:595 | the rows are rearranged in order of load, those of one load in their old order |
| `DockerPlacement.Fill` | runtime/docker.py:599-608 | the gaps below the highest load are filled one after the other, and what is left over is what they do not hold |
| `DockerPlacement.FillThenSpread` | runtime/docker.py:599-616 | filling and then spreading evenly places all nodes optimally |
| `DockerPlacement.Allocate` | runtime/docker.py:591-616 | the table has every client once, in order of load; each row gets what is left for its gap and then an even share of the rest, one more in the first rows; this places every node and is optimal |
| `DockerPlacement.Emit` | runtime/docker.py:625-632 | every node gets one container, in order, on the client of the row that takes it, that is, after the rows before have taken theirs; the index never runs out |
| `DockerPlacement.EndsBest` | runtime/docker.py:591-632 | with no client listed twice, running containers and those built on each client together reach the bound |
| `DockerPlacement.Distribute` | runtime/docker.py:591-632 | the two together; counted from what is built, the highest load any client ends with is the least that can be reached |
| `HostHeap.RootIsLeast` | runtime/singularity.py:921-926 | the root of a heap is a least loaded host |
| `HostHeap.Heapify` | runtime/singularity.py:921 | `heapify` rearranges the entries into a heap |
| `HostHeap.SiftUp` | runtime/singularity.py:932 | `heapreplace` of the grown root restores the heap and loses no entry |
| `HostHeap.Place` | runtime/singularity.py:925-932 | growing the root in place and putting it back keeps the heap, and the node went to a least loaded host |
| `HostHeap.AssignHosts` | runtime/singularity.py:916-932 | every node goes to one host, each at a moment when that host was least loaded, and is appended to what it runs |
| `HostHeap.CountIsCardinality` | runtime/singularity.py:922-932 | the count kept for a host is the number of nodes that went to it |
| `HostHeap.NodesOfPlace` | runtime/singularity.py:922-932 | a node stands in the list of its host behind those that went there before it |
| `HostHeap.ReceiversBalanced` | runtime/singularity.py:922-932 | a host that received a node ends at most one above any other host |
| `HostHeap.LeastLoadedIsOptimal` | runtime/singularity.py:922-932 | the heap assignment is optimal by the same measure as Docker's table |
| `XCompare.AsIPv6` | LDMS_Test.py:1112-1116 | an IPv6 address stays; an IPv4 address becomes ten zero bytes, two of all ones and its own four, under the same port |
| `XCompare.AddressesMeet` | LDMS_Test.py:1112-1121 | an IPv4 and an IPv6 address are equal if and only if the ports are and the second is the mapped form of the first; two IPv4 addresses if and only if ports and bytes are |
| `XCompare.ShapesExactly` | LDMS_Test.py:988-1042 | which shapes raise at once, and which are simply unequal |
| `XCompare.FieldsExactly` | LDMS_Test.py:1036-1047 | records agree if and only if every two attributes do that are both not `None`; otherwise the first two that do not tell the answer |
| `XCompare.ValuesExactly` | LDMS_Test.py:1010-1023 | dictionaries of equal keys agree if and only if every two values do; otherwise the first two that do not tell the answer |
| `XCompare.FindExactly` | LDMS_Test.py:1001-1006 | the inner search finds the first equal element, unless it meets one before that with which the comparison raises |
| `XCompare.ListXeqExactly` | LDMS_Test.py:997-1009 | wildcards or not, greedy matching gives the answer at which picking the first free equal place for each element ends |
| `XCompare.XeqDecides` | LDMS_Test.py:988-1047 | without wildcards an answer is right: yes exactly for equal normal forms |
| `XCompare.ListDecides` | LDMS_Test.py:997-1009 | greedy matching without wildcards finds whether the two multisets are equal |
| `XCompare.ComparableAnswers` | LDMS_Test.py:988-1047 | a scalar is compared with anything, and values of one shape with each other, without raising |
| `XCompare.XeqIsNormEquality` | LDMS_Test.py:988-1121 | there it is equality of normal forms: lists as multisets, addresses in the IPv4-mapped form of section 2.5.5.2 of RFC 4291 |
| `XCompare.XeqEquivalence` | LDMS_Test.py:988-1047 | hence reflexive, symmetric and transitive |
| `XCompare.YesMeansPairs` | LDMS_Test.py:997-1047 | even with wildcards a yes for lists gives a one-to-one pairing of related elements |
| `XCompare.WildcardsMislead` | LDMS_Test.py:997-1047 | with wildcards a pairing can exist and the answer be no: a concrete input |
| `XCompare.GreedyExact` | LDMS_Test.py:997-1009 | for all lists drawn from two sets of values, greedy matching answers yes exactly when the elements pair up, if and only if the sets are tame: whenever x is equal to y' and x' to y, comparing x with y does not raise, and if they are equal so are x' and y' |
| `XCompare.ListMeetsDictionary` | LDMS_Test.py:988-1000 | a list without nested lists equals a dictionary if and only if its elements are the keys, in any order; the reverse always raises |
| `XCompare.ListMeetsString` | LDMS_Test.py:988-1000 | it equals a string if and only if its elements are the letters, in any order; the reverse is never equal |
| `XCompare.ObjXeq` | LDMS_Test.py:988-995 | the dispatch computes the specified answer |
| `XCompare.ListLoop` | LDMS_Test.py:997-1009 | the loops with their popped copy compute greedy matching |
| `XCompare.ValuesLoop` | LDMS_Test.py:1018-1023 | the loop over equal keys compares value by value |
| `XCompare.FieldsLoop` | LDMS_Test.py:1040-1047 | the loop over attributes skips `None` on either side |
| `DaemonNames.NamesInFull` | scalability/ldmsdutils.py:23-43 | a daemon and a metric set by name, in full |
| `DaemonNames.NameSplits` | scalability/ldmsdutils.py:316-318 | `rsplit("-", 1)` gives host and port back, whatever dashes the host has |
| `DaemonNames.NameIsInjective` | scalability/ldmsdutils.py:23-43 | two daemons share a name only if they share host and port |
| `DaemonNames.SetNameIsInjective` | scalability/ldmsdutils.py:609-613 | two sets share a name only if they share sampler and number |
| `LevelTables.LevelsDistinct` | scalability/ldmsdutils.py:23-56 | levels that list no host twice list no daemon twice |
| `LevelTables.HostsCount` | scalability/ldmsdutils.py:23-47 | a level has hosts times daemons per host |
| `LevelTables.LevelExactly` | scalability/ldmsdutils.py:23-56 | daemon by daemon, a level has the hosts listed for it, each with its number of daemons on consecutive ports from its base port, and no others |
| `AggTree.ProducersExactly` | scalability/ldmsdutils.py:409-419 | a daemon takes as many daemons of the level below as the division says, from its index times that on |
| `AggTree.PartitionExact` | scalability/ldmsdutils.py:409-419 | the producers of a level, in order, begin the level below, and are all of it if and only if the counts divide |
| `AggTree.ExpectedIsBlock` | scalability/ldmsdutils.py:384-419 | a daemon expects the sets of one block of consecutive samplers, in order |
| `AggTree.ExpectedAt` | scalability/ldmsdutils.py:384-419 | set by set, they are the sets of its samplers by number, one sampler after the other |
| `AggTree.StartsExactly` | scalability/ldmsdutils.py:409-419 | where those samplers start, by division and multiplication |
| `AggTree.ExpectedDistinct` | scalability/ldmsdutils.py:384-392 | no daemon expects a set twice |
| `AggTree.SiblingsApart` | scalability/ldmsdutils.py:384-419 | two daemons of one level expect no set in common |
| `AggTree.TopSeesAll` | scalability/ldmsdutils.py:384-419 | the top expects every set of every sampler, in order, if and only if each level's count divides the one below |
| `AggTree.KillExact` | scalability/test.py:188-240 | with any daemons of one level dead, what reaches a daemon above is its expected directory less theirs, and nothing changes elsewhere |
| `LdmsDaemonModel.Daemon.constructor` | scalability/ldmsdutils.py:316-328 | a handler finds its place from its name |
| `LdmsDaemonModel.Daemon.GetPrdcr` | scalability/ldmsdutils.py:409-419 | the memoised list is the block of producers, empty for a sampler |
| `LdmsDaemonModel.Daemon.GetPrdcrDir` | scalability/ldmsdutils.py:384-392 | the loop over new handlers gathers what the producers expect, once and for all |
| `LdmsDaemonModel.Daemon.GetExpectedDir` | scalability/ldmsdutils.py:609-717 | every call returns the expected directory, memo or not |
| `LdmsDaemonModel.Daemon.GetMissingDir` | scalability/ldmsdutils.py:398-407 | exactly the expected sets that are not listed; an empty argument counts as none |
| `LdmsDaemonModel.AllDaemons` | scalability/ldmsdutils.py:421-425 | one new handler for every name of the level, in order |
| `LdmsDaemonModel.DirVerify` | scalability/test.py:84-101 | it raises if and only if debugging and some directory differs; some verdict is negative if and only if one differs; a run ends in a positive verdict if and only if it does not raise |
| `LdmsDaemonModel.LiveDaemonsMatch` | scalability/test.py:188-240 | after any daemons of one level die, the directories of all others match what `dir_verify` expects |
| `EpLog.ChangesExactly` | scalability/ugni-manual/check_ep.py:13-20 | which changes of state are allowed, by the state they lead to |
| `EpLog.PartIsPrefix` | scalability/ugni-manual/check_ep.py:13-20 | an unfinished lifecycle is a proper beginning of (pending resume)* post complete |
| `EpLog.LocalExact` | scalability/ugni-manual/check_ep.py:13-48 | the events of one pointer are accepted if and only if they split into lifecycles of one operation each, the last possibly unfinished |
| `EpLog.RunIsLocal` | scalability/ugni-manual/check_ep.py:66-75 | while a log is accepted, each entry is where its own events have taken it |
| `EpLog.EntriesExactly` | scalability/ugni-manual/check_ep.py:66-75 | a pointer has an entry if and only if its last event is no completion, and then with the state and operation of that event |
| `EpLog.AcceptedExactly` | scalability/ugni-manual/check_ep.py:57-75 | a log is accepted if and only if every line is readable and the events of every pointer split so |
| `EpLog.PeakIsMaximum` | scalability/ugni-manual/check_ep.py:41-43 | the peak is reached at some beginning of the log and exceeded at none |
| `EpLog.CountsExact` | scalability/ugni-manual/check_ep.py:39-46 | after any accepted log the posted list has each entry in state post once and no other, the mark is the peak over all beginnings, and the completed list is the complete lines in order |
| `EpLog.PostedInOrder` | scalability/ugni-manual/check_ep.py:39-46 | the posted list is in the order in which its entries were posted |
| `EpMonitorModel.Monitor.Change` | scalability/ugni-manual/check_ep.py:30-48 | the change of an entry and of the three globals, or none when it raises |
| `EpMonitorModel.Monitor.Feed` | scalability/ugni-manual/check_ep.py:66-75 | one line on the objects is one step of the specification, shared entries included |
| `EpMonitorModel.Monitor.Drive` | scalability/ugni-manual/check_ep.py:63-75 | the loop succeeds exactly on accepted logs and ends in the specified state |
| `LsProtocol.StepKeeps` | python/ldms_ls.py:63-112 | every atomic step of any thread keeps the count exact |
| `LsProtocol.CountExact` | python/ldms_ls.py:63-136 | in every interleaving the count is the references outstanding plus one while the lookup is unfinished, and the assertion of `put` never fails |
| `LsProtocol.DataExactly` | python/ldms_ls.py:102-104 | in every interleaving data is there for exactly the sets whose update has come |
| `LsProtocol.ReturnsWithAll` | python/ldms_ls.py:85-142 | `wait_zero` says so only when every looked-up set has its data and no callback is left |
| `LsProtocol.NoLostWakeup` | python/ldms_ls.py:76-100 | a thread sleeps only while a reference is held and a callback has work to do |
| `LsProtocol.WorkDrops` | python/ldms_ls.py:102-112 | every step of a callback is one step less to do, the waiter's change nothing |
| `LsProtocol.NeverStuck` | python/ldms_ls.py:63-112 | while callbacks have work one of them can go on, whatever the waiter does |
| `LsProtocol.Finished` | python/ldms_ls.py:85-100 | when they are done the waiter is awake and its next test answers |
| `LsProtocol.NothingToLookUp` | python/ldms_ls.py:132-136 | with no set the count stays one and zero is never reported: why the main routine asks first |
| `LsProtocol.Completion` | python/ldms_ls.py:63-136 | with something to look up every run in which the waiter has not given up goes on to one where it answers that all is done |
| `LsProtocol.CompletesExactly` | python/ldms_ls.py:132-136 | such a continuation exists if and only if there is something to look up |
| `LdmsLsModel.RefCount.Put` | python/ldms_ls.py:76-83 | fails exactly at zero, and wakes the sleeper exactly on reaching zero |
| `LdmsLsModel.RefCount.Turn` | python/ldms_ls.py:85-100 | one turn of the waiting loop: an answer or sleep |
| `LdmsLsModel.Listing.LookupGet` | python/ldms_ls.py:107-109 | one step of the protocol |
| `LdmsLsModel.Listing.LookupUpdate` | python/ldms_ls.py:110 | one step of the protocol |
| `LdmsLsModel.Listing.LookupEnd` | python/ldms_ls.py:111-112 | one step of the protocol; its `put` cannot fail |
| `LdmsLsModel.Listing.UpdateRecord` | python/ldms_ls.py:102-104 | one step of the protocol on the table of sets |
| `LdmsLsModel.Listing.UpdateRelease` | python/ldms_ls.py:105 | one step of the protocol; its `put` cannot fail |
| `LdmsLsModel.Listing.WaitTurn` | python/ldms_ls.py:85-100 | one step of the protocol; an answer of true means that the table has every looked-up set's data |
| `Frames.FramesInFull` | C/test_stream_sampler.c:131-155 | the bytes of frames of each kind, and of two in a row |
| `Frames.FailuresExactly` | LDMS_Test.py:2430-2461 | each failure of the reader, by what stands in the file |
| `Frames.MessageExactly` | LDMS_Test.py:2430-2461 | a message is the type up to the first mark 2 and the text up to the first mark 3 behind it, decoded if the type says JSON |
| `Frames.SizedExactly` | python/stream_check.py:13-44 | what the length-driven reader makes of any file in which a frame starts, case by case |
| `Frames.StripExactly` | LDMS_Test.py:2457 | stripping takes zeros off both ends and nothing else |
| `Frames.PositionMoves` | LDMS_Test.py:2430-2461 | a read that fails before decoding leaves the position alone, any other moves it on |
| `Frames.SizedPositionMoves` | python/stream_check.py:13-44 | a failing read leaves the position alone if and only if the file does not end inside the text of a frame that starts there; if it does, the position is the end |
| `Frames.EmptyTextIsCutShort` | python/stream_check.py:30-36 | such a file, on which the other reader puts the position back: a concrete input |
| `Frames.MoreTextSameMessage` | LDMS_Test.py:2430-2461 | a complete message reads the same after more was written |
| `Frames.FrameExact` | C/test_stream_sampler.c:131-155 | a written frame is read back and the reader stops right behind it if and only if the data has no end mark |
| `Frames.SizedExact` | python/stream_check.py:13-44 | the length-driven reader takes a frame if and only if the data has that length or one terminating zero more, end marks or not |
| `Frames.WrittenReadBack` | LDMS_Test.py:2430-2461 | reading as often as was written returns types and stripped texts in order and stops at the end of what was written |
| `Frames.ThenEnds` | LDMS_Test.py:2432-2436 | the next read says that the file has ended |
| `Frames.ReadersAgree` | python/stream_check.py:13-44 | both readers take a message free of the end mark and stop at one place, and say the same if and only if it has no zero at either end |
| `StreamCheck.PassesExactly` | python/stream_check.py:46-67 | a file passes the check if and only if it is the given number of good frames and nothing else |
| `StreamCheck.WrittenPasses` | C/test_stream_sampler.c:131-155 | what the sampler writes for messages of one text passes |
| `FrameFiles.RecvCb` | C/test_stream_sampler.c:131-155 | the writes append one frame for a receipt and nothing for other events |
| `FrameFiles.ReadMessage` | LDMS_Test.py:2430-2461 | the character loops return the specified outcome and position |
| `FrameFiles.ReadMessageSized` | python/stream_check.py:13-44 | likewise for the length-driven reader |
| `FrameFiles.StripNul` | LDMS_Test.py:2457 | both loops together strip zeros from both ends |
| `FrameFiles.CheckFile` | python/stream_check.py:46-67 | the program succeeds exactly on the files that pass |

## Left out

- XCompare.XeqIsNormEquality: does not cover values with `None` attributes, because there the law fails (XCompare.WildcardsMislead); what holds there is XCompare.GreedyExact and XCompare.YesMeansPairs.
- SpecLang.IdempotentExactly: like SpecLang.SpecIsIdempotent, is about the plain dictionary a processed spec holds, because `deep_copy` refuses an object of type `Spec` itself.
- VarSubst.SettlesExactly: does not cover strings from which `%%` or a stray `%` can be met, nor does VarLoops.ReturnsExactly, because the text around them can turn them into new placeholders; what the loop returns for them is stated by VarSubst.SubstStr, and SpecLang.IdempotentExactly includes them.
- StreamTallyModel.StreamThroughput.constructor: does not cover an empty list of windows, on which the source fails.
- LsProtocol.CountExact: takes the callback contract of the transport as given: one lookup callback per set in order, one update callback per update, every set listed before.
- ExpandRun.ExpandValue: when several attributes of one object fail, the first in insertion order decides whether the call raises or goes on for ever; the order of a dictionary is not modelled, so `Fails` allows any.
- XCompare lists a dictionary with its keys in increasing order, so a list compared with a dictionary meets the keys in that order, not in insertion order; tuples and byte strings are not modelled.
- AggTree: lists kept as memos are values, so that two callers hold the same list object is not captured; nothing in the source edits such a list.
- Locking between processes beyond making each call one step; a database file that holds clashing allocations.
- `HeapEntry` hosts that share a name before the colon, and the split of `host:port`.
- Character encodings and newline translation of the message files.
- `list_xsort`, `dict_xsort` and the order `XCmp.__lt__`, which compare by sorting and are not used by `xeq`.
- `next_subnet` and `attr_grep` of runtime/docker.py, container control, ssh, Slurm and munge set-up.
- Text scraping by regular expression other than `VAR_RE`, `HexRanges.RE` and the log monitor's line pattern.
- Result databases (TADA.py) and everything behind `ovis_ldms`, `sosdb`, `maestro`, Kafka and Avro.
