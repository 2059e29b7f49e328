# libabigail, modelled in Dafny

libabigail compares the binary interfaces of two libraries.  This project models the parts of it that
everything else rests on, and proves what they promise:

* **The diff of two sequences** (`EditGraph`, `DPathVec`, `MiddleSnake`, `EditScript`, `ComputeDiff`,
  `ShortestScript`): the linear space variant of Myers' O(ND) algorithm (section 4b of "An O(ND) Difference
  Algorithm and Its Variations"), with both searches writing into an array in place, up to the theorem
  that the script turns the first sequence into the second one and that no script is shorter.  The theory is about
  any match relation; equality of elements is used only where a statement is about it.
* **Tables of changes** (`ChangeTables`, `DataMembers`, `ExportedDecls`): edit scripts turned into tables of
  deleted, inserted and changed elements by name; data members paired by offset; and the builder of the set
  of exported functions, which makes identifiers unique.
* **The graph of diff nodes** (`CanonicalDiffs`, `DiffGraph`, `Propagation`, `SuppressionPass`,
  `RedundancyPass`, `RedundancyExact`, `DiffTree`): the registry of canonical nodes, the traversal with visitors of
  a graph that may have cycles, and the passes that categorize its nodes.
* **Configuration files** (`Ini`, `IniLayouts`, `IniEscapes`, `IniQuoting`, `IniWriter`, `IniRoundTrip`, `IniReader`):
  the INI reader and writer, the layouts that are read back, the texts that make the reader fail, and the
  configurations that survive being written and read.

Where the program updates state in place there is a class, or an array, and each of its methods is proved
equal to a function on values, or against a specification outright.  The lemmas are about these functions.

## How to read it

`EditGraph.Dist(m, i, j)` is the least number of insertions and deletions between the first i and the first j
elements of two sequences.  Nodes of the edit graph are counted from 0, so a point (x, y) of the program, which
starts at (-1, -1), is the node (x + 1, y + 1).  `EditScripts.Apply` says what a script means: each element that is not
deleted, followed by what is inserted after it; point -1 is in front of the first element.

In the diff graph nodes are numbers, a graph is the sequence of what never changes during a pass, and a
`State` is what does.  `DiffGraph.Traverse` is the traversal as a function from state to state; its
termination measure is the number of nodes that are not flagged.  What a well-formed graph requires of canonical
nodes is what the registry guarantees (`CanonicalDiffs.RunTellsApart` and `ProgramTellsApart`).

Three readings follow the code where the comments, or what one expects, say something else.

* The common subsequence that a diff leaves behind is not always a longest one: a reverse snake has no trace, and at
  distance 1 the trace is never appended.  `ComputeDiff.LeftBehind` says what is left behind, in terms of distances:
  the slide in the middle of each region of odd distance above one that the recursion comes to.  It is a longest one
  when the sequences have nothing in common.  When halving the length of the script never gives an odd number above
  one, it is empty, so only then.  For the other lengths `ShortestScript.LongestWhenLeft` has a sufficient and a necessary
  condition on the two strings, which differ in which middle slides the diff comes upon first; between them the
  question is left open.
* A continued line of a configuration file is read as if backslash and newline had never existed only when the next
  line happens to start with the character in front of the backslash: `IniEscapes.ContinuedLine`, and for values
  and names `ContinuedValue`, `ContinuedSectionName` and `ContinuedPropertyName`.
* The assertions of the configuration reader can fail.  `IniEscapes.AbortsExactly` says for which texts they do, by
  an automaton that follows the text one character or escape at a time, and `CutOffInPropertyName` and its like say
  which layouts these are.

`dafny verify dfyconfig.toml` checks the whole project.

## Model

| member | source | states |
|---|---|---|
| `EditGraph.FurthestIsGreatest` | include/abg-diff-utils.h:816-820 | The stored end of a diagonal separates it: exactly the nodes up to that end are reachable with d insertions and deletions. |
| `EditGraph.GreedyStart` | include/abg-diff-utils.h:847-876 | Stepping down or right from the neighbour that the code picks, with its tie-break, lands on a d-path that prolongs a (d-1)-path. |
| `EditGraph.GreedyStop` | include/abg-diff-utils.h:847-903 | The greedy choice loses nothing: sliding from there until the first mismatch ends at the furthest reaching d-path of the diagonal, also outside of the grid. |
| `EditGraph.OffGridIsShort` | include/abg-diff-utils.h:900-910 | When a stored end has left the grid on a diagonal that the other search reaches too, then the corner is strictly closer than both path lengths together; so skipping that end never misses the first overlap. |
| `EditGraph.DistRotated` | include/abg-diff-utils.h:972-1053 | The reverse search measures the same distance: rotating the grid by 180 degrees keeps the distance of its corners. |
| `EditGraph.OverlapIsSound` | src/abg-diff-utils.cc:38-44 | When the two ends overlap on a diagonal, and one of them is in the grid, then the distance of the corners is at most the sum of both path lengths, and each end in the grid splits it accordingly. |
| `EditGraph.OverlapIsComplete` | include/abg-diff-utils.h:1168-1237 | When the two path lengths add up to the distance of the corners, then there is a diagonal of both searches on which the ends overlap, and both of them are in the grid. |
| `DPaths.DPathVec.constructor` | include/abg-diff-utils.h:519-523 | The vector has 4 * (M + N) + 3 cells. |
| `DPaths.DPathVec.DiagonalsInBounds` | include/abg-diff-utils.h:494-563 | Every diagonal of a forward search, every diagonal of a reverse search, and both seeds fall into the allocated cells after the offset is added. |
| `DPaths.DPathVec.At` | include/abg-diff-utils.h:530-536 | A cell is only read when it was written before, by the step of the search that the reader names (seeds by step -1); so every read is of a seed or of what the step before, or the opposite search, wrote, and is in bounds, although the check of the mutable accessor is commented out. |
| `DPaths.DPathVec.Set` | include/abg-diff-utils.h:530-536 | Writing changes the cell of that diagonal and no other one, and records the step. |
| `MiddleSnake.TouchForward` | include/abg-diff-utils.h:847-879 | All that is read are cells written in step d - 1, or the seed; the snake starts at the end of a (d-1)-path and moves to the diagonal by one edge, from the further neighbour. |
| `MiddleSnake.TouchReverse` | include/abg-diff-utils.h:994-1019 | The same for the reverse search, on the rotated grid. |
| `MiddleSnake.FollowForward` | include/abg-diff-utils.h:881-898 | Sliding stops at the first mismatch or at the border, and remembers the first diagonal edge. |
| `MiddleSnake.FollowBackward` | include/abg-diff-utils.h:1021-1034 | The same backwards. |
| `MiddleSnake.EndOfFrDPathInK` | include/abg-diff-utils.h:831-917 | After step (d, k) the cell of diagonal k, and no other one, has changed, to the end of the furthest reaching d-path; the result says whether that end is in the grid, and the snake is replaced only then, by one that prolongs a (d-1)-path. |
| `MiddleSnake.EndOfFrrDPathInKPlusDelta` | include/abg-diff-utils.h:972-1053 | The same for the reverse search on diagonal k + delta. |
| `MiddleSnake.ForwardOverlap` | include/abg-diff-utils.h:1188-1201 | An overlap found while the forward paths are extended, before any other one, gives a middle snake, and the script length is 2d - 1. |
| `MiddleSnake.ReverseOverlap` | include/abg-diff-utils.h:1222-1235 | An overlap found while the reverse paths are extended, before any other one, gives a middle snake, and the script length is 2d. |
| `MiddleSnake.EndsMeet` | include/abg-diff-utils.h:1168-1237 | Once the steps of both searches add up to the script length, the ends do meet on some diagonal that is tested. |
| `MiddleSnake.ExtendForward` | include/abg-diff-utils.h:1171-1201 | One step on one diagonal keeps the invariants of the search, and an overlap is reported only at the true length. |
| `MiddleSnake.ExtendReverse` | include/abg-diff-utils.h:1204-1236 | The same for the reverse search. |
| `MiddleSnake.ForwardPhase` | include/abg-diff-utils.h:1171-1201 | The forward loop of step d finds the middle snake if and only if the script length is 2d - 1; otherwise it has computed the furthest d-paths of all diagonals. |
| `MiddleSnake.ReversePhase` | include/abg-diff-utils.h:1204-1236 | The reverse loop of step d finds the middle snake if and only if the script length is 2d. |
| `MiddleSnake.ComputeMiddleSnake` | include/abg-diff-utils.h:1130-1239 | For all sequences a middle snake is found; the length is that of a shortest script, and the ends of the snake split a shortest path into ceil(D/2) and floor(D/2) edits, with nothing but matches between them. The final answer that there is none is never given. |
| `MiddleSnake.SesLenStep` | include/abg-diff-utils.h:1338-1368 | When the sizes of the vector are in order, step d stops if and only if d is the length of a shortest script; a snake that is left over from an earlier step does not stop it early. |
| `MiddleSnake.SesLen` | include/abg-diff-utils.h:1313-1370 | With a vector whose two sizes add up right, the forward search returns the length of a shortest script, and the final return of 0 is never reached; if the sizes are not in order, the test of the last point fails and 0 is what is returned. |
| `EditScripts.EditScript.Append` | include/abg-diff-utils.h:665-674 | Appending concatenates the deletions and the insertions of the two scripts. |
| `EditScripts.EditScript.NumInsertions` | include/abg-diff-utils.h:701-710 | The number of inserted elements, over all insertion points. |
| `EditScripts.EditScript.Length` | include/abg-diff-utils.h:716-718 | The number of deleted and of inserted elements. |
| `EditScripts.WalkScriptInOrder` | include/abg-diff-utils.h:1472-1630 | In the script of any walk, deleted indexes increase, insertion points do not decrease, inserted indexes increase, and all of them are in range. |
| `EditScripts.WalkScriptApplies` | include/abg-diff-utils.h:1472-1630 | Applying the script of a walk, each insertion after its point, gives the second sequence. |
| `EditScripts.ApplyOrigins` | include/abg-diff-utils.h:639-719 | The result of any script at all is made of exactly the elements that are not deleted and of those inserted in range. |
| `EditScripts.ScriptCoversDist` | include/abg-diff-utils.h:1472-1630 | Any script whose result takes over only matching elements has at least as many entries as the distance to the place it gets to. |
| `EditScripts.NoShorterScript` | include/abg-diff-utils.h:1460-1630 | No script that produces a sequence of the right length from matching elements is shorter than the distance of the two sequences. |
| `EditScripts.NoLongerCommonSubsequence` | include/abg-diff-utils.h:1472-1630 | Every common subsequence leaves at least the distance over: 2 &#124;cs&#124; + D <= &#124;A&#124; + &#124;B&#124;. |
| `ComputeDiff.BuildTrace` | include/abg-diff-utils.h:1529-1539 | The trace has all diagonal edges of a forward snake from its diagonal start to its end. |
| `ComputeDiff.MiddleOfRegion` | include/abg-diff-utils.h:1517-1580 | The middle snake of a region divides it into two regions whose shortest scripts have ceil(D/2) and floor(D/2) elements. When D is odd, an edit leads to the start of its slide, the slide ends at the first mismatch or at the border, and its trace is the whole slide; when D is even, the trace is empty. |
| `ComputeDiff.DiffWithEmpty` | include/abg-diff-utils.h:1486-1511 | When one region is empty, the other one is deleted, or inserted after the last element in front of it. |
| `ComputeDiff.DiffOfOneEdit` | include/abg-diff-utils.h:1586-1619 | At distance 1 the snake names the element to delete or to insert, and where. |
| `ComputeDiff.DepthOfHalves` | include/abg-diff-utils.h:1562-1580 | Halving keeps the recursion depth below 1 + ceil(log2 D). |
| `ComputeDiff.AppendHalves` | include/abg-diff-utils.h:1581-1584 | The two asserted lengths add up to D, and the appended script is that of both halves. |
| `ComputeDiff.DiffHalves` | include/abg-diff-utils.h:1562-1585 | The recursion on both halves gives a shortest script of the whole region, and adds what the first half leaves behind, the middle slide when D is odd, and what the second half leaves behind. |
| `ComputeDiff.Diff` | include/abg-diff-utils.h:1472-1630 | For all regions, and an empty script to start with: the script is that of a walk from corner to corner, its length is the returned one and that of a shortest script, the points added to the result lie on the walk and are exactly the middle slides of the regions of odd distance above one that the recursion comes to, and the depth of the recursion is at most 1 + ceil(log2 D). The branch for a missing snake is never taken and the assertions on lengths hold. |
| `ComputeDiff.LeftBehindRuns` | include/abg-diff-utils.h:1562-1585 | What a diff leaves behind lies on at most as many diagonal runs as halving D gives odd numbers above one. |
| `ComputeDiff.NeverOddHalvings` | include/abg-diff-utils.h:1562-1585 | Halving down from a length gives no odd number above one at all if and only if it never does along the way. |
| `ShortestScript.WalkIsShortest` | include/abg-diff-utils.h:1460-1630 | The script of a walk as long as the distance turns A into B, no script that does so is shorter, and its indexes are in order. |
| `ShortestScript.LongestCommonSubsequence` | include/abg-diff-utils.h:1632-1640 | A bound n on common subsequences holds if and only if &#124;A&#124; + &#124;B&#124; <= 2n + D. |
| `ShortestScript.TraceIsKept` | include/abg-diff-utils.h:1529-1568 | The points added to the result are strictly increasing matches that the script neither deletes nor inserts. |
| `ShortestScript.DiffSequences` | include/abg-diff-utils.h:1676-1688 | The whole diff, in terms of the result only: a shortest script in order, D = &#124;A&#124; + &#124;B&#124; - 2 LCS, and kept points, which are exactly the middle slides of the recursion (in terms of distances only); no points at all when halving D never gives an odd number above one. |
| `ShortestScript.MiddleSlideIsLeft` | include/abg-diff-utils.h:1562-1573 | For an odd D above one the points contain the whole slide in the middle: from a node that an edit leads to at distance (D+1)/2, up to the first mismatch or the border, at distance floor(D/2) from the end. |
| `ShortestScript.ShortestScriptGivesSecond` | include/abg-diff-utils.h:731-746 | With the default equality the result of the script is B itself, element by element. |
| `ShortestScript.NoShorterScriptForValues` | include/abg-diff-utils.h:731-746 | With the default equality no script at all that gives B is shorter, however it came about. |
| `ShortestScript.ComputeLcs` | src/abg-diff-utils.cc:162-180 | The returned length is that of a shortest script, and the string is a common subsequence, so the assertion holds; it consists of the middle slides of the recursion. |
| `ShortestScript.LongestWhenLeft` | src/abg-diff-utils.cc:162-180 | It is a longest one if D = &#124;A&#124; + &#124;B&#124;; if halving D never gives an odd number above one, then only if D = &#124;A&#124; + &#124;B&#124;. In between, it is one if every choice of middle slides leaves a longest one, and only if some choice does, so only if some longest one lies on as few diagonal runs as halving D gives odd numbers. |
| `ShortestScript.SharedCharacterIsMissed` | include/abg-diff-utils.h:1531-1539 | The commented claim that the result is a longest common subsequence fails for all strings that share a character when halving D never gives an odd number above one, for instance for a non-empty string and itself. |
| `ChangeTables.LookupTables.Insert` | src/abg-comparison.cc:5884-5902 | An inserted element of a new name is entered; one of a deleted name is taken out of the deletions, and entered as changed unless it is equal. |
| `ChangeTables.LookupTables.Delete` | src/abg-comparison.cc:5863-5874 | The table of deletions has the deleted elements by name, and the assertion that a name is new holds. |
| `ChangeTables.LookupTables.InsertAll` | src/abg-comparison.cc:5876-5905 | Going through all insertions gives what the tables should be for the deleted and the inserted elements, and the assertion that a name is new holds. |
| `ChangeTables.InsertingAllGivesExpected` | src/abg-comparison.cc:5876-5905 | Inserting elements of different names one by one into a table of deletions gives the set-theoretic tables for these two sets. |
| `ChangeTables.KeptHasEqual` | src/abg-comparison.cc:5855-5905 | An element of the first sequence that the script does not delete has an equal element in the second sequence that it does not insert. |
| `ChangeTables.NotInsertedHasEqual` | src/abg-comparison.cc:5855-5905 | And the other way round. |
| `ChangeTables.ScriptGivesExpected` | src/abg-comparison.cc:10606-10651 | Whichever correct script it is, the tables of its deletions and insertions alone are those of the two whole sequences. |
| `ChangeTables.LookupTables.EnsureLookupTablesPopulated` | src/abg-comparison.cc:5854-5905 | Deleted are the names in the first sequence only, inserted those in the second only, changed those in both with unequal elements; tables that are filled already are left alone. |
| `ChangeTables.Compare` | src/abg-comparison.cc:10600-10651 | The same, from the two sequences to the tables, with the script that the diff computes. |
| `DataMembers.ByOffset` | src/abg-comparison.cc:6481-6497 | One member, the last one that is met in any order, stands for each offset that is occupied. |
| `DataMembers.DataMemberTables.Match` | src/abg-comparison.cc:6499-6513 | Exactly the offsets that occur in both tables are paired, with the members that stand for them. |
| `DataMembers.DataMemberTables.Erase` | src/abg-comparison.cc:6515-6526 | The members of the pairs, and no others, are taken out of the tables by name, and the paired offsets out of the tables by offset. |
| `DataMembers.DataMemberTables.PairByOffset` | src/abg-comparison.cc:6478-6526 | Members are conserved, even when several share an offset: each one is either still in its table or on one side of exactly one change. |
| `DataMembers.CompareDataMembers` | src/abg-comparison.cc:6430-6527 | From two classes to all the tables: each member of the first class is matched by name, or deleted, or the old side of one change, and exactly one of these; the same for the second class; and nothing deleted is left at the offset of something inserted unless something changed there. |
| `DiffGraph.BeginTraversingDecreases` | src/abg-comparison.cc:3203-3209 | Each time the traversal goes down, there is one class less that is not flagged. |
| `DiffGraph.Traverse` | src/abg-comparison.cc:3419-3475 | The traversal ends on every finite graph, with cycles, for every visitor and with double visits allowed; on every exit path all flags are as before. |
| `DiffGraph.TraverseChildren` | src/abg-comparison.cc:3446-3458 | The same for the children, up to the first one that asks to stop. |
| `DiffGraph.TraverseShape` | src/abg-comparison.cc:3419-3475 | What a visitor that never stops sees: before, below unless skipped, flagged or visited, and after. |
| `DiffGraph.VisitedNotEntered` | src/abg-comparison.cc:3426-3443 | When visiting twice is forbidden, nothing changes at a node of a visited class but the node itself. |
| `DiffGraph.PlainOnlyVisits` | src/abg-comparison.cc:3431-3475 | A visitor that changes nothing leaves behind only what it visited, and nothing when it asks not to mark that. |
| `DiffTrees.DiffTree.BeginTraversing` | src/abg-comparison.cc:3203-3209 | Requires that the class is not flagged, which is what the program asserts; flags the node and its canonical node. |
| `DiffTrees.DiffTree.EndTraversing` | src/abg-comparison.cc:3238-3244 | Requires that the class is flagged, which is what the program asserts; takes both flags away. |
| `DiffTrees.DiffTree.HasRedundantSibling` | src/abg-comparison.cc:12783-12812 | Whether a child of the parent, or of the function of which the parent is a parameter, is another node of the same class, or a parameter whose type is. |
| `DiffTrees.DiffTree.VisitBegin` | src/abg-comparison.cc:12468-12473 | The in-place visitors do what the functions on values say, before the children. |
| `DiffTrees.DiffTree.MarkRepetition` | src/abg-comparison.cc:12758-12845 | A node is marked when the pass comes to it if and only if it is reported, a node of its class has been visited or is being traversed, it is not of a kind that is never marked, and it has no twin. |
| `DiffTrees.DiffTree.Propagate` | src/abg-comparison.cc:12363-12400 | The loop over the children is the propagation of each one in turn, from the node itself or from its canonical node. |
| `DiffTrees.DiffTree.PropagateSuppression` | src/abg-comparison.cc:12489-12519 | The three flags of the loop come down to: some child has changes, and all those children are suppressed. |
| `DiffTrees.DiffTree.PropagateRedundancy` | src/abg-comparison.cc:12852-12898 | Unless children were skipped, a node is marked when it is left if and only if it has no local changes to be reported, some child has changes, and all children to be reported are marked. |
| `DiffTrees.DiffTree.Traverse` | src/abg-comparison.cc:3419-3475 | The recursive traversal in place, with its exits, computes exactly the traversal on values, and restores the flags. |
| `DiffTrees.DiffTree.TraverseBelow` | src/abg-comparison.cc:3441-3460 | The flagged part of the traversal. |
| `PropagationPass.PropagateChildSound` | src/abg-comparison.cc:12374-12400 | Propagating one child only gives a node, and its canonical node, what they inherit. |
| `PropagationPass.TraverseSound` | src/abg-comparison.cc:12361-12419 | On any graph, with cycles: the pass never gives a node a category that no node of a class reachable from it had before, and takes none away. |
| `PropagationPass.TraverseComplete` | src/abg-comparison.cc:12361-12419 | On a graph of classes without cycles every node that is traversed ends with all it inherits. |
| `PropagationPass.MetComplete` | src/abg-comparison.cc:12410-12419 | This holds at the end of the whole pass for every node that the pass has come to. |
| `PropagationPass.PropagationIsExact` | src/abg-comparison.cc:12410-12419 | After the pass, on a graph without cycles and with consistent classes, each node met has exactly its own categories and those of all reachable classes, less the two that are not propagated. |
| `PropagationPass.PropagationVisitsAll` | src/abg-comparison.cc:12410-12419 | All reachable classes are visited, and their canonical nodes are exact. |
| `DiffTrees.DiffTree.PropagateCategories` | src/abg-comparison.cc:12410-12419 | The pass in place: sound on any graph, with the visited set emptied first and the flag on double visits restored. |
| `SuppressionPass.BeginJustified` | src/abg-comparison.cc:12468-12473 | Suppressing a node that a specification matches keeps every suppressed node justified. |
| `SuppressionPass.EndJustified` | src/abg-comparison.cc:12489-12519 | So does suppressing a node whose changed children are all suppressed. |
| `SuppressionPass.TraverseJustified` | src/abg-comparison.cc:12460-12520 | During and after a pass on any graph, every suppressed node matches a specification, or has no local changes, some changed child, and only suppressed changed children. |
| `SuppressionPass.TraverseMatches` | src/abg-comparison.cc:12468-12473 | On any graph a node that a specification matches is suppressed in its local category too once it is traversed, and no other local category changes. |
| `SuppressionPass.JustifiedShouldBe` | src/abg-comparison.cc:12460-12520 | On a graph without cycles only nodes that should be are suppressed. |
| `SuppressionPass.TraverseSuppresses` | src/abg-comparison.cc:12460-12520 | And all nodes that should be are suppressed once their traversal has ended. |
| `SuppressionPass.SuppressionIsExact` | src/abg-comparison.cc:12528-12539 | After the pass, a node below the start is suppressed if and only if it should be. |
| `DiffTrees.DiffTree.ApplySuppressions` | src/abg-comparison.cc:12528-12539 | The pass in place: nodes are only suppressed for a reason and nothing else changes; without specifications nothing happens. |
| `RedundancyPass.AtEnd` | src/abg-comparison.cc:12852-12898 | The end of a visit takes no class the node that stands for it: a node is only marked then when it has no local changes to report and all its children to be reported are marked. |
| `RedundancyPass.TraverseMarks` | src/abg-comparison.cc:12750-12914 | On any graph the pass changes nothing but the marks of nodes that it reaches. |
| `RedundancyPass.TraverseRestoresVisitor` | src/abg-comparison.cc:12750-12914 | On any graph the skip flag and the visiting kind are restored after every node's traversal. |
| `RedundancyPass.FirstOfAnyStands` | src/abg-comparison.cc:12750-12914 | On a forest, the first node that is met of a class stands for it when the traversal has ended: it is not marked, or has no local changes to report and some changed child, and all its changed children are marked. |
| `RedundancyPass.VisitedByAnyHasFirst` | src/abg-comparison.cc:12758-12845 | On any graph, a class that the pass has visited has a node that was the first one met. |
| `RedundancyPass.FirstMetNotMarked` | src/abg-comparison.cc:12750-12898 | A pass over a forest from an empty visited set without marks never marks the first node it meets of a class, if that node has local changes to report. |
| `RedundancyPass.MarkingKeepsFirsts` | src/abg-comparison.cc:11045-11066 | So every class keeps its first node, and whenever a node is marked, a first node of its class was met: nothing is lost from the report. |
| `RedundancyPass.NotMarkedAlone` | src/abg-comparison.cc:11045-11066 | A node that is the only one of its class is not marked as long as it has changes of its own to report. |
| `RedundancyExact.OnSightExactly` | src/abg-comparison.cc:12758-12845 | On any graph and in any state: what the visitor marks when it comes to a node. |
| `RedundancyExact.AtEndExactly` | src/abg-comparison.cc:12852-12898 | On any graph and in any state: what it marks when it leaves one. |
| `RedundancyExact.PassMarksExactly` | src/abg-comparison.cc:12750-12914 | On a forest, from an empty visited set without marks, a node is marked if and only if the pass comes to it, it is reported, and it is a repetition without a twin, or has nothing new: no local changes to report, some changed child, and all children to be reported marked. The order in which the pass comes to nodes is spelled out by itself. |
| `RedundancyExact.RepetitionIsMarked` | src/abg-comparison.cc:12762-12836 | So a node whose class has been met is marked, when it is to be reported, may be marked and has no twin. |
| `RedundancyExact.NothingNewIsMarked` | src/abg-comparison.cc:12869-12896 | So is a node that only passes on changes of its children, all of which are marked. |
| `RedundancyExact.TwinsAreKept` | src/abg-comparison.cc:12770-12781 | Two children of a node that are of one class and have local changes to report are both kept. |
| `RedundancyExact.ParametersAreKept` | src/abg-comparison.cc:12783-12812 | So are the types of two parameters of a function. |
| `RedundancyExact.HiddenNotEntered` | src/abg-comparison.cc:3097-3124 | On any graph the pass marks nothing at a node that is not shown, being suppressed, or redundant, or of no category that is allowed, and does not go down from it. |
| `RedundancyExact.NewClassEntered` | src/abg-comparison.cc:3097-3124 | From a node of a new class it goes down if and only if the node has changes and is shown. |
| `RedundancyExact.SuppressedIsPassedOver` | src/abg-comparison.cc:12528-12539 | What a suppression pass has suppressed is passed over by the marking that follows, unless everything is shown. |
| `RedundancyPass.TraverseSpares` | src/abg-comparison.cc:12774-12837 | On any graph, functions and variadic parameters, and nodes with a sibling of the same class, are never marked as long as they have changes of their own to report. |
| `RedundancyPass.TraverseClears` | src/abg-comparison.cc:12918-12933 | Clearing takes the mark from exactly the nodes it reaches, and changes nothing else, whatever has been visited. |
| `RedundancyPass.ClearingUndoesMarking` | src/abg-comparison.cc:11070-11089 | Clearing from the same roots undoes marking, on any graph. |
| `DiffTrees.DiffTree.CategorizeRedundancy` | src/abg-comparison.cc:12939-12949 | The pass in place from one node; nothing happens when redundant changes are to be shown. |
| `DiffTrees.DiffTree.CategorizeRedundantChangedSubNodes` | src/abg-comparison.cc:11044-11066 | The pass in place over all changed functions and variables: the first node met of every class is kept, and not marked when it has local changes to report; and exactly those nodes are marked that repeat what has been met, or have nothing new. |
| `DiffTrees.DiffTree.ClearRedundancyCategorization` | src/abg-comparison.cc:12988-12997 | Clearing in place from one node; the visits are forgotten. |
| `DiffTrees.DiffTree.ClearRedundancyOfChanges` | src/abg-comparison.cc:11070-11089 | Clearing in place below all changed functions and variables. |
| `CanonicalDiffs.InitializedConsistent` | src/abg-comparison.cc:2622-2633 | Initialising a node keeps the registry consistent, and every canonical node that was set. |
| `CanonicalDiffs.ClassesComparedConsistent` | src/abg-comparison.cc:7948-7968 | So does computing the diff of two classes, which registers declarations under the node of their definitions. |
| `CanonicalDiffs.RunConsistent` | src/abg-comparison.cc:2568-2633 | So does any sequence of these operations: canonical nodes never change. |
| `CanonicalDiffs.RunTellsApart` | src/abg-comparison.cc:2568-2633 | After any sequence of operations, all initialised nodes have the same canonical node exactly when their subjects are equal, if and only if no comparison of two classes, not both definitions, was followed, and not preceded, by the diff of another kind of just these two; a canonical node is its own canonical node. |
| `CanonicalDiffs.NoClashTellsApart` | src/abg-comparison.cc:2592-2633 | Without such a clash, for every two nodes. |
| `CanonicalDiffs.ClashConfuses` | src/abg-comparison.cc:7961-7968 | After a clash there are two nodes of different subjects with the same canonical node. |
| `CanonicalDiffs.ProgramTellsApart` | src/abg-comparison.cc:3803-3808 | In every run of the program, in which two classes are only ever compared as classes, two nodes have the same canonical node if and only if their subjects are equal. |
| `CanonicalDiffs.DiffContext.SetCanonicalDiffFor` | src/abg-comparison.cc:2568-2578 | Registers a node for two subjects unless one is registered. |
| `CanonicalDiffs.DiffContext.SetOrGetCanonicalDiffFor` | src/abg-comparison.cc:2592-2605 | And returns the node that is registered then. |
| `CanonicalDiffs.DiffContext.InitializeCanonicalDiff` | src/abg-comparison.cc:2622-2633 | Sets the canonical node of a node once. |
| `CanonicalDiffs.DiffContext.ComputeClassDiff` | src/abg-comparison.cc:7948-7968 | The node of two classes is about what both are resolved to and has a canonical node, so the program's assertions hold; the two classes are registered in the end. |
| `CanonicalDiffs.ClassNodeOfRun` | src/abg-comparison.cc:7953-7956 | In every run, the node that a comparison of two classes has made is about the definitions of both, which are not resolved any further. |
| `CanonicalDiffs.EqualDefinitionsShareCanonical` | src/abg-comparison.cc:7953-7968 | In every run, two comparisons of classes with the same definitions on either side make nodes with the same canonical node. |
| `ExportedDecls.ExportedDeclsBuilder.KeepWrtId` | src/abg-corpus.cc:412-448 | A function is kept if it has a symbol, and a symbol of that name and version is listed or nothing is listed. |
| `ExportedDecls.ExportedDeclsBuilder.KeepWrtRegexToSuppress` | src/abg-corpus.cc:457-477 | It is kept unless some regular expression to suppress matches, of those compiled before; and when nothing has been compiled yet, unless some text to suppress is an expression that matches. |
| `ExportedDecls.ExportedDeclsBuilder.KeepWrtRegexToKeep` | src/abg-corpus.cc:486-510 | It is kept if some regular expression to keep matches, of those compiled before; and when nothing has been compiled yet, if no text to keep is an expression, or some text is one that matches. |
| `ExportedDecls.ExportedDeclsBuilder.Keep` | src/abg-corpus.cc:720-723 | The three tests one after the other, up to the first that fails, and the expressions that are compiled on the way. |
| `ExportedDecls.RunKeepsCompiled` | src/abg-corpus.cc:145-184 | Once some expression has been compiled, the list stays in force in every later run, whatever the user asks for then. |
| `ExportedDecls.RunValid` | src/abg-corpus.cc:363-372 | On every run of adding and dropping, with tunables that change at will, identifiers of the exported functions are unique, and the map knows all of them. |
| `ExportedDecls.RunExports` | src/abg-corpus.cc:708-724 | A function is exported if and only if it was the first eligible one of its identifier and every later drop kept it; once dropped it never comes back. |
| `ExportedDecls.CompiledTexts` | src/abg-corpus.cc:147-184 | Of a list of texts, exactly those that are regular expressions are in force. |
| `ExportedDecls.SameTunablesExport` | src/abg-corpus.cc:708-724 | When the user asks for the same throughout, a function is exported if and only if it is the first public one of its identifier that has a symbol asked for, that no expression to suppress matches, and that an expression to keep matches, if there is one. |
| `ExportedDecls.RunInOrder` | src/abg-corpus.cc:1777-1792 | Functions are exported in the order in which they were added. |
| `ExportedDecls.AddCompiles` | src/abg-corpus.cc:708-724 | Nothing is compiled for a function that is not public, or known, or without a symbol asked for; expressions to keep are not compiled for one that is suppressed. |
| `ExportedDecls.DropWithSameTunables` | src/abg-corpus.cc:1777-1792 | Dropping with the tunables that functions were added with drops nothing, whatever has been dropped with other tunables in between. |
| `ExportedDecls.ExportedDeclsBuilder.AddFnToExported` | src/abg-corpus.cc:363-372 | A function of a known identifier changes nothing; any other one is appended and entered in the map. |
| `ExportedDecls.ExportedDeclsBuilder.MaybeAddFnToExportedFns` | src/abg-corpus.cc:708-724 | Adds a function that is public, not known and to be kept. |
| `ExportedDecls.ExportedDeclsBuilder.MaybeDropSomeExportedDecls` | src/abg-corpus.cc:1777-1792 | Keeps the functions that pass all three tests, in their order; the map is left as it is. |
| `ExportedDecls.CompareFunctions` | src/abg-comparison.cc:10600-10651 | The tables of functions from two builders, with the precondition of unique names discharged by any two runs. |
| `Ini.ReadNextChar` | src/abg-ini.cc:249-314 | A character that is no escape is read as it is, and an escape as what it stands for, with its full width; a continued line leaves the caller's variable as it was; it fails, with both flags, exactly at the end or in an escape that is cut off. |
| `IniLayouts.SkipFiller` | src/abg-ini.cc:373-388 | White space and whole comment lines, with escapes, in any order, are skipped up to whatever is neither, and past a last comment that no newline ends. |
| `IniLayouts.ReadPropertyBack` | src/abg-ini.cc:484-511 | A property with any blanks around its equals sign is read as its name and value, up to the line end, comment, section or end of file behind it; an empty value is read as such. |
| `IniLayouts.ReadPropertiesBack` | src/abg-ini.cc:543-548 | The properties of a section are read in order, up to the next section or past the end of the file. |
| `IniLayouts.ReadSectionBack` | src/abg-ini.cc:517-558 | A section in any layout is read as its name and properties. |
| `IniLayouts.ReadSectionsBack` | src/abg-ini.cc:635-651 | All sections are read in order. |
| `IniLayouts.ReadBack` | src/abg-ini.cc:635-651 | For all well-formed files, in any layout with blank lines, indentation and comment lines, with escapes and continued lines in names, values and comments, and with a last line that may lack its newline, the reader returns the sections that the file stands for, and leaves the stream in a good state or at its end. |
| `IniEscapes.DoomedReadSections` | src/abg-ini.cc:249-651 | From any state of the stream on: an assertion of the reader fails if and only if the automaton of places, which looks at one character or escape after the other, ends in a place of assertion with an escape cut off. |
| `IniEscapes.AbortsExactly` | src/abg-ini.cc:249-651 | On any text at all, an assertion of the reader fails if and only if the text ends in the middle of an escape, inside the name or value of a property or behind the first character of a section name. |
| `IniEscapes.ReadingNeverAborts` | src/abg-ini.cc:249-558 | So no text that does not end in the middle of an escape makes an assertion fail, well-formed or not. |
| `IniEscapes.CutOffInSectionName` | src/abg-ini.cc:458-478 | Behind any well-formed beginning of a file, an escape that is cut off in the name of a section makes an assertion fail, except at the start of the name. |
| `IniEscapes.CutOffInPropertyName` | src/abg-ini.cc:398-417 | In the name of a property it does so even at the start. |
| `IniEscapes.CutOffInPropertyValue` | src/abg-ini.cc:425-449 | And in the value of a property as well. |
| `IniEscapes.CutOffInComment` | src/abg-ini.cc:324-335 | In a comment it does not. |
| `IniEscapes.CutOffFile` | src/abg-ini.cc:437-445 | A whole file with one property whose value ends in a backslash is such a file. |
| `IniEscapes.ContinuedLine` | src/abg-ini.cc:279-287 | A continued line is read as if backslash and newline had never existed if and only if the next line starts with the character in front of the backslash, and not with a backslash: that character is dropped, and the one before is read once more. |
| `IniEscapes.ContinuedValue` | src/abg-ini.cc:425-449 | The value of a property that is continued anywhere is read as if joined if and only if the next line starts with the character in front of the backslash, and that may stand in a value. |
| `IniEscapes.ContinuedSectionName` | src/abg-ini.cc:458-478 | So it is with the name of a section. |
| `IniEscapes.ContinuedPropertyName` | src/abg-ini.cc:398-417 | The name of a property is never read as if joined: its reader reads the backslash once more. |
| `IniQuoting.QuotedIsRead` | src/abg-ini.cc:249-314 | Any text without a line break, written with backslashes in front of brackets, equals signs, comment signs, backslashes and any other characters, is read as what it was; a tab has one escape and a blank five. |
| `IniQuoting.QuotedValueIsRead` | src/abg-ini.cc:425-449 | So it can be the value of a property. |
| `IniQuoting.QuotedPropertyNameIsRead` | src/abg-ini.cc:398-417 | Or the name of one. |
| `IniQuoting.QuotedSectionNameIsRead` | src/abg-ini.cc:458-478 | Or the name of a section. |
| `IniQuoting.QuotedIsReadBack` | src/abg-ini.cc:635-651 | Every configuration whose names and values take one line, whatever is in them, is read back when it is written in that way, with any indentation, any blanks around equals signs, and comment lines. |
| `IniWriter.WrittenSectionsAreLaidOut` | src/abg-ini.cc:789-801 | What the writer writes is one of the layouts. |
| `IniWriter.WrittenOneByOne` | src/abg-ini.cc:749-801 | One more property is an indented line with its name, an equals sign between blanks and its value; one more section is its name in brackets, its properties and a blank line. |
| `IniWriter.WrittenIsReadBack` | src/abg-ini.cc:635-801 | Reading what was written returns the same sections, for all configurations of non-empty sections whose text is free of escapes and of characters with a meaning; the last value in front of another section may be empty. |
| `IniRoundTrip.TakenAsIs` | src/abg-ini.cc:398-478 | A name or value that is read as it was written has only characters of its kind and no escapes, because an escape would shorten it. |
| `IniRoundTrip.RoundTripExactly` | src/abg-ini.cc:635-801 | When each property takes one line (its value is visible and does not end in a backslash, its name does not look like a comment), a configuration is read back as it was written if and only if it is one of those. |
| `IniReader.ReadContext.ReadNextChar` | src/abg-ini.cc:249-314 | The method on the stream is the function on what is left of it, with its escapes and with continued lines, which leave the caller's variable as it was. |
| `IniReader.ReadContext.SkipLine` | src/abg-ini.cc:324-335 | The loop is the function. |
| `IniReader.ReadContext.SkipWhiteSpaces` | src/abg-ini.cc:341-350 | The loop is the function. |
| `IniReader.ReadContext.SkipComments` | src/abg-ini.cc:357-366 | The loop is the function. |
| `IniReader.ReadContext.SkipWhiteSpacesOrComments` | src/abg-ini.cc:373-388 | The loop is the function. |
| `IniReader.ReadContext.ReadWhile` | src/abg-ini.cc:408-414 | The loop that the readers of names and values share is the function. |
| `IniReader.ReadContext.ReadProperty` | src/abg-ini.cc:484-511 | The method is the function, with every early exit. |
| `IniReader.ReadContext.ReadSection` | src/abg-ini.cc:517-558 | The method is the function, with every early exit; a section without properties is none. |
| `IniReader.ReadContext.ReadSections` | src/abg-ini.cc:635-651 | The loop is the function; reading ends at the first section that is none. |
| `IniReader.Output.WriteProperty` | src/abg-ini.cc:749-755 | Appends the name, an equals sign between blanks, and the value. |
| `IniReader.Output.WriteSection` | src/abg-ini.cc:762-777 | Appends the name in brackets and the properties on indented lines. |
| `IniReader.Output.WriteSections` | src/abg-ini.cc:789-801 | Appends all sections, with a blank line after each. |
| `IniReader.WriteAndRead` | src/abg-ini.cc:635-801 | Writing a configuration and reading it back gives the same configuration when it is made of plain names and values, and, if each of its properties takes one line, only then. |

## Left out

- ComputeDiff.Diff: the widths of the program's integers; all indexes and sizes are unbounded here.
- ComputeDiff.Diff: the branch for a missing middle snake has no body in the model; it is shown to be dead.
- MiddleSnake.SesLen: the reverse run, which seeds one element too early and skips the last pair, is not modelled.
- ShortestScript.LongestWhenLeft: between the sufficient and the necessary condition, whether the result is a longest common subsequence depends on which of several middle snakes is found first, and no condition on the two strings is given.
- MiddleSnake.EndOfFrDPathInK: points and snakes, which the program passes as out-parameters, are values, and iterators are offsets into sequences; the greedy step and the slide are methods of their own.
- ChangeTables.Compare: equal elements are taken to have equal names, and the equality of functions and types is a parameter, as the bodies of these operators are not part of this model.
- ChangeTables.LookupTables.EnsureLookupTablesPopulated: one model stands for the enumerators, the data members and the functions; the later pruning by symbol, which for variables erases from the table of functions, is not modelled, and neither is the table of variables.
- DataMembers.ByOffset: an unordered map is walked in any order, so which of several members at one offset is paired is left open.
- ExportedDecls.RunExports: which texts compile and what an expression matches are parameters, and a list of symbols is taken as parsed.
- CanonicalDiffs.ProgramTellsApart: which diffs of two entities the program makes is a condition on the steps, as the functions that choose a kind of diff are not part of this model.
- CanonicalDiffs.DiffContext.ComputeClassDiff: sharing the private data of the canonical node, and everything else that is computed about two classes.
- DiffTrees.DiffTree.Traverse: one object holds what the program spreads over nodes, context and visitor, with nodes as numbers in place of pointers; children that are only created when a node is traversed are taken as given.
- DiffTrees.DiffTree.ApplySuppressions: whether a specification matches a node is part of the graph.
- RedundancyExact.PassMarksExactly: on graphs that are not forests, where a node may be met again after it was kept, only single steps are described, by OnSightExactly and AtEndExactly.
- PropagationPass.PropagationIsExact: on graphs with cycles only soundness is claimed, by PropagationPass.TraverseSound.
- IniReader.ReadContext.ReadNextChar: line and column numbers, which are counted but never read.
- IniLayouts.ReadBack: values that are empty at the very end of a file, which the reader does not accept, and sections whose opening bracket is missing, which it does.
- IniEscapes.ContinuedValue: a next line that starts with an escape of its own, for which the two readings are out of step; the same holds of the two kinds of names.
- IniRoundTrip.RoundTripExactly: values that are empty or blank or end in a backslash, and names that look like a comment, run into the next line; for these only the direction of IniWriter.WrittenIsReadBack is claimed.
- IniReader.Output.WriteSections: an output stream that fails.
- Reports, pretty-printing, statistics, sorting, the readers and writers of ELF, DWARF, XML and zip, and the command line tools are not part of this model.
