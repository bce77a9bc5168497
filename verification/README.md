# A verified model of Subversion's delta, path, difference and serialization libraries

This project states and proves what a set of Subversion library interfaces promise. Two kinds of source are
modelled:

* `from_svn/libsvn_subr/*.c` holds function bodies. The loops over paths (`dirent_uri.c`, `path.c`), the hash
  dump (`hash.c`), base64 (`base64.c`), the credential walk (`auth.c`, `simple_providers.c`) and the merge,
  removal and intersection of rangelists (`mergeinfo.c`) are modelled from those bodies, branch by branch, as
  methods proved against specification functions.
* For `libsvn_delta` and `libsvn_diff` there are only headers. The window composition, the delta generator and
  applier, the svndiff parser, the path driver, the depth filter, the merge output and the hunk readers are
  algorithms written to the documented contracts and proved to meet them. `apr_filepath_merge`, to which
  `svn_dirent_is_under_root` delegates, is not part of this model either; the documented contract is.

## The components

* **Text deltas** (`TextDelta`, `Compose`, `DeltaApply`, `DeltaStream`, `Svndiff`). Windows are small programs
  of source copies, target copies that may run into their own output, and new data. Composition is a compiler
  from pairs of windows to windows; the main theorem is that it preserves meaning and stays in the language.
  The applier reads the source once, forward. The svndiff parser is proved for every codec that can tell where
  a window ends, because the byte layout is not documented in the header.
* **Editor drives** (`Editor`, `EditorRules`, `PathDriver`, `DriverRules`, `DriverOrder`, `PathOrder`, `SortedDrive`,
  `DepthFilter`, `FilterRules`, `TreeEdit`). The six ordering rules are a state machine over calls. Batons are
  identified with the paths they were opened on. A text delta call carries the text it results in. `Tree` gives an
  edit its meaning: the nodes after it.
* **Paths** (`Relpath`, `RelpathOps`, `Condense`, `UnderRoot`). Canonical relpaths are sequences of components;
  every byte-level loop is proved against an operation on components.
* **Differences** (`Merge3`, `MergeSections`, `MergeRules`, `Hunk`). A three-way difference is a list of lined-up
  ranges.
* **Serialization** (`HashDump`, `HashText`, `HashRoundTrip`, `HashTruncation`, `Base64`,
  `Base64Text`, `Base64Decode`, `Base64RoundTrip`).
* **Credentials** (`Auth`) and **revision ranges** (`Rangelist`, `RangelistRemove`, `RangelistOps`).

## Findings

Where a promise holds only under a condition, the condition is a theorem:

* The depth filter for files loses an edit exactly when a file right below the target is deleted for good
  (`TreeEdit.FilterExactUnlessDeletesLost`).
* A path driver keeps rule 1 exactly when no step opens, adds or deletes what an earlier one has, other than to add
  what was deleted (`DriverOrder.OnceExactly`). For distinct paths at each of which the callback acts, that means:
  every directory before its descendants, in one stretch, and nothing below a deleted node or a file
  (`DriverOrder.OnceExactlyIfOrderly`).
* A hash dump is read back exactly when its terminator is one line that differs from every "K" and "D" header
  line written (`HashRoundTrip.DumpRoundTrip`). Truncation is detected exactly when no header line written begins
  with the terminator (`HashTruncation.TruncationDetected`), so always with "END". Without a terminator a truncated
  dump is accepted exactly when it ends between records, or within an added value of whose length a digit is
  there: the variable that should receive the final newline still holds an earlier one
  (`HashTruncation.TruncationMissed`).
* The range equalities that `svn_diff.h` states do not by themselves make a merge with an unchanged side the other
  side (`MergeRules.OutOfStep`; whether the difference engine ever makes such tiles is not part of this model). A tile
  keeps a side exactly when the other side's own change in it is no change of text (`MergeRules.TileKeepsSide`); if
  all tiles do, the merge does (`MergeRules.MergeKeepsSide`), and it may even if not (`MergeRules.KeptByAccident`).
* Removing or intersecting rangelists with regard to inheritance loses what two ranges share exactly when one of them
  lies across an earlier range of the other inheritability, unless a range that was matched with it has cut it
  down to begin there (`RangelistRemove.LostAt`, `RangelistRemove.MatchedUnlessLost`). A difference leads from one
  list to the other exactly when whatever is lost for the deletions is lost for the additions too
  (`RangelistOps.Diff`); `RangelistOps.DiffFails` is an input for which it does not.
* Without regard to inheritance nothing is lost, but a revision becomes inheritable exactly when another one of its
  unbroken run is (`RangelistOps.InheritedInRuns`).
* Two kinds of credentials share cache keys exactly when one is the other followed by a colon and anything, such as
  "a" and "a:b" (`Auth.KeysShared`).
* Saving stores what was most recently returned for the key, as documented, but by any walk: if another walk has
  returned other credentials for the key since, those are saved, and if the entry has been forgotten, nothing
  (`Auth.IterState.SaveCredentials`, `Auth.Session`).
* A walk that starts from the cache starts over at the first provider, so it may repeat credentials
  (`Auth.WalkAll`).
* `auth.c:64-68` says that an error of a provider leads on to the next provider. The code returns the error at
  once (`auth.c:290`, `auth.c:354`, `auth.c:362`), and the model follows the code.
* `svn_mergeinfo.h` does not promise a compact result when inputs hold adjoining ranges that could have been
  combined; the code always compacts (`Rangelist.Merge`).
* The path driver's documentation allows a file to be closed after the drive returns, but finishing the drive
  closes the edit. The model's callback closes files at once.

## Conventions

Bytes are integers below 256; text is a sequence of characters standing for bytes. Bit operations of base64 are
written as division and remainder. Sizes and revision numbers are unbounded integers except where a limit is
visible: lengths in a hash dump are parsed with the 64-bit limit of the number parser. Two windows are composed
when the source view of the second is as long as the target view of the first.

## Model

| member | source | states |
|---|---|---|
| TextDelta.CopyIsPeriodic | from_svn/include/svn_delta.h:128-145 | byte i of a target copy is byte `offset + i mod (pos - offset)` of the target view, also when the copy runs into its own output |
| TextDelta.CopyRecurrence | from_svn/include/svn_delta.h:137-145 | each copied byte is the one a pattern length earlier, the rule "you are adding new bytes at the rate you are reading them" |
| TextDelta.ExecuteBytes | from_svn/include/svn_delta.h:115-156 | each byte an instruction adds is the one at the same place of the source view, of the target view so far, or of the new data |
| TextDelta.RangesAllowed | from_svn/include/svn_delta.h:147-168 | source and new data are named within their bounds and not empty; the target view is named from a byte that is already there |
| TextDelta.SourceFree | from_svn/include/svn_delta.h:204-208 | instructions without a source operation give the same target for any two source views, even of different lengths |
| TextDelta.RunPrefix | from_svn/include/svn_delta.h:169-179 | what the first k instructions assembled is still there, unchanged, at the end |
| TextDelta.RunMoreNewData | from_svn/include/svn_delta.h:147-155 | instructions that are valid stay valid, and mean the same, when more new data is appended to the window |
| DeltaApply.PatterningCopy | from_svn/include/svn_delta.h:128-145 | an in-place copy by whole non-overlapping blocks leaves in the buffer what copying byte by byte would, and touches nothing after it |
| DeltaApply.ApplyOp | from_svn/include/svn_delta.h:115-156 | one instruction, cut off where the room ends, extends the buffer by a prefix of what the instruction means |
| DeltaApply.ApplyInstructions | from_svn/include/svn_delta.h:238-257 | writes exactly min(tlen, tview_len) bytes, those of the target view for every source view that agrees with `sbuf`; an absent `sbuf` is never read; the rest of the buffer is untouched |
| Compose.CopyRangeCorrect | from_svn/include/svn_delta.h:227-236 | the instructions emitted for a range of A's target view append exactly those bytes, for every source view |
| Compose.CopyPatternCorrect | from_svn/include/svn_delta.h:128-145 | a rotated piece of an overlapping copy is rebuilt by copying the pattern once and then overlapping the new output |
| Compose.ComposePreservesMeaning | from_svn/include/svn_delta.h:227-236 | for every source view, the composed window yields what A and then B yield, also where B reads through A's overlapping copies |
| Compose.ComposeIsValid | from_svn/include/svn_delta.h:147-216 | the composed window has A's source view and B's target length, keeps every range rule, uses all its new data in ascending order without overlap, and counts its source operations exactly |
| Compose.ComposeSourceFree | from_svn/include/svn_delta.h:204-208 | if A or B reads no source, neither does the composition |
| Compose.ComposeAssociative | from_svn/include/svn_delta.h:227-236 | three windows composed either way mean the same, and both ways are valid |
| DeltaStream.DeltaApplier.HandleWindow | from_svn/include/svn_delta.h:481-512 | a handler that holds one source view and reads the source forward applies a window as if it had random access; it refuses a view that moved left, with nothing changed; if the source ends first, nothing is written and only the place in the source has moved, to its end |
| DeltaStream.DeltaApplier.HandleAll | from_svn/include/svn_delta.h:182-187 | all windows are applied, giving the concatenation of each applied to the full source, exactly when the views slide forward and lie in the source; otherwise it stops at the first window that does not |
| DeltaStream.SlidesForwardMeans | from_svn/include/svn_delta.h:182-187 | the rule is about neighbours: neither where the source view begins nor where it ends moves back |
| DeltaStream.WindowAt | from_svn/include/svn_delta.h:238-257 | each window describes its own stretch of the target: what its instructions make of its stretch of the source |
| DeltaStream.CopyOfMatch | from_svn/include/svn_delta.h:137-145 | a text that matches itself at an earlier place is what the (possibly overlapping) copy from there makes of its beginning |
| DeltaStream.DeltaWindow | from_svn/include/svn_delta.h:269-297 | whatever a match finder suggests, the window made is valid and turns the source view into the target view |
| DeltaStream.TxdeltaRun | from_svn/include/svn_delta.h:269-297 | the generated windows are valid, slide forward, lie in the source and describe exactly the target, for all sources, targets and window sizes |
| DeltaStream.SendContents | from_svn/include/svn_delta.h:426-480 | sending text produces windows without source operations that reproduce it from an empty source |
| DeltaStream.NewDataWindow | from_svn/include/svn_delta.h:426-436 | the window that is all new data is valid and yields the data |
| DeltaStream.SendAndRebuild | from_svn/include/svn_delta.h:88-109 | generating windows and handing them to a window handler over the source leaves the handler closed with the target, which is what applying the windows returned one by one gives |
| Svndiff.ParseSplit | from_svn/include/svn_delta.h:579-606 | parsing bytes in two pieces hands over the same windows and ends in the same state as parsing the whole, for every self-delimiting codec |
| Svndiff.CompleteIffParsed | from_svn/include/svn_delta.h:586-594 | the parser stands between windows, after at least one, exactly when the bytes are a header and one or more complete windows with nothing extra and views that slide forward |
| Svndiff.HeaderDecides | from_svn/include/svn_delta.h:611-615 | the bytes are refused as an invalid header exactly if one of the first three is not 83, 86, 78 in turn, or the fourth is none of 0, 1, 2 |
| Svndiff.DocumentState | from_svn/include/svn_delta.h:579-594 | after 83, 86, 78, a version up to 2 and complete windows, just these windows have been handed over; a corrupt window after them, or one whose source view moves back, is that error |
| Svndiff.ParseDocument | from_svn/include/svn_delta.h:579-601 | a new parser given such bytes hands over the windows, reports no error, corrupt window or backward view, and closes if nothing is left over and, when strict, there was a window |
| Svndiff.LengthPrefixedIsSelfDelimiting | from_svn/include/svn_delta.h:579-606 | the property asked of codecs is met by a concrete one |
| Svndiff.SvndiffParser.Write | from_svn/include/svn_delta.h:579-583 | after any write the windows handed over and the state are those of parsing everything written so far |
| Svndiff.SvndiffParser.Close | from_svn/include/svn_delta.h:584-601 | with errors on early close, closing succeeds, and signals completion, exactly on complete deltas; without, it always completes |
| Svndiff.SvndiffParser.WriteAll | from_svn/include/svn_delta.h:579-606 | however the bytes are split into writes, what is handed over depends on their concatenation only |
| Editor.RunConcat | from_svn/include/svn_delta.h:792-838 | a drive may be checked piece by piece |
| Editor.OnceIsStricter | from_svn/include/svn_delta.h:797-804 | a drive that keeps rule 1 keeps the other five and reaches the same state |
| Editor.DoneMeansClosed | from_svn/include/svn_delta.h:806-812 | a drive that has closed the edit has closed every directory and file baton |
| Editor.EntriesVisitedOnce | from_svn/include/svn_delta.h:797-804 | rule 1 as a statement about any two calls of a well-ordered drive: an entry is opened or added at most once and deleted at most once, never deleted after being opened or added, and after a deletion only added |
| EditorRules.SubdirectoriesClosedFirst | from_svn/include/svn_delta.h:806-807 | rule 2 on two calls: between opening a subdirectory and closing a directory above it the former is closed |
| EditorRules.OpenedInnermost | from_svn/include/svn_delta.h:809-812 | rule 3: a directory is opened in the one opened last of those that are open; what was opened since then has been closed |
| EditorRules.ParentIsOpen | from_svn/include/svn_delta.h:792-838 | a call on any other entry names a directory that was opened and has not been closed |
| EditorRules.NoPropsInTheMiddle | from_svn/include/svn_delta.h:814-816 | rule 4 on three calls: no property change of a directory between two calls that open its subdirectories |
| EditorRules.TextThenClose | from_svn/include/svn_delta.h:818-834 | rules 5 and 6: once the text of a file has been sent, it is closed before any call that is not on it |
| EditorRules.LeftUntilTheEnd | from_svn/include/svn_delta.h:826-830 | rule 5 (b): a file that is left before it is closed is finished after the root has been closed, by its text and closing only |
| EditorRules.AllowedDrive | from_svn/include/svn_delta.h:814-830 | a drive that uses what the rules leave open keeps them all: properties before and after the subdirectories, and a file finished at the end |
| PathDriver.Driver.Step | from_svn/include/svn_delta.h:1444-1475 | closes and opens exactly the directories between the last path and the new one, then lets the callback act, opening the root first if the callback does not |
| PathDriver.Driver.Finish | from_svn/include/svn_delta.h:1476-1487 | closes every open directory and then the edit; nothing stays open |
| PathDriver.DrivePaths | from_svn/include/svn_delta.h:1424-1487 | start, a step for each path and finish send the editor exactly the specified calls |
| PathDriver.StepSends | from_svn/include/svn_delta.h:1444-1475 | the calls of a step, one by one: closings from the inside out of what does not hold the path, openings from the outside in of what does, and the callback's own |
| PathDriver.FinishSends | from_svn/include/svn_delta.h:1476-1487 | the calls of finishing, one by one: everything open is closed from the inside out, the root last, and then the edit |
| DriverRules.DriverAlwaysNests | from_svn/include/svn_delta.h:806-838 | for every sequence of paths, sorted or not, the drive is complete and keeps rules 2 to 6: parents innermost, subdirectories closed first, everything closed before the edit |
| DriverRules.DriverVisitsOnce | from_svn/include/svn_delta.h:1348-1354 | if the paths are distinct with all descendants of a directory right after it, and nothing listed lies below a deleted node or a file, the drive keeps rule 1 as well |
| DriverRules.RootOpenedFirstAndOnce | from_svn/include/svn_delta.h:1356-1359 | the root is opened by the first call, made by driver or callback, and by no other |
| DriverOrder.OnceExactly | from_svn/include/svn_delta.h:797-804 | for any visits, also of paths that are listed twice or not acted on, the drive keeps rule 1 if and only if no step opens, adds or deletes what an earlier step has, other than to add what was deleted |
| DriverOrder.OnceExactlyIfOrderly | from_svn/include/svn_delta.h:1348-1354 | for distinct paths at each of which the callback acts, that is so if and only if every directory comes before what is below it, all of that in one stretch, and nothing listed lies below a deleted node or a file |
| DriverOrder.VisitsOnceIsOrderly | from_svn/include/svn_delta.h:797-804 | a drive that keeps rule 1 has its paths in that order |
| DriverOrder.UnsortedVisitsTwice | from_svn/include/svn_delta.h:1464-1467 | an example of a drive that does not keep rule 1: over "a/x", "b", "a/y" it opens "a" twice |
| DriverOrder.DeletedThenAdded | from_svn/include/svn_delta.h:797-804 | an example of one that does, with the same path three times: deleted, not acted on, added |
| SortedDrive.SortedIsClustered | from_svn/include/svn_delta.h:1352-1354 | paths sorted by the path order have every directory before all that is below it, in one stretch |
| SortedDrive.SortPaths | from_svn/include/svn_delta.h:1353-1354 | sorts, keeping every path as often as it was given |
| SortedDrive.SortedRunIsOrderly | from_svn/include/svn_delta.h:1348-1354 | sorting distinct paths gives a run that meets the conditions for keeping rule 1 |
| SortedDrive.SortedHasRootFirst | from_svn/include/svn_delta.h:1356-1359 | sorting puts the root, if it is listed once, before everything else |
| SortedDrive.DriveRelpaths | from_svn/include/svn_delta.h:1340-1372 | the drive visits every listed path as often as it is listed, in sorted order or in the order given, and sends exactly the driver's calls for them; it is complete and nests; it keeps rule 1 exactly if no step revisits anything, and so if the paths are distinct and in sorted order and none lies below a file or a deleted node |
| PathOrder.PathsTotallyOrdered | from_svn/libsvn_subr/sorts.c:112-120 | the order of paths is strict, total and transitive |
| PathOrder.ComparePaths | from_svn/libsvn_subr/path.c:417-453 | for any two strings the byte-wise comparison is negative, zero or positive exactly as the first is before, equal to or after the second in byte order with the separator first; of canonical relpaths that is the component-wise order |
| PathOrder.TextIsPathOrder | from_svn/libsvn_subr/path.c:431-452 | byte order with the separator first is component-wise order on canonical relpaths |
| PathOrder.AbsoluteOrder | from_svn/libsvn_subr/path.c:431-452 | absolute paths are ordered like what is below the root, and come after the empty relpath and before all others |
| DepthFilter.FilterEditor.Handle | from_svn/include/svn_delta.h:1237-1250 | deciding from the parent's baton alone, a call reaches the wrapped editor exactly if its node is within the depth |
| DepthFilter.FilterEditor.HandleAll | from_svn/include/svn_delta.h:1237-1250 | over a whole well-ordered drive the wrapped editor receives exactly the calls within the depth |
| DepthFilter.DepthsMean | from_svn/include/svn_delta.h:1237-1250 | which calls each depth lets through, in numbers of components: none of the depths stops calls at the target; files lets through calls on files right below it, immediates all calls right below it, and unlimited depths all |
| TreeEdit.RestrictMeans | from_svn/include/svn_delta.h:1240-1250 | which nodes each depth keeps, in the same numbers, and that they are kept as they were |
| TreeEdit.CallMeans | from_svn/include/svn_delta.h:883-1130 | what each call does to the nodes: which it deletes, makes empty or changes, and that all others stay as they were |
| FilterRules.FilterKeepsRules | from_svn/include/svn_delta.h:792-838 | the filter maps well-ordered drives to well-ordered drives and complete ones to complete ones, for every depth, with and without a target, with or without rule 1 |
| TreeEdit.FilterRestrictsEdit | from_svn/include/svn_delta.h:1237-1270 | on the tree within the depth, the filtered edit is the original edit restricted to the depth, with deletions right below the target ignored when filtering for files |
| TreeEdit.FilterExactUnlessDeletesLost | from_svn/include/svn_delta.h:1256-1270 | the filtered edit is exactly the restriction of the original edit if and only if the filter is not for files, or no file right below the target is deleted for good |
| TreeEdit.DeleteLost | from_svn/include/svn_delta.h:1256-1270 | an example that fails: filtered for files, an edit that deletes the file "f" right below the target leaves it there |
| Relpath.Canonicalize | from_svn/libsvn_subr/dirent_uri.c:297-560 | the loop yields the relpath with the same names in the same order and nothing else, for every string |
| Relpath.CanonicalizeFixesCanonical | from_svn/include/svn_dirent_uri.h:526-547 | canonicalization is idempotent and its fixed points are exactly the canonical relpaths |
| Relpath.IsCanonical | from_svn/libsvn_subr/dirent_uri.c:1855-1909 | the scan for slashes and dots answers true exactly on canonical relpaths |
| Relpath.CharsDecide | from_svn/libsvn_subr/dirent_uri.c:1855-1909 | canonical means: no slash at either end, none doubled, and no "." between separators |
| Relpath.CanonicalToComponents | from_svn/include/svn_dirent_uri.h:44-68 | a canonical relpath is its components joined by slashes |
| Relpath.ComponentsToCanonical | from_svn/include/svn_dirent_uri.h:44-68 | components joined by slashes form a canonical relpath with those components |
| RelpathOps.JoinComponents | from_svn/libsvn_subr/dirent_uri.c:1209-1233 | joining canonical relpaths is canonical and concatenates their components |
| RelpathOps.Dirname | from_svn/libsvn_subr/dirent_uri.c:1290-1300 | the backwards scan takes off exactly the last component |
| RelpathOps.Basename | from_svn/libsvn_subr/dirent_uri.c:1302-1319 | the backwards scan finds exactly the last component |
| RelpathOps.Prefix | from_svn/libsvn_subr/dirent_uri.c:1336-1357 | the scan keeps exactly the first `max` components, all if there are fewer, none if `max` is not positive |
| RelpathOps.SkipAncestor | from_svn/libsvn_subr/dirent_uri.c:1529-1552 | answers what is left of the child below an ancestor, and none otherwise |
| RelpathOps.LongestAncestorLength | from_svn/libsvn_subr/dirent_uri.c:683-800 | the walk along common bytes stops where the common components end; an absolute and a relative path share nothing |
| RelpathOps.LongestAncestor | from_svn/libsvn_subr/dirent_uri.c:1415-1427 | the result of the byte walk is the join of the common components |
| RelpathOps.SplitThenJoin | from_svn/include/svn_dirent_uri.h:321-344 | splitting a canonical relpath and joining the parts is the identity |
| RelpathOps.JoinThenSplit | from_svn/include/svn_dirent_uri.h:243-257 | splitting what was joined from a directory and one name gives both back |
| RelpathOps.PrefixIsIteratedDirname | from_svn/include/svn_dirent_uri.h:377-388 | a prefix is what is left after taking off the last component often enough |
| RelpathOps.SkipAncestorIffJoin | from_svn/include/svn_dirent_uri.h:769-778 | skipping `parent` from `child` yields `rest` exactly when joining `rest` to `parent` yields `child` |
| RelpathOps.LongestAncestorIsGreatest | from_svn/include/svn_dirent_uri.h:675-686 | the longest common ancestor is an ancestor of both, and every common ancestor is an ancestor of it |
| Condense.AbsoluteAncestor | from_svn/libsvn_subr/dirent_uri.c:1405-1413 | for absolute paths: the greatest common ancestor, equal to one of them exactly if that one is above the other |
| Condense.CommonAncestor | from_svn/libsvn_subr/dirent_uri.c:2117-2154 | folding pairwise ancestors over the targets gives the longest path above all of them |
| Condense.RemoveRedundant | from_svn/libsvn_subr/dirent_uri.c:2168-2206 | after the first pass no remaining target lies below another remaining one, and every target has a remaining one above it |
| Condense.RemoveCommon | from_svn/libsvn_subr/dirent_uri.c:2208-2220 | the second pass removes exactly the targets equal to the common ancestor |
| Condense.Relative | from_svn/libsvn_subr/dirent_uri.c:2223-2256 | cutting off the common ancestor, with or without a separator, leaves a canonical relpath that joins back to the target |
| Condense.CondenseAbsolute | from_svn/libsvn_subr/dirent_uri.c:2156-2259 | of absolute targets: the common ancestor is the longest path above every target; with redundancies removed the results are, in their order, exactly the targets other than the common ancestor that lie below no other target, the first of equal ones, and they cover the same paths as the targets, an empty list standing for the common ancestor; without, every target is there in its place; every result joins back to its target |
| Condense.CondenseTargets | from_svn/libsvn_subr/dirent_uri.c:2093-2259 | for relative and absolute targets: the same of the targets made absolute, if all of them can be; otherwise the first that cannot is the error; no targets, no results |
| Condense.LeftOverCovers | from_svn/include/svn_dirent_uri.h:793-832 | condensed list and targets cover the same paths |
| UnderRoot.IsUnderRoot | from_svn/include/svn_dirent_uri.h:875-897 | true exactly when the path is not absolute and no prefix of its component walk climbs above the base; then the result is canonical, at or below the base, and where the walk leads |
| UnderRoot.StaysUnderMeans | from_svn/include/svn_dirent_uri.h:875-897 | a walk stays under its start exactly if up to any point it has led up no more often than down |
| UnderRoot.WalkLaws | from_svn/include/svn_dirent_uri.h:875-897 | where a walk leads: names are appended, a name and ".." after it cancel out, and empty and "." segments do not count |
| Merge3.KeepingOneSide | from_svn/include/svn_diff.h:278-377 | keeping one side's ranges of lined-up tiles reproduces that source |
| Merge3.MergeOutput.OutputConflict | from_svn/include/svn_diff.h:379-409 | a conflict is put out in each of the six styles: the ranges shown, the order and the markers |
| Merge3.MergeOutput.OutputDiff | from_svn/include/svn_diff.h:935-965 | calling the callback of each tile in turn writes the specified merged text |
| MergeSections.ConflictShows | from_svn/include/svn_diff.h:379-409 | read back, a conflict has these sections in this order and nothing else: modified and latest; modified, original and latest; its parts if it was resolved in part, each once or in two sections; or just one side without markers |
| MergeSections.TileShows | from_svn/include/svn_diff.h:302-358 | read back, any other tile is the lines of the changed side, and nothing where only conflicts are shown |
| MergeSections.MergeShows | from_svn/include/svn_diff.h:935-965 | read back, a merged text is what its tiles show, one after the other, and nothing in between |
| Merge3.ContainsConflicts | from_svn/include/svn_diff.h:258-262 | true exactly if some tile is a conflict |
| MergeRules.SettleTwoSides | from_svn/include/svn_diff.h:383-386 | a conflict with two sections shows each range once: settling it for a side gives that side's range |
| MergeRules.SettleThreeSides | from_svn/include/svn_diff.h:393-395 | a conflict with three sections shows each range once: settling it for any side gives that side's range |
| MergeRules.SettleParts | from_svn/include/svn_diff.h:388-391 | the parts of a resolved conflict add up to the whole range of either side |
| MergeRules.SettledMerge | from_svn/include/svn_diff.h:379-409 | settling all conflicts of a merge for one side, whatever marker style it was put out in, gives the merge in the style that shows just that side; with three sections, settling for the original gives its ranges there; outside conflicts every tile contributes what the three-way rule says of its three texts |
| MergeRules.SettledConflicts | from_svn/include/svn_diff.h:405-407 | where only conflicts are shown, settling them for any of the three sides gives that side's ranges of the conflicts and nothing else |
| MergeRules.TileKeepsSide | from_svn/include/svn_diff.h:302-358 | a tile contributes the text of one side if and only if it takes no change of the other: the other side's own change there, if the tile is one, is no change of text |
| MergeRules.MergeKeepsSide | from_svn/include/svn_diff.h:935-965 | if that holds of every tile, settling gives the side, and the merge is the side exactly if no conflict is put out with markers |
| MergeRules.KeptByAccident | from_svn/include/svn_diff.h:302-358 | an example of tiles that do not all keep the side and yet add up to it |
| MergeRules.NothingToMerge | from_svn/include/svn_diff.h:935-965 | so it is when the other side equals the original, in step with it |
| MergeRules.OutOfStep | from_svn/include/svn_diff.h:302-358 | without being in step the stated equalities do not give that: tiles that line up, "latest" equal to "original", no conflict, and a merge that is not "modified" |
| MergeRules.ContainsDiffs | from_svn/include/svn_diff.h:266-271 | true exactly if some tile is not common to all; if false the three sources are equal |
| Hunk.ReversedReadings | from_svn/include/svn_diff.h:1077-1086 | read in reverse, original and modified text change places, and are the readings of the reversed diff text |
| Hunk.ReadingPlaces | from_svn/include/svn_diff.h:1038-1073 | the original text is the context and removed lines in their order, the modified text the context and added lines |
| Hunk.PatchIsReplacement | from_svn/include/svn_diff.h:1038-1073 | following the diff text line by line turns the original text into the modified text and applies to no other text |
| Hunk.ReversePatchUndoes | from_svn/include/svn_diff.h:1077-1086 | the hunk in reverse undoes the hunk |
| Hunk.HunkReader.ReadlineOriginalText | from_svn/include/svn_diff.h:1108-1129 | each call takes the next line of what is left of the original text, with its terminator; the end is signalled if nothing was left or the line, then the last, has no terminator |
| Hunk.HunkReader.ReadlineModifiedText | from_svn/include/svn_diff.h:1131-1143 | the same of the modified text |
| Hunk.ReadAll | from_svn/include/svn_diff.h:1038-1158 | after the resets, reading all three ways in turn until each has signalled its end yields the three texts in full, terminators included, whatever was read before |
| HashDump.ReadOne | from_svn/libsvn_subr/hash.c:96-214 | reads one entry with the same branches and error conditions, including what is left in the newline variable at the end of the stream |
| HashDump.HashRead | from_svn/libsvn_subr/hash.c:217-251 | applies entries until the terminator; after an error the table holds what had been read |
| HashDump.HashWrite | from_svn/libsvn_subr/hash.c:254-323 | appends the records of the changed entries in key order, then the deletions, then the terminator |
| HashText.RecordText | from_svn/libsvn_subr/hash.c:254-323 | the text of an addition, of a deletion and of the terminator, character by character |
| HashText.DecimalIs | from_svn/libsvn_subr/hash.c:270-300 | a length is written in decimal, without zeros before it |
| HashText.SizeMeans | from_svn/libsvn_subr/string.c:1060-1086 | a length is read if it is digits, after blanks and a sign, not above the limit and, but for zero, not negative; nothing else is |
| HashText.LineRefused | from_svn/libsvn_subr/hash.c:111-133 | a line that is neither the terminator nor begins with "K " or, where deletions are read, with "D " is refused, and so is a text that ends before its line does |
| HashText.KeyRefused | from_svn/libsvn_subr/hash.c:135-155 | a key without a good length, or not followed by a newline, is refused |
| HashText.ValueRefused | from_svn/libsvn_subr/hash.c:157-180 | after a good key, a line that does not begin with "V " and give a length is refused, and so is a value not followed by a newline |
| HashDump.HashDiff | from_svn/libsvn_subr/hash.c:486-525 | calls back once for each key: as only in the first table, only in the second, or in both, exactly for the keys of which that is so |
| HashRoundTrip.SizeReads | from_svn/libsvn_subr/string.c:1060-1086 | a length that was printed is parsed back |
| HashRoundTrip.ReadOwnRecord | from_svn/libsvn_subr/hash.c:96-214 | a record is read back whatever bytes key and value hold, unless its header line equals the terminator |
| HashRoundTrip.ReadRecords | from_svn/libsvn_subr/hash.c:217-251 | a sequence of records is read one by one up to the first whose header line equals the terminator |
| HashRoundTrip.ChangesDeliver | from_svn/libsvn_subr/hash.c:254-320 | the changes written lead from the old table, or from none, to the table dumped |
| HashRoundTrip.DumpRoundTrip | from_svn/include/svn_hash.h:68-125 | for all tables: reading a dump, or a difference into the old table, gives the table dumped and leaves what follows unread, if and only if the terminator is one line and differs from every header line written |
| HashRoundTrip.DumpAndRead | from_svn/include/svn_hash.h:68-125 | writing a dump, or a difference, and reading it into a copy of the old table gives the table back, if and only if the terminator is one line and not the header line of any entry that has to be written; values may hold any bytes |
| HashRoundTrip.EndTellsApart | from_svn/include/svn_hash.h:60-66 | "END" always meets that condition |
| HashRoundTrip.MistakenTerminator | from_svn/libsvn_subr/hash.c:111-123 | an example that fails: with the terminator "K 1" a table with a key of one character is not read back |
| HashTruncation.TruncationDetected | from_svn/libsvn_subr/hash.c:111-128 | every dump that lost more than the last newline is refused, if and only if no header line written begins with the terminator |
| HashTruncation.CutRecordAtEnd | from_svn/libsvn_subr/hash.c:166-176 | without a terminator a record cut short is accepted exactly if it is an addition, and the first digit of its value's length is there; the value is then as much as the length, perhaps cut, and the data give |
| HashTruncation.TruncationMissed | from_svn/libsvn_subr/hash.c:111-128 | without a terminator, a dump cut anywhere is read without an error exactly if it is cut between records or in an addition whose value's length has begun; then the table is that of the records before it, and of that one with its shorter value |
| Base64.EncodeLine | from_svn/libsvn_subr/base64.c:88-112 | the fast path for a whole line yields the encoding of its bytes |
| Base64.EncodeBytes | from_svn/libsvn_subr/base64.c:114-181 | after any call, what is put out and the line position depend only on the bytes taken in so far, whichever path they took |
| Base64.Encoder.Write | from_svn/libsvn_subr/base64.c:208-225 | a write adds its bytes; the output so far is that of all bytes so far |
| Base64.Encoder.Close | from_svn/libsvn_subr/base64.c:184-206 | closing pads the last group and ends the line; the whole output is the one-shot encoding |
| Base64.EncodeChunks | from_svn/include/svn_base64.h:48-60 | for every split into writes the closed stream's output is the one-shot encoding of the concatenation |
| Base64.EmittedMore | from_svn/libsvn_subr/base64.c:143-176 | what a group or a whole line adds to the output, with the newline exactly when the line is full |
| Base64.ClosingCompletes | from_svn/libsvn_subr/base64.c:184-206 | whole groups followed by the padded rest are the encoding of everything |
| Base64Text.LetterIs | from_svn/libsvn_subr/base64.c:50-51 | the character of each value is the one at that place of the alphabet |
| Base64Text.ValueIs | from_svn/libsvn_subr/base64.c:323-340 | a character has a value exactly if it is in the alphabet, and it is its place there |
| Base64Text.GroupAt | from_svn/libsvn_subr/base64.c:70-86 | every four characters, read as a number in base 64, are their three bytes read in base 256 |
| Base64Text.TailIs | from_svn/libsvn_subr/base64.c:184-206 | one or two bytes left over make two or three characters with zero bits at the end, and padding up to four |
| Base64Text.LinesAre | from_svn/libsvn_subr/base64.c:143-176 | with line breaks the same characters come in the same order, a newline after every 76 of them and one at the end |
| Base64Decode.DecodeFour | from_svn/libsvn_subr/base64.c:342-362 | four characters of the alphabet at a group boundary decode to their three bytes |
| Base64Decode.DecodeLine | from_svn/libsvn_subr/base64.c:364-397 | the fast path decodes whole groups and stops before a group with any other character in it, as the slow path would have |
| Base64Decode.DecodeBytes | from_svn/libsvn_subr/base64.c:400-464 | decoding with the fast path equals decoding character by character |
| Base64Decode.DecodeBoth | from_svn/include/svn_base64.h:72-78 | decoding in pieces is decoding the whole |
| Base64RoundTrip.DecodeMeaning | from_svn/include/svn_base64.h:72-78 | for any text: everything from the first '=' on is ignored, other characters outside the alphabet are passed over, and an incomplete group counts only if there is an '=' |
| Base64Text.DecodedNumbers | from_svn/libsvn_subr/base64.c:342-362 | decoded groups, whole or not, are the same numbers |
| Base64Text.OthersPassedOver | from_svn/libsvn_subr/base64.c:400-464 | any character outside the alphabet but "=" may be left out |
| Base64Text.PaddingIsTheEnd | from_svn/libsvn_subr/base64.c:400-464 | what comes after an "=" does not count |
| Base64RoundTrip.EncodeThenDecode | from_svn/include/svn_base64.h:107-116 | decoding an encoding, with or without line breaks, gives the bytes back |
| Base64RoundTrip.EncodingsDiffer | from_svn/include/svn_base64.h:81-94 | no two byte strings share an encoding, even one with line breaks and one without |
| Base64RoundTrip.DecodePieces | from_svn/include/svn_base64.h:72-78 | for every split of an encoding into writes the decoder's output is the original bytes; of any text, its meaning |
| Auth.NthOfFinite | from_svn/include/svn_auth.h:62-67 | the n-th credentials offered are the n-th of the concatenated rows, up to the first that fails; then that error, or none |
| Auth.GroupByKind | from_svn/libsvn_subr/auth.c:133-173 | each kind's table holds its providers in the order of registration, and a kind without providers has none |
| Auth.FilterKeeps | from_svn/include/svn_auth.h:523-536 | a table holds all the providers of its kind and no others |
| Auth.TableInOrder | from_svn/libsvn_subr/auth.c:150-170 | a table is the registered providers at ascending places, and these are all the places of its kind |
| Auth.WalkRegistered | from_svn/include/svn_auth.h:523-536 | a walk over registered providers asks those of the kind in the order of registration, and gives what each of them offers, all before what the next one does, up to the first error |
| Auth.AuthBaton.FirstCredentials | from_svn/libsvn_subr/auth.c:226-331 | answers the cached credentials or else the first that any provider starts with; fails exactly if no provider is registered for the kind, or a provider fails before another has answered; what is answered is cached, and nothing else changes |
| Auth.IterState.NextCredentials | from_svn/libsvn_subr/auth.c:334-385 | answers the next credentials of the rows one after the other, caches them, and answers none forever after the last; a provider's error is returned at once, and leaves the walk and the cache as they are |
| Auth.IterState.SaveCredentials | from_svn/libsvn_subr/auth.c:388-447 | offers the cached credentials to the current provider and then to all in order until one saves or fails, which ends it; does nothing if the walk is over, nothing is cached or caching is off; what is saved is what was most recently returned for the key, and differs from what this walk returned last exactly if another walk has returned something else for the key since |
| Auth.SavedBySome | from_svn/libsvn_subr/auth.c:420-443 | credentials are saved exactly if some provider that can save does and all such providers before it decline |
| Auth.AskedAre | from_svn/libsvn_subr/auth.c:420-443 | those asked are the providers that have a function for saving, in order, as long as all before them decline |
| Auth.Session | from_svn/include/svn_auth.h:651-711 | for every sequence of first, next, save and forget calls on any number of walks, one result for each call: first answers the cached credentials or the first offer, next the walk's next offer, and what is given is cached and becomes the most recently returned for its key, while nothing else changes; a save stores the credentials most recently returned for its key, or nothing, with the stated cases for each |
| Auth.LastSince | from_svn/include/svn_auth.h:686-696 | the most recent for a key are the most recent since a given answer for it, or that answer |
| Auth.AuthBaton.SetParameter | from_svn/libsvn_subr/auth.c:178-213 | what is visible changes at that name only; a session's own parameters shadow the shared ones and leave them alone |
| Auth.AuthBaton.Forget | from_svn/libsvn_subr/auth.c:450-470 | forgets the one entry, or all |
| Auth.WalkAll | from_svn/include/svn_auth.h:651-696 | first and then next until none yields the cached credentials, if any, followed by everything the providers of the kind offer up to the first error, which it reports, and leaves the last in the cache; with finite rows it ends |
| Auth.PromptIterator.Next | from_svn/libsvn_subr/simple_providers.c:674-700 | passes on what the next prompt comes to, be it credentials, none or an error, up to the limit, and without end if that is negative; an attempt that is made counts whatever comes of it |
| Auth.PromptRow | from_svn/libsvn_subr/simple_providers.c:640-700 | the attempts of a prompting provider are a row as the walk has it: the prompts, as long as they give credentials |
| Auth.AskAgain | from_svn/libsvn_subr/simple_providers.c:674-700 | asked once and then any number of times more, a provider prompts each time up to one more than its limit, and without end if that is negative |
| Auth.KeysShared | from_svn/libsvn_subr/auth.c:216-224 | two kinds share a cache key, for some realms, if and only if they are the same or one is the other followed by a colon and anything |
| Auth.KeysDiffer | from_svn/libsvn_subr/auth.c:216-224 | so entries of kinds without a colon share a key only if they are the same entry |
| Rangelist.IsCanonical | from_svn/libsvn_subr/mergeinfo.c:636-661 | for every list the two loops answer true exactly if all ranges are forward and no two neighbours overlap or could be combined; if the list does not begin below zero, exactly if it is canonical |
| Rangelist.CanonicalIffLooks | from_svn/include/svn_mergeinfo.h:126-135 | canonical lists are those that pass and do not begin below zero |
| Rangelist.KindMeans | from_svn/include/svn_mergeinfo.h:126-135 | a list says of a revision that it is listed exactly if a range holds it, the revisions after its start up to its end, and that it is inheritable exactly if that range is |
| Rangelist.IntervalIterator.Next | from_svn/libsvn_subr/mergeinfo.c:946-968 | the next interval that is not empty begins where the last one ended; at the end of the list there is none |
| Rangelist.IntervalIterator.IntervalSays | from_svn/libsvn_subr/mergeinfo.c:857-907 | an interval says what the list says of its revisions |
| Rangelist.RangelistBuilder.AddInterval | from_svn/libsvn_subr/mergeinfo.c:1005-1025 | the list built stays canonical and says of the interval's revisions what the interval says |
| Rangelist.Merge | from_svn/libsvn_subr/mergeinfo.c:1027-1083 | for sorted forward non-overlapping lists the result is canonical; it lists exactly the revisions that either list has, and as inheritable those that are inheritable in either |
| Rangelist.CanonicalIsUnique | from_svn/include/svn_mergeinfo.h:126-135 | two canonical lists that say the same of every revision are the same list |
| Rangelist.MergeLaws | from_svn/include/svn_mergeinfo.h:313-337 | merging is commutative and associative, and idempotent on canonical lists |
| RangelistRemove.IntersectOrRemove | from_svn/libsvn_subr/mergeinfo.c:1260-1446 | the loop over both lists, with its working copy of the current range, computes the specified output |
| RangelistRemove.OutputSays | from_svn/libsvn_subr/mergeinfo.c:1260-1446 | the output keeps or removes exactly what the walk matches and says of all other revisions what the second list says, or nothing |
| RangelistRemove.MatchedUnlessLost | from_svn/libsvn_subr/mergeinfo.c:1276-1420 | a revision of two ranges that may be matched is matched by the walk if and only if it is not lost (`LostAt`): one of the two ranges lies across an earlier range that it cannot be matched with, and has not been cut down to begin there by a range that was matched with it |
| RangelistRemove.MatchedIsTaken | from_svn/libsvn_subr/mergeinfo.c:1276-1420 | so what the walk matches can be read off the two lists |
| RangelistRemove.WalkIsExact | from_svn/libsvn_subr/mergeinfo.c:1276-1420 | the walk matches exactly the revisions of which both lists say the same, if and only if nothing is lost |
| RangelistRemove.LossIsReal | from_svn/libsvn_subr/mergeinfo.c:1392-1418 | in that case there is a revision said alike that is not matched |
| RangelistRemove.LosingExample | from_svn/libsvn_subr/mergeinfo.c:1392-1400 | such a case: the eraser covers two ranges, the first of the other inheritability, and the second is not removed |
| RangelistRemove.NothingLost | from_svn/include/svn_mergeinfo.h:411-424 | without regard to inheritance nothing is lost, for any two lists |
| RangelistOps.InheritedInRuns | from_svn/libsvn_subr/mergeinfo.c:66-86 | without regard to inheritance, a revision of the output is inheritable if and only if some revision of the same unbroken run of kept revisions is |
| RangelistOps.Remove | from_svn/include/svn_mergeinfo.h:357-378 | the result says what the whiteboard says, without what two ranges share that may be matched and is not lost, for every revision; that is without all that is said alike exactly if nothing is lost; without regard to inheritance what remains is inheritable exactly where its run holds an inheritable revision of the whiteboard |
| RangelistOps.Intersect | from_svn/include/svn_mergeinfo.h:411-435 | the result says what two ranges share that may be matched and is not lost; that is all that both lists say alike exactly if nothing is lost; without regard to inheritance it is inheritable exactly where its run holds a revision inheritable in either list; it is non-inheritable only where both lists are |
| RangelistOps.Diff | from_svn/include/svn_mergeinfo.h:295-311 | taking away what was deleted and putting in what was added leads from the first list to the second, if and only if whatever two ranges share and is lost when the second list is removed from the first is also lost the other way round; so always if nothing is lost then |
| RangelistOps.DiffFails | from_svn/libsvn_subr/mergeinfo.c:1506-1510 | an example that fails: from 1-2, 3 (non-inheritable) and 6 to 1-10, with regard to inheritance, revision 6 is deleted and not added back |
| RangelistOps.CombiningRaises | from_svn/libsvn_subr/mergeinfo.c:66-86 | an example: removing nothing makes a non-inheritable range inheritable, since it adjoins an inheritable one |

## Left out

- Svndiff byte layout, zlib and LZ4 compression: not given in the header; an abstract self-delimiting codec stands in.
- Checksums, pools, cancellation callbacks, localisation and deprecated wrappers.
- The choice of matches in the delta generator and of common subsequences in the difference engine: any choice is allowed.
- `abort_edit` and the copy sources of added nodes: they add no rule on the order of calls.
- Files whose text delta is deferred until after the root is closed are in the rules of the editor, but the driver's callback does not use them.
- SvndiffParser.Close: what a failing window handler returns is not modelled; handlers always succeed.
- Windows drive letters, UNC paths and URIs: the path operations are those for relpaths and for absolute POSIX paths.
- CondenseTargets: what a target is as an absolute path depends on the current directory, and is a parameter.
- IsUnderRoot: the walk is the documented one, since the function it delegates to is in APR; errors other than climbing above the base are not modelled.
- HashRead: at the end of the stream a "D" record without its newline is refused; the code compares an uninitialised variable there.
- DumpAndRead: keys are C strings, as documented, and no longer than the number parser's limit; a key with a NUL byte would be printed short.
- The deprecated `svn_hash_read` with its own quirks.
- FirstCredentials: what a provider offers for a realm does not change during a walk.
- MergeKeepsSide: tile by tile the condition is exact; of the whole merge it is sufficient, as other tiles may add up to the side by accident (`MergeRules.KeptByAccident`).
- ReadlineDiffText: lines of the diff text end with the terminator of the text they belong to, and the end is signalled by no line.
- Context lines around conflicts in the style that shows only conflicts.
- Parsing, printing and canonicalizing mergeinfo.
- CombineWithLastrange: the cases for ranges that overlap and differ in inheritability are not modelled; the ranges added never overlap, as the proof of OutputSays shows.
- Merge: the list is returned instead of replacing the first argument in place.
