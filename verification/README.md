# vscode-gsc core, modelled in Dafny

This project models the core of the vscode-gsc language extension for the
GSC scripting language. The model covers four parts:

- **Parsers.** Comments and strings (text segments), the stretches at brace
  depth 0 (global segments), `#include` directives, callable definitions
  with their doc comments and parameter occurrences, and callable usages
  with their argument lists.
- **Segment structures.** The sorted segment map with its binary search and
  its inversion, the segment tree, and both segment builders.
- **Store structures.** The async cache, the set map, the layered value and
  the layered value map.
- **Script store.** The script filesystem (directory tree, file <-> script
  maps, dependency tracker), `Script` (path, file, include and definition
  resolution, invalidation), the file slots of `GscScript`, and the two
  static repositories: keywords, and game definitions per engine and
  featureset.

Every operation is a function or method over immutable data. Its meaning
is stated against a partner: an inverse and the round trip it completes, an
invariant it keeps, an independent reference definition (the brace depth,
the leftmost match, the edge relation), or a completeness property such as
"the scan misses no match".

Conventions:

- Document positions are character offsets.
- A regular expression is a hand-written scanner whose lemmas state which
  match the JavaScript engine takes. `\s` is whitespace and `\w` is
  `[A-Za-z0-9_]`.
- Object identity, of scripts and directories, is an arena index.
- The vscode document API is reduced to `getText` and `offsetAt` on a
  string.

## Model

| member | source | states |
|---|---|---|
| Util.EscapeAt | src/util.ts:5-7 | the character at input offset i sits in the escaped text after i plus the special characters before it, preceded by one backslash exactly when it is special |
| Util.UnescapeEscape | src/util.ts:5-7 | escaping loses nothing: unescaping the escaped text gives the input back |
| Util.EscapeIdentifier | src/parse/callableDefs.ts:121 | an identifier is left unchanged by escaping, so a parameter name is searched for literally |
| Util.RemoveFileExtension | src/util.ts:9-13 | a name without `.` is returned whole; otherwise the result is the prefix before the last `.`, and no `.` follows that position |
| Chars.Split | src/models/Store/gsc/ScriptFilesystem.ts:163-165 | `split` on a one-character separator gives at least one part, none holding the separator |
| Chars.JoinSplit | src/models/Store/gsc/ScriptFilesystem.ts:163-165 | joining the parts of a split restores the string |
| Chars.SplitJoin | src/models/Store/gsc/Script.ts:28-36 | splitting a join of separator-free parts gives the parts back |
| Chars.TrimExact | src/parse/callableDefs.ts:24-25 | `trim` removes whitespace at both ends and nothing else; the result is a slice with only whitespace around it |
| Segments.SegmentIndex | src/models/Segment/shared.ts:4-28 | the answer is -1 or the index of a segment that matches the position; an empty list gives -1 |
| Segments.SearchComplete | src/models/Segment/shared.ts:15-26 | on a sorted list the binary search finds a match whenever one lies between low and high |
| Segments.SegmentIndexFinds | src/models/Segment/shared.ts:4-28 | on a sorted list, -1 is returned exactly when no segment matches |
| Segments.IndexAt | src/models/Segment/SegmentMap.ts:16-18 | `indexAt` is a matching index or -1, and on a sorted map -1 exactly when nothing matches |
| Segments.HasAt | src/models/Segment/SegmentMap.ts:20-22 | `hasAt` holds only when a segment matches, and on a sorted map exactly then |
| Segments.GetAt | src/models/Segment/SegmentMap.ts:24-26 | `getAt` returns a matching segment of the map, undefined on a sorted map exactly when none matches |
| Segments.GetByIndex | src/models/Segment/SegmentMap.ts:35-37 | `getByIndex` is defined exactly for indices inside the list, where it is that segment |
| Segments.InvertedCount | src/models/Segment/SegmentMap.ts:45-70 | n segments give n-1 inner gaps, plus a leading gap iff the first does not start at 0 and a trailing gap iff the last does not end at the end |
| Segments.InvertedSorted | src/models/Segment/SegmentMap.ts:45-70 | the gaps of sorted segments are sorted and inside the document |
| Segments.InvertedTiles | src/models/Segment/SegmentMap.ts:45-70 | segments and gaps tile the document: every offset lies in exactly one of the two |
| Segments.InvertTwice | src/models/Segment/SegmentMap.ts:45-70 | inverting twice covers exactly what the segments cover |
| SegmentTrees.Has | src/models/Segment/SegmentTree.ts:12-14 | `has` holds only when a root matches, and for sorted roots exactly then |
| SegmentTrees.Get | src/models/Segment/SegmentTree.ts:42-53 | `get` is a chain from a root down through children, each matching the position, empty for sorted roots exactly when no root matches |
| SegmentTrees.GetIsDeepest | src/models/Segment/SegmentTree.ts:42-53 | on a sorted tree the chain stops only where no child of its last segment matches |
| SegmentTrees.FlattenSize | src/models/Segment/SegmentTree.ts:59-69 | the iteration yields as many segments as the tree holds |
| SegmentTrees.FlattenSubtree | src/models/Segment/SegmentTree.ts:59-69 | pre-order: the iteration of a segment's children directly follows the segment |
| SegmentBuilders.Store | src/models/Segment/SegmentBuilder.ts:33-41 | a segment becomes a root when no start is open, otherwise it joins the innermost start's children |
| SegmentBuilders.End | src/models/Segment/SegmentBuilder.ts:17-26 | `end` throws exactly when no segment was started |
| SegmentBuilders.SetAllRoots | src/models/Segment/SegmentBuilder.ts:28-41 | with no start open, `set` appends one childless root per entry |
| SegmentBuilders.SetAllInsideStart | src/models/Segment/SegmentBuilder.ts:28-41 | while a start is open, `set` only appends to the innermost start's children |
| SegmentBuilders.StartSetEnd | src/models/Segment/SegmentBuilder.ts:13-41 | start, sets and end make one segment from start to end, holding exactly the segments set in between |
| SegmentBuilders.PushKeepsInv | src/models/Segment/SegmentBuilder.ts:56-65 | `push` of a range starting no earlier than the open ones keeps the linear builder's nesting invariant |
| SegmentBuilders.PushAllKeepsInv | src/models/Segment/SegmentBuilder.ts:56-65 | pushing ranges in order of their starts keeps the invariant |
| SegmentBuilders.FinalizeNested | src/models/Segment/SegmentBuilder.ts:67-71 | the corrected `finalize` leaves every child inside its parent |
| SegmentBuilders.LinearTreeNested | src/models/Segment/SegmentBuilder.ts:56-76 | with the corrected `finalize`, ranges pushed in start order give a tree in which every child lies inside its parent |
| SegmentBuilders.NestedPairAsWritten | src/models/Segment/SegmentBuilder.ts:67-71 | the written `finalize` turns [0,10) then [2,5) into the root [0,5) with the child [2,10) |
| SegmentBuilders.NestedPairIntended | src/models/Segment/SegmentBuilder.ts:67-76 | the corrected `finalize` turns them into the root [0,10) with the child [2,5) |
| SegmentBuilders.FinalizeAsWrittenBreaksNesting | src/models/Segment/SegmentBuilder.ts:67-71 | the written `finalize` yields a child that sticks out of its parent |
| SegmentBuilders.FinalizeAgreesWhenFlat | src/models/Segment/SegmentBuilder.ts:56-76 | with at most one range left open, the written and the corrected `finalize` build the same tree |
| SegmentBuilders.TwoNestedAsWritten | src/models/Segment/SegmentBuilder.ts:67-71 | for any range pushed inside another, the written `finalize` swaps their ends: the root ends where the inner range ends and the child where the outer one does |
| TextSegments.BlockEnd | src/parse/textSegments.ts:7-8 | a block comment ends after the first `*/` following its `/*`, or at the end of the text |
| TextSegments.LineEnd | src/parse/textSegments.ts:7-8 | a line comment ends before the first `\r` or `\n`, or at the end of the text |
| TextSegments.StringEndExact | src/parse/textSegments.ts:7-8 | a string literal ends just after its first `"` not escaped by an odd run of backslashes; there is none exactly when no such quote follows and the text ends in an unescaped backslash |
| TextSegments.TokensMatch | src/parse/textSegments.ts:11-21 | each token found is the alternation's match at its own start |
| TextSegments.TokensOrdered | src/parse/textSegments.ts:11-21 | the tokens do not overlap and come in text order |
| TextSegments.TokensComplete | src/parse/textSegments.ts:11-21 | at every offset no token covers, no token starts |
| TextSegments.TextSegmentsSorted | src/parse/textSegments.ts:11-22 | the text segments are sorted, disjoint and inside the text, as the binary search needs |
| TextSegments.TextSegmentsSound | src/parse/textSegments.ts:11-22 | every text segment is a comment or string the pattern matches at its start |
| TextSegments.TextSegmentsComplete | src/parse/textSegments.ts:11-22 | no comment or string start is missed outside the segments |
| GlobalSegments.GapIsCode | src/parse/globalSegments.ts:15-16 | every offset of an inverted range lies outside comments and strings |
| GlobalSegments.StepKeepsInv | src/parse/globalSegments.ts:21-41 | reading a brace outside comments and strings keeps the depth and stretch invariant |
| GlobalSegments.ScanGap | src/parse/globalSegments.ts:17-44 | the loop over one gap leaves the state the brace-by-brace reference scan reaches at the gap's end |
| GlobalSegments.ParseGlobalSegments | src/parse/globalSegments.ts:6-50 | the loop over the gaps computes the reference scan of every brace outside comments and strings; the segments are sorted, disjoint, start at 0 or after a `}` closing depth 1, end at a `{` opening depth 1, the last one possibly at the end of the text |
| GlobalSegments.OpenAtDepth0EndsSegment | src/parse/globalSegments.ts:19-31 | every `{` outside comments and strings at brace depth 0 ends some segment |
| GlobalSegments.SegmentsAtDepth0 | src/parse/globalSegments.ts:13-47 | every offset inside a segment lies at brace depth 0 |
| GlobalSegments.LastSegmentIffDepth0 | src/parse/globalSegments.ts:46-48 | the last segment runs to the end of the text exactly when the braces leave the depth at 0 |
| MatchAll.ScanFound | src/parse/textSegments.ts:11 | each offset `matchAll` reports is a match of the pattern |
| MatchAll.ScanOrdered | src/parse/textSegments.ts:11 | reported matches do not overlap |
| MatchAll.ScanComplete | src/parse/textSegments.ts:11 | every match outside the reported ones is itself reported |
| Includes.IncludeAtExact | src/parse/includes.ts:13 | a match is `#include`, whitespace and the longest run of path characters, with `\b` satisfied; the pattern matches exactly when such a run can start |
| Includes.MatchesOrdered | src/parse/includes.ts:18 | the directives found do not overlap and come in order |
| Includes.MatchesComplete | src/parse/includes.ts:18 | the search misses no directive |
| Includes.Dedup | src/parse/includes.ts:36 | `[...new Set(paths)]` keeps each path once, and holds exactly the paths seen |
| Includes.DedupOrder | src/parse/includes.ts:36 | the distinct paths come in the order of their first appearance |
| Includes.IncludePathsExact | src/parse/includes.ts:13-36 | with match offsets shifted to document offsets (the corrected `parseIncludes`), a path is listed iff a directive outside comments and strings in the first global segment names it, and it is listed once |
| Includes.IncludeRangesInDocument | src/parse/includes.ts:18-32 | each directive's segment starts with `#include` where the document holds it |
| Includes.IncludeOffsetsShifted | src/parse/includes.ts:14-21 | offsets taken in the segment's text and read as document offsets drop the directive of `}/**/#include a`; the shifted offset keeps it |
| DocComments.MarkerAtExact | src/parse/callableDefs.ts:17 | a marker is `///`, whitespace, the word and a word boundary |
| DocComments.CloseFromExact | src/parse/callableDefs.ts:17 | the greedy body closes at the last end marker, and there is one exactly when an end marker follows |
| DocComments.EntryAtSound | src/parse/callableDefs.ts:22 | an entry's key stops at the line's first `:`, its value at the line's last `"`, nothing crossing a line end |
| DocComments.EntriesMatch | src/parse/callableDefs.ts:22-23 | every entry found matches the entry pattern where it starts |
| DocComments.EntriesOrdered | src/parse/callableDefs.ts:22-23 | the entries do not overlap and come in order |
| DocComments.EntriesComplete | src/parse/callableDefs.ts:22-23 | no entry is missed |
| DocComments.ParseDocComment | src/parse/callableDefs.ts:16-66 | none exactly when no begin marker is followed by an end marker; otherwise the doc comment made by applying, in order, the entries between the leftmost begin marker and the last end marker |
| DocComments.ApplyField | src/parse/callableDefs.ts:24-62 | an empty value changes nothing, and only a `name` entry changes the renames |
| DocComments.RenameExact | src/parse/callableDefs.ts:44-48 | when a `<` comes before a `>` in a parameter of a `name` entry, its rename is the text between the first `<` (after the whitespace that follows it) and the last `>`; when none does, the rename is the trimmed parameter |
| DocComments.ArgPartsExact | src/parse/callableDefs.ts:53-56 | an argument entry is read exactly when some `<` is followed later by a `>` that whitespace and a `:` follow; its name is the trimmed text between the first `<` and the first such `>` after it, and its description is the trimmed text after the `:` |
| DocComments.RenamesLastWins | src/parse/callableDefs.ts:38-49 | after a run of entries, the renames are those of the last non-empty `name` entry that holds parentheses, or the starting renames when there is none |
| DocComments.ScalarFieldsLastWins | src/parse/callableDefs.ts:28-37 | summary, example and receiver hold the value of the last entry setting them, or keep their old value |
| DocComments.ParamsLastWins | src/parse/callableDefs.ts:51-61 | a parameter's documentation comes from the last argument entry naming it, optional iff that key is `optionalarg` |
| DocComments.ArgOptional | src/parse/callableDefs.ts:57 | an argument is optional exactly when its key is `optionalarg` |
| CallableDefs.HeadAtExact | src/parse/callableDefs.ts:74 | a head is an identifier at a word boundary, whitespace, `(`, text without `)`, `)` and only whitespace up to the end |
| CallableDefs.FirstHeadLeftmost | src/parse/callableDefs.ts:81 | the head found is the leftmost, and none is found only when the pattern matches nowhere |
| CallableDefs.ParamAtExact | src/parse/callableDefs.ts:97 | a parameter match is an identifier at a word boundary followed by whitespace and a comma or the end |
| CallableDefs.ParamsMatch | src/parse/callableDefs.ts:97-107 | every parameter found matches the parameter pattern where it starts |
| CallableDefs.ParamsOrdered | src/parse/callableDefs.ts:97-107 | the parameters found do not overlap and come in order |
| CallableDefs.ParamsComplete | src/parse/callableDefs.ts:97-107 | the scan misses no parameter: an offset at or after where the scan starts that lies inside no parameter found is not the start of a match of the parameter pattern |
| CallableDefProps.OccurrencesComplete | src/parse/callableDefs.ts:121-123 | the occurrence search misses no occurrence of an identifier |
| CallableDefProps.NoOverlap | src/parse/callableDefs.ts:121 | two occurrences of an identifier never overlap |
| CallableDefProps.KeptSound | src/parse/callableDefs.ts:123-127 | what is kept is an occurrence not inside a comment or string |
| CallableDefProps.KeptComplete | src/parse/callableDefs.ts:123-127 | every occurrence outside comments and strings is kept |
| CallableDefProps.ParamSegmentsSound | src/parse/callableDefs.ts:120-128 | every parameter segment covers an occurrence, outside comments and strings, of the parameter whose index it carries |
| CallableDefProps.ParamSegmentsComplete | src/parse/callableDefs.ts:120-128 | every such occurrence of a parameter has a segment carrying that parameter's index |
| CallableDefProps.DefInSegment | src/parse/callableDefs.ts:84-92 | a definition's name lies within its global segment |
| CallableDefProps.CallableDefsSorted | src/parse/callableDefs.ts:77-164 | the definitions are sorted and inside the document, at most one per global segment |
| CallableUsages.UsageAtSound | src/parse/callableUsages.ts:18-19 | a usage match is a maximal identifier, optionally after a maximal path and `::`; a call iff whitespace and `(` follow, a reference only after `::` |
| CallableUsages.UsageAtFindsCall | src/parse/callableUsages.ts:18-19 | an identifier followed by `(` is matched as a call where it starts |
| CallableUsages.UsageMatchesOrdered | src/parse/callableUsages.ts:26 | usage matches come left to right without overlapping |
| CallableUsages.UsageMatchesComplete | src/parse/callableUsages.ts:26 | no usage match is missed |
| CallableUsages.KeptMatchesMember | src/parse/callableUsages.ts:31-33 | a match is kept exactly when its name does not start in a comment or string |
| CallableUsages.CallArgsExact | src/parse/callableUsages.ts:55-92 | the argument list closes at the first visible `;` or level-1 `)`, and the argument starts are exactly the offsets after the visible level-1 commas before it |
| CallableUsages.ArgsJump | src/parse/callableUsages.ts:66-71 | a delimiter inside a comment or string resumes the scan at that segment's end, ignoring what lies between |
| CallableUsages.ContentIsTrim | src/parse/callableUsages.ts:96-106 | an argument's content range holds exactly its trimmed text, absent iff the argument is blank |
| CallableUsages.ParamsTile | src/parse/callableUsages.ts:114-117 | the argument ranges tile the list: the first starts after `(`, each next one after a comma, the last ends at the closing offset |
| CallableUsages.ReferenceUsageShape | src/parse/callableUsages.ts:50-53 | a reference has no argument list and ends with its name |
| CallableUsages.UsageNamesOutside | src/parse/callableUsages.ts:22-35 | every usage names an identifier at its range, outside every global segment and every comment and string |
| CallableUsages.GapUsagesComplete | src/parse/callableUsages.ts:22-33 | every match whose name is outside comments and strings gives a usage |
| CallableUsages.UsagesNested | src/parse/callableUsages.ts:134 | with the corrected `finalize`, the usage tree is nested: the usages inside a call's arguments lie inside the call |
| CallableUsages.UsagesAsWrittenWhenFlat | src/parse/callableUsages.ts:134 | when at most one call is open at the end, the written `finalize` gives the same usage tree as the corrected one |
| CallableUsages.NestedCallsAsWritten | src/parse/callableUsages.ts:134 | a call whose argument holds another call comes out of the written `finalize` with the two ends swapped |
| Caches.Get | src/models/Cache/Cache.ts:9-16 | `getFunc` is called exactly when the key has no cached value; a cached value is returned, a made one is returned and stored; afterwards the key holds the returned value and no other key changes |
| Caches.CachedHit | src/models/Cache/Cache.ts:18-48 | once a computation has stored its value, the next `getAsync` for the key returns it without starting or joining a computation |
| Caches.GetTwice | src/models/Cache/Cache.ts:9-16 | a second `get` returns the first one's value without calling `getFunc` and changes nothing |
| Caches.SecondCallJoins | src/models/Cache/Cache.ts:25-33 | a second call for an uncached key joins the running computation; the id counter moves once |
| Caches.StartOnlyWhenIdle | src/models/Cache/Cache.ts:25-37 | a computation starts only for a key with none running, and gets a fresh id |
| Caches.CreatorReleases | src/models/Cache/Cache.ts:35-48 | whether the computation resolves or rejects, the creator releases the slot; a joiner leaves it alone |
| Caches.UndefinedNeverStored | src/models/Cache/Cache.ts:35-48 | an undefined (cancelled) result is never stored and the call retries; a rejection is rethrown and stores nothing; a defined value is stored for that key only |
| Caches.DeleteOnlyThatKey | src/models/Cache/Cache.ts:55-58 | `delete` unsets the key and cancels its computation, leaving every other key |
| Caches.Clear | src/models/Cache/Cache.ts:60-62 | `clear` unsets and cancels every key of `pending`, keeping the keys |
| Caches.RunKeepsTracked | src/models/Cache/Cache.ts:18-62 | any run of `getAsync`, `delete` and `clear` keeps every stored key in `pending` |
| Caches.ClearEvictsAll | src/models/Cache/Cache.ts:60-62 | with values stored only by `getAsync`, `clear` evicts all of them |
| Caches.ClearIdempotent | src/models/Cache/Cache.ts:60-62 | clearing twice is clearing once |
| Caches.GetThenClear | src/models/Cache/Cache.ts:9-16 | for any key with no computation slot, a value cached by the synchronous `get` survives `clear` |
| SetMaps.AddThenGet | src/models/Structures/SetMap.ts:12-19 | after `add` the key's set is the old one plus the value, no other key changes |
| SetMaps.DeleteThenGet | src/models/Structures/SetMap.ts:21-26 | after `delete` the value is gone, the key undefined iff its set emptied, no other key changes |
| SetMaps.ClearThenGet | src/models/Structures/SetMap.ts:28-30 | after `clear` the key is undefined, no other key changes |
| SetMaps.OperationsKeepNoEmptySets | src/models/Structures/SetMap.ts:8-30 | no operation leaves an empty set stored |
| SetMaps.DeleteUndoesAdd | src/models/Structures/SetMap.ts:12-26 | `delete` undoes an `add` of a new value |
| LayeredValues.LastDefined | src/models/Structures/LayeredValue.ts:25-27 | `findLast` finds the highest defined index, with nothing defined above it |
| LayeredValues.SetAt | src/models/Structures/LayeredValue.ts:15-18 | `set` defines one layer and leaves every other |
| LayeredValues.DeleteAt | src/models/Structures/LayeredValue.ts:20-23 | `delete` undefines one layer and leaves every other |
| LayeredValues.TopIsHighest | src/models/Structures/LayeredValue.ts:11-13 | `top` is the value of the highest defined layer, undefined only when no layer is defined |
| LayeredValues.SetHighestIsTop | src/models/Structures/LayeredValue.ts:15-18 | setting at or above every defined layer makes the value `top` |
| LayeredValues.SetBelowKeepsTop | src/models/Structures/LayeredValue.ts:15-18 | setting below a defined layer leaves `top` |
| LayeredValues.DeleteTopReverts | src/models/Structures/LayeredValue.ts:20-23 | deleting the top layer reverts to the highest defined layer below |
| LayeredValues.NewTop | src/models/Structures/LayeredValue.ts:5-9 | the constructed value's `top` is the value of the highest given layer |
| LayeredValueMaps.GetIsHighestLayer | src/models/Structures/LayeredValueMap.ts:10-13 | `get` is the value of the key's highest defined layer |
| LayeredValueMaps.SetLayers | src/models/Structures/LayeredValueMap.ts:15-19 | `set` defines that one layer of that one key, creating the entry when missing |
| LayeredValueMaps.DeleteLayers | src/models/Structures/LayeredValueMap.ts:21-26 | `delete` undefines that one layer and drops the key iff no layer stays defined |
| LayeredValueMaps.GetDefinedIffPresent | src/models/Structures/LayeredValueMap.ts:10-26 | under the invariant both operations keep, `get` is undefined exactly for missing keys |
| DependencyTrackers.AddEdge | src/models/Store/gsc/DependencyTracker.ts:26-29 | `add` creates the edge in both directions and changes no other |
| DependencyTrackers.RemoveEdge | src/models/Store/gsc/DependencyTracker.ts:31-34 | `remove` takes the edge out of both directions and changes no other |
| DependencyTrackers.AddKeepsMirrored | src/models/Store/gsc/DependencyTracker.ts:26-29 | `add` keeps the two directions describing the same relation |
| DependencyTrackers.RemoveKeepsMirrored | src/models/Store/gsc/DependencyTracker.ts:31-34 | `remove` keeps the two directions describing the same relation |
| DependencyTrackers.ClearAsWritten | src/models/Store/gsc/DependencyTracker.ts:36-41 | the written `clear` leaves the script without dependencies, keeps every other script's, and leaves the dependents untouched |
| DependencyTrackers.OperationsKeepCovers | src/models/Store/gsc/DependencyTracker.ts:26-41 | `add`, `remove` and the written `clear` keep every edge listed among the dependents, so `getDependents` misses no script |
| DependencyTrackers.ClearAsWrittenKeepsInverse | src/models/Store/gsc/DependencyTracker.ts:36-41 | the written `clear` leaves a script among the dependents of a path it no longer depends on |
| DependencyTrackers.ClearedRemovesAllEdges | src/models/Store/gsc/DependencyTracker.ts:36-41 | the corrected `clear` removes every edge of the script in both directions and keeps every other |
| ScriptFilesystems.ParseScriptPath | src/models/Store/gsc/ScriptFilesystem.ts:163-165 | a string path splits on `\` into parts without `\` |
| ScriptFilesystems.CreateThenFind | src/models/Store/gsc/ScriptFilesystem.ts:107-133 | `onCreateFile` throws iff the uri has no file name; else the script is found at the file's path, new iff none was there, registered with the file at the root's priority, and all other scripts are kept |
| ScriptFilesystems.ParseUriOfFile | src/models/Store/gsc/ScriptFilesystem.ts:167-175 | a file's uri parses back into its folders and its name without extension |
| ScriptFilesystems.DeleteThrows | src/models/Store/gsc/ScriptFilesystem.ts:135-146 | `onDeleteFile` throws iff no script is at the file's path, and then leaves the tree alone |
| ScriptFilesystems.DeleteKeepsBacked | src/models/Store/gsc/ScriptFilesystem.ts:142-149 | the file's layer leaves the script's files; while another file backs the script the tree is kept |
| ScriptFilesystems.DeleteUnlinks | src/models/Store/gsc/ScriptFilesystem.ts:147-156 | an unbacked script is no longer found, every other script still is, and only empty directories are pruned |
| ScriptFilesystems.PruneOnlyEmpty | src/models/Store/gsc/ScriptFilesystem.ts:150-156 | the pruning loop only unlinks directories left empty |
| Scripts.Path | src/models/Store/gsc/Script.ts:28-36 | `path` is the names of the directories that have a parent, then the script's name, joined by `\` |
| Scripts.FoundHasPath | src/models/Store/gsc/Script.ts:28-36 | the script found at a path string has that string as its `path` |
| Scripts.FoundByOwnPath | src/models/Store/gsc/Script.ts:28-36 | a live script is found at its own `path` when no name along it holds `\` |
| Scripts.FileIsTopLayer | src/models/Store/gsc/Script.ts:38-42 | `file` is the file of the script's highest layer, and throws only when no layer holds one |
| Scripts.IncludedScriptsExact | src/models/Store/gsc/Script.ts:44-58 | the included scripts are exactly those found at include paths, each at its first occurrence; on any tracker the edges afterwards are exactly the old ones plus one from the script to every include path, a mirrored tracker stays mirrored and a covering one stays covering |
| Scripts.AddDependenciesEdges | src/models/Store/gsc/Script.ts:50-51 | on any tracker, the loop adds exactly the edges from the script to the include paths; a mirrored tracker stays mirrored and a covering one stays covering |
| Scripts.ScopeMergeOwnWins | src/models/Store/gsc/Script.ts:66-73 | the scope holds the script's own definitions, and any other name has the last included script's definition |
| Scripts.ScopeThrows | src/models/Store/gsc/Script.ts:66-67 | the scope throws exactly when the script or an included script has no file |
| Scripts.ResolveLoopDefs | src/models/Store/gsc/Script.ts:88-106 | the usage loop throws the first lookup's error; the definitions are exactly those found by the lookups before it |
| Scripts.ResolveLoopError | src/models/Store/gsc/Script.ts:99-106 | the loop ends in an error exactly when a lookup throws |
| Scripts.ResolveLoopDeps | src/models/Store/gsc/Script.ts:99-101 | on any tracker, the script comes to depend on the path of every usage reached and nothing else changes among the edges; a mirrored tracker stays mirrored and a covering one stays covering |
| Scripts.NotifyDependents | src/models/Store/gsc/Script.ts:112-116 | every dependent of the path has its cache cleared and its dependencies dropped; other scripts keep theirs, and the dependents of every path stay as they were |
| Scripts.OnCreated | src/models/Store/gsc/Script.ts:112-117 | the dependents of the new script's path have their caches cleared and their dependencies dropped |
| Scripts.OnChanged | src/models/Store/gsc/Script.ts:119-132 | the dependents of the script's path and the script itself have their caches cleared and their dependencies dropped |
| Scripts.ChangedForgets | src/models/Store/gsc/Script.ts:119-132 | after `onChanged` neither the script nor its dependents hold a cached value |
| Scripts.InvalidationKeepsCovers | src/models/Store/gsc/Script.ts:112-132 | invalidation keeps every remaining dependency listed among the dependents |
| Scripts.NotifiedStayListed | src/models/Store/gsc/Script.ts:112-132 | a notified script stays among the dependents of the path although its dependencies were dropped |
| GscScripts.Path | src/stores/GscStore/GscScript.ts:21-29 | `path` joins the directory names that have a parent and the name by `\` |
| GscScripts.PathSplits | src/stores/GscStore/GscScript.ts:21-29 | a path of names without `\` splits back into those names |
| GscScripts.GetFileIsHighest | src/stores/GscStore/GscScript.ts:31-33 | `getFile()` is the file of the highest filled slot, undefined only when all are empty |
| GscScripts.AddFileSlots | src/stores/GscStore/GscScript.ts:35-38 | `addFile` fills that one slot and records the priority, leaving everything else |
| GscScripts.RemoveAtResult | src/stores/GscStore/GscScript.ts:40-58 | `removeFile(priority)` answers false exactly for an empty slot; else it empties the slot and forgets the file |
| GscScripts.RemoveFileResult | src/stores/GscStore/GscScript.ts:40-58 | `removeFile(file)` answers false exactly for an unrecorded file; else it empties the recorded slot and forgets the file |
| GscScripts.FileCountIsFilled | src/stores/GscStore/GscScript.ts:17-19 | while slots and map agree, `fileCount` is the number of filled slots |
| GscScripts.RemoveKeepsConsistent | src/stores/GscStore/GscScript.ts:40-58 | both ways of removing keep slots and map agreeing |
| GscScripts.RemoveFileIsRemoveAt | src/stores/GscStore/GscScript.ts:40-58 | removing by file and by its priority agree while slots and map agree |
| GscScripts.FileCountOverCounts | src/stores/GscStore/GscScript.ts:17-38 | two files added at one priority count 2 while one slot is filled |
| KeywordsRepos.AddRawEngines | src/models/Store/static/KeywordsRepo.ts:12-22 | after `addRaw` a name holds an engine iff it did before or a raw entry of the name lists it |
| KeywordsRepos.AddRawNames | src/models/Store/static/KeywordsRepo.ts:12-22 | a name is stored iff it was or a raw entry has it; earlier names keep their order |
| KeywordsRepos.AddRawIdempotent | src/models/Store/static/KeywordsRepo.ts:12-22 | adding the same raw keywords twice is adding them once |
| KeywordsRepos.CreateScopedExact | src/models/Store/static/KeywordsRepo.ts:24-30 | `createScoped` lists exactly the names whose set holds the engine |
| KeywordsRepos.CreateScopedDistinct | src/models/Store/static/KeywordsRepo.ts:24-30 | each name appears once |
| CallableDefsGames.EngineScopesUnion | src/models/Store/static/CallableDefsGame.ts:20-28 | an engine's featuresets are the union of those its raw scopes list |
| CallableDefsGames.AddDefsAppends | src/models/Store/static/CallableDefsGame.ts:11-39 | `addDefs` appends: each name holds its old variants followed by the new ones |
| CallableDefsGames.AddDefsNames | src/models/Store/static/CallableDefsGame.ts:11-39 | a name is stored iff it was or the raw object has it; earlier names stay in front |
| CallableDefsGames.DefInScope | src/models/Store/static/CallableDefsGame.ts:45-48 | a variant is in scope iff a raw scope for the engine lists one of the scope's featuresets |
| CallableDefsGames.ScopedHas | src/models/Store/static/CallableDefsGame.ts:41-53 | a name is in the scoped map iff some variant of it is in scope |
| CallableDefsGames.ScopedLastWins | src/models/Store/static/CallableDefsGame.ts:49 | the scoped map holds the last in-scope variant of the name |

## Left out

- Editor wiring is not modelled: the vscode API, file watchers, the GscStore and GscFile registries, and providers. Each file is a uri string, and a document is its text.
- Asynchrony is not modelled. `getAsync` is a two-step state machine in which the cancellation token is a flag. `Promise.all` is a sequential map.
- `getSegmentIndexAtPos`, which `SegmentMap.indexAt` imports from `./shared` (src/models/Segment/SegmentMap.ts:3, 16-18), is not defined in src/models/Segment/shared.ts, which exports only `getSegmentIndex`; the file defining it is not part of this model. `Segments.IndexAt`, and through it `Segments.HasAt` and `Segments.GetAt`, take it to be `getSegmentIndex` (src/models/Segment/shared.ts:4-28) called with the same segments, position and `matchEnd`.
- `SegmentMap.getIn` is not modelled; the `getSegmentIndicesInRange` it calls (src/models/Segment/SegmentMap.ts:30) is likewise missing from src/models/Segment/shared.ts. The doc-comment lookup of `parseCallableDefs` reads it as the block comments contained in the range.
- `getNextSubstring` is imported from `../util` (src/parse/callableUsages.ts:2); the file defining it is not part of this model, as src/util.ts does not hold it. It is modelled as the earliest offset holding one of the characters.
- Layer and priority numbers are natural numbers. Negative or fractional keys of a JavaScript array are not modelled.
- `toLowerCase` is modelled on ASCII letters only. Offsets are UTF-16 code units taken as plain characters.
- Scripts.ResolveLoopDefs: the lookups are computed before the loop. This is sound because they read the tree and the files, never the tracker the loop writes.
- CallableDefsGames.ScopedLastWins: the iteration order of the resulting `Map` is not modelled, only its contents.
- Scripts.NotifyDependents: the loop walks the dependents as they were when it started. In the source the loop iterates the live set, but the written `clear` never removes anything from it, so the two agree.
- Scripts.NotifyDependents, Scripts.OnCreated, Scripts.OnChanged: they follow the written `clear`, so the tracker's two directions no longer describe the same relation afterwards (only `DependencyTrackers.Covers` is kept); the corrected `clear` is stated separately in `DependencyTrackers.ClearedRemovesAllEdges`.
- `onDeleteFile` notifies no dependents in the code, and the model follows the code.
- The `Script` constructor and its cache creation, and `onCreated`'s call from the filesystem, are not separate members. `OnCreated` takes the filesystem after `onCreateFile`.
- Parameter occurrences of `parseCallableDefs` are gathered parameter by parameter. Consumers only iterate them, so their position order is not stated.

## Findings

| source | as written | input that shows it | evidently intended | confidence | as-written member | corrected member |
|---|---|---|---|---|---|---|
| src/models/Segment/SegmentBuilder.ts:67-71, src/parse/callableUsages.ts:134 | `finalize` ends the pending ranges from the bottom of `endStack`, while each `end` closes the innermost start; `parseCallableUsages` builds its tree with it | push [0,10) then [2,5): the result is root [0,5) with child [2,10); in a function body, a call `f(g(x))` comes out as the call to `g` holding the call to `f`, with their ends swapped | innermost first: root [0,10) with child [2,5) | not executed | SegmentBuilders.FinalizeAsWrittenBreaksNesting, CallableUsages.NestedCallsAsWritten | SegmentBuilders.LinearTreeNested, CallableUsages.UsagesNested |
| src/parse/includes.ts:14-21 | match offsets in the first global segment's text are used as document offsets | `}/**/#include a`: the directive at text offset 4 is checked at document offset 4, inside the comment, and dropped | shift the offsets by where the segment starts | not executed | Includes.IncludeOffsetsShifted | Includes.IncludePathsExact |
| src/models/Store/gsc/DependencyTracker.ts:36-41 | `clear` deletes the forward set before reading it, so no inverse edge is removed | `add(1, "a")`, `clear(1)`: `getDependents("a")` still holds 1 | read the dependencies first, then remove each inverse edge | not executed | DependencyTrackers.ClearAsWrittenKeepsInverse, Scripts.NotifiedStayListed | DependencyTrackers.ClearedRemovesAllEdges |
