# HotfixAI core, modelled in Dafny

HotfixAI is a web studio for editing and publishing existing web sites. A site
is imported from an FTP/SFTP server or a local folder into an in-memory file map
(path → text). The user edits it with help from an AI agent and sees a live
preview. The result is uploaded back to the server. This project models the
deterministic core of that loop and proves properties of the model:

- `FtpRoute` (`app/api/ftp/route.ts`):
  - POST walks a remote directory tree over FTP or SFTP and returns the web
    assets it finds. SFTP is chosen for ports 22 and 8010.
  - PUT publishes files back. It creates each file's directory (FTP
    `ensureDir`, or the SFTP hand-written `mkdirp`) and uploads the files one by
    one, stopping at the first failure. The connection is closed on every exit.
  - The fetch walk is an imperative `FetchSession` class that appends to its
    `files` field. The uploads run against a `Client` class that records its call
    trace. Both are proved against recursive specification functions.
- `Agent` (`lib/agent.ts`): `applyPatchesToMap` (delete, or first-occurrence
  search/replace, with unknown files and missing search text skipped) and
  `fileMapToArray`, over a `FileMap` that keeps the key order of a JavaScript
  object.
- `AgentRoute` (`app/api/agent/route.ts`):
  - Request validation and the choice between patch and rewrite mode.
  - The loop that applies `changes` to the first file. It counts applied and
    failed changes and keeps an 80-character preview of each failed search.
  - The legacy-diff fallback, which keeps only searches longer than 20
    characters.
  - The response choice: 200, 400 or 500, with the message or summary.
- `Preview` (`lib/files.ts`):
  - `pickDefaultHtmlFile` and the choice of entry page.
  - Cafe24 `{$var}` stripping.
  - The path helpers `dirname`, `normalizePath`, `resolveAssetPath` and
    `getRelativePath`.
  - The list of style sheets and scripts that pass 3 auto-injects.
- `Paths`: the path helpers shared by `lib/files.ts` and `chat-panel.tsx`:
  - `dirname`.
  - The `..`/`.` stack normalisation.
  - Query/hash stripping.
  - The "longest key ending with the candidate" fallback.
- `ChatPanel` (`components/studio/chat-panel.tsx`):
  - Narrowing the file map sent to the agent: the selected file, or else the
    first file, plus the CSS/JS files its HTML references when "include related"
    is on.
  - The `sentFiles`/`totalChars` diagnostics.
  - `formatElementContext`.
- `Tree` (`app/start/page.tsx`, `components/studio/file-tree.tsx`):
  - The folder tree built from slash-separated names: folders first, then by a
    locale order.
  - `countDescendants`.
  - The expand/select toggles.
- `FolderTree` (`app/start/page.tsx`):
  - The FTP connect form: the protocol label and the request sent.
  - What the page does with the route's answer: an error, no files, direct
    import of at most 10 files, or the folder picker with the top-level folders
    expanded.
  - The folder-selection filter used by the picker's "next" button.
- `StudioFileTree` (`components/studio/file-tree.tsx`): the initially expanded
  top-level folders, `getFileIcon` and `getFileExtension`.
- `Text` and `FileMaps`: the JavaScript string and object operations used by the
  code above:
  - `includes`, `indexOf`, `lastIndexOf` and `replace` with a string pattern.
  - `split`/`join`, `filter(Boolean)` and `trim`.
  - ASCII case mapping.
  - Default `sort` (UTF-16 code-unit order, here `char` order).
  - Property assignment on a plain object.

Side effects are modelled explicitly:

- The network, the FTP/SFTP libraries, OpenAI and React state are left out.
- Where the code branches on their outcome, the outcome is a parameter or an
  oracle:
  - `Listing.ListFailed`, a rejected download.
  - A `Client` whose `Put`/`Mkdir` may fail.
  - The agent reply as a `Completion`.

## Model

| member | source | states |
|---|---|---|
| Text.ContainsIff | apps/frontend/src/lib/agent.ts:79 | `includes` holds iff the needle occurs at some index |
| Text.ReplaceFirstSplits | apps/frontend/src/lib/agent.ts:80 | `replace` with a string pattern rewrites exactly the first occurrence: prefix before it, replacement, rest after it |
| Text.SplitPartsFree | apps/frontend/src/lib/files.ts:408 | no part of `split(sep)` contains the separator |
| Text.JoinSplit | apps/frontend/src/lib/files.ts:408-415 | `split(sep).join(sep)` gives back the string |
| Text.SplitJoin | apps/frontend/src/lib/files.ts:408-415 | splitting a join of separator-free parts gives back the parts |
| Text.JoinAt | apps/frontend/src/app/start/page.tsx:208-213 | a join splits at any inner index into the join of the prefix, the separator and the join of the rest |
| Text.NonEmptyMembers | apps/frontend/src/app/start/page.tsx:200 | `filter(Boolean)` keeps exactly the non-empty elements |
| Text.SegmentsShape | apps/frontend/src/lib/files.ts:466-467 | the non-empty slash-separated segments are non-empty and slash-free |
| Text.StripLeadingSlashesShape | apps/frontend/src/lib/files.ts:401 | stripping leading slashes removes a prefix of slashes and leaves a string that does not start with one |
| Text.TrimSlashesSlice | apps/frontend/src/app/api/ftp/route.ts:166 | trimming slashes at both ends leaves a slice with no slash at either end |
| Text.TrimEmptyIff | apps/frontend/src/app/api/ftp/route.ts:117-118 | `trim()` is empty iff every character is white space or a line terminator |
| Text.LastIndexOfSpec | apps/frontend/src/lib/files.ts:397-400 | `lastIndexOf` is -1 iff the character is absent; otherwise it finds the character and none follows it |
| Text.LexLeqIsTotalPreorder | apps/frontend/src/lib/files.ts:378 | the default sort order on strings is total and transitive |
| Text.SortStrings | apps/frontend/src/lib/files.ts:378 | the default `sort` gives a sorted permutation of its input |
| FileMaps.AssignSpec | apps/frontend/src/components/studio/chat-panel.tsx:99 | assigning a property keeps the map well formed, sets that value, keeps every other entry and keeps the old key order as a prefix |
| Paths.DirnameSpec | apps/frontend/src/lib/files.ts:397-400 | `dirname` is "" without a slash; otherwise it is the text before the last slash |
| Paths.NormalizePath | apps/frontend/src/lib/files.ts:407-416 | the stack loop computes the normal form of the path's segments |
| Paths.NormalizeClean | apps/frontend/src/lib/files.ts:407-416 | every segment the stack keeps is a plain segment (not empty, `.` or `..`) of the input |
| Paths.NormalizedBySegments | apps/frontend/src/lib/files.ts:408-415 | normalisation depends only on the non-empty segments |
| Paths.RunUps | apps/frontend/src/lib/files.ts:412 | a run of `..` segments pops that many entries off the stack |
| Paths.NormalizeOfPlain | apps/frontend/src/lib/files.ts:407-416 | a list of plain segments is its own normal form |
| Paths.NormalizedSegments | apps/frontend/src/lib/files.ts:407-416 | every `/`-part of a non-empty normalised path is plain and slash-free |
| Paths.NormalizedIdempotent | apps/frontend/src/lib/files.ts:407-416 | normalising twice gives the same as normalising once |
| Paths.StripQuerySpec | apps/frontend/src/lib/files.ts:423 | `/[?#].*$/` cuts at the first `?` or `#` with no line terminator after it (`.` stops at one and `$` is the end of the text), keeping the text before it, and keeps all of the text when there is none; without line terminators that is the prefix before the first `?` or `#`, and the result holds neither |
| Paths.BestSuffixMatch | apps/frontend/src/lib/files.ts:435-441 | the loop over the keys returns the specified suffix match |
| Paths.BestSuffixSpec | apps/frontend/src/components/studio/chat-panel.tsx:136-143 | the fallback answers None iff no key matches; otherwise it is a matching key no shorter than any other, and longer than every non-empty match before it |
| FtpRoute.ChildPathShape | apps/frontend/src/app/api/ftp/route.ts:48 | a child path starts with the directory and ends with `/name`, adding a slash only when the directory lacks one |
| FtpRoute.WalkCompleteIndependent | apps/frontend/src/app/api/ftp/route.ts:45-64 | files already collected do not change what the rest of the walk adds |
| FtpRoute.ReachesUnder | apps/frontend/src/app/api/ftp/route.ts:45-64 | an entry reached through the listing tree is not a directory (any other kind: a file, a link) and its path starts with the start directory and ends with `/` and its name |
| FtpRoute.WalkFilesFromLeaves | apps/frontend/src/app/api/ftp/route.ts:45-64 | every returned file is one pushed by the leaf step of an entry reached from the start directory through the listing tree |
| FtpRoute.WalkKeepsReachedLeaves | apps/frontend/src/app/api/ftp/route.ts:45-64 | when no listing fails, every file the leaf step pushes for a reached entry is in the result |
| FtpRoute.WalkMembers | apps/frontend/src/app/api/ftp/route.ts:45-64 | when no listing fails, a file is in the result iff the leaf step of some reached entry pushes it |
| FtpRoute.LeafFileShape | apps/frontend/src/app/api/ftp/route.ts:51-61 | a kept leaf is named by its path without leading slashes and holds the downloaded text |
| FtpRoute.WalkEmitsOnlyWebAssets | apps/frontend/src/app/api/ftp/route.ts:52-57 | every returned file comes from a reached entry whose name ends in `.html`, `.htm`, `.css` or `.js` (any case) and, over SFTP, that is a regular file; its name is the path without leading slashes and its content that path's download |
| FtpRoute.WalkFetchesEveryAsset | apps/frontend/src/app/api/ftp/route.ts:45-64 | when no listing fails, a file is returned iff it is the download of a reached entry that passes the filter (and, over SFTP, the regular-file test of lines 92-94), named by its path without leading slashes |
| FtpRoute.FailedDownloadSkipsOnlyItsFile | apps/frontend/src/app/api/ftp/route.ts:54-61 | a download that throws at one path (the `catch` of line 58, and line 99 over SFTP) changes neither completeness nor the order of the other files, and drops exactly the files of that path |
| FtpRoute.LeafSftpSubsequence | apps/frontend/src/app/api/ftp/route.ts:90-102 | what the SFTP walk adds for one entry is a subsequence of what the FTP walk adds for it |
| FtpRoute.WalkSameWithoutLinks | apps/frontend/src/app/api/ftp/route.ts:84-105 | on a tree holding only directories and regular files the two walks agree |
| FtpRoute.SftpWalkSubsequenceOfFtp | apps/frontend/src/app/api/ftp/route.ts:84-105 | the SFTP walk's result is a subsequence of the FTP walk's result |
| FtpRoute.FetchSession.constructor | apps/frontend/src/app/api/ftp/route.ts:44 | a session starts with no files |
| FtpRoute.FetchSession.Walk | apps/frontend/src/app/api/ftp/route.ts:45-64 | the recursive walk appends exactly what the walk specification adds, or reports the listing failure |
| FtpRoute.FetchSession.VisitEntry | apps/frontend/src/app/api/ftp/route.ts:47-63 | one entry recurses into a directory, or keeps the file when it is a downloaded web asset |
| FtpRoute.FetchSession.Close | apps/frontend/src/app/api/ftp/route.ts:66-68 | closing leaves the collected files unchanged |
| FtpRoute.ProtocolSelection | apps/frontend/src/app/api/ftp/route.ts:119-125 | without a port the default is 22 when the protocol is `sftp` and 21 otherwise; SFTP is used iff the protocol is `sftp` or the port is 22 or 8010 |
| FtpRoute.StartDir | apps/frontend/src/app/api/ftp/route.ts:122 | the walk never starts from an empty path (the default is `/`) |
| FtpRoute.Fetch | apps/frontend/src/app/api/ftp/route.ts:21-70 | fetching gives the specified walk result for the chosen protocol, or the failure; the session is closed on every exit and holds exactly the files a 200 carries (none when the connection fails) |
| FtpRoute.Post | apps/frontend/src/app/api/ftp/route.ts:113-148 | the handler answers the specified response: 400 without a host, 500 on a failure, otherwise 200 with the files |
| FtpRoute.PostContract | apps/frontend/src/app/api/ftp/route.ts:113-148 | an empty trimmed host gives 400 whatever the server; otherwise, when every listing succeeds, a 200 carries exactly the downloads of the entries reached from the start directory that pass the filter, each named without a leading slash |
| FtpRoute.RemotePathShape | apps/frontend/src/app/api/ftp/route.ts:166 | the remote path starts with `/`, ends with `/` and the name without leading slashes, and begins with the trimmed base |
| FtpRoute.TargetDirIsParent | apps/frontend/src/app/api/ftp/route.ts:167 | the directory ensured for a file is the remote path before its last slash, or `/` at the root |
| FtpRoute.MkdirpProbesEveryPrefix | apps/frontend/src/app/api/ftp/route.ts:187-203 | `mkdirp` probes every prefix `/s1/.../sk` of the directory's segments, shortest first, and nothing for `/` |
| FtpRoute.MkdirpCreatesMissing | apps/frontend/src/app/api/ftp/route.ts:193-201 | a prefix is created iff its probe did not find it |
| FtpRoute.MkdirpNeverUploads | apps/frontend/src/app/api/ftp/route.ts:187-203 | `mkdirp` puts no file |
| FtpRoute.PlanAllPointwise | apps/frontend/src/app/api/ftp/route.ts:165-167 | each file's remote path and target directory are computed from that file alone |
| FtpRoute.UploadOkIff | apps/frontend/src/app/api/ftp/route.ts:165-170 | an upload succeeds iff every step succeeds |
| FtpRoute.UploadPutsAll | apps/frontend/src/app/api/ftp/route.ts:165-170 | a successful upload puts every file, in order, at its remote path |
| FtpRoute.UploadStopsAtFirstFailure | apps/frontend/src/app/api/ftp/route.ts:204-209 | after the first failing step nothing more is put |
| FtpRoute.PublishClosesOnEveryExit | apps/frontend/src/app/api/ftp/route.ts:157-173 | the call trace starts with the only connect and ends with the only close, whether it succeeded or failed; a refused connection closes at once |
| FtpRoute.FtpFileCalls | apps/frontend/src/app/api/ftp/route.ts:168-169 | over FTP each file costs one `ensureDir` of its directory, then one put unless that failed |
| FtpRoute.FtpEnsuresDirBeforePut | apps/frontend/src/app/api/ftp/route.ts:165-170 | every put follows an `ensureDir` of that file's directory |
| FtpRoute.EnsurePrefix | apps/frontend/src/app/api/ftp/route.ts:191-201 | one prefix is probed: nothing more when present; when reported absent it is created, and a failed `mkdir` is retried once; a probe that throws leads to one `mkdir`; no error stops the upload |
| FtpRoute.Mkdirp | apps/frontend/src/app/api/ftp/route.ts:187-203 | the loop appends the specified probe/create calls to the client's trace |
| FtpRoute.UploadFile | apps/frontend/src/app/api/ftp/route.ts:204-209 | one file's step appends its specified calls and reports their outcome |
| FtpRoute.UploadAll | apps/frontend/src/app/api/ftp/route.ts:165-170 | the loop appends exactly the specified upload calls and succeeds iff they all did |
| FtpRoute.Publish | apps/frontend/src/app/api/ftp/route.ts:176-213 | the client's trace becomes the specified publish trace: connect, upload, close |
| FtpRoute.HandlePut | apps/frontend/src/app/api/ftp/route.ts:215-247 | the handler answers the specified response: 400 without a host or files, 200 on success, 500 on failure |
| FtpRoute.PutContract | apps/frontend/src/app/api/ftp/route.ts:215-247 | 400 for an empty host, then for no files; 200 iff the host and files are there, the connection is accepted and every file's step succeeds |
| FtpRoute.RemotePathOfClean | apps/frontend/src/app/api/ftp/route.ts:166 | a base `/b` and a name `n` with no stray slashes give exactly `/b/n` |
| FtpRoute.PublishDirExample | apps/frontend/src/app/api/ftp/route.ts:189-192 | an illustration of `MkdirpProbesEveryPrefix`: the prefixes of `root/a/b` are `/root`, `/root/a`, `/root/a/b` |
| Agent.WithoutMembers | apps/frontend/src/lib/agent.ts:71 | deleting a key removes exactly that key from the key order |
| Agent.RemoveValid | apps/frontend/src/lib/agent.ts:70-72 | `delete` keeps the file map well formed |
| Agent.ApplyPatchesToMap | apps/frontend/src/lib/agent.ts:66-88 | the loop over a copy computes the patches applied in order |
| Agent.DeleteRemovesExactly | apps/frontend/src/lib/agent.ts:70-72 | a delete patch removes its file and nothing else |
| Agent.ReplaceRewritesFirstOccurrence | apps/frontend/src/lib/agent.ts:74-80 | a search/replace on a present file with a present search text rewrites its first occurrence; the other files stay |
| Agent.SkippedPatchIsNoOp | apps/frontend/src/lib/agent.ts:74-83 | a patch of another action, or a search/replace on a missing or empty file, without search or replace, or whose search is not found, changes nothing |
| Agent.ApplyOneValid | apps/frontend/src/lib/agent.ts:68-86 | each patch keeps the map well formed |
| Agent.ApplyAllKeys | apps/frontend/src/lib/agent.ts:66-88 | after all patches a key survives iff it was there and no patch deleted it |
| Agent.ApplyAllValid | apps/frontend/src/lib/agent.ts:66-88 | applying patches keeps the map well formed |
| Agent.ApplyAllAppend | apps/frontend/src/lib/agent.ts:68 | applying `p + q` is applying `p`, then `q` |
| Agent.FileMapToArrayEntries | apps/frontend/src/lib/agent.ts:91-93 | the array has one `{name, content}` per key, in key order |
| Agent.FromArrayOfFileMapToArray | apps/frontend/src/lib/agent.ts:91-93 | building a map from the array gives back the map |
| Agent.FileMapToArrayOfFromArray | apps/frontend/src/lib/agent.ts:91-93 | for distinct names, map then array gives back the array |
| AgentRoute.ModeIsPatchOnlyWhenRequested | apps/frontend/src/app/api/agent/route.ts:41 | patch mode iff the request says `patch`; rewrite by default |
| AgentRoute.PreviewShape | apps/frontend/src/app/api/agent/route.ts:210 | the failure preview is the first 80 characters with each newline drawn as `↵`, and holds no newline |
| AgentRoute.ApplyDiffs | apps/frontend/src/app/api/agent/route.ts:197-214 | the loop computes the specified fold: content, counts, failed previews and applied changes |
| AgentRoute.ApplyChangesCounts | apps/frontend/src/app/api/agent/route.ts:198-214 | applied plus failed equals the number of changes, and the applied count is the length of the applied list |
| AgentRoute.FailedChangeLeavesContent | apps/frontend/src/app/api/agent/route.ts:204-213 | a change whose search is absent from the current content leaves it and records its preview |
| AgentRoute.MatchingChangeApplies | apps/frontend/src/app/api/agent/route.ts:204-208 | a change whose search is present rewrites its first occurrence and is recorded as applied |
| AgentRoute.MatchableCountZero | apps/frontend/src/app/api/agent/route.ts:185-186 | no change is matchable iff no search occurs in the original content |
| AgentRoute.SomeChangeApplies | apps/frontend/src/app/api/agent/route.ts:185-214 | if some search occurs in the original, at least one change applies |
| AgentRoute.NoneAppliedKeepsContent | apps/frontend/src/app/api/agent/route.ts:185-195 | when no search occurs, nothing applies and the content is unchanged |
| AgentRoute.ParseLegacyDiffs | apps/frontend/src/app/api/agent/route.ts:284-317 | the loop yields the specified legacy changes |
| AgentRoute.KeepLongMembers | apps/frontend/src/app/api/agent/route.ts:299-311 | a match is kept iff its search is longer than 20 characters |
| AgentRoute.ParseLegacyFirstPattern | apps/frontend/src/app/api/agent/route.ts:297-314 | the first pattern that yields a kept change decides the result; later ones are not tried |
| AgentRoute.ParseLegacyOnlyLong | apps/frontend/src/app/api/agent/route.ts:300-310 | every legacy change has a search longer than 20 characters and comes from a match |
| AgentRoute.Post | apps/frontend/src/app/api/agent/route.ts:21-281 | the handler answers the specified outcome |
| AgentRoute.NoFileIsBadRequest | apps/frontend/src/app/api/agent/route.ts:24-30 | without files the answer is 400 (500 first when the API key is missing) |
| AgentRoute.RewrittenOnlyWithMatches | apps/frontend/src/app/api/agent/route.ts:164-273 | a rewritten file is returned only when a change applied |
| AgentRoute.ShortSearchesNotRejected | apps/frontend/src/app/api/agent/route.ts:178-195 | with changes present, the file is rewritten iff some search occurs in the original; searches of 20 characters or fewer are not rejected |
| AgentRoute.NoMatchAppliesNothing | apps/frontend/src/app/api/agent/route.ts:184-195 | when no search matches, the answer is the no-match reply with one preview per change, each a prefix of its search |
| AgentRoute.EmptyChangesNoFile | apps/frontend/src/app/api/agent/route.ts:164-176 | no changes gives the no-change reply holding the first 500 characters of the model's text |
| AgentRoute.ParsedSummaryChoice | apps/frontend/src/app/api/agent/route.ts:223-263 | with a parsed reply whose changes match, the response is a rewrite whose summary is the parsed one when it has at least 10 characters and the generated one otherwise |
| AgentRoute.SummaryChoice | apps/frontend/src/app/api/agent/route.ts:223-263 | a reply read by the fallback parser always gets the generated summary |
| Preview.HtmlKeysMembers | apps/frontend/src/lib/files.ts:377 | the filter keeps exactly the keys ending in `.html` or `.htm` in any case |
| Preview.PickDefaultHtmlFileSpec | apps/frontend/src/lib/files.ts:373-380 | `index.html` first, then `index.htm`, else "" iff no key is HTML, otherwise an HTML key |
| Preview.ChooseEntrySpec | apps/frontend/src/lib/files.ts:388-389 | a requested entry with non-empty content wins; otherwise the default page |
| Preview.StripCafe24VarsSubsequence | apps/frontend/src/lib/files.ts:406 | stripping `{$...}` only deletes characters |
| Preview.StripCafe24VarsNoVariable | apps/frontend/src/lib/files.ts:406 | text without `{$` is unchanged |
| Preview.StripCafe24VarsRemovesVariable | apps/frontend/src/lib/files.ts:406 | a complete leading `{$name}` is removed whole and scanning resumes after it |
| Preview.StripCafe24VarsKeepsPlainPrefix | apps/frontend/src/lib/files.ts:406 | text without `{$` in front of text not starting with `$` is kept as is and the rest is stripped on its own |
| Preview.StripCafe24VarsRemovesVariableAfter | apps/frontend/src/lib/files.ts:406 | after text without `{$`, a complete `{$name}` is removed and the text before it stays |
| Preview.ResolveAssetPath | apps/frontend/src/lib/files.ts:417-442 | the method returns the specified resolution |
| Preview.ResolveAssetSpec | apps/frontend/src/lib/files.ts:417-442 | blank, external and `data:` references give null; else the candidate if its content is non-empty, then the direct key, then the suffix fallback; a result is always a key |
| Preview.CommonLengthSpec | apps/frontend/src/lib/files.ts:469-470 | the counter stops at the end of the longest common prefix of the two segment lists |
| Preview.GetRelativePath | apps/frontend/src/lib/files.ts:465-474 | the loop computes the specified relative path |
| Preview.RelativeSegments | apps/frontend/src/lib/files.ts:467-473 | the relative path is one `..` per remaining source segment, then the remaining target segments |
| Preview.RelativeNotDotSlash | apps/frontend/src/lib/files.ts:473 | the path built before the `./` fallback is never exactly `./`, so `./` comes only from the fallback |
| Preview.RelativeOfPlainNoDotSlash | apps/frontend/src/lib/files.ts:465-474 | with a non-empty `fromDir` and a target whose segments are plain (no `.` or `..`), the relative path starts with `./` only when it is the fallback `./` itself (a `.` segment breaks this: from `a` to `a/./x` gives `./x`) |
| Preview.RelativePathDot | apps/frontend/src/lib/files.ts:473 | the result is `./` exactly when nothing is left to go up or down |
| Preview.RelativePathResolves | apps/frontend/src/lib/files.ts:465-474 | for a non-empty `fromDir`, when both paths' segments are plain (no `.` or `..`), normalising `fromDir/relative` gives back the normalised target |
| Preview.AutoInjectLists | apps/frontend/src/lib/files.ts:509-527 | the loop returns the sorted lists of specified CSS and JS keys |
| Preview.InjectedMembers | apps/frontend/src/lib/files.ts:509-523 | a key is listed iff it is CSS (or JS) and none of its four spellings is already referenced |
| Preview.AutoInjectSpec | apps/frontend/src/lib/files.ts:498-527 | the lists are sorted; a key is in the CSS list iff it is a CSS key not already referenced, and in the JS list iff it is a JS key that is not CSS and not already referenced |
| ChatPanel.InitialSpec | apps/frontend/src/components/studio/chat-panel.tsx:97-104 | the selected file if present, else the first key if non-empty, else nothing; always a sub-map |
| ChatPanel.ToCandidates | apps/frontend/src/components/studio/chat-panel.tsx:126-131 | the candidates are the normalised relative path, the direct path and the relative path without leading slashes |
| ChatPanel.FirstKeySpec | apps/frontend/src/components/studio/chat-panel.tsx:133-135 | None iff no candidate is a key; otherwise the first candidate that is one |
| ChatPanel.TryResolve | apps/frontend/src/components/studio/chat-panel.tsx:132-144 | the method returns the specified resolution |
| ChatPanel.ResolveSpec | apps/frontend/src/components/studio/chat-panel.tsx:132-144 | the first candidate that is a key wins; otherwise the suffix fallback on the reference and the first candidate; a result is always a key |
| ChatPanel.AddRefsSpec | apps/frontend/src/components/studio/chat-panel.tsx:145-150 | adding references keeps a sub-map of the file map, keeps the old keys first and their values, adds every non-empty resolved reference and nothing else |
| ChatPanel.NarrowedSpec | apps/frontend/src/components/studio/chat-panel.tsx:97-152 | the narrowed map is a sub-map of the file map; it starts with the initial file, and references are added only for an HTML file with "include related" on |
| ChatPanel.TotalCharsAssign | apps/frontend/src/components/studio/chat-panel.tsx:155-156 | total characters start at 0 and grow by the length of each new value |
| ChatPanel.NarrowFiles | apps/frontend/src/components/studio/chat-panel.tsx:97-157 | the method returns the narrowed map, its keys as `sentFiles` and its total length |
| ChatPanel.HtmlPreviewSpec | apps/frontend/src/components/studio/chat-panel.tsx:229-233 | the HTML preview is the text itself up to 200 characters, else its first 200 and `...` |
| ChatPanel.FormatElementContext | apps/frontend/src/components/studio/chat-panel.tsx:201-236 | the method joins the specified lines with newlines |
| ChatPanel.FormatElementContextSpec | apps/frontend/src/components/studio/chat-panel.tsx:201-236 | header and tag line come first; the selector line is always there; one line per present optional field |
| Tree.FolderNamesMember | apps/frontend/src/app/start/page.tsx:210 | a name is among the folder names iff some child is a folder of that name |
| Tree.CountDescendants | apps/frontend/src/app/start/page.tsx:256-264 | the recursive method computes the count of a node |
| Tree.CountIsLeaves | apps/frontend/src/app/start/page.tsx:256-264 | the count of a node is the number of file leaves beneath it |
| Tree.CountAllIsLeaves | apps/frontend/src/app/start/page.tsx:256-264 | the count of a child list is the number of its file leaves |
| Tree.InsertFolderNames | apps/frontend/src/app/start/page.tsx:206-216 | inserting a name adds its first segment to the folder names iff it has more segments |
| Tree.InsertWellFormed | apps/frontend/src/app/start/page.tsx:204-216 | insertion keeps folder names unique and paths consistent |
| Tree.InsertLeaves | apps/frontend/src/app/start/page.tsx:201-217 | inserting a name with segments adds exactly its path to the multiset of leaf paths |
| Tree.InsertLeavesFound | apps/frontend/src/app/start/page.tsx:209-216 | the same when the first folder already exists |
| Tree.BuildChildrenLeaves | apps/frontend/src/app/start/page.tsx:197-220 | the leaf paths of the built tree are the multiset of names with at least one segment, after normalising slashes |
| Tree.BuildChildrenFolders | apps/frontend/src/app/start/page.tsx:199-219 | a top-level folder exists iff some name has it as first of at least two segments |
| Tree.LeafPathsSize | apps/frontend/src/app/start/page.tsx:199-219 | the tree has one leaf per name with a segment; duplicates are not merged |
| Tree.NodeOrderIsTotalPreorder | apps/frontend/src/app/start/page.tsx:223-226 | the folders-first, then-by-name comparison is a total preorder |
| Tree.SortNodesSpec | apps/frontend/src/app/start/page.tsx:221-229 | sorting a node under a total preorder keeps its leaves, keeps a well-formed node well formed, and leaves every level sorted (folders first, then by name); that each level is a permutation of its recursively sorted children comes from the multiset clause of the sort it calls |
| Tree.SortAllSpec | apps/frontend/src/app/start/page.tsx:221-229 | the recursive sort sorts every level and keeps the leaves |
| Tree.SortedMeans | apps/frontend/src/app/start/page.tsx:223-226 | in a sorted level every folder comes before every file |
| Tree.SortCommutes | apps/frontend/src/app/start/page.tsx:221-229 | sorting the levels and then a list, or the list and then its levels, gives the same result |
| Tree.BuildFolderTree | apps/frontend/src/app/start/page.tsx:197-232 | the method builds the specified tree; the studio's tree builder (the `useMemo` of `apps/frontend/src/components/studio/file-tree.tsx`, lines 37-70) is the same code |
| Tree.BuildFolderTreeSpec | apps/frontend/src/app/start/page.tsx:197-232 | the root is well formed and sorted at every level; its leaves are the names' paths, its count is the number of named files, and its top folders are the first folders of names with two or more segments |
| Tree.ToggleSpec | apps/frontend/src/app/start/page.tsx:234-250 | toggling adds an absent path and removes a present one; other paths stay; toggling twice restores the set (the studio's folder click, `file-tree.tsx` lines 133-138, toggles the same way) |
| FolderTree.ConnectProtocol | apps/frontend/src/app/start/page.tsx:397-407 | the page labels the request `sftp` iff the port text is exactly 22 or 8010; the route then chooses SFTP, and otherwise only for a port number of 22 or 8010 |
| FolderTree.TopFolderPathsOfBuild | apps/frontend/src/app/start/page.tsx:420-423 | the folders expanded first are exactly the first folders of names with at least two segments |
| FolderTree.OnConnectSpec | apps/frontend/src/app/start/page.tsx:409-431 | an error gives a non-empty message; no files gives the notice; 1 to 10 files import directly; more than 10 open the picker with the top-level folders expanded |
| FolderTree.FilterSelectedSpec | apps/frontend/src/app/start/page.tsx:869-873 | the filtered list is a subsequence; a file is kept iff its name equals a selected path or lies under a selected folder at a `/` boundary |
| FolderTree.KeptAtBoundary | apps/frontend/src/app/start/page.tsx:869-872 | a file is kept only when it equals a selected path or continues it at a `/` boundary |
| FolderTree.SiblingNotKept | apps/frontend/src/app/start/page.tsx:869-872 | an illustration of `KeptAtBoundary`: selecting `a` does not keep `ab/x.html` |
| FolderTree.SelectedFolderKeepsFile | apps/frontend/src/app/start/page.tsx:869-872 | a file is kept when one of its folder paths in the tree is selected |
| FolderTree.ConfirmSelectionSpec | apps/frontend/src/app/start/page.tsx:863-873 | nothing fetched stays put; an empty selection gives the warning; otherwise the filtered files are persisted |
| StudioFileTree.InitialExpanded | apps/frontend/src/components/studio/file-tree.tsx:26-35 | the loop collects the first segment of every name with at least two segments |
| StudioFileTree.InitialExpandedAreTopFolders | apps/frontend/src/components/studio/file-tree.tsx:26-35 | that set is the set of top-level folder paths of the rendered tree |
| StudioFileTree.LastPartSpec | apps/frontend/src/components/studio/file-tree.tsx:73 | `split('.').pop()` is the text after the last dot, or the whole name |
| StudioFileTree.LastPartFree | apps/frontend/src/components/studio/file-tree.tsx:94 | the last part contains no dot |
| StudioFileTree.FileIconSpec | apps/frontend/src/components/studio/file-tree.tsx:72-91 | the icon depends only on the lower-cased text after the last dot |
| StudioFileTree.FileIconIgnoresCase | apps/frontend/src/components/studio/file-tree.tsx:73 | the icon ignores the case of the name |
| StudioFileTree.FileIconOfConcat | apps/frontend/src/components/studio/file-tree.tsx:72-91 | `base.e` gets the icon of `e` |
| StudioFileTree.FileExtensionSpec | apps/frontend/src/components/studio/file-tree.tsx:93-95 | the badge is the upper-cased text after the last dot, `FILE` iff that is empty, and never contains a dot |
| StudioFileTree.FileExtensionOfConcat | apps/frontend/src/components/studio/file-tree.tsx:93-95 | `base.e` shows `E`, or `FILE` when `e` is empty |
| StudioFileTree.FileExtensionOfPath | apps/frontend/src/components/studio/file-tree.tsx:123 | the badge is taken from the full path: `folder.ext/file` with dot-free `ext` and `file` shows `EXT/FILE` (so `v1.2/readme` shows `2/README`) |

## Left out

- Network and protocol libraries: the FTP/SFTP clients (`basic-ftp`, `ssh2-sftp-client`) are not modelled.
  - A directory listing is a finite tree given as input. A failed listing or download is part of that input.
  - Uploads go through a `Client` class that only records calls. Whether `Put`, `Mkdir` or `Exists` succeeds is an oracle parameter.
  - Timeouts, retries and concurrency are not modelled.
- FtpRoute: the exception message in a 500 response is not modelled; the page's fallback texts apply only to 400 answers, and a 500 is `Failed(None)`.
- OpenAI calls (`requestCodePatches`, `requestRewrite`, the completion in the agent route), `fetch` and `JSON.parse`.
  - The parsed reply is an input (`Completion`).
  - `safeText` is not modelled.
- Regular expressions that extract inputs are replaced by their results:
  - the legacy diff matches;
  - the `included` set of auto-injection (see the next line);
  - the `href`/`src` references in chat-panel.
  Replacement-pattern syntax (`$&`, `$1`) in `replace` strings is not interpreted.
- `generatePreviewUrl` beyond the entry choice, the path helpers and auto-injection: the Cafe24 `@css`/`@import`/`@layout` directives, passes 1 and 2, Blob URLs and the injected HTML text.
- Preview.AutoInjectSpec: `included` is a free parameter here. In `lib/files.ts` (lines 500-505) it is collected from the HTML after passes 1 and 2 (lines 478-495). Those passes have already replaced every stylesheet `href` and script `src` they resolved with a `blob:` URL. So `included` holds those `blob:` URLs and not the original relative paths, `already` (line 518) is false for assets the page already links, and such assets are injected a second time. The model's "no duplicates" holds only for an `included` that holds the original paths, which the source never passes.
- Keys inherited from `Object.prototype` (`toString`, `constructor`, `__proto__`, ...) are assumed never to be file names. A FileMap is a finite map of its own keys, and `FileMaps.Truthy` and the membership tests consult only those. In the source, `next[p.file]` for such a name (`lib/agent.ts` lines 74-79) yields an inherited function. That value is truthy, so `current.includes` throws, and `applyPatchesToMap` rejects as a whole where `Agent.ApplyOne` skips the patch. The `fileMap[x]` lookups of `lib/files.ts` (lines 388, 430 and 433) are likewise truthy for those names, where the model finds no file.
- Object keys: JavaScript lists integer-like keys first. FileMap keeps plain insertion order, which matches only for non-integer-like keys (file paths).
- Strings are sequences of `char`, standing for UTF-16 code units. `toLowerCase`/`toUpperCase` map ASCII letters only.
- `localeCompare` is an abstract total preorder. The tree sort is stated as a sorted permutation; its stability is not claimed.
- Number parsing: the route's `Number(port)` is a parameter `portNumber`. Only its values for the texts "22" and "8010" are fixed. So a port text such as "022" can make the route pick SFTP while the page labels the request `ftp`.
- Tree building: `buildFolderTree`'s cursor and in-place mutation are modelled on values, as recursive insertion into an immutable tree. In-place aliasing of the node objects is not captured.
- React: state hooks, rendering, event handlers, local storage and the project-persistence calls are not modelled.
- `SelectedElement` in `types/element-selector.ts` lacks some fields that `formatElementContext` reads. The model gives `Element` every field the function reads.
- ChatPanel.FormatElementContextSpec: states the line count, the order of header, tag and selector lines, and when each optional line is present. The text of each optional line is given only by `ContextLines`.
