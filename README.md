# Prompt Optimizer — a verified model of the version workflow and its stores

Prompt Optimizer turns a user's rough request into a structured prompt
built on one of several prompt-engineering frameworks. This project is a
Dafny model of the deterministic core that sits around that service:

- the browser's **version workflow**:
  - the line diff of the comparison view;
  - the workspace page's state machine (selection of at most two versions, editor/comparison mode, restore, merge, revert, collapse, relabelling, version numbering and topics);
  - the history panel's grouping of versions into workflows by topic, its relative timestamps, collapsed groups and rename editor;
- the **feature-voting store** with its cap of three ticked options;
- the two **in-memory version managers** (the service's development mode and the serverless API's copy): prepend-and-truncate saving, newest-first listing, lookup, deletion and rollback;
- the serverless API's **quota manager**: daily counters, free/pro limits, retry gating per request id, and transactions that reserve a use and give it back;
- the service's **sliding-window rate limiter** with its client identifiers;
- the **framework catalogue**:
  - the backend's summary-table parser;
  - the frontend's reading of framework documents (title and "## 概述" overview);
  - the description lookup with its fallbacks, and the candidate list;
- the **reply cleaner** of intent analysis, which turns the model's comma-separated answer into one to three framework ids;
- the **development mocks** of the version and quota services.

Clocks, generated ids, the browser fingerprint hash, file contents and the
results of network calls are parameters. Python's `str.split`, `strip`,
`replace` and slicing, and JavaScript's `split`, `trim`, `Number` and
`find`, are modelled in `text.dfy`. Python's and JavaScript's sorts are
modelled in `sorting.dfy` as a stable sort, newest first.

Modules, one per file:

| file | module | what it models |
|---|---|---|
| wrappers.dfy | Wrappers | `Option` and `Result` |
| text.dfy | Text | string splitting, joining, stripping, replacing, number parsing |
| seqs.dfy | Seqs | first-match search, removal of a value, duplicate-free lists |
| sorting.dfy | Sorting | stable descending sort by an integer key |
| client_version.dfy | ClientVersion | the browser's version record and `find` |
| line_diff.dfy | LineDiff | `VersionComparison.tsx` diff and counters |
| workspace.dfy | Workspace | `app/workspace/page.tsx` state and handlers |
| version_history.dfy | VersionHistory | `VersionHistory.tsx` grouping, timestamps, panel state |
| feedback_store.dfy | FeedbackStore | `feedbackStore.ts` |
| version_store.dfy | VersionStore | what both version managers share |
| backend_versions.dfy | BackendVersions | `backend/app/services/version_manager.py`, development mode |
| api_versions.dfy | ApiVersions | `frontend/api/_services/version_manager.py` |
| quota.dfy | Quota | `frontend/api/_services/quota_manager.py` |
| rate_limit.dfy | RateLimit | `backend/app/middleware/rate_limit.py` |
| framework_catalog.dfy | FrameworkCatalog | both `framework_matcher.py` files |
| table_rows.dfy | TableRows | rows of the summary table and what the parser does with them |
| intent_reply.dfy | IntentReply | the reply-cleaning step of `analyze_intent` |
| mock_services.dfy | MockServices | `backend/app/services/mock_service.py` |

## Model

| member | source | states |
|---|---|---|
| ClientVersion.FindVersion | frontend/app/workspace/page.tsx:334 | `find` by id: found iff some version has the id, and then it is the first such version |
| ClientVersion.FirstWithTopic | frontend/app/workspace/page.tsx:44-48 | the head of the topic filter: found iff some version has that topic, and then it is the first such version; a version without a topic never matches |
| LineDiff.Lines | frontend/components/VersionComparison.tsx:74-75 | splitting on '\n' gives at least one line, and joining the lines with '\n' gives back the content |
| LineDiff.At | frontend/components/VersionComparison.tsx:84-85 | array indexing gives a line exactly when the index is in range, and then it is that line |
| LineDiff.Compare | frontend/components/VersionComparison.tsx:73-115 | the reference diff of two texts, both cursors from 0 over their lines; what it shows is stated by DiffCovers, UnchangedAgree, MissingLineDeleted, MissingLineAdded and StatsBalance, and ComputeDiff is proved equal to it |
| LineDiff.ComputeDiff | frontend/components/VersionComparison.tsx:73-115 | the two-cursor loop produces exactly the rows of the diff function `Compare`; it ends because (|old|−i)+(|new|−j) drops on every iteration |
| LineDiff.DiffStep | frontend/components/VersionComparison.tsx:84-111 | one iteration of the loop pushes exactly the first rows still to be produced and advances at least one cursor |
| LineDiff.DiffCovers | frontend/components/VersionComparison.tsx:74-110 | each panel lists every line of its text exactly once, in order, with line numbers 1..n; the left panel has no added rows and the right panel no deleted rows |
| LineDiff.UnchangedAgree | frontend/components/VersionComparison.tsx:87-92 | both panels have the same unchanged lines in the same order |
| LineDiff.UnchangedRowIn | frontend/components/VersionComparison.tsx:87-92 | the content of every unchanged row is among the panel's unchanged contents |
| LineDiff.UnchangedWithin | frontend/components/VersionComparison.tsx:87-92 | the unchanged contents of a panel that shows a text are lines of that text |
| LineDiff.MissingLineDeleted | frontend/components/VersionComparison.tsx:93-96 | an old line that occurs nowhere in the new text is always shown as deleted |
| LineDiff.MissingLineAdded | frontend/components/VersionComparison.tsx:97-100 | a new line that occurs nowhere in the old text is always shown as added |
| LineDiff.SelfDiffUnchanged | frontend/components/VersionComparison.tsx:87-92 | comparing a text with itself shows the same rows on both sides, all unchanged |
| LineDiff.UnchangedCount | frontend/components/VersionComparison.tsx:87-92 | the number of unchanged rows equals the length of their contents |
| LineDiff.CountTwoKinds | frontend/components/VersionComparison.tsx:168-173 | a panel whose rows have only two kinds has as many rows as the two counts together |
| LineDiff.Stats | frontend/components/VersionComparison.tsx:168-173 | the added rows of the right panel and the deleted rows of the left, counted; StatsBalance relates them to the two texts |
| LineDiff.StatsBalance | frontend/components/VersionComparison.tsx:168-173 | both panels hold the same number of unchanged rows; deleted plus unchanged is the number of old lines, added plus unchanged the number of new lines; so old lines minus deleted equals new lines minus added |
| LineDiff.ChangedMiddleLine | frontend/components/VersionComparison.tsx:87-100 | three lines x/y/z against x/y'/z, with the middle lines distinct from each other and from the kept lines: the left panel is U1, D2, U3 and the right panel U1, A2, U3 (e.g. "line1/line2/line3" against "line1/lineX/line3") |
| LineDiff.LinesOfThree | frontend/components/VersionComparison.tsx:74-75 | three newline-free lines joined by '\n' split back into those three lines |
| LineDiff.ChangedMiddleLineText | frontend/components/VersionComparison.tsx:73-115 | the same, starting from the two versions' texts joined with '\n' |
| Workspace.NextVersionNumber | frontend/app/workspace/page.tsx:42-58 | "1.0" when no version has the current topic; otherwise the number after the first such version's number |
| Workspace.NumberAfter | frontend/app/workspace/page.tsx:49-57 | a manual save always yields a number ending in ".0" |
| Workspace.SplitDotted | frontend/app/workspace/page.tsx:49 | splitting a rendered "M.m" on '.' gives its two halves |
| Workspace.ReadDotted | frontend/app/workspace/page.tsx:49 | `split('.').map(Number)` on "M.m" reads M and m |
| Workspace.NumberAfterDottedOptimize | frontend/app/workspace/page.tsx:51-53 | a regeneration turns "M.m" into "M.(m+1)" |
| Workspace.NumberAfterDottedSave | frontend/app/workspace/page.tsx:54-56 | a manual save turns "M.m" into "(M+1).0" |
| Workspace.NextVersionNumberBumps | frontend/app/workspace/page.tsx:42-58 | when the topic's newest version is "M.m", optimize proposes "M.(m+1)" and save proposes "(M+1).0" |
| Workspace.Topic | frontend/app/workspace/page.tsx:75 | the first 20 characters of the input, with "..." appended exactly when the input is longer |
| Workspace.RegenerateTopic | frontend/app/workspace/page.tsx:177 | the current topic when there is one, else the input's first ten characters (or all of a shorter input) |
| Workspace.Relabel | frontend/app/workspace/page.tsx:327-331 | the reference relabelling by `map`; RelabelOnlyMatching states its properties |
| Workspace.RelabelOnlyMatching | frontend/app/workspace/page.tsx:327-331 | relabelling keeps the length and order, sets the number of the matching versions, and leaves every other field and version unchanged |
| Workspace.WorkspaceState.constructor | frontend/app/workspace/page.tsx:31-39 | the page's initial state: nothing selected, editor mode, editor expanded |
| Workspace.WorkspaceState.ComparisonVersions | frontend/app/workspace/page.tsx:355-360 | a pair exactly when two ids are selected, with the first selected as the older side and the second as the newer |
| Workspace.WorkspaceState.SelectVersion | frontend/app/workspace/page.tsx:260-297 | deselects a selected id, and with fewer than two left returns to the editor, expanded; adds a second id and opens the comparison; shows a single one in the output; replaces the second of two. Keeps at most two distinct ids and comparison ⇒ two selected |
| Workspace.WorkspaceState.ToggleEditorCollapse | frontend/app/workspace/page.tsx:300-317 | expanding clears the selection, returns to the editor and shows the newest version; collapsing happens only in comparison mode |
| Workspace.WorkspaceState.RestoreVersion | frontend/app/workspace/page.tsx:319-325 | both panes get the version's content, it becomes current, the selection is cleared and the editor shown; the list is unchanged |
| Workspace.WorkspaceState.UpdateVersionNumber | frontend/app/workspace/page.tsx:327-331 | only the list changes, to its relabelled form |
| Workspace.WorkspaceState.Merge | frontend/app/workspace/page.tsx:333-341 | a known id becomes the output and the current version, and the editor text is kept; an unknown id changes nothing |
| Workspace.WorkspaceState.Revert | frontend/app/workspace/page.tsx:343-352 | a known id behaves like a restore; an unknown id changes nothing |
| Workspace.WorkspaceState.RevertFromComparison | frontend/components/VersionComparison.tsx:205-212 | the revert button reverts to the older (first selected) version |
| Workspace.WorkspaceState.MergeFromComparison | frontend/components/VersionComparison.tsx:213-220 | the merge button merges the newer (second selected) version |
| Workspace.WorkspaceState.Modify | frontend/app/workspace/page.tsx:215-218 | the editor gets the text and the editor view is shown; nothing else changes |
| Workspace.WorkspaceState.StoredVersion | frontend/app/workspace/page.tsx:239-250 | the server's version, with the locally proposed number only when the server's number is empty |
| Workspace.WorkspaceState.AddSavedVersion | frontend/app/workspace/page.tsx:239-253 | after a save, the stored version goes to the front of the list and becomes current |
| Workspace.WorkspaceState.AddRegeneratedVersion | frontend/app/workspace/page.tsx:192-206 | after a regeneration, the new output is shown and the stored version goes to the front of the list and becomes current |
| Workspace.SelectionStaysSmall | frontend/app/workspace/page.tsx:260-297 | any sequence of clicks from an empty selection leaves at most two distinct ids selected |
| VersionHistory.TopicOf | frontend/components/VersionHistory.tsx:110 | the version's topic when it is non-empty, else "未命名工作流" |
| VersionHistory.IdSetAppend | frontend/components/VersionHistory.tsx:108 | the ids seen after one more version |
| VersionHistory.DistinctAppend | frontend/components/VersionHistory.tsx:103-108 | appending a version whose id is not yet present keeps the ids distinct |
| VersionHistory.DedupDistinct | frontend/components/VersionHistory.tsx:100-108 | the de-duplicated list has distinct ids |
| VersionHistory.Dedup | frontend/components/VersionHistory.tsx:100-108 | the reference de-duplication: the versions in order, each id at its first occurrence; DedupIds and DedupKeepsFirst state its properties |
| VersionHistory.DedupIds | frontend/components/VersionHistory.tsx:100-108 | the de-duplicated list has distinct ids, all the input's ids, and one version per distinct id |
| VersionHistory.DedupFromInput | frontend/components/VersionHistory.tsx:103-108 | every version kept is a version of the input |
| VersionHistory.DedupFirstOccurrences | frontend/components/VersionHistory.tsx:103-108 | every version whose id does not occur earlier in the input is kept |
| VersionHistory.DedupKeepsFirst | frontend/components/VersionHistory.tsx:103-108 | the list keeps only input versions, and every first occurrence of an id |
| VersionHistory.TopicIndex | frontend/components/VersionHistory.tsx:111 | the first group with a topic, or none when no group has it |
| VersionHistory.TopicIndexSameTopics | frontend/components/VersionHistory.tsx:111 | group lists with the same topics in the same places find the same group |
| VersionHistory.TopicIndexAppend | frontend/components/VersionHistory.tsx:117-118 | appending a group changes the lookup only for a topic that had no group |
| VersionHistory.AllVersionsAppend | frontend/components/VersionHistory.tsx:118 | appending a group adds its versions to the groups' contents |
| VersionHistory.AllVersionsUpdate | frontend/components/VersionHistory.tsx:120 | replacing a group swaps its versions in the groups' contents |
| VersionHistory.FirstOfTopicAppend | frontend/components/VersionHistory.tsx:110-121 | the first version of a topic after one more version |
| VersionHistory.AddToGroupsShaped | frontend/components/VersionHistory.tsx:110-120 | filing a version keeps every group non-empty, named after its topic and holding only that topic, and topics distinct |
| VersionHistory.AddToGroupsVersions | frontend/components/VersionHistory.tsx:110-120 | filing a version adds exactly that version to the groups |
| VersionHistory.AddToGroupsCoversTopics | frontend/components/VersionHistory.tsx:110-120 | after filing, every topic seen has a group |
| VersionHistory.AddToGroupsCoversFirst | frontend/components/VersionHistory.tsx:110-120 | after filing, each group still starts with the first version of its topic |
| VersionHistory.GroupAll | frontend/components/VersionHistory.tsx:103-121 | the reference filing: groups in the order their topics first appear; GroupAllShaped, GroupAllCovers and GroupAllVersions state its properties |
| VersionHistory.GroupAllShaped | frontend/components/VersionHistory.tsx:103-121 | the groups are non-empty, named after their topics, hold only their topic, and no two share a topic |
| VersionHistory.GroupAllHasGroups | frontend/components/VersionHistory.tsx:103-121 | every topic of the kept versions has a group |
| VersionHistory.GroupAllOpenedByFirst | frontend/components/VersionHistory.tsx:103-121 | each group starts with the first version of its topic |
| VersionHistory.GroupAllCovers | frontend/components/VersionHistory.tsx:103-121 | both of the above at once |
| VersionHistory.GroupAllVersions | frontend/components/VersionHistory.tsx:103-121 | the groups together hold exactly the filed versions |
| VersionHistory.AllVersionsInsert | frontend/components/VersionHistory.tsx:124-128 | inserting a group during the sort adds its versions to the contents |
| VersionHistory.AllVersionsSort | frontend/components/VersionHistory.tsx:124-128 | the group sort keeps the groups' contents |
| VersionHistory.AllVersionsPointwise | frontend/components/VersionHistory.tsx:131-135 | groups that hold the same versions position by position hold the same versions together |
| VersionHistory.AllVersionsSortEach | frontend/components/VersionHistory.tsx:131-135 | the sorts inside the groups keep the groups' contents |
| VersionHistory.SortGroupShape | frontend/components/VersionHistory.tsx:131-135 | sorting a group's versions keeps its topic and its shape |
| VersionHistory.SortedGroupsMembers | frontend/components/VersionHistory.tsx:124-128 | the group sort only reorders the groups |
| VersionHistory.SortedGroupsShaped | frontend/components/VersionHistory.tsx:124-128 | the group sort keeps the groups well formed |
| VersionHistory.SortedGroupsCover | frontend/components/VersionHistory.tsx:124-128 | after the group sort every topic still has a group opened by its first version |
| VersionHistory.GroupedVersions | frontend/components/VersionHistory.tsx:100-121 | each distinct id is shown exactly once: the groups hold the de-duplicated versions, as many as the input has distinct ids |
| VersionHistory.GroupedTopics | frontend/components/VersionHistory.tsx:110-120 | all versions of a group share its topic, group topics are distinct, and every kept version's topic has a group |
| VersionHistory.GroupedInnerOrder | frontend/components/VersionHistory.tsx:131-135 | within each group, versions are newest first |
| VersionHistory.SortedOpenedOrder | frontend/components/VersionHistory.tsx:124-128 | groups sorted by their first version are ordered by the first version of their topic |
| VersionHistory.SortEachTopics | frontend/components/VersionHistory.tsx:131-135 | sorting inside groups keeps each group's topic and position |
| VersionHistory.GroupedOuterOrder | frontend/components/VersionHistory.tsx:124-135 | groups are ordered newest first by the version that opened them, because the group sort runs before the sorts inside groups |
| VersionHistory.Grouped | frontend/components/VersionHistory.tsx:96-135 | the reference listing: de-duplicate, file by topic, sort groups and then each group newest first; GroupedVersions, GroupedTopics, GroupedInnerOrder and GroupedOuterOrder state its properties |
| VersionHistory.GroupVersions | frontend/components/VersionHistory.tsx:96-135 | the panel's grouping code gives exactly `Grouped` of its input |
| VersionHistory.SortEachGroup | frontend/components/VersionHistory.tsx:130-135 | the `forEach` sorting inside each group gives exactly `SortEach` of the groups: every group's versions newest first, the groups themselves in place |
| VersionHistory.FileByTopic | frontend/components/VersionHistory.tsx:97-121 | the `forEach` with its id set and topic map gives the groups of the de-duplicated list |
| VersionHistory.DedupStep | frontend/components/VersionHistory.tsx:105-108 | one more version is skipped when its id was seen, and otherwise kept and filed |
| VersionHistory.FileVersion | frontend/components/VersionHistory.tsx:110-120 | filing one version gives `AddToGroups` and keeps the topic map matching the groups |
| VersionHistory.FileStepKnown | frontend/components/VersionHistory.tsx:120 | a known topic pushes the version onto that topic's group; the map stays in step |
| VersionHistory.FileStepNew | frontend/components/VersionHistory.tsx:111-120 | a new topic opens a group at the end and the map learns its index |
| VersionHistory.FormatTimestamp | frontend/components/VersionHistory.tsx:69-90 | "刚刚" iff under a minute; minutes 1..59, hours 1..23 and days 1..6 in their bands, each the floor of the difference; the calendar date from a week on |
| VersionHistory.RelativeTimeText | frontend/components/VersionHistory.tsx:74-89 | the text of each band ("刚刚", "n 分钟前", "n 小时前", "n 天前", the locale date); ShownTimeRoundTrip states what it shows |
| VersionHistory.ShownTimeRoundTrip | frontend/components/VersionHistory.tsx:69-90 | within the first week the shown text reads back as the band and the count of the version's age |
| VersionHistory.ShownTimesDiffer | frontend/components/VersionHistory.tsx:69-90 | two ages within the week in different bands or with different counts are never shown alike |
| VersionHistory.TypeLabel | frontend/components/VersionHistory.tsx:92-94 | "优化生成" for optimize and "手动保存" for save |
| VersionHistory.Toggle | frontend/components/VersionHistory.tsx:137-145 | flips the membership of exactly the given id |
| VersionHistory.ToggleTwice | frontend/components/VersionHistory.tsx:137-145 | toggling twice restores the set |
| VersionHistory.HistoryPanel.constructor | frontend/components/VersionHistory.tsx:43-45 | no group collapsed, no editor open |
| VersionHistory.HistoryPanel.ToggleGroup | frontend/components/VersionHistory.tsx:137-145 | the collapsed set becomes its toggle; the editor is untouched |
| VersionHistory.HistoryPanel.StartEdit | frontend/components/VersionHistory.tsx:147-150 | opens the editor on the version with its current name |
| VersionHistory.HistoryPanel.SaveEdit | frontend/components/VersionHistory.tsx:152-158 | rename is called iff a callback is passed and the trimmed name is non-empty, with the trimmed name; the editor is always closed |
| VersionHistory.HistoryPanel.CancelEdit | frontend/components/VersionHistory.tsx:160-163 | closes the editor |
| FeedbackStore.Initial | frontend/lib/stores/feedbackStore.ts:35-38 | empty catalogue and selection, both flags cleared |
| FeedbackStore.SetOptions | frontend/lib/stores/feedbackStore.ts:41 | replaces the catalogue only |
| FeedbackStore.ToggleOption | frontend/lib/stores/feedbackStore.ts:43-61 | unticks a ticked id, keeping only the others; ticks an unticked id at the end while fewer than three are ticked; otherwise returns the same state |
| FeedbackStore.SetSelectedOptions | frontend/lib/stores/feedbackStore.ts:63 | replaces the ticked ids, without a cap |
| FeedbackStore.SetIsLoading | frontend/lib/stores/feedbackStore.ts:65 | sets only the loading flag |
| FeedbackStore.SetIsSubmitting | frontend/lib/stores/feedbackStore.ts:67 | sets only the submitting flag |
| FeedbackStore.Reset | frontend/lib/stores/feedbackStore.ts:69-75 | gives back the initial state |
| FeedbackStore.ToggleKeepsCap | frontend/lib/stores/feedbackStore.ts:54-60 | a selection of at most three stays at most three |
| FeedbackStore.ToggleRemovesInOrder | frontend/lib/stores/feedbackStore.ts:45-51 | unticking an id ticked once at position k leaves the selection with position k cut out, the others in order, repeated ones included |
| FeedbackStore.ToggleDropsEveryCopy | frontend/lib/stores/feedbackStore.ts:45-51 | unticking removes every copy of the id and keeps every other id as many times as it was ticked |
| FeedbackStore.ToggleKeepsOrder | frontend/lib/stores/feedbackStore.ts:45-51 | for any cut of the selection into two parts, the result is each part with the id filtered out, in order |
| FeedbackStore.ToggleKeepsDistinct | frontend/lib/stores/feedbackStore.ts:43-61 | a duplicate-free selection stays duplicate-free |
| FeedbackStore.ToggleTwice | frontend/lib/stores/feedbackStore.ts:43-61 | ticking an unticked id with room and unticking it restores the state |
| VersionStore.TitleType | backend/app/services/version_manager.py:41 | "保存" iff the type is SAVE, "优化" iff OPTIMIZE |
| VersionStore.PushFront | backend/app/services/version_manager.py:139-143 | the new version first, the old list after it, cut to the cap |
| VersionStore.FindAcross | backend/app/services/version_manager.py:280-287 | the first match, users in insertion order: it matches and is stored, and none is found iff no stored version matches |
| VersionStore.FindAcrossFrom | backend/app/services/version_manager.py:280-284 | a user without a match is skipped |
| VersionStore.FirstMatch | backend/app/services/version_manager.py:314-318 | the `enumerate` loop with early return finds the first matching index |
| VersionStore.FindAcrossUsers | backend/app/services/version_manager.py:280-287 | the nested loops give exactly `FindAcross` |
| VersionStore.RemoveNone | backend/app/services/version_manager.py:314-318 | when no element matches, the list is left as it is |
| VersionStore.RemoveFirstIndex | backend/app/services/version_manager.py:314-318 | when the element at `i` is the first match, exactly that element is removed |
| VersionStore.RemoveFirst | backend/app/services/version_manager.py:314-318 | the reference removal of the first match; RemoveNone, RemoveFirstIndex and RemoveFirstAt state its properties |
| VersionStore.RemoveFirstAt | backend/app/services/version_manager.py:314-318 | removing the first match deletes exactly the element at its index, and nothing when there is none |
| VersionStore.Newest | backend/app/services/version_manager.py:218-224 | the reference listing `sorted(..., reverse=True)[:limit]`; NewestFacts states its properties |
| VersionStore.KeepsOwned | backend/app/services/version_manager.py:136-143 | saving keeps the key order in step with the dictionary, the cap, and each list's ownership (both managers, frontend/api/_services/version_manager.py:73-81 with cap 10) |
| VersionStore.FoundIsStored | backend/app/services/version_manager.py:280-287 | the scan across users finds nothing iff no list holds a match, and a found version is stored under its own user (both managers) |
| VersionStore.NewestFacts | backend/app/services/version_manager.py:218-224 | a listing is sorted newest first, holds only stored versions, and has `limit` of them when there are that many |
| BackendVersions.VersionManager.constructor | backend/app/services/version_manager.py:56-57 | an empty store |
| BackendVersions.VersionManager.SaveVersion | backend/app/services/version_manager.py:87-146 | the new version carries exactly the given fields and goes to the front of its user's list, cut to 20; other users are untouched |
| BackendVersions.VersionManager.GetVersions | backend/app/services/version_manager.py:217-226 | at most `limit` of the user's versions, newest first; [] for an unknown user |
| BackendVersions.VersionManager.GetVersion | backend/app/services/version_manager.py:265-287 | the first version with that id across users, or None exactly when no user holds it |
| BackendVersions.VersionManager.DeleteVersion | backend/app/services/version_manager.py:309-321 | false for an unknown user or an absent id; otherwise exactly the first match is removed and the count drops by one |
| BackendVersions.VersionManager.GetVersionCount | backend/app/services/version_manager.py:358-359 | the length of the user's list, 0 for an unknown user |
| BackendVersions.VersionManager.RollbackVersion | backend/app/services/version_manager.py:395-419 | refused for a missing version or another user's; otherwise a SAVE copy of the content, numbered "1.0", is saved for the user |
| ApiVersions.VersionManager.constructor | frontend/api/_services/version_manager.py:40-43 | an empty store |
| ApiVersions.VersionManager.SaveVersion | frontend/api/_services/version_manager.py:45-84 | the new version goes to the front of its user's list, cut to 10; other users are untouched |
| ApiVersions.VersionManager.GetVersions | frontend/api/_services/version_manager.py:107-120 | at most `limit` of the user's versions, newest first; [] for an unknown user |
| ApiVersions.VersionManager.GetVersion | frontend/api/_services/version_manager.py:139-148 | the first version with that id across users, or None exactly when no user holds it |
| ApiVersions.VersionManager.DeleteVersion | frontend/api/_services/version_manager.py:170-182 | false for an unknown user or an absent id; otherwise exactly the first match is removed |
| ApiVersions.VersionManager.GetVersionCount | frontend/api/_services/version_manager.py:188-198 | the length of the user's list, 0 for an unknown user |
| ApiVersions.VersionManager.RollbackVersion | frontend/api/_services/version_manager.py:220-239 | refused for a missing version or another user's; otherwise a SAVE copy of the content is saved for the user |
| Quota.QuotaKey | frontend/api/_services/quota_manager.py:100-109 | the day's counter key "{user}:{date}"; KeyHoldsDate states the fact the reset relies on |
| Quota.KeyHoldsDate | frontend/api/_services/quota_manager.py:108-109 | a day's counter key contains that day's date |
| Quota.Total | frontend/api/_services/quota_manager.py:136 | 100 iff the account type is "pro", else 10 |
| Quota.QuotaManager.constructor | frontend/api/_services/quota_manager.py:53-63 | no counters and no retry records |
| Quota.QuotaManager.CheckQuota | frontend/api/_services/quota_manager.py:132-160 | used is the stored count or 0, total by account type, and may generate iff skip mode or used < total |
| Quota.QuotaManager.StartGeneration | frontend/api/_services/quota_manager.py:186-223 | a request id at its retry limit gets None before anything else, and otherwise has its count raised; skip mode returns a consumed transaction and leaves quotas alone; otherwise the count rises by exactly one when used < total, and None comes back with nothing changed when it is not; counts never go negative |
| Quota.QuotaManager.ConsumeQuota | frontend/api/_services/quota_manager.py:246-250 | true iff a transaction was started, with the same counter change |
| Quota.QuotaManager.ResetDailyQuotas | frontend/api/_services/quota_manager.py:258-274 | exactly the counters whose key contains yesterday's date are dropped, the rest kept with their values; every retry record is dropped |
| Quota.QuotaManager.GetQuotaInfo | frontend/api/_services/quota_manager.py:297-307 | used and total as in `check_quota`, may generate iff used < total even in skip mode |
| Quota.QuotaTransaction.constructor | frontend/api/_services/quota_manager.py:26-31 | not consumed, rollback allowed |
| Quota.QuotaTransaction.Commit | frontend/api/_services/quota_manager.py:33-37 | consumed, rollback no longer allowed |
| Quota.QuotaTransaction.Rollback | frontend/api/_services/quota_manager.py:39-47 | gives one use back, floored at 0, only when consumed and still allowed; a second rollback or one after commit changes nothing; counts stay non-negative |
| RateLimit.ClientIdentifier | backend/app/middleware/rate_limit.py:38-44 | the two identifier forms, "user:{id}:ip:{ip}" and "anon:ip:{ip}:ua:{hash}"; ExtractUserIp and ExtractAnonIp take the address back out |
| RateLimit.ClientIp | backend/app/middleware/rate_limit.py:29-33 | the first trimmed entry of X-Forwarded-For (without ','), else the peer host, else "unknown" |
| RateLimit.ExtractIp | backend/app/middleware/rate_limit.py:125 | "unknown" when the identifier has no ":ip:" |
| RateLimit.UserIpFirst | backend/app/middleware/rate_limit.py:40 | in "user:{id}:ip:{ip}" the first ":ip:" follows the id |
| RateLimit.NoColonNoIp | backend/app/middleware/rate_limit.py:125 | a text without ':' holds no ":ip:" |
| RateLimit.ExtractUserIp | backend/app/middleware/rate_limit.py:38-40 | the address comes back out of a signed-in identifier |
| RateLimit.AnonIpFirst | backend/app/middleware/rate_limit.py:44 | in "anon:ip:{ip}:ua:{h}" the first ":ip:" is at position 4 |
| RateLimit.AnonPiece | backend/app/middleware/rate_limit.py:44 | after it, the piece starts with the address and a ':' |
| RateLimit.ExtractAnonIp | backend/app/middleware/rate_limit.py:41-44 | the address comes back out of an anonymous identifier |
| RateLimit.InWindow | backend/app/middleware/rate_limit.py:90-93 | exactly the request times with now − t < window remain |
| RateLimit.InWindowCount | backend/app/middleware/rate_limit.py:90-93 | each recent time stays as many times as it was recorded; every stale time is dropped |
| RateLimit.BlockDuration | backend/app/middleware/rate_limit.py:98 | min(2·window, 300) |
| RateLimit.Admit | backend/app/middleware/rate_limit.py:82-107 | blocked with the seconds left and the record unchanged while now < blocked_until; throttled iff the pruned count ≥ max, with blocked_until = now + min(2·window, 300) and nothing appended; allowed iff the pruned count < max, with now appended |
| RateLimit.AllowedStaysWithinLimit | backend/app/middleware/rate_limit.py:96-107 | after an allowed call the record holds at most `max` times, all in the window, the last being now |
| RateLimit.TrackIp | backend/app/middleware/rate_limit.py:133-138 | the address joins the set, which starts over when the last reset is more than an hour old |
| RateLimit.RecordIp | backend/app/middleware/rate_limit.py:116-138 | the user's record holds the identifier's address afterwards; fails iff the user's key holds a request record; other keys are untouched |
| RateLimit.Check | backend/app/middleware/rate_limit.py:70-113 | a call on the store: refusals keep the record, and keys other than the identifier and the user's address record are untouched |
| RateLimit.CheckWithinLimit | backend/app/middleware/rate_limit.py:96-113 | after an allowed call the identifier's record holds at most `max` times, all in the window, the last being now |
| RateLimit.CheckWhileBlocked | backend/app/middleware/rate_limit.py:82-87 | while a block lasts, calls are refused with the seconds left and the store is unchanged |
| RateLimit.RateLimiter.constructor | backend/app/middleware/rate_limit.py:13 | an empty store |
| RateLimit.RateLimiter.CheckRateLimit | backend/app/middleware/rate_limit.py:49-113 | the verdict and the new store are those of `Check` |
| RateLimit.RateLimiter.DetectSuspiciousActivity | backend/app/middleware/rate_limit.py:116-143 | the new store is that of `RecordIp`, unchanged when it fails |
| RateLimit.RateLimiter.CleanupOldRecords | backend/app/middleware/rate_limit.py:181-195 | exactly the request records whose last request is more than 3600 s old are removed; address records and empty logs stay, with their values |
| FrameworkCatalog.Store | backend/app/services/framework_matcher.py:143-149 | the description is stored under the name, and under the de-suffixed name when it ends in " Framework"; nothing else changes |
| FrameworkCatalog.Fields | backend/app/services/framework_matcher.py:133 | one stripped field per '|' piece |
| FrameworkCatalog.AddRow | backend/app/services/framework_matcher.py:132-149 | a row only adds names |
| FrameworkCatalog.AddRowPrefixed | backend/app/services/framework_matcher.py:139-141 | a row adds only descriptions starting "适用场景：" |
| FrameworkCatalog.StorePrefixed | backend/app/services/framework_matcher.py:141-149 | storing a prefixed description keeps every description prefixed |
| FrameworkCatalog.TableValues | backend/app/services/framework_matcher.py:115-149 | every description in the table starts "适用场景：" |
| FrameworkCatalog.BeforeHeaderIgnored | backend/app/services/framework_matcher.py:118-132 | lines before the header row add nothing |
| FrameworkCatalog.TableStopsAtRule | backend/app/services/framework_matcher.py:127-129 | nothing after the "---" line is read |
| FrameworkCatalog.TableFrom | backend/app/services/framework_matcher.py:113-149 | the reference table parse from a given line and `in_table` flag; TableValues, BeforeHeaderIgnored, TableStopsAtRule and TableRows.RowStep state its properties |
| FrameworkCatalog.Table | backend/app/services/framework_matcher.py:101-154 | the parse of the whole summary, starting outside the table with no entries |
| FrameworkCatalog.LoadFrameworksDescriptions | backend/app/services/framework_matcher.py:101-154 | the line loop with its `in_table` flag gives exactly `Table` of the summary, all prefixed |
| FrameworkCatalog.NoWordNoName | backend/app/services/framework_matcher.py:160-166 | a document that never mentions "Framework" has the name "" |
| FrameworkCatalog.JoinPieceOccurs | backend/app/services/framework_matcher.py:162-164 | an occurrence in a line is an occurrence in the document |
| FrameworkCatalog.FirstTitleName | frontend/api/_services/framework_matcher.py:124-126 | the first line starting "# " and mentioning "Framework" gives the name: that line without its "# " markers, stripped |
| FrameworkCatalog.NoTitleName | frontend/api/_services/framework_matcher.py:127 | a document with no such line has the empty name |
| FrameworkCatalog.ExtractFrameworkName | frontend/api/_services/framework_matcher.py:122-128 | the loop with early return gives exactly `FrameworkName` |
| FrameworkCatalog.OverviewFrom | backend/app/services/framework_matcher.py:168-184 | only non-empty overview lines are kept, and none without a "## 概述" heading |
| FrameworkCatalog.OverviewEmpty | frontend/api/_services/framework_matcher.py:130-146 | the overview is "" exactly when no non-blank line follows the heading |
| FrameworkCatalog.Overview | frontend/api/_services/framework_matcher.py:130-146 | the reference overview: the lines of OverviewFrom joined by single spaces; OverviewEmpty states when it is "" |
| FrameworkCatalog.ExtractOverview | frontend/api/_services/framework_matcher.py:130-146 | the loop with its `overview_started` flag and `break` gives exactly `Overview` |
| FrameworkCatalog.Extracted | frontend/api/_services/framework_matcher.py:104-106 | the name and overview of each document, in order |
| FrameworkCatalog.Described | frontend/api/_services/framework_matcher.py:108-109 | every recorded name and description is non-empty |
| FrameworkCatalog.DescribedKeys | frontend/api/_services/framework_matcher.py:108-109 | a name is recorded iff some pair has it with a non-empty overview |
| FrameworkCatalog.DescriptionsKeys | frontend/api/_services/framework_matcher.py:99-109 | a name is described iff some document has that name and a non-empty overview |
| FrameworkCatalog.DescribedLastWins | frontend/api/_services/framework_matcher.py:108-109 | the last document with a name decides its description |
| FrameworkCatalog.DescriptionsSnoc | frontend/api/_services/framework_matcher.py:104-109 | one more document adds its name with its overview exactly when both are non-empty, and leaves the map as it was otherwise |
| FrameworkCatalog.Descriptions | frontend/api/_services/framework_matcher.py:99-116 | the reference description map over the documents; DescriptionsKeys and DescribedLastWins state its properties |
| FrameworkCatalog.LoadDocumentDescriptions | frontend/api/_services/framework_matcher.py:99-116 | the file loop gives exactly `Descriptions` of the documents |
| FrameworkCatalog.Found | backend/app/services/framework_matcher.py:216-224 | `dict.get` read by Python truthiness: a missing key and an empty description both miss |
| FrameworkCatalog.DefaultDescription | backend/app/services/framework_matcher.py:227-228 | the text "适用于用户需求的 {id} 框架" |
| FrameworkCatalog.Lookup | backend/app/services/framework_matcher.py:212-229 | never empty; the four steps in order: the exact entry; else the +" Framework" entry; else, for an id ending in " Framework", the entry under the id with the suffix removed; else the default text |
| FrameworkCatalog.LookupDefault | frontend/api/_services/framework_matcher.py:176-191 | with nothing under the three names, the default "适用于用户需求的 {id} 框架" |
| FrameworkCatalog.BaseNameOfSuffixed | backend/app/services/framework_matcher.py:147-148 | removing " Framework" from "X Framework" gives X when X holds no other occurrence |
| FrameworkCatalog.StoredUnderBothNames | backend/app/services/framework_matcher.py:143-149 | a row for "X Framework" is found by lookup under both X and "X Framework" |
| FrameworkCatalog.CandidateFor | backend/app/services/framework_matcher.py:231-237 | id and name are both the id, with a non-empty description |
| FrameworkCatalog.FallbackCandidate | backend/app/services/framework_matcher.py:243-258 | the RACEF candidate, described by the "RACEF Framework" entry when present |
| FrameworkCatalog.MatchFrameworks | frontend/api/_services/framework_matcher.py:163-220 | one candidate per returned id, in order; a single RACEF candidate when the analysis failed |
| TableRows.RowShape | backend/app/services/framework_matcher.py:90-95 | a row starts "| " and ends '|', with no line break or header word |
| TableRows.RowFields | backend/app/services/framework_matcher.py:133-137 | a row's fields are "", num, name, scenarios, "" |
| TableRows.AddRowCases | backend/app/services/framework_matcher.py:135-149 | a row with four fields stores iff name and scenarios are non-empty and the name is not the header word |
| TableRows.AddRowOf | backend/app/services/framework_matcher.py:132-149 | a row stores its name with "适用场景：" + scenarios |
| TableRows.RowStripped | backend/app/services/framework_matcher.py:116 | stripping leaves a row as it is |
| TableRows.RowKind | backend/app/services/framework_matcher.py:119-132 | a row is not a header, not a separator and not the closing rule |
| TableRows.RowStep | backend/app/services/framework_matcher.py:115-149 | inside the table, a row's entry is stored and parsing goes on |
| IntentReply.AfterLastDot | backend/app/services/llm_service.py:168 | the last '.'-separated piece holds no '.', and only characters of the entry |
| IntentReply.Unquote | backend/app/services/llm_service.py:168-170 | stripping whitespace and quotes adds no character; UnquoteWrapped states what it removes |
| IntentReply.QuotesOff | backend/app/services/llm_service.py:170 | `strip('"')` then `strip("'")` takes off a run of double quotes, then a run of single quotes, around an id whose ends are neither |
| IntentReply.UnquoteWrapped | backend/app/services/llm_service.py:168-170 | surrounding whitespace, then double quotes, then single quotes are removed, and nothing of an id whose ends are none of these |
| IntentReply.CleanId | backend/app/services/llm_service.py:168-170 | the cleaned id holds no '.', and no ',' when the entry had none |
| IntentReply.CleanIdUnquotes | backend/app/services/llm_service.py:168-170 | an id without '.' in double or in single quotes cleans to the id itself |
| IntentReply.CleanIdDropsPrefix | backend/app/services/llm_service.py:167-168 | a numbering prefix up to the last '.' is dropped |
| IntentReply.CleanedFirst | backend/app/services/llm_service.py:165-172 | cleaning the first n entries keeps at most n ids |
| IntentReply.CleanedFirstIds | backend/app/services/llm_service.py:165-172 | every kept id is non-empty and free of '.', and free of ',' when the entries are |
| IntentReply.Entries | backend/app/services/llm_service.py:161-162 | at least one entry, none containing ',' |
| IntentReply.Pick | backend/app/services/llm_service.py:175-180 | one to three ids: ["RACEF"] when nothing is left, otherwise exactly the first min(3, n) of the n cleaned ids |
| IntentReply.ReplyFacts | backend/app/services/llm_service.py:161-180 | one to three ids, each non-empty without ',' or '.'; ["RACEF"] when nothing is left, otherwise exactly the first min(3, n) of the n cleaned ids, in order |
| IntentReply.CleanAll | backend/app/services/llm_service.py:165-172 | the cleaning loop gives exactly `Cleaned` |
| IntentReply.CleanOne | backend/app/services/llm_service.py:167-172 | one iteration: the entry cleaned and appended when non-empty, which extends `CleanedFirst` by one entry |
| IntentReply.Cleaned | backend/app/services/llm_service.py:165-172 | the reference cleaning of all entries; CleanedFirstIds states its properties |
| IntentReply.Reply | backend/app/services/llm_service.py:161-180 | the reference cleaning of a reply; ReplyFacts states its properties |
| IntentReply.CleanReply | backend/app/services/llm_service.py:161-180 | the whole step gives exactly `Reply` |
| MockServices.VersionId | backend/app/services/mock_service.py:61 | the id starts "version-" |
| MockServices.VersionIdInjective | backend/app/services/mock_service.py:61 | different numbers give different ids |
| MockServices.MockVersionService.constructor | backend/app/services/mock_service.py:42-44 | no versions, no counters |
| MockServices.MockVersionService.SaveVersion | backend/app/services/mock_service.py:46-70 | the key's next number n, id "version-n", appended to the key's list, whose length is then n |
| MockServices.SaveKeepsValid | backend/app/services/mock_service.py:54-70 | appending the key's next version keeps each counter equal to its list's length, the n-th version numbered n and called "version-n", and each key listed once in key order |
| MockServices.MockVersionService.GetVersions | backend/app/services/mock_service.py:72-75 | the key's list or []; the i-th entry is numbered i+1 |
| MockServices.MockVersionService.GetVersion | backend/app/services/mock_service.py:77-83 | the first id match, keys in insertion order; None iff no key holds it |
| MockServices.MockQuotaService.constructor | backend/app/services/mock_service.py:19-20 | no usage |
| MockServices.MockQuotaService.CheckQuota | backend/app/services/mock_service.py:22-30 | used + remaining = 100, for a pro account |
| MockServices.MockQuotaService.IncrementUsage | backend/app/services/mock_service.py:32-36 | usage rises by exactly one, and the call succeeds |

## Left out

- Scroll synchronisation of the comparison panels (DOM listeners and a timer cooldown): event timing, not logic.
- Loading versions from the server or from localStorage, JSON parsing of the stored framework, and the network calls of save and regenerate. Only their in-memory effect on the page is modelled.
- `generateTopicSummary` and the summary cache of the history panel: asynchronous API calls.
- Locale date and time formatting (`toLocaleDateString`, `toLocaleTimeString`) and parsing ISO timestamps. Creation times are integers, in milliseconds on the client and as comparable numbers on the server.
- The production database branches of the service's version manager, and `uuid4`/`datetime.now`, which are parameters.
- The quota manager's date and reset-time computation from the clock and time zone. The date string is a parameter and the reset time is not reported.
- The rate limiter's user locks (`acquire_user_lock`, lock cleanup): concurrency.
- The `md5` fingerprint of the user agent: the eight-digit hash is a parameter.
- The rate limiter's float clock: time is whole seconds passed in by the caller, so `int(blocked_until - now)` is exact.
- RateLimit.RecordIp: the "more than three addresses" test does nothing in the source and is not modelled.
- File and glob loading of the summary and the framework documents: the documents are passed in as strings.
- The LLM HTTP calls, retries and back-off. The failure that sends `match_frameworks` to its fallback is the `None` argument of MatchFrameworks.
- The float `match_score` of candidates.
- FrameworkCatalog.Table: the claim that the built-in fallback summary yields RACEF, CRISPE, BAB and Chain of Thought, with and without " Framework", is not proved on that literal text. The verifier cannot unfold the string functions over the whole table within its limits. What is proved instead is what the parser does with any row of that form (TableRows.RowStep, TableRows.AddRowOf), and that a row for "X Framework" is found under both names (FrameworkCatalog.StoredUnderBothNames).
- RateLimit.ExtractUserIp, RateLimit.ExtractAnonIp: the round trip is proved only for addresses without ':'. IPv6 addresses do not come back out, and neither does the address when the user id contains ':' or is "ip".
- Workspace.NumberAfter: JavaScript `Number` is modelled on a subset: ASCII whitespace trimmed, "" as 0, digit strings as their value, anything else as NaN. The proved bumps are for well-formed "M.m" numbers.
- Whitespace is the ASCII part only. For Python `strip` it is space, tab, line feed, vertical tab, form feed, carriage return and the separators U+001C to U+001F. For JavaScript `trim` it is the first six of these. Unicode whitespace (such as U+00A0 and U+2028) is left out. Strings are sequences of characters, not UTF-16 code units.
- Sorts (Python `sorted`, JavaScript `Array.prototype.sort`) are modelled as a stable descending sort on values, not in place.
- VersionHistory.HistoryPanel.SaveEdit: the workspace page does not pass a rename callback, so the callback's presence is a flag, and the rename itself is a returned value.
- React's batching of state updates: each handler's updates are applied at once.
- The mock services' metadata values are strings and `created_at` is a parameter.
- Dictionary iteration order is modelled by a list of keys in insertion order next to each dictionary that is scanned.
- The HTTP front ends, authentication, the UI components and the connection scripts are not part of this model.
