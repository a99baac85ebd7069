# cc-session-tailing, modelled in Dafny

cc-session-tailing is a terminal viewer that follows the session logs Claude
writes under `~/.claude/projects/<project>/`. Each session is a JSON-lines
file. Subagent sessions live under `<session>/subagents/`. The viewer:

- watches the directory;
- reads every log incrementally from a byte offset;
- keeps a registry of sessions;
- shows the sessions either in up to five panels, assigned least recently
  updated first, or as a tree of parent and child sessions beside a log pane.

This project models the logic of that program and proves what it promises.
There is one Dafny module per Go file of the core:

| module | file | what it holds |
|---|---|---|
| `Sessions` | `internal/session/session.go` | The `Manager` class. Its fields are `sessions` (a map of values), `panelAssign` (a map from panel index to session ID) and `panels`. It covers get-or-create, the update of a session's log and offset, the LRU panel table (`assignPanel`, `getOldestPanel`, `fillEmptyPanels`, `SetPanelCount`), the three newest-first views and the parent/child forest (`GetSessionTree`, `buildNode`). |
| `Sorting` | the exchange sort that session.go writes out six times | Written once, as an in-place array method. |
| `SessionTreeComponent` | `internal/tui/components/sessiontree.go` | The `SessionTree` class. It covers the order-preserving reconciliation (`preserveOrder`, `preserveChildOrder`), the pre-order flattening, the selection moves and the scroll window. |
| `Watcher` | `internal/watcher/watcher.go` | Classifying a log path into a session ID, the event filter of `handleEvent`, and the walk, sort and extraction of `ScanExisting`. |
| `Jsonl` | `internal/parser/jsonl.go` | The line loop of `Parse`, over bytes with the JSON decoder as a parameter, and the offset rules of `ParseFromOffset`. |
| `TuiModel` | `internal/tui/model.go` and `internal/tui/update.go` | The `Model` class. It covers the ingestion rule, the view mode, the per-panel scroll positions, the panel-count cycle and the key routing. |
| `TreeViewLayout` | `internal/tui/treeview.go` | The `TreeView` class. It covers the focus and fullscreen transitions and the layout arithmetic. |
| `Panel` | `internal/tui/panel.go` | The visible window, ANSI-aware truncation and padding, one-line truncation, word wrapping and the assembly of a panel's rows. |
| `LogViewportComponent` | `internal/tui/components/logviewport.go` | Its truncation, its wrapping and break point, and the viewport's size state. |
| `Cli` | `cmd/root.go` | `pathToClaudePath` and the start-up loop that loads the existing logs oldest first. |
| `Text` | (none) | Shared string helpers: rune width, `runewidth.Truncate`, `strings.Split`, `TrimSuffix`, `TrimLeft`, `ReplaceAll` and `Repeat`. |

Conventions of the model:

- **Widths.** Rune width is a parameter `rw: char -> nat`. A string's width is
  the sum of its runes' widths. `runewidth.Truncate(s, w, tail)` is the longest
  prefix of `s` that fits into `w - width(tail)` columns, followed by `tail`.
- **Time.** Every `time.Now()` is a parameter `now`.
- **Map order.** Go's map iteration order is a choice the verifier leaves
  open (`:|`). Every contract therefore holds for any order Go might pick.
- **Messages.** A log message is an opaque type. The JSON decoder is a
  function `seq<byte> -> Option<Message>`.
- **Files.** A file is a value holding its bytes and whether seeking or
  reading the position fails.

## Model

| member | source | states |
|---|---|---|
| Sessions.DefaultExclusion | internal/session/session.go:12-14 | With the default patterns, a session is excluded exactly when its ID contains `prompt_suggestion`. |
| Sessions.Manager.constructor | internal/session/session.go:44-51 | A new manager has the requested panel count, no sessions, an empty panel table and the default exclusion list. |
| Sessions.Manager.ShouldExcludeSession | internal/session/session.go:54-62 | The answer is true exactly when some configured pattern is a substring of the ID. |
| Sessions.Manager.GetOrCreateSession | internal/session/session.go:65-89 | Same as GetOrCreateSessionWithParent with an empty parent ID. |
| Sessions.Manager.GetOrCreateSessionWithParent | internal/session/session.go:92-117 | An existing session keeps its messages, offset, path and parent; only its update time is refreshed, and the panel table is unchanged. A new session starts with no messages at offset 0 and is placed as assignPanel places it. No other session changes, and the table invariant holds. |
| Sessions.Manager.UpdateSession | internal/session/session.go:120-132 | An unknown ID changes nothing. Otherwise the batch is appended to the messages, the offset is replaced and the update time refreshed. No other session and no panel entry changes. |
| Sessions.Manager.AssignPanel | internal/session/session.go:135-162 | An excluded or already placed session changes nothing. Otherwise the session takes the lowest free index below `panels`. When there is none, exactly one entry is overwritten: one getOldestPanel may pick, stale indices included. The table stays valid: entries are distinct, registered and not excluded. |
| Sessions.Manager.GetOldestPanel | internal/session/session.go:165-182 | -1 for an empty table. Otherwise a panel whose session is unknown, or else a panel whose session has the minimal update time (any of the tied ones). |
| Sessions.Manager.AssignedSessions | internal/session/session.go:189-195 | Exactly the registered sessions on the table, each once. |
| Sessions.Padded | internal/session/session.go:206-212 | Exactly `n` entries: entry i is the i-th ordered session while there is one, and nil after that. |
| Sessions.PadPanels | internal/session/session.go:206-212 | The padding loop builds Padded(order, n). |
| Sessions.Manager.GetPanelSessions | internal/session/session.go:185-215 | The result is exactly `panels` entries: the registered sessions on the table (stale indices included), distinct and newest first, then nil padding. |
| Sessions.Manager.TableIds | internal/session/session.go:255-258 | The `assigned` set holds exactly the IDs on the table. |
| Sessions.Manager.Collect | internal/session/session.go:263-267 | The collection loop yields each registered session the filter accepts, exactly once. |
| Sessions.Manager.FillEmptyPanels | internal/session/session.go:253-286 | The table satisfies Filled: existing entries stay; new entries go only to missing indices below `panels`, lowest first, newest session first; they take the newest unplaced, non-excluded sessions; and an index stays missing only when no such session is left. |
| Sessions.FillDone | internal/session/session.go:279-285 | Once the fill loop has looked at every index below `panels`, its invariant implies Filled. |
| Sessions.FillDoneExhausted | internal/session/session.go:280-284 | An index below `panels` stays free only if every unplaced session has been placed. |
| Sessions.FillDoneNewest | internal/session/session.go:269-284 | Every session placed is at least as new as every unplaced session left out. |
| Sessions.Manager.SetPanelCount | internal/session/session.go:232-249 | The count becomes `count` if it is in 1..5, and 1 otherwise. Growing fills the table as FillEmptyPanels does. Shrinking or keeping the count leaves the table untouched, stale indices included. |
| Sessions.Manager.GetAllSessions | internal/session/session.go:290-312 | The result holds exactly the registered sessions that are not excluded, with no repetition, newest first. |
| Sessions.Manager.GetChildSessions | internal/session/session.go:380-401 | The result holds exactly the non-excluded sessions whose parent ID is `parentID`, with no repetition, newest first. |
| Sessions.Manager.IndexSessions | internal/session/session.go:320-333 | `top` holds exactly the non-excluded sessions without a parent, each once. `childrenMap` lists, for each parent ID, exactly its non-excluded children, each once. |
| Sessions.Manager.GetSessionTree | internal/session/session.go:316-352 | The roots are exactly the non-excluded parentless sessions, newest first. Each root is shaped as buildNode shapes it. |
| Sessions.BuildNode | internal/session/session.go:354-376 | The node is expanded. Its children are exactly the non-excluded sessions naming it as parent, newest first, and each child is shaped the same way one level down. |
| Sessions.BuildChildren | internal/session/session.go:370-373 | The child loop builds one shaped subtree per sorted child, in order. |
| Sessions.ForestMember | internal/session/session.go:316-376 | A session is in the forest exactly when its whole parent chain is registered, not excluded, and ends in a parentless session. |
| Sessions.Orphaned | internal/session/session.go:328-331 | A session whose parent is missing or excluded appears nowhere in the forest. |
| Sessions.ForestUnique | internal/session/session.go:345-349 | No session appears twice in the forest. |
| Sessions.Reachable | internal/session/session.go:324-333 | Every session at some depth of the parent chain is in the forest. |
| Sessions.FlatDistinct | internal/session/session.go:370-373 | No session appears twice in a tree buildNode builds. |
| Sessions.ForestDistinct | internal/session/session.go:345-349 | Trees whose root sessions differ share no session. |
| Sessions.ChildClosed | internal/session/session.go:360-373 | A tree that holds a session also holds all of that session's non-excluded children. |
| Sessions.DepthUnique | internal/session/session.go:328-331 | The parent chain gives every session a single depth. |
| Sessions.Manager.GetSession | internal/session/session.go:218-223 | Some session exactly when the ID is registered, and it is the registered session. |
| Sessions.Manager.PanelCount | internal/session/session.go:226-228 | The current panel count. |
| Sorting.ExchangeSort | internal/session/session.go:198-204 | After the nested exchange loops, the array is ordered by non-increasing key and is a permutation of its old contents. |
| Sorting.SortedCopy | internal/session/session.go:303-309 | Sorting a freshly built slice gives a non-increasing permutation of it. |
| Sorting.SortedUnique | internal/session/session.go:336-342 | When no two sessions share an update time, the sorted result does not depend on the order the map iteration produced. |
| Sorting.DistinctPermutation | internal/session/session.go:392-398 | A permutation of a list without repetitions has none either. |
| SessionTreeComponent.ById | internal/tui/components/sessiontree.go:84-87 | The map holds exactly the IDs of the new nodes, each under its own ID and taken from the list. |
| SessionTreeComponent.IndexById | internal/tui/components/sessiontree.go:120-123 | The loop builds ById of the list. |
| SessionTreeComponent.ReconciledIds | internal/tui/components/sessiontree.go:82-111 | The reconciled IDs are the old IDs that are still present, in old order, then the new IDs, in new order. IDs only in the old list are dropped. |
| SessionTreeComponent.ReconciledPermutation | internal/tui/components/sessiontree.go:82-111 | With unique IDs on both sides, the reconciled list has no repeated ID and is a permutation of the new IDs. |
| SessionTreeComponent.ReconciledFromNothing | internal/tui/components/sessiontree.go:115-117 | Reconciling against an empty old list returns the new list unchanged, which is what the shortcut returns. |
| SessionTreeComponent.ReconciledExpanded | internal/tui/components/sessiontree.go:125-146 | Reconciling against expanded new nodes yields nodes that are expanded at every depth. |
| SessionTreeComponent.PreserveChildOrder | internal/tui/components/sessiontree.go:114-147 | The result is Reconciled(old, new): the new list itself when the old one is empty, otherwise the same rule applied at every depth. |
| SessionTreeComponent.Reorder | internal/tui/components/sessiontree.go:89-110 | The two loops together give Reconciled(old, new). |
| SessionTreeComponent.KeepSurvivors | internal/tui/components/sessiontree.go:89-101 | The first loop gives the surviving nodes in old order, and marks their IDs as seen. |
| SessionTreeComponent.AppendFresh | internal/tui/components/sessiontree.go:103-110 | The second loop appends the new nodes whose ID was not seen, in their order. |
| SessionTreeComponent.SessionTree.PreserveOrder | internal/tui/components/sessiontree.go:82-111 | The new nodes, reconciled with the current forest. |
| SessionTreeComponent.FlattenTree | internal/tui/components/sessiontree.go:150-171 | The rows are Flattened(ns, depth): each node's row, then its children's rows one level deeper when it is expanded and has children. |
| SessionTreeComponent.EmitNode | internal/tui/components/sessiontree.go:153-167 | One loop turn emits the node's row, then its subtree's rows. |
| SessionTreeComponent.FlattenedPreOrder | internal/tui/components/sessiontree.go:150-171 | With every node expanded, the rows list the forest's sessions in pre-order, one row per node. |
| SessionTreeComponent.EntriesShape | internal/tui/components/sessiontree.go:150-171 | The rows form a pre-order: none is above the start depth, the first is at it, and each row is at most one level below the previous. With every node expanded, a row with children is followed by a row one level deeper. |
| SessionTreeComponent.EntriesTopRows | internal/tui/components/sessiontree.go:153-162 | The rows at the top depth are the given nodes, one each, in order. HasChild holds exactly when the node has children, and IsLast exactly for the last node. |
| SessionTreeComponent.FlattenedTopRows | internal/tui/components/sessiontree.go:150-171 | The depth-0 rows of the flattened forest are its roots, in order, with HasChild and IsLast as above. |
| SessionTreeComponent.ForestExpanded | internal/session/session.go:354-358 | Every node of the forest GetSessionTree returns is expanded. |
| SessionTreeComponent.ChildRowIsNext | internal/tui/components/sessiontree.go:370-379 | In a pre-order listing, the child row MoveToChild finds can only be the next row. |
| SessionTreeComponent.ChildRowFound | internal/tui/components/sessiontree.go:370-379 | With every node expanded, a row with children has its first child on the next row, so MoveToChild succeeds there. |
| SessionTreeComponent.ParentRowFound | internal/tui/components/sessiontree.go:402-408 | In a pre-order listing, every row below the top level has a parent row above it. |
| SessionTreeComponent.DisplayName | internal/tui/components/sessiontree.go:272-279 | A main session is shown by its ID. A subagent is shown by the part after its last '/'. |
| SessionTreeComponent.SubagentDisplayName | internal/tui/components/sessiontree.go:272-279 | A subagent named `session/agent`, as the watcher names it, is shown as `agent`. |
| SessionTreeComponent.PlainSubagentDisplayName | internal/tui/components/sessiontree.go:275-278 | A subagent ID without '/' is shown whole. |
| SessionTreeComponent.SessionTree.constructor | internal/tui/components/sessiontree.go:34-39 | A new tree is empty, focused, and has zero selection, offset and size. |
| SessionTreeComponent.SessionTree.SetSize | internal/tui/components/sessiontree.go:42-45 | Records the size. |
| SessionTreeComponent.SessionTree.SetFocused | internal/tui/components/sessiontree.go:174-176 | Records the focus flag. |
| SessionTreeComponent.SessionTree.SetSessionTree | internal/tui/components/sessiontree.go:48-78 | The nodes are reconciled only when there was a previous forest. The rows are their flattening. A previously selected session that is still listed stays selected, on its first row. Otherwise an out-of-range selection is pulled back to the last row. The tree invariant holds. |
| SessionTreeComponent.SessionTree.SelectedSession | internal/tui/components/sessiontree.go:184-190 | Some session exactly when there are rows, and it is the selected row's session. |
| SessionTreeComponent.SessionTree.MoveUp | internal/tui/components/sessiontree.go:345-349 | Moves one row up unless at row 0. The selection stays a row. |
| SessionTreeComponent.SessionTree.MoveDown | internal/tui/components/sessiontree.go:352-356 | Moves one row down unless at the last row. The selection stays a row. |
| SessionTreeComponent.SessionTree.MoveToChild | internal/tui/components/sessiontree.go:359-382 | Succeeds only from a row with children. It lands on the first later row one level deeper, found before the subtree ends. When it fails from such a row, no such row exists. On failure the selection is unchanged. |
| SessionTreeComponent.SessionTree.MoveToParent | internal/tui/components/sessiontree.go:391-411 | Succeeds only from an in-range row below depth 0, and lands on the nearest earlier row one level up. A failure from a row below depth 0 means no such row exists. On failure the selection is unchanged. |
| SessionTreeComponent.SessionTree.ResetSelection | internal/tui/components/sessiontree.go:385-388 | Selection and offset become 0. |
| SessionTreeComponent.SessionTree.HasChildren | internal/tui/components/sessiontree.go:414-420 | True exactly when there are rows and the selected row has children. |
| SessionTreeComponent.SessionTree.HasParent | internal/tui/components/sessiontree.go:423-429 | True exactly when there are rows and the selected row is below depth 0. |
| SessionTreeComponent.SessionTree.AdjustScroll | internal/tui/components/sessiontree.go:243-254 | The offset is never negative. With selected ≥ 0 and a positive height, 0 ≤ offset ≤ selected < offset + height. An offset that already shows the row is kept; otherwise it moves just far enough. |
| Watcher.MainSessionPath | internal/watcher/watcher.go:162-167 | A one-component path `X.jsonl` is the main session `X`. |
| Watcher.SubagentPath | internal/watcher/watcher.go:169-175 | A path `{id}/subagents/.../{agent}.jsonl` is the subagent `id/agent`. The middle directories are ignored. |
| Watcher.TwoComponentPath | internal/watcher/watcher.go:177 | Two components never name a session. |
| Watcher.OtherDirectoryPath | internal/watcher/watcher.go:169-177 | Three or more components name no session unless the second is `subagents`. |
| Watcher.HandleEvent | internal/watcher/watcher.go:112-149 | A created directory is watched and reported as nothing else. An event is reported exactly for a write or create on a `.jsonl` path that names a session, and it carries that session. Everything else is ignored. |
| Watcher.Accepted | internal/watcher/watcher.go:190-215 | The walk callback records one timed event per accepted file, in walk order. |
| Watcher.AcceptedMembers | internal/watcher/watcher.go:195-212 | A timed event is recorded exactly when some walked entry is a `.jsonl` file naming a session and maps to it. |
| Watcher.WalkProject | internal/watcher/watcher.go:188-215 | The callback loop records Accepted(entries). |
| Watcher.ScanExisting | internal/watcher/watcher.go:187-232 | The events are those of some ordering of the accepted files that is a permutation of them, ordered by non-decreasing modification time (oldest first). |
| Watcher.ExtractEvents | internal/watcher/watcher.go:226-229 | The extraction loop keeps each event, in order. |
| Watcher.EventsOf | internal/watcher/watcher.go:226-229 | One event per timed entry, in the same order. |
| Watcher.ScanEventsNameSessions | internal/watcher/watcher.go:198-212 | Every event of the scan comes from a `.jsonl` file whose path names its session. |
| Jsonl.ParseStep | internal/parser/jsonl.go:101-113 | One scanner line adds its decoded message (if it has one) in front of the rest, and does not change the too-long flag. |
| Jsonl.DecodedMembers | internal/parser/jsonl.go:101-113 | A message is returned exactly when some non-empty line decodes to it. |
| Jsonl.KeptOf | internal/parser/jsonl.go:103-112 | A line contributes its message when it is non-empty and decodes, and nothing otherwise. |
| Jsonl.TokensHaveNoNewLine | internal/parser/jsonl.go:101-102 | No line the scanner yields contains a newline. |
| Jsonl.Parse | internal/parser/jsonl.go:93-120 | The messages are the decoded non-empty lines, in line order. The error flag is the scanner's too-long flag (a line of 1 MiB or more), and the messages read before that line are still returned. |
| Jsonl.Remaining | internal/parser/jsonl.go:130-134 | Seeking to offset ≤ 0 reads everything, an offset inside the file reads the rest, and an offset past the end reads nothing. |
| Jsonl.EndPosition | internal/parser/jsonl.go:142-147 | The position after reading to the end is never below the offset nor below the file size. |
| Jsonl.ParseOutcome | internal/parser/jsonl.go:123-148 | The new offset never moves back, an error keeps the original offset, and an unopenable file yields no messages and an error. |
| Jsonl.ParseFromOffset | internal/parser/jsonl.go:123-148 | A failed open or seek gives no messages, the original offset and an error. A scanner or tell failure gives the messages read and the original offset. Success gives the end position. The offset never decreases. |
| TuiModel.Toggled | internal/tui/model.go:107-114 | The mode always changes. |
| TuiModel.ToggleTwice | internal/tui/model.go:107-114 | Toggling twice restores the mode. |
| TuiModel.IngestRule | internal/tui/model.go:86-93 | A failed parse or an empty batch leaves the session's messages and offset as they were. Otherwise the batch is appended and the offset replaced. Either way the log only grows and the offset never moves back. |
| TuiModel.IngestParts | internal/tui/model.go:78-93 | After get-or-create and the parse, the new registry is the touched registry, with the batch appended only for a successful, non-empty parse. |
| TuiModel.IngestKeepsOthers | internal/tui/model.go:78-93 | An event registers its own session, stamps it with the current time, and leaves every other session unchanged. |
| TuiModel.IngestUnreadable | internal/tui/model.go:86-89 | A file that cannot be opened only registers the session or refreshes its update time. |
| TuiModel.AssignedPlaces | internal/session/session.go:135-162 | A session that assignPanel has just placed, and that is not excluded, is on the panel table. |
| TuiModel.MaxStartLine | internal/tui/update.go:118-123 | The last fixed start line is max(0, 3·messages − panelHeight). |
| TuiModel.ScrollDownEntry | internal/tui/update.go:110-129 | Follow mode stays. A fixed position either moves one line on, staying strictly below the last start line, or becomes follow mode. |
| TuiModel.ScrollUpEntry | internal/tui/update.go:150-164 | The result is never negative. A positive position moves one line back. Follow mode becomes max(0, maxStartLine − 1). |
| TuiModel.FollowRoundTrip | internal/tui/update.go:118-164 | Scrolling up from follow mode and back down returns to follow mode. |
| TuiModel.FixedRoundTrip | internal/tui/update.go:118-164 | Inside the fixed range, scrolling up then down returns to the same line. |
| TuiModel.DownReachesFollow | internal/tui/update.go:125-129 | Enough scroll-downs from any fixed position end in follow mode. |
| TuiModel.StaysInFollow | internal/tui/update.go:110-113 | Scroll-downs never leave follow mode. |
| TuiModel.UpReachesTop | internal/tui/update.go:162-164 | Enough scroll-ups from a fixed position reach line 0. |
| TuiModel.ScrollDownEntries | internal/tui/update.go:106-130 | Entries past the panel count, in follow mode or for an empty panel are unchanged. Every other entry is in follow mode or strictly inside the fixed range. |
| TuiModel.ScrollUpEntries | internal/tui/update.go:141-165 | Every entry for a panel with a session ends in fixed mode (≥ 0). The others are unchanged. |
| TuiModel.NextPanelCount | internal/tui/update.go:85-89 | One more, wrapping to 1 above 5; for a non-negative count always in 1..5. |
| TuiModel.PanelCountCycles | internal/tui/update.go:84-96 | Pressing `p` five times returns to the panel count one started from. |
| TuiModel.Model.constructor | internal/tui/model.go:28-40 | Panel mode, not ready, one scroll position per panel, all 0, and a fresh tree view in its initial focus state. |
| TuiModel.Model.ToggleViewMode | internal/tui/model.go:107-114 | The mode flips, and it is the only field the method may change. |
| TuiModel.Model.ProcessFileUpdate | internal/tui/model.go:77-94 | The registry becomes Ingest(old, event, file): the session is fetched or created before the parse, and only a successful, non-empty parse appends. An existing session leaves the panel table alone. A new session changes the table exactly as assignPanel's Assigned rule says: no change when it is excluded, else the lowest free index, else the oldest panel's index. |
| TuiModel.Model.ScrollDown | internal/tui/update.go:98-130 | Every position is updated as ScrollDownEntry says for the sessions GetPanelSessions shows, skipping indices past the panel count and empty panels. |
| TuiModel.Model.ScrollUp | internal/tui/update.go:132-166 | Every position is updated as ScrollUpEntry says, with the same skips as ScrollDown. |
| TuiModel.Model.CyclePanelCount | internal/tui/update.go:84-96 | The panel count becomes NextPanelCount of the old one, and every scroll position is −1, one per panel. The registry is kept. On the wrap to 1 the panel table is kept. On growth the table is Filled: old entries stay and the newest unplaced sessions take the free indices. |
| TuiModel.Model.HandleKey | internal/tui/update.go:11-25 | q and ctrl+c quit and change nothing: the model, the manager and the tree view with its tree and log are unchanged. No key changes the width, the height, the ready flag or the registry. t toggles the mode and changes nothing else. In tree mode other keys go to the tree view: the focus follows KeyStep, r rebuilds the tree and re-syncs the log, j/down and k/up move the selection while the tree has the focus, other keys leave the selection and the log alone, and the scroll positions stay. In panel mode the tree view is unchanged; j/down and k/up scroll, p cycles the panel count and puts every panel back in follow mode, and other keys leave the scroll positions alone. The panel count and the panel table change only for p in panel mode, as CyclePanelCount states. |
| TuiModel.Model.Resize | internal/tui/update.go:27-39 | Records the size, marks the model ready, and lays out the tree view with one row kept for the help line. |
| TreeViewLayout.KeyStep | internal/tui/treeview.go:101-123 | The invariant "tree hidden ⇒ log focused" is kept. Keys other than enter, esc and f change nothing. The focus changes only on enter or esc. |
| TreeViewLayout.CoherentAfterKeys | internal/tui/treeview.go:101-123 | Any key sequence keeps that invariant. |
| TreeViewLayout.ReachableCoherent | internal/tui/treeview.go:45-54 | Every state reachable from a new tree view keeps it. |
| TreeViewLayout.EscShowsTree | internal/tui/treeview.go:107-116 | Esc from the log lands on the visible, focused tree. |
| TreeViewLayout.FullscreenInvolution | internal/tui/treeview.go:117-123 | With the log focused, pressing f twice restores the layout. |
| TreeViewLayout.EnterKeepsTreeVisible | internal/tui/treeview.go:101-106 | Enter from the tree focuses the log without hiding the tree. |
| TreeViewLayout.TreeWidth | internal/tui/treeview.go:74-81 | The tree's width is always between 20 and 40. |
| TreeViewLayout.TreeWidthRegimes | internal/tui/treeview.go:74-81 | 20 up to 66 columns, width·30/100 from 67 to 133, and 40 from 134 on. |
| TreeViewLayout.TreeWidthMonotone | internal/tui/treeview.go:74-81 | A wider terminal never gives the tree fewer columns. |
| TreeViewLayout.TreeView.constructor | internal/tui/treeview.go:41-55 | The tree is focused and the log is not, nothing is hidden, and no session is shown. |
| TreeViewLayout.TreeView.SetSize | internal/tui/treeview.go:58-63 | One row is kept for the help line, and the children are laid out. |
| TreeViewLayout.TreeView.UpdateLayout | internal/tui/treeview.go:65-86 | A visible tree gets TreeWidth columns and the log the rest. A hidden tree gets 0 columns and the log the full width. |
| TreeViewLayout.TreeView.SetFocus | internal/tui/treeview.go:228-232 | The focus is set, and the children's focus flags agree with it. |
| TreeViewLayout.TreeView.UpdateLogSession | internal/tui/treeview.go:234-237 | The log shows the selected row's session. |
| TreeViewLayout.TreeView.RefreshSessionsSorted | internal/tui/treeview.go:217-221 | The tree holds the manager's forest, reconciled with the current order. A selected session still listed stays selected, and the log follows it. |
| TreeViewLayout.TreeView.PressFocusKey | internal/tui/treeview.go:101-123 | Focus and fullscreen change as KeyStep says. |
| TreeViewLayout.TreeView.MoveSelection | internal/tui/treeview.go:129-146 | The selection moves one row as MoveDown/MoveUp do, and the log is re-synced to the selected session. |
| TreeViewLayout.TreeView.Update | internal/tui/treeview.go:89-155 | Focus and fullscreen follow KeyStep. r reloads the tree. With the tree focused, j/down and k/up move the selection and re-sync the log. Other keys leave the tree alone. The size never changes. |
| Panel.CalculateVisibleWindow | internal/tui/panel.go:244-262 | 0 ≤ start ≤ end ≤ total and end − start ≤ height. In follow mode end = total and the window has min(height, total) lines. In fixed mode with scrollPos ≤ total − height it is exactly [scrollPos, scrollPos + height). |
| Panel.TruncateWithAnsi | internal/tui/panel.go:281-316 | The loop returns AnsiTruncated: the runes before the scan's stop, then the reset sequence. |
| Panel.AnsiTruncatedFits | internal/tui/panel.go:281-316 | The result is a rune prefix of the input followed by the reset sequence. Its visible width is at most `width`, and it ends outside any escape sequence. |
| Panel.AnsiTruncatedWhole | internal/tui/panel.go:286-313 | Text that fits comes back whole, with the reset sequence added. |
| Panel.AnsiTruncatedPlain | internal/tui/panel.go:281-316 | On text without ESC, the result is runewidth.Truncate with an empty tail, then the reset sequence. |
| Panel.AnsiCutUnique | internal/tui/panel.go:304-307 | There is exactly one place where the scan stops. |
| Panel.PadToWidth | internal/tui/panel.go:266-278 | A line that fits is padded with exactly the missing number of spaces. A line that is too wide is cut by truncateWithANSI, then padded. |
| Panel.PadToWidthExact | internal/tui/panel.go:266-278 | With one column per space, the result is exactly `width` columns wide and never left inside an escape sequence. |
| Panel.OneLine | internal/tui/panel.go:504-507 | No newline, carriage return or tab remains. |
| Panel.OneLinePlain | internal/tui/panel.go:504-507 | Text that is already one line without tabs is left as it is. |
| Panel.Shorten | internal/tui/panel.go:517-523 | The result is a cut of the text followed by the ellipsis, no longer than the first cut. It either fits into the width or is the bare ellipsis. |
| Panel.TruncateText | internal/tui/panel.go:499-526 | The result holds no newline, carriage return or tab. Text that fits into max(maxWidth, 4) columns comes back unchanged. Otherwise the result is a prefix followed by the ellipsis. With one column per ASCII rune the result always fits. |
| Panel.LastFittingRune | internal/tui/panel.go:600-612 | The index of a rune of the text. |
| Panel.LastFittingRuneFits | internal/tui/panel.go:600-612 | The runes through it fit, unless the first rune alone overflows. The rune after it overflows. |
| Panel.BreakPoint | internal/tui/panel.go:572-627 | Never past the end of the text. |
| Panel.BreakPointAtSpace | internal/tui/panel.go:614-624 | The position of the last space at or before the last fitting rune, or else the position just after that rune. |
| Panel.BreakPointFits | internal/tui/panel.go:572-627 | When the first rune fits, the text before the break point fits. |
| Panel.FindBreakPoint | internal/tui/panel.go:572-627 | The loops compute BreakPoint. |
| Panel.RecordRunes | internal/tui/panel.go:581-593 | The rune table records each rune's position, end, cumulative width and whether it is a space. |
| Panel.FindLastFittingRune | internal/tui/panel.go:600-612 | The loop finds LastFittingRune. |
| Panel.BreakAt | internal/tui/panel.go:544-548 | At least 1, and never past the end of a non-empty paragraph, so every pass shortens the paragraph. |
| Panel.WrapParagraphFits | internal/tui/panel.go:543-565 | Every line of a wrapped paragraph fits into `width`. |
| Panel.WrapParagraphRunes | internal/tui/panel.go:543-565 | Every line holds only runes of the paragraph. |
| Panel.FitLineFits | internal/tui/panel.go:553-555 | A line cut to width fits, and holds only runes of the line. |
| Panel.WrappedFits | internal/tui/panel.go:528-569 | With a positive width, every line wrapText gives fits and holds no newline. |
| Panel.WrappedFitting | internal/tui/panel.go:543-564 | One paragraph that fits is one line, unchanged. |
| Panel.WrapText | internal/tui/panel.go:528-569 | The paragraph loop computes Wrapped, which is the text itself when the width is not positive. |
| Panel.WrapParagraphLoop | internal/tui/panel.go:543-565 | The inner loop computes WrapParagraph and terminates. |
| Panel.Quot | internal/tui/panel.go:148-159 | Go's division, truncating toward zero for negative operands. |
| Panel.CombinedRowWidth | internal/tui/panel.go:103-117 | With one column per space, every combined row is its padded body row plus its scrollbar row, so the scrollbar starts in column bodyWidth. |
| Panel.CombineLines | internal/tui/panel.go:102-118 | As many rows as the longer of body and scrollbar. Row i is body row i padded to bodyWidth, then scrollbar row i. |
| Panel.RenderPanelLines | internal/tui/panel.go:73-133 | Nothing when the panel is too small (inner width below 10 or inner height below 3). Otherwise exactly innerHeight rows: the header, the combined rows, then blank rows. |
| Panel.RenderEmptyPanel | internal/tui/panel.go:136-176 | Nothing when the panel is too small. Otherwise exactly innerHeight rows: the centred message on row TopPad and blank rows elsewhere. |
| Panel.EmptyPanelCentered | internal/tui/panel.go:157-172 | The message sits on a row of its own, with as many blank rows below it as above, or one more. |
| Panel.BlankRows | internal/tui/panel.go:159-162 | Exactly max(count, 0) copies of the blank line. |
| Panel.RenderPanel | internal/tui/panel.go:73-133 | Nothing exactly when the panel is too small, otherwise innerHeight rows. A nil session gets the empty panel; a session gets its header, body and scrollbar rows. |
| Panel.PaddedWindowFollows | internal/tui/panel.go:231-237 | The window never has more rows than the height. In follow mode it shows the last min(height, total) lines, padded. |
| Panel.RenderBody | internal/tui/panel.go:207-240 | Without messages, the padded placeholder and 0 lines. Otherwise the total line count and the padded window of lines, joined by newlines. |
| LogViewportComponent.SingleLine | internal/tui/components/logviewport.go:321-322 | No newline or carriage return remains. |
| LogViewportComponent.TruncateText | internal/tui/components/logviewport.go:320-329 | Text that fits is returned on one line, unchanged. Otherwise the result is runewidth.Truncate to maxWidth − 3 columns with an ellipsis. |
| LogViewportComponent.TruncateTextOneLine | internal/tui/components/logviewport.go:320-329 | The result is one line. With one column per dot, text that is too wide comes out at most maxWidth − 3 columns wide. |
| LogViewportComponent.BreakPoint | internal/tui/components/logviewport.go:360-381 | Never past the end of the text. |
| LogViewportComponent.BreakPointBounds | internal/tui/components/logviewport.go:362-381 | The break point is at most the end of the longest fitting prefix, which ends before the text does. |
| LogViewportComponent.BreakPointZero | internal/tui/components/logviewport.go:360-381 | The break point is 0 exactly when the first rune alone is wider than `width`. The text before it always fits. |
| LogViewportComponent.FindBreakPoint | internal/tui/components/logviewport.go:360-381 | The loops compute BreakPoint. |
| LogViewportComponent.WrapStepStalls | internal/tui/components/logviewport.go:347-351 | When the first rune is wider than `width` and is not a space, a pass cuts off "" and leaves the paragraph unchanged. |
| LogViewportComponent.WrapStepStallsOnWideRune | internal/tui/components/logviewport.go:347-351 | The paragraph "世", wrapped to one column with that rune two columns wide, passes to ("", "世"). |
| LogViewportComponent.GuardedBreak | internal/tui/panel.go:544-548 | At least 1, and never past the end of a non-empty paragraph. |
| LogViewportComponent.GuardedBreakAsWritten | internal/tui/components/logviewport.go:347-351 | Where the first rune fits, the guard changes nothing. |
| LogViewportComponent.WrapParagraphFits | internal/tui/components/logviewport.go:347-355 | With the guard, every line either fits or is a single rune wider than the width. |
| LogViewportComponent.WrapText | internal/tui/components/logviewport.go:331-358 | The paragraph loop computes Wrapped with the guarded break (the corrected definition under ## Findings), which is the text itself when the width is not positive. |
| LogViewportComponent.WrapParagraphLoop | internal/tui/components/logviewport.go:347-355 | With the guarded break, the inner loop computes WrapParagraph and terminates. |
| LogViewportComponent.LogViewport.constructor | internal/tui/components/logviewport.go:57-65 | No session, zero sizes, not focused. |
| LogViewportComponent.LogViewport.SetSize | internal/tui/components/logviewport.go:68-75 | The viewport's inner size is (w − 3, h − 4). |
| LogViewportComponent.LogViewport.SetSession | internal/tui/components/logviewport.go:78-81 | Records the session. |
| LogViewportComponent.LogViewport.SetFocused | internal/tui/components/logviewport.go:84-86 | Records the focus flag. |
| Cli.PathToClaudePath | cmd/root.go:130-139 | The length is kept. Each separator and each dot becomes a dash, and every other rune is unchanged. |
| Cli.PathToClaudePathFlat | cmd/root.go:135-137 | The result holds no separator and no dot. |
| Cli.PathToClaudePathIdempotent | cmd/root.go:135-137 | Mapping a mapped path changes nothing. |
| Cli.PathToClaudePathConcat | cmd/root.go:135-137 | The mapping distributes over concatenation. |
| Cli.PathToClaudePathLevel | cmd/root.go:132-134 | A level's leading separator or dot becomes a dash, and the name stays. |
| Cli.PathToClaudePathJoined | cmd/root.go:130-131 | A path written level by level, such as /Users/foo/github.com/project, becomes its names joined by dashes with a leading dash: -Users-foo-github-com-project. |
| Cli.Opened | cmd/root.go:112 | The file opens exactly when the path is in the snapshot. |
| Cli.IdsOfNamed | cmd/root.go:110-111 | The ID set holds exactly the IDs some event names. |
| Cli.IngestAllKeys | cmd/root.go:110-116 | Start-up registers exactly the sessions the events name, besides those already known. |
| Cli.LastCreatedPlacedLatest | cmd/root.go:110-116 | The latest event that created a session left that session on the panel table, unless it is excluded. |
| Cli.IngestExisting | cmd/root.go:110-116 | The registry is IngestAll of the events. Its keys are the old keys plus the IDs named. The newest session created holds a panel unless it is excluded. From an empty manager, with events naming distinct sessions, the panels hold exactly the last min(panels, k) of the k non-excluded sessions created. With a repeated ID this does not hold: a, b, a, c at two panels leaves a and c, because the repeat refreshes a. |
| Cli.IngestNext | cmd/root.go:110-116 | One loop turn ingests event i with the clock at t0 + i, and keeps the placement property. |
| Cli.IngestEvent | cmd/root.go:111-115 | The registry becomes Ingest of the event. An existing session leaves the table alone. A new one changes it exactly as assignPanel's Assigned rule says, and an excluded one leaves it alone. |
| Cli.RunTui | cmd/root.go:99-122 | A manager with the requested panel count is filled from the scanned events, oldest first, and handed to a new model in panel mode. For every scan, the latest event that created a non-excluded session left it on the panel table (LastCreatedPlaced). When the scanned events name distinct sessions, the panels hold exactly the most recently created non-excluded sessions, up to the panel count. |
| Cli.RollingStep | internal/session/session.go:135-162 | One more event that creates its session keeps the start-up invariant: admitted sessions registered and strictly older the earlier they came, indices below the count (the first ones while filling, all once full), and the table holding exactly the newest admitted sessions. |
| Cli.RollingFill | internal/session/session.go:148-155 | While fewer sessions than panels were admitted, assignPanel's lowest free index is the next one, and the table gains the new session. |
| Cli.RollingEvict | internal/session/session.go:157-161 | Once the table is full, the oldest panel holds the oldest session of the window, and replacing it shifts the window by one. |
| Cli.RollingExcluded | internal/session/session.go:136-139 | An excluded new session leaves the table and the admitted list unchanged. |
| Cli.TimedStep | cmd/root.go:110-116 | The session created by the next event is newer than every session admitted before it. |
| Cli.CreatedAtStart | cmd/root.go:110-116 | From an empty manager and distinct IDs, every event creates its session. |
| Text.Truncate | internal/tui/panel.go:514 | Text that fits is unchanged. Otherwise the result is the longest prefix that fits into `w − width(tail)`, followed by `tail`. |
| Text.FitLengthIsLongest | internal/tui/panel.go:554 | No longer prefix than FitLength fits. |
| Text.TruncateEmptyTailFits | internal/tui/panel.go:562 | With an empty tail, the result is a prefix that fits. |
| Text.Split | internal/tui/panel.go:535 | At least one part, and no part holds the separator. |
| Text.Paragraphs | internal/tui/panel.go:534-535 | wrapText's paragraphs: at least one, and none holds a newline or a carriage return. |
| Text.SplitRunes | internal/tui/panel.go:535 | Every rune of a part occurs in the split string. |
| Text.LinesOfAppend | internal/tui/panel.go:537-566 | The lines of two paragraph lists are the lines of the first, then those of the second. |
| Text.ParagraphsInOrder | internal/tui/panel.go:537-566 | Paragraphs wrap one after another, in both wrapText functions (logviewport.go:338-356 too): a text whose first paragraph is a gives a's lines, then those of the rest. |
| Text.SingleParagraph | internal/tui/panel.go:534-535 | A text without newlines or carriage returns is one paragraph. |
| Text.SplitJoin | internal/tui/panel.go:535 | Joining the parts with the separator gives back the text. |
| Text.JoinSplit | internal/tui/panel.go:239 | Splitting the joined parts gives back the parts, when there is at least one part and no part holds the separator. |
| Text.TrimSuffix | internal/watcher/watcher.go:164 | With the suffix, the result followed by the suffix is the text. Without it, the text unchanged. |
| Text.TrimLeftSpacesSuffix | internal/tui/panel.go:557 | strings.TrimLeft(s, " ") keeps a suffix of the text that does not start with a space, and every rune dropped was a space. |
| Text.ReplaceRune | cmd/root.go:135 | The replaced rune is gone when the replacement lacks it, and nothing new appears. |
| Text.ReplaceRuneByRune | cmd/root.go:137 | Replacing a rune by a rune keeps the length and changes exactly the matching positions. |
| Text.Repeat | internal/tui/panel.go:125 | n copies of the rune, and none for a negative n. |
| Text.RepeatWidth | internal/tui/panel.go:274 | The width of n copies is n times the rune's width. |

## Left out

- Locking (`sync.RWMutex`), goroutines, channels and fsnotify. The model is sequential. The watcher's sends that drop when a channel is full are not modelled. `PanelCount` reading without the lock is not modelled either.
- Aliasing of `*Session` and `*Node`. Sessions and nodes are values, so the model cannot show a change through a reference shared with another holder. In particular, `preserveChildOrder` overwriting `Children` of a reused node is returned as a new value.
- Real I/O. `os.Open`, `Seek` and `filepath.Walk` are replaced by a snapshot of file contents (`Cli.Opened`, `Jsonl.OpenFile`) and by the walk's entry list.
- `os.Stat` and `filepath.Rel` are parameters of `Watcher.HandleEvent`. Only `/` is a separator.
- `MessageContent.UnmarshalJSON` and JSON decoding in general. The decoder is a parameter and a message is an opaque type.
- The clock. `time.Now()` is a parameter. The start-up loop reads it once per event as `t0 + i`.
- Go map iteration order. It is left to the verifier's choice, so every result holds for any order.
- Rendering: lipgloss styles and borders, `View`, `renderHeader`, `renderMessage`, `renderContentBlock`, `formatToolInput` (dynamic JSON values), `renderItem`'s styling and prefix drawing, and `view.go`. Only the row counts and widths of a panel, the body window and the padding are modelled.
- `renderScrollbar` in both files, because it uses float64 arithmetic.
- The bubbles viewport in logviewport.go: `updateContent`, `Refresh`, `Update`, `ScrollDown` and `ScrollUp`, which only forward to the library.
- Unicode width tables of `runewidth` and `lipgloss.Width`. A rune's width is a parameter.
- Byte positions. Both `findBreakPoint`s, `padToWidth` and the slicing in `wrapText` index bytes. The model reads them as rune indices, which agrees for single-byte text.
- `sort.Slice` in `ScanExisting` is a library call that promises only an ordered permutation. The same exchange sort with the time negated stands in for it. Neither promises to be stable.
- Sessions.Manager.constructor: requires a panel count of at least 1. The `--panels` flag reaches `NewManager` unchecked (cmd/root.go:55, 101). A count of 0 would make `renderPanelView` divide by zero at `m.width / panels` (internal/tui/view.go:30), and a negative count would make `GetPanelSessions` panic at `make` (internal/session/session.go:207).
- Cli.RunTui: requires the same panel count of at least 1, for the same reason. Its promise that the panels hold the most recently created sessions assumes that the scanned events name distinct sessions. Distinct log files can share a session ID: `parseSessionInfo` keeps only the first path component and the last file name (internal/watcher/watcher.go:169-175), and the walk accepts `.jsonl` files at any depth (internal/watcher/watcher.go:190-202), so `s/subagents/a.jsonl` and `s/subagents/x/a.jsonl` both give `s/a`. Distinct IDs is therefore a real extra hypothesis. The statement that holds for every scan is RunTui's LastCreatedPlaced clause, read through `Cli.LastCreatedPlacedLatest`: the latest event that created a non-excluded session left it on the panel table. Resolving the project path, the home directory, the existence check and starting the bubbletea program are I/O and are not modelled.
- Panel.RenderBody: requires a non-negative body height. Every caller passes the inner height of a panel that is not too small.
- LogViewportComponent.BreakPoint: requires the text to be wider than the width, as its only caller ensures. Otherwise the Go loop would read past the end of the text.
- Code that does not compile as shown:
  - model.go:79-80 reads `event.ParentID`, which `watcher.Event` lacks. The model's event has no parent ID and always takes the `GetOrCreateSession` branch.
  - update.go:15 uses a return value of `ToggleViewMode`, which returns none. The model toggles and returns nothing.
  - treeview.go:196 and 199 call the manager methods `GetRecentlyUpdated` and `GetSessionTreePreserveOrder`, which do not exist. So `RefreshSessions`, `RefreshLog`, the highlight set and its `tea.Tick` timer are not modelled. Neither is the refresh that `ToggleViewMode` and the first window-size message trigger through them. `RefreshSessionsSorted` is modelled.
- TreeViewLayout.TreeView.Update: keys passed on to the log viewport (scrolling it) change nothing modelled.
- `NewModelWithMode`, `SetViewMode` and `ViewMode`. They are one-line field accessors, and `NewModel` is modelled.
- `Init` and `waitForFileEvents`, the file-event message path in `Update` (update.go:41-51) and `HighlightClearMsg`. They wire channels to messages. The ingestion they trigger is `TuiModel.Model.ProcessFileUpdate`.
- cobra set-up, `getVersion`, `getCommit` and `getDate`: build glue.

## Findings

| source | as written | input that shows it | evidently intended | confidence | as-written member | corrected member |
|---|---|---|---|---|---|---|
| internal/tui/components/logviewport.go:347-351, 364-369 | `wrapText` cuts `para[:breakAt]` with `breakAt = findBreakPoint(para, width)`. That is 0 when the first rune alone is wider than `width`, so the pass appends "" and leaves `para` unchanged, and the loop never ends. | The paragraph "世" with width 1, where '世' is two columns wide | Raise the break to at least 1, as panel.go:544-548 does, so every pass consumes a rune and the loop ends | high (not executed) | LogViewportComponent.WrapStepStallsOnWideRune | LogViewportComponent.WrapParagraphFits |
