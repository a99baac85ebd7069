/**
 * The bubbletea model of internal/tui/model.go and internal/tui/update.go:
 * the view mode, the per-panel scroll positions and the ingestion of a
 * changed log file into the session manager.
 *
 * A scroll position is either -1 (follow mode: the panel shows the newest
 * lines) or the first body line shown (fixed mode).
 */
module TuiModel {
  import opened Text
  import opened Sessions
  import Jsonl
  import Watcher
  import Panel
  import opened TreeViewLayout
  import SessionTreeComponent

  datatype ViewMode = ViewModeTree | ViewModePanel

  /** ToggleViewMode's new mode (model.go:107-114). */
  function Toggled(m: ViewMode): (r: ViewMode)
    ensures r != m
  {
    if m == ViewModeTree then ViewModePanel else ViewModeTree
  }

  lemma ToggleTwice(m: ViewMode)
    ensures Toggled(Toggled(m)) == m
  {
  }

  // ---------------------------------------------------------------------
  // Ingestion (model.go:77-94; the same rule is inlined in cmd/root.go)
  // ---------------------------------------------------------------------

  /**
   * The session after get-or-create: an existing one with a fresh update
   * time, or a new one with no messages at offset 0. The watcher's events
   * carry no parent ID, so the parent is always empty.
   */
  function Touched(sessions: map<string, Session>, e: Watcher.Event, now: int): Session
  {
    if e.sessionID in sessions then sessions[e.sessionID].(lastUpdate := now)
    else Session(e.sessionID, e.path, "", e.isSubagent, [], 0, now)
  }

  /**
   * The sessions after one file event: the session is fetched or created,
   * the file is parsed from its offset, and only a successful parse with
   * at least one message appends the batch and moves the offset.
   */
  function Ingest(sessions: map<string, Session>, e: Watcher.Event, file: Option<Jsonl.OpenFile>,
                  decode: seq<Jsonl.byte> -> Option<Jsonl.Message>, now: int): (r: map<string, Session>)
    ensures e.sessionID in r
  {
    var s := Touched(sessions, e, now);
    var outcome := Jsonl.ParseOutcome(file, s.offset, decode);
    if !outcome.2 && |outcome.0| > 0 then
      sessions[e.sessionID := s.(messages := s.messages + outcome.0, offset := outcome.1, lastUpdate := now)]
    else sessions[e.sessionID := s]
  }

  /**
   * The ingestion rule: a failed parse or an empty batch leaves the
   * session's messages and offset as they were before the event; otherwise
   * the batch is appended and the offset replaced. Either way the log only
   * grows and the offset never moves back.
   */
  lemma IngestRule(sessions: map<string, Session>, e: Watcher.Event, file: Option<Jsonl.OpenFile>,
                   decode: seq<Jsonl.byte> -> Option<Jsonl.Message>, now: int)
    ensures var s := Touched(sessions, e, now);
      var outcome := Jsonl.ParseOutcome(file, s.offset, decode);
      var after := Ingest(sessions, e, file, decode, now)[e.sessionID];
      (outcome.2 || outcome.0 == [] ==> after.messages == s.messages && after.offset == s.offset) &&
      (!outcome.2 && outcome.0 != [] ==> after.messages == s.messages + outcome.0 && after.offset == outcome.1) &&
      s.messages <= after.messages && after.offset >= s.offset
  {
  }

  /**
   * Ingest by its parts: given the touched session and the parse outcome,
   * the new map holds the touched session, with the batch appended when
   * the parse succeeded with messages.
   */
  lemma IngestParts(sessions: map<string, Session>, e: Watcher.Event, file: Option<Jsonl.OpenFile>,
                    decode: seq<Jsonl.byte> -> Option<Jsonl.Message>, now: int,
                    touched: map<string, Session>, batch: seq<Jsonl.Message>, newOffset: int, err: bool)
    requires touched == sessions[e.sessionID := Touched(sessions, e, now)]
    requires (batch, newOffset, err) == Jsonl.ParseOutcome(file, Touched(sessions, e, now).offset, decode)
    ensures err || |batch| == 0 ==> Ingest(sessions, e, file, decode, now) == touched
    ensures var s := touched[e.sessionID];
      !err && |batch| > 0 ==>
        Ingest(sessions, e, file, decode, now) == touched[e.sessionID := s.(messages := s.messages + batch, offset := newOffset, lastUpdate := now)]
  {
    var s := Touched(sessions, e, now);
    if !err && |batch| > 0 {
      assert touched[e.sessionID := s.(messages := s.messages + batch, offset := newOffset, lastUpdate := now)]
        == sessions[e.sessionID := s.(messages := s.messages + batch, offset := newOffset, lastUpdate := now)];
    }
  }

  /** An event registers its session, stamps it with the current time, and touches no other. */
  lemma IngestKeepsOthers(sessions: map<string, Session>, e: Watcher.Event, file: Option<Jsonl.OpenFile>,
                          decode: seq<Jsonl.byte> -> Option<Jsonl.Message>, now: int)
    ensures var r := Ingest(sessions, e, file, decode, now);
      r.Keys == sessions.Keys + {e.sessionID} && r[e.sessionID].lastUpdate == now &&
      forall k | k in sessions && k != e.sessionID :: r[k] == sessions[k]
  {
  }

  /** A file that cannot be opened only registers the session (or refreshes its update time). */
  lemma IngestUnreadable(sessions: map<string, Session>, e: Watcher.Event,
                         decode: seq<Jsonl.byte> -> Option<Jsonl.Message>, now: int)
    ensures Ingest(sessions, e, None, decode, now) == sessions[e.sessionID := Touched(sessions, e, now)]
  {
  }

  /** A session that was just placed is on the panel table unless it is excluded. */
  lemma AssignedPlaces(before: map<int, string>, after: map<int, string>, id: string, panels: int,
                       sessions: map<string, Session>, patterns: seq<string>)
    requires Assigned(before, after, id, panels, sessions, patterns)
    requires !Excluded(patterns, id)
    ensures OnTable(after, id)
  {
    if OnTable(before, id) {
    } else if LowestFree(before, panels) < panels {
      assert after[LowestFree(before, panels)] == id;
    } else {
      var p :| IsOldestPanel(before, sessions, p) && after == before[p := id];
      assert after[p] == id;
    }
  }

  // ---------------------------------------------------------------------
  // Scrolling (update.go:98-166)
  // ---------------------------------------------------------------------

  /** The rows of a panel's body: the terminal less the help line, the border and the header. */
  function PanelHeight(height: int): int
  {
    height - 2 - 2 - 1
  }

  /** The last start line of fixed mode, estimating three lines per message (update.go:118-123, 144-149). */
  function MaxStartLine(s: Session, panelHeight: int): (m: int)
    ensures m >= 0 && m >= |s.messages| * 3 - panelHeight
    ensures m == 0 || m == |s.messages| * 3 - panelHeight
  {
    Panel.Max(0, |s.messages| * 3 - panelHeight)
  }

  /**
   * One panel's position after scrolling down: follow mode stays; a fixed
   * position moves one line on and turns into follow mode once it reaches
   * the last start line.
   */
  function ScrollDownEntry(pos: int, s: Session, panelHeight: int): (r: int)
    ensures pos < 0 ==> r == pos
    ensures pos >= 0 ==> r == -1 || 1 <= r < MaxStartLine(s, panelHeight)
    ensures r >= 0 ==> r == pos + 1
  {
    if pos < 0 then pos
    else if pos + 1 >= MaxStartLine(s, panelHeight) then -1
    else pos + 1
  }

  /**
   * One panel's position after scrolling up: follow mode is first fixed at
   * the last start line, then a positive position moves one line back.
   */
  function ScrollUpEntry(pos: int, s: Session, panelHeight: int): (r: int)
    ensures r >= 0
    ensures pos > 0 ==> r == pos - 1
    ensures pos < 0 ==> r == Panel.Max(0, MaxStartLine(s, panelHeight) - 1)
  {
    var fixed := if pos < 0 then MaxStartLine(s, panelHeight) else pos;
    if fixed > 0 then fixed - 1 else fixed
  }

  /** Scrolling up from follow mode and back down returns to follow mode. */
  lemma FollowRoundTrip(s: Session, panelHeight: int)
    ensures ScrollDownEntry(ScrollUpEntry(-1, s, panelHeight), s, panelHeight) == -1
  {
  }

  /** Inside the fixed range, scrolling up then down returns to the same line. */
  lemma FixedRoundTrip(pos: int, s: Session, panelHeight: int)
    requires 0 < pos < MaxStartLine(s, panelHeight)
    ensures ScrollDownEntry(ScrollUpEntry(pos, s, panelHeight), s, panelHeight) == pos
  {
  }

  /** The position after `n` scroll-downs. */
  function DownTimes(pos: int, s: Session, panelHeight: int, n: nat): int
    decreases n
  {
    if n == 0 then pos else DownTimes(ScrollDownEntry(pos, s, panelHeight), s, panelHeight, n - 1)
  }

  /** The position after `n` scroll-ups. */
  function UpTimes(pos: int, s: Session, panelHeight: int, n: nat): int
    decreases n
  {
    if n == 0 then pos else UpTimes(ScrollUpEntry(pos, s, panelHeight), s, panelHeight, n - 1)
  }

  /** Enough scroll-downs from any fixed position always end in follow mode. */
  lemma {:induction false} DownReachesFollow(pos: int, s: Session, panelHeight: int, n: nat)
    requires pos >= 0 && n >= 1 && n >= MaxStartLine(s, panelHeight) - pos
    ensures DownTimes(pos, s, panelHeight, n) == -1
    decreases n
  {
    var next := ScrollDownEntry(pos, s, panelHeight);
    if next == -1 {
      StaysInFollow(s, panelHeight, n - 1);
    } else {
      DownReachesFollow(next, s, panelHeight, n - 1);
    }
  }

  lemma {:induction false} StaysInFollow(s: Session, panelHeight: int, n: nat)
    ensures DownTimes(-1, s, panelHeight, n) == -1
    decreases n
  {
    if n > 0 {
      StaysInFollow(s, panelHeight, n - 1);
    }
  }

  /** Enough scroll-ups from a fixed position always reach the top line. */
  lemma {:induction false} UpReachesTop(pos: int, s: Session, panelHeight: int, n: nat)
    requires 0 <= pos <= n
    ensures UpTimes(pos, s, panelHeight, n) == 0
    decreases n
  {
    if n > 0 {
      UpReachesTop(ScrollUpEntry(pos, s, panelHeight), s, panelHeight, n - 1);
    }
  }

  /**
   * Entry `k` after scrollDown (update.go:106-130): entries past the panel
   * count and panels without a session are skipped.
   */
  function DownAt(before: seq<int>, shown: seq<Option<Session>>, panels: int, panelHeight: int, k: int): int
    requires 0 <= k < |before|
  {
    if k >= panels || k >= |shown| || shown[k].None? then before[k]
    else ScrollDownEntry(before[k], shown[k].value, panelHeight)
  }

  /** Entry `k` after scrollUp (update.go:138-165). */
  function UpAt(before: seq<int>, shown: seq<Option<Session>>, panels: int, panelHeight: int, k: int): int
    requires 0 <= k < |before|
  {
    if k >= panels || k >= |shown| || shown[k].None? then before[k]
    else ScrollUpEntry(before[k], shown[k].value, panelHeight)
  }

  ghost predicate ScrolledDown(before: seq<int>, after: seq<int>, shown: seq<Option<Session>>, panels: int, panelHeight: int)
  {
    |after| == |before| && forall k :: 0 <= k < |after| ==> after[k] == DownAt(before, shown, panels, panelHeight, k)
  }

  ghost predicate ScrolledUp(before: seq<int>, after: seq<int>, shown: seq<Option<Session>>, panels: int, panelHeight: int)
  {
    |after| == |before| && forall k :: 0 <= k < |after| ==> after[k] == UpAt(before, shown, panels, panelHeight, k)
  }

  /**
   * What scrollDown promises of every entry: skipped ones are unchanged,
   * the others are in follow mode or strictly inside the fixed range.
   */
  lemma ScrollDownEntries(before: seq<int>, after: seq<int>, shown: seq<Option<Session>>, panels: int, panelHeight: int)
    requires ScrolledDown(before, after, shown, panels, panelHeight)
    ensures forall k :: 0 <= k < |after| && (k >= panels || k >= |shown| || shown[k].None? || before[k] < 0) ==>
      after[k] == before[k]
    ensures forall k :: 0 <= k < |after| && k < panels && k < |shown| && shown[k].Some? && before[k] >= 0 ==>
      after[k] == -1 || (after[k] == before[k] + 1 && after[k] < MaxStartLine(shown[k].value, panelHeight))
  {
  }

  /** What scrollUp promises: every panel with a session ends in fixed mode. */
  lemma ScrollUpEntries(before: seq<int>, after: seq<int>, shown: seq<Option<Session>>, panels: int, panelHeight: int)
    requires ScrolledUp(before, after, shown, panels, panelHeight)
    ensures forall k :: 0 <= k < |after| && k < panels && k < |shown| && shown[k].Some? ==> after[k] >= 0
    ensures forall k :: 0 <= k < |after| && (k >= panels || k >= |shown| || shown[k].None?) ==> after[k] == before[k]
  {
  }

  /** What GetPanelSessions returns: the sessions on the table, newest first, padded to the panel count. */
  ghost predicate ShownInPanels(m: Manager, shown: seq<Option<Session>>)
    reads m
  {
    m.panels >= 0 &&
    exists order ::
      && NewestFirst(order)
      && (forall x :: x in order <==> Registered(m.sessions, x) && OnTable(m.panelAssign, x.id))
      && shown == Padded(order, m.panels)
  }

  // ---------------------------------------------------------------------
  // Panel count (update.go:84-96)
  // ---------------------------------------------------------------------

  /** The panel count after `p`: one more, wrapping to 1 above 5. */
  function NextPanelCount(current: int): (next: int)
    ensures current >= 0 ==> 1 <= next <= MaxPanels
    ensures 0 <= current < MaxPanels ==> next == current + 1
  {
    if current + 1 > 5 then 1 else current + 1
  }

  /** Pressing `p` five times returns to the panel count one started from. */
  lemma PanelCountCycles(c: int)
    requires 1 <= c <= MaxPanels
    ensures NextPanelCount(NextPanelCount(NextPanelCount(NextPanelCount(NextPanelCount(c))))) == c
  {
  }

  class Model {
    const manager: Manager
    const treeView: TreeView
    var width: int
    var height: int
    var scrollPos: seq<int>
    var ready: bool
    var viewMode: ViewMode

    /** The manager and the tree view are well formed and there is one scroll position per panel. */
    ghost predicate Valid()
      reads this, manager, treeView, treeView.tree, treeView.log
    {
      manager.Valid() && treeView.Valid() && treeView.manager == manager && |scrollPos| == manager.panels
    }

    /** NewModel (model.go:28-40): panel mode, every panel at scroll position 0. */
    constructor(manager: Manager)
      requires manager.Valid()
      ensures Valid() && viewMode == ViewModePanel && !ready && width == 0 && height == 0
      ensures this.manager == manager && fresh(treeView) && fresh(treeView.tree) && fresh(treeView.log)
      ensures |scrollPos| == manager.panels && forall k :: 0 <= k < |scrollPos| ==> scrollPos[k] == 0
      ensures FocusState(treeView.focus, treeView.treeHidden) == Initial
    {
      var panels := manager.PanelCount();
      this.manager := manager;
      scrollPos := seq(panels, _ => 0);
      viewMode := ViewModePanel;
      treeView := new TreeView(manager);
      width := 0;
      height := 0;
      ready := false;
    }

    /**
     * ToggleViewMode (model.go:107-114). Entering the tree mode also calls
     * RefreshSessions, which relies on manager methods that do not exist
     * and is not modelled.
     */
    method ToggleViewMode()
      modifies this`viewMode
      ensures viewMode == Toggled(old(viewMode))
    {
      if viewMode == ViewModeTree {
        viewMode := ViewModePanel;
      } else {
        viewMode := ViewModeTree;
      }
    }

    /**
     * processFileUpdate (model.go:77-94): get or create the event's session,
     * parse its file from the session's offset, and append only a successful,
     * non-empty batch. A new session is offered a panel.
     */
    method ProcessFileUpdate(event: Watcher.Event, file: Option<Jsonl.OpenFile>,
                             decode: seq<Jsonl.byte> -> Option<Jsonl.Message>, now: int)
      requires manager.Valid()
      modifies manager
      ensures manager.Valid() && manager.panels == old(manager.panels)
      ensures manager.sessions == Ingest(old(manager.sessions), event, file, decode, now)
      ensures event.sessionID in old(manager.sessions) ==> manager.panelAssign == old(manager.panelAssign)
      ensures event.sessionID !in old(manager.sessions) ==>
        Assigned(old(manager.panelAssign), manager.panelAssign, event.sessionID, manager.panels,
                 old(manager.sessions)[event.sessionID := Touched(old(manager.sessions), event, now)],
                 manager.excludePatterns)
    {
      ghost var before := manager.sessions;
      var sess := manager.GetOrCreateSession(event.sessionID, event.path, event.isSubagent, now);
      var messages, newOffset, err := Jsonl.ParseFromOffset(file, sess.offset, decode);
      IngestParts(before, event, file, decode, now, manager.sessions, messages, newOffset, err);
      if err {
        return;
      }
      if |messages| > 0 {
        manager.UpdateSession(event.sessionID, messages, newOffset, now);
      }
    }

    /** scrollDown (update.go:98-130). */
    method ScrollDown()
      requires manager.Valid()
      modifies this`scrollPos
      ensures exists shown :: (ShownInPanels(manager, shown) &&
        ScrolledDown(old(scrollPos), scrollPos, shown, manager.panels, PanelHeight(height)))
    {
      var sessions := manager.GetPanelSessions();
      assert ShownInPanels(manager, sessions);
      var panels := manager.PanelCount();
      var panelHeight := height - 2 - 2 - 1;
      var before, positions := scrollPos, scrollPos;
      var i := 0;
      while i < |positions|
        invariant 0 <= i <= |positions| == |before|
        invariant forall k :: 0 <= k < i ==> positions[k] == DownAt(before, sessions, panels, panelHeight, k)
        invariant forall k :: i <= k < |positions| ==> positions[k] == before[k]
      {
        if i < panels && positions[i] >= 0 && sessions[i].Some? {
          var total := |sessions[i].value.messages| * 3;
          var maxStartLine := total - panelHeight;
          if maxStartLine < 0 {
            maxStartLine := 0;
          }
          positions := positions[i := positions[i] + 1];
          if positions[i] >= maxStartLine {
            positions := positions[i := -1];
          }
        }
        i := i + 1;
      }
      scrollPos := positions;
      assert ScrolledDown(before, scrollPos, sessions, panels, panelHeight);
      assert ShownInPanels(manager, sessions);
      assert panels == manager.panels;
      assert panelHeight == PanelHeight(height);
    }

    /** scrollUp (update.go:132-166). */
    method ScrollUp()
      requires manager.Valid()
      modifies this`scrollPos
      ensures exists shown :: (ShownInPanels(manager, shown) &&
        ScrolledUp(old(scrollPos), scrollPos, shown, manager.panels, PanelHeight(height)))
    {
      var sessions := manager.GetPanelSessions();
      assert ShownInPanels(manager, sessions);
      var panels := manager.PanelCount();
      var panelHeight := height - 2 - 2 - 1;
      var before, positions := scrollPos, scrollPos;
      var i := 0;
      while i < |positions|
        invariant 0 <= i <= |positions| == |before|
        invariant forall k :: 0 <= k < i ==> positions[k] == UpAt(before, sessions, panels, panelHeight, k)
        invariant forall k :: i <= k < |positions| ==> positions[k] == before[k]
      {
        if i < panels && sessions[i].Some? {
          var total := |sessions[i].value.messages| * 3;
          var maxStartLine := total - panelHeight;
          if maxStartLine < 0 {
            maxStartLine := 0;
          }
          if positions[i] < 0 {
            positions := positions[i := maxStartLine];
          }
          if positions[i] > 0 {
            positions := positions[i := positions[i] - 1];
          }
        }
        i := i + 1;
      }
      scrollPos := positions;
      assert ScrolledUp(before, scrollPos, sessions, panels, panelHeight);
      assert ShownInPanels(manager, sessions);
      assert panels == manager.panels;
      assert panelHeight == PanelHeight(height);
    }

    /** cyclePanelCount (update.go:84-96): the next count, and every panel back in follow mode. */
    method CyclePanelCount()
      requires Valid()
      modifies this`scrollPos, manager
      ensures Valid() && manager.sessions == old(manager.sessions)
      ensures manager.panels == NextPanelCount(old(manager.panels))
      ensures manager.panels <= old(manager.panels) ==> manager.panelAssign == old(manager.panelAssign)
      ensures manager.panels > old(manager.panels) ==>
        Filled(old(manager.panelAssign), manager.panelAssign, manager.panels, manager.sessions, manager.excludePatterns)
      ensures forall k :: 0 <= k < |scrollPos| ==> scrollPos[k] == -1
    {
      var current := manager.PanelCount();
      var next := current + 1;
      if next > 5 {
        next := 1;
      }
      manager.SetPanelCount(next);
      var positions := seq(next, _ => 0);
      for i := 0 to next
        invariant |positions| == next && forall k :: 0 <= k < i ==> positions[k] == -1
      {
        positions := positions[i := -1];
      }
      scrollPos := positions;
    }

    /**
     * The key handling of Update (update.go:11-25, 71-81): q and ctrl+c
     * quit, t toggles the mode, and every other key goes to the tree view in
     * tree mode; in panel mode j/down and k/up scroll and p cycles the panel
     * count.
     */
    method HandleKey(key: string) returns (quit: bool)
      requires Valid()
      modifies this, manager, treeView, treeView.tree, treeView.log
      ensures Valid()
      ensures quit <==> key == "q" || key == "ctrl+c"
      ensures quit ==> unchanged(this, manager, treeView, treeView.tree, treeView.log)
      ensures manager.sessions == old(manager.sessions)
      ensures !(key == "p" && old(viewMode) == ViewModePanel) ==> manager.panelAssign == old(manager.panelAssign)
      ensures key == "p" && old(viewMode) == ViewModePanel && manager.panels <= old(manager.panels) ==>
        manager.panelAssign == old(manager.panelAssign)
      ensures key == "p" && old(viewMode) == ViewModePanel && manager.panels > old(manager.panels) ==>
        Filled(old(manager.panelAssign), manager.panelAssign, manager.panels, manager.sessions, manager.excludePatterns)
      ensures key == "t" ==> viewMode == Toggled(old(viewMode))
      ensures key != "t" ==> viewMode == old(viewMode)
      ensures manager.panels != old(manager.panels) ==> key == "p" && old(viewMode) == ViewModePanel
      ensures key == "p" && old(viewMode) == ViewModePanel ==> manager.panels == NextPanelCount(old(manager.panels))
      ensures !quit && key != "t" && old(viewMode) == ViewModeTree ==>
        FocusState(treeView.focus, treeView.treeHidden) ==
        KeyStep(FocusState(old(treeView.focus), old(treeView.treeHidden)), key) &&
        scrollPos == old(scrollPos)
      ensures (key == "j" || key == "down") && old(viewMode) == ViewModePanel ==>
        exists shown :: (ShownInPanels(manager, shown) &&
          ScrolledDown(old(scrollPos), scrollPos, shown, manager.panels, PanelHeight(height)))
      ensures (key == "k" || key == "up") && old(viewMode) == ViewModePanel ==>
        exists shown :: (ShownInPanels(manager, shown) &&
          ScrolledUp(old(scrollPos), scrollPos, shown, manager.panels, PanelHeight(height)))
      ensures width == old(width) && height == old(height) && ready == old(ready)
      ensures key == "p" && old(viewMode) == ViewModePanel ==>
        forall k :: 0 <= k < |scrollPos| ==> scrollPos[k] == -1
      ensures (key == "t" || (old(viewMode) == ViewModePanel &&
                key != "j" && key != "down" && key != "k" && key != "up" && key != "p")) ==>
        scrollPos == old(scrollPos)
      ensures key == "t" || old(viewMode) == ViewModePanel ==>
        unchanged(treeView, treeView.tree, treeView.log)
      ensures !quit && key != "t" && old(viewMode) == ViewModeTree && key == "r" ==>
        exists roots :: (Sessions.Forest(manager.sessions, manager.excludePatterns, roots) &&
          treeView.tree.nodes == if |old(treeView.tree.nodes)| > 0
            then SessionTreeComponent.Reconciled(old(treeView.tree.nodes), roots) else roots)
      ensures old(viewMode) == ViewModeTree && (key == "j" || key == "down") && old(treeView.focus) == FocusTree ==>
        treeView.tree.items == old(treeView.tree.items) &&
        treeView.tree.selected == (if old(treeView.tree.selected) < |treeView.tree.items| - 1
          then old(treeView.tree.selected) + 1 else old(treeView.tree.selected))
      ensures old(viewMode) == ViewModeTree && (key == "k" || key == "up") && old(treeView.focus) == FocusTree ==>
        treeView.tree.items == old(treeView.tree.items) &&
        treeView.tree.selected == (if old(treeView.tree.selected) > 0 then old(treeView.tree.selected) - 1 else 0)
      ensures (old(viewMode) == ViewModeTree && (key == "r" ||
                ((key == "j" || key == "down" || key == "k" || key == "up") && old(treeView.focus) == FocusTree))) ==>
        treeView.log.session == treeView.SelectedRowSession()
      ensures (old(viewMode) == ViewModeTree && !quit && key != "t" && key != "r" &&
                !((key == "j" || key == "down" || key == "k" || key == "up") && old(treeView.focus) == FocusTree)) ==>
        treeView.tree.nodes == old(treeView.tree.nodes) && treeView.tree.items == old(treeView.tree.items) &&
        treeView.tree.selected == old(treeView.tree.selected) && treeView.log.session == old(treeView.log.session)
    {
      if key == "q" || key == "ctrl+c" {
        return true;
      }
      quit := false;
      if key == "t" {
        ToggleViewMode();
        return;
      }
      if viewMode == ViewModeTree {
        treeView.Update(key);
        return;
      }
      if key == "j" || key == "down" {
        ScrollDown();
      } else if key == "k" || key == "up" {
        ScrollUp();
      } else if key == "p" {
        CyclePanelCount();
      }
    }

    /**
     * A window-size message (update.go:27-39): the size is recorded and the
     * tree view laid out. The first refresh of the tree view relies on
     * manager methods that do not exist and is not modelled.
     */
    method Resize(w: int, h: int)
      requires Valid()
      modifies this`width, this`height, this`ready, treeView, treeView.tree, treeView.log
      ensures Valid() && ready && width == w && height == h
      ensures treeView.LaidOut() && treeView.width == w && treeView.height == h - 1
      ensures treeView.focus == old(treeView.focus) && treeView.treeHidden == old(treeView.treeHidden)
    {
      width := w;
      height := h;
      ready := true;
      treeView.SetSize(width, height);
    }
  }
}
