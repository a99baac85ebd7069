/**
 * The tree view of internal/tui/treeview.go: a session tree beside a log
 * viewport, one of them focused, with a fullscreen mode that hides the tree.
 * The key handling is specified by a transition function on the focus and
 * the fullscreen flag, and the layout by the width the tree is given.
 */
module TreeViewLayout {
  import opened Text
  import Sessions
  import Panel
  import opened SessionTreeComponent
  import opened LogViewportComponent

  datatype Focus = FocusTree | FocusLog

  /** The part of the tree view's state that the keys enter, esc and f change. */
  datatype FocusState = FocusState(focus: Focus, treeHidden: bool)

  /** The tree is only ever hidden while the log has the focus. */
  predicate Coherent(s: FocusState)
  {
    s.treeHidden ==> s.focus == FocusLog
  }

  /** The state NewTreeView starts in (treeview.go:45-54). */
  const Initial := FocusState(FocusTree, false)

  /**
   * The focus transitions of Update (treeview.go:101-123): enter moves the
   * focus from the tree to the log; esc from the log shows the tree again
   * and focuses it; f, with the log focused, toggles fullscreen. Every
   * other key, and these keys in the other focus, leave both alone.
   */
  function KeyStep(s: FocusState, key: string): (t: FocusState)
    ensures Coherent(s) ==> Coherent(t)
    ensures key != "enter" && key != "esc" && key != "f" ==> t == s
    ensures t.focus != s.focus ==> (key == "enter" || key == "esc")
  {
    if key == "enter" && s.focus == FocusTree then FocusState(FocusLog, s.treeHidden)
    else if key == "esc" && s.focus == FocusLog then FocusState(FocusTree, false)
    else if key == "f" && s.focus == FocusLog then FocusState(FocusLog, !s.treeHidden)
    else s
  }

  /** The state after a sequence of keys, first key first. */
  function AfterKeys(s: FocusState, keys: seq<string>): FocusState
    decreases |keys|
  {
    if keys == [] then s else AfterKeys(KeyStep(s, keys[0]), keys[1..])
  }

  /** However many keys are pressed, the tree is hidden only while the log has the focus. */
  lemma {:induction false} CoherentAfterKeys(s: FocusState, keys: seq<string>)
    requires Coherent(s)
    ensures Coherent(AfterKeys(s, keys))
    decreases |keys|
  {
    if keys != [] {
      CoherentAfterKeys(KeyStep(s, keys[0]), keys[1..]);
    }
  }

  /** Every state reachable from a new tree view is coherent. */
  lemma ReachableCoherent(keys: seq<string>)
    ensures Coherent(AfterKeys(Initial, keys))
  {
    CoherentAfterKeys(Initial, keys);
  }

  /** Esc from the log always lands on the visible, focused tree. */
  lemma EscShowsTree(s: FocusState)
    requires s.focus == FocusLog
    ensures KeyStep(s, "esc") == FocusState(FocusTree, false)
  {
  }

  /** With the log focused, f twice restores the layout. */
  lemma FullscreenInvolution(s: FocusState)
    requires s.focus == FocusLog
    ensures KeyStep(KeyStep(s, "f"), "f") == s
  {
  }

  /** Enter from the tree focuses the log without hiding the tree. */
  lemma EnterKeepsTreeVisible(s: FocusState)
    requires Coherent(s) && s.focus == FocusTree
    ensures KeyStep(s, "enter") == FocusState(FocusLog, false)
  {
  }

  /**
   * The tree's column count when it is shown (treeview.go:74-81): 30 per
   * cent of the width, truncated as Go divides, kept within 20 to 40.
   */
  function TreeWidth(width: int): (w: int)
    ensures 20 <= w <= 40
  {
    var share := Panel.Quot(width * 30, 100);
    if share < 20 then 20 else if share > 40 then 40 else share
  }

  /** The three regimes of TreeWidth: the minimum up to 66 columns, the share from 67 to 133, the maximum from 134. */
  lemma TreeWidthRegimes(width: int)
    ensures width <= 66 ==> TreeWidth(width) == 20
    ensures 67 <= width <= 133 ==> TreeWidth(width) == width * 30 / 100
    ensures width >= 134 ==> TreeWidth(width) == 40
  {
  }

  /** A wider terminal never gives the tree fewer columns. */
  lemma TreeWidthMonotone(a: int, b: int)
    requires a <= b
    ensures TreeWidth(a) <= TreeWidth(b)
  {
    if a >= 0 {
      assert a * 30 <= b * 30;
      DivMonotone(a * 30, b * 30);
    }
  }

  lemma DivMonotone(x: int, y: int)
    requires 0 <= x <= y
    ensures x / 100 <= y / 100
  {
  }

  class TreeView {
    const tree: SessionTree
    const log: LogViewport
    const manager: Sessions.Manager
    var focus: Focus
    var treeHidden: bool
    var width: int
    var height: int

    /**
     * The tree's rows are well formed, the tree is hidden only while the
     * log has the focus, and the children's focus flags agree with focus.
     */
    ghost predicate Valid()
      reads this, tree, log
    {
      tree.Valid() && Coherent(FocusState(focus, treeHidden)) &&
      tree.focused == (focus == FocusTree) && log.focused == (focus == FocusLog)
    }

    /** The sizes updateLayout hands to the two children (treeview.go:65-86). */
    ghost predicate LaidOut()
      reads this, tree, log
    {
      tree.height == height && log.height == height &&
      (if treeHidden then tree.width == 0 && log.width == width
       else tree.width == TreeWidth(width) && log.width == width - TreeWidth(width)) &&
      log.viewportWidth == log.width - 3 && log.viewportHeight == log.height - 4
    }

    /** The session of the selected row, what SelectedSession returns. */
    ghost function SelectedRowSession(): Option<Sessions.Session>
      reads tree
    {
      if 0 <= tree.selected < |tree.items| then Some(tree.items[tree.selected].session) else None
    }

    /** NewTreeView (treeview.go:41-55): the tree focused, the log not, no session shown. */
    constructor(manager: Sessions.Manager)
      ensures Valid() && FocusState(focus, treeHidden) == Initial
      ensures fresh(tree) && fresh(log) && this.manager == manager
      ensures tree.items == [] && log.session == None && width == 0 && height == 0
    {
      var t := new SessionTree();
      var l := new LogViewport();
      t.SetFocused(true);
      l.SetFocused(false);
      tree := t;
      log := l;
      this.manager := manager;
      focus := FocusTree;
      treeHidden := false;
      width := 0;
      height := 0;
    }

    /** SetSize (treeview.go:58-63): one row is kept for the help line, then the children are laid out. */
    method SetSize(w: int, h: int)
      requires Valid()
      modifies this`width, this`height, tree`width, tree`height
      modifies log`width, log`height, log`viewportWidth, log`viewportHeight
      ensures Valid() && LaidOut()
      ensures width == w && height == h - 1
      ensures focus == old(focus) && treeHidden == old(treeHidden)
    {
      width := w;
      height := h - 1;
      UpdateLayout();
    }

    /** updateLayout (treeview.go:65-86). */
    method UpdateLayout()
      requires tree.Valid()
      modifies tree`width, tree`height, log`width, log`height, log`viewportWidth, log`viewportHeight
      ensures tree.Valid() && LaidOut()
    {
      if treeHidden {
        tree.SetSize(0, height);
        log.SetSize(width, height);
        return;
      }
      var treeWidth := Panel.Quot(width * 30, 100);
      if treeWidth < 20 {
        treeWidth := 20;
      }
      if treeWidth > 40 {
        treeWidth := 40;
      }
      var logWidth := width - treeWidth;
      tree.SetSize(treeWidth, height);
      log.SetSize(logWidth, height);
    }

    /** setFocus (treeview.go:228-232). */
    method SetFocus(f: Focus)
      modifies this`focus, tree`focused, log`focused
      ensures focus == f && tree.focused == (f == FocusTree) && log.focused == (f == FocusLog)
    {
      focus := f;
      tree.SetFocused(f == FocusTree);
      log.SetFocused(f == FocusLog);
    }

    /** updateLogSession (treeview.go:234-237): the log shows the selected session. */
    method UpdateLogSession()
      requires tree.Valid()
      modifies log`session
      ensures log.session == SelectedRowSession()
    {
      var s := tree.SelectedSession();
      log.SetSession(s);
    }

    /**
     * RefreshSessionsSorted (treeview.go:217-221): the manager's forest,
     * newest first, reconciled with the current order; the selected session
     * stays selected when it is still listed, and the log follows it.
     */
    method RefreshSessionsSorted()
      requires Valid() && manager.Valid()
      modifies tree`nodes, tree`items, tree`selected, log`session
      ensures Valid()
      ensures exists roots :: (Sessions.Forest(manager.sessions, manager.excludePatterns, roots) &&
        tree.nodes == if |old(tree.nodes)| > 0 then Reconciled(old(tree.nodes), roots) else roots)
      ensures var id := SelectedId(old(tree.items), old(tree.selected));
        id != "" && id in RowIds(tree.items) ==> FirstRowOf(tree.items, id, tree.selected)
      ensures log.session == SelectedRowSession()
      ensures old(LaidOut()) ==> LaidOut()
    {
      var roots := manager.GetSessionTree();
      tree.SetSessionTree(roots);
      UpdateLogSession();
    }

    /** The enter, esc and f cases of Update (treeview.go:101-123). */
    method PressFocusKey(key: string)
      requires Valid()
      modifies this`focus, this`treeHidden, tree`focused, tree`width, tree`height
      modifies log`focused, log`width, log`height, log`viewportWidth, log`viewportHeight
      ensures Valid()
      ensures FocusState(focus, treeHidden) == KeyStep(FocusState(old(focus), old(treeHidden)), key)
      ensures old(LaidOut()) || (key == "f" && old(focus) == FocusLog) ==> LaidOut()
    {
      if key == "enter" && focus == FocusTree {
        SetFocus(FocusLog);
      } else if key == "esc" && focus == FocusLog {
        if treeHidden {
          treeHidden := false;
          UpdateLayout();
        }
        SetFocus(FocusTree);
      } else if key == "f" && focus == FocusLog {
        treeHidden := !treeHidden;
        UpdateLayout();
      }
    }

    /** The j/down and k/up cases of Update with the tree focused (treeview.go:129-146). */
    method MoveSelection(down: bool)
      requires Valid()
      modifies tree`selected, log`session
      ensures Valid()
      ensures down ==> tree.selected == if old(tree.selected) < |tree.items| - 1 then old(tree.selected) + 1 else old(tree.selected)
      ensures !down ==> tree.selected == if old(tree.selected) > 0 then old(tree.selected) - 1 else 0
      ensures log.session == SelectedRowSession()
      ensures old(LaidOut()) ==> LaidOut()
    {
      if down {
        tree.MoveDown();
      } else {
        tree.MoveUp();
      }
      UpdateLogSession();
    }

    /**
     * Update for a key (treeview.go:89-155). The focus and the fullscreen
     * flag follow KeyStep; r reloads the tree; j/down and k/up move the
     * selection while the tree has the focus and re-sync the log. Scrolling
     * the log and the keys handed to the children change nothing modelled.
     */
    method Update(key: string)
      requires Valid() && manager.Valid()
      modifies this`focus, this`treeHidden
      modifies tree`focused, tree`width, tree`height, tree`nodes, tree`items, tree`selected
      modifies log`focused, log`width, log`height, log`viewportWidth, log`viewportHeight, log`session
      ensures Valid()
      ensures FocusState(focus, treeHidden) == KeyStep(FocusState(old(focus), old(treeHidden)), key)
      ensures old(LaidOut()) || (key == "f" && old(focus) == FocusLog) ==> LaidOut()
      ensures key == "r" ==> exists roots :: (Sessions.Forest(manager.sessions, manager.excludePatterns, roots) &&
        tree.nodes == if |old(tree.nodes)| > 0 then Reconciled(old(tree.nodes), roots) else roots)
      ensures (key == "j" || key == "down") && old(focus) == FocusTree ==>
        tree.items == old(tree.items) &&
        tree.selected == (if old(tree.selected) < |tree.items| - 1 then old(tree.selected) + 1 else old(tree.selected))
      ensures (key == "k" || key == "up") && old(focus) == FocusTree ==>
        tree.items == old(tree.items) &&
        tree.selected == (if old(tree.selected) > 0 then old(tree.selected) - 1 else 0)
      ensures key == "r" || ((key == "j" || key == "down" || key == "k" || key == "up") && old(focus) == FocusTree) ==>
        log.session == SelectedRowSession()
      ensures key != "r" && !((key == "j" || key == "down" || key == "k" || key == "up") && old(focus) == FocusTree) ==>
        tree.nodes == old(tree.nodes) && tree.items == old(tree.items) && tree.selected == old(tree.selected) &&
        log.session == old(log.session)
      ensures width == old(width) && height == old(height)
    {
      if key == "enter" || key == "esc" || key == "f" {
        PressFocusKey(key);
      } else if key == "r" {
        RefreshSessionsSorted();
      } else if (key == "j" || key == "down") && focus == FocusTree {
        MoveSelection(true);
      } else if (key == "k" || key == "up") && focus == FocusTree {
        MoveSelection(false);
      }
    }
  }
}
