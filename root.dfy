/**
 * The command of cmd/root.go: the mapping from a project directory to the
 * directory name Claude uses under ~/.claude/projects, and the start-up
 * that loads the logs already on disk, oldest first, before the TUI runs.
 */
module Cli {
  import opened Text
  import opened Sessions
  import Jsonl
  import Watcher
  import opened TuiModel

  /** filepath.Separator on the platforms the tool targets. */
  const Separator: char := '/'

  /**
   * pathToClaudePath (cmd/root.go:130-139): every separator and every dot
   * becomes a dash; nothing else changes.
   */
  function PathToClaudePath(absPath: string): (r: string)
    ensures |r| == |absPath|
    ensures forall i :: 0 <= i < |absPath| ==>
      r[i] == (if absPath[i] == Separator || absPath[i] == '.' then '-' else absPath[i])
  {
    var dashed := ReplaceRune(absPath, Separator, "-");
    ReplaceRuneByRune(absPath, Separator, '-');
    ReplaceRuneByRune(dashed, '.', '-');
    ReplaceRune(dashed, '.', "-")
  }

  /** The result names no directory level and holds no dot. */
  lemma PathToClaudePathFlat(absPath: string)
    ensures Separator !in PathToClaudePath(absPath) && '.' !in PathToClaudePath(absPath)
  {
    var r := PathToClaudePath(absPath);
    forall i | 0 <= i < |r| ensures r[i] != Separator && r[i] != '.' {
    }
  }

  /** Mapping an already mapped path changes nothing. */
  lemma PathToClaudePathIdempotent(absPath: string)
    ensures PathToClaudePath(PathToClaudePath(absPath)) == PathToClaudePath(absPath)
  {
    var r := PathToClaudePath(absPath);
    PathToClaudePathFlat(absPath);
    assert PathToClaudePath(r) == r;
  }

  /** The mapping works rune by rune, so it distributes over concatenation. */
  lemma PathToClaudePathConcat(a: string, b: string)
    ensures PathToClaudePath(a + b) == PathToClaudePath(a) + PathToClaudePath(b)
  {
    var whole, parts := PathToClaudePath(a + b), PathToClaudePath(a) + PathToClaudePath(b);
    forall i | 0 <= i < |whole| ensures whole[i] == parts[i] {
      if i >= |a| {
        assert (a + b)[i] == b[i - |a|];
      }
    }
  }

  /** One level of a path: its leading separator or dot becomes a dash, the name stays. */
  lemma PathToClaudePathLevel(lead: char, name: string)
    requires lead == Separator || lead == '.'
    requires Separator !in name && '.' !in name
    ensures PathToClaudePath([lead] + name) == "-" + name
  {
    var r := PathToClaudePath([lead] + name);
    forall i | 0 <= i < |r| ensures r[i] == ("-" + name)[i] {
      if i > 0 {
        assert ([lead] + name)[i] == name[i - 1];
      }
    }
  }

  /** A path written level by level: each name follows its leading separator or dot. */
  function Joined(leads: seq<char>, names: seq<string>): string
    requires |leads| == |names|
    decreases |names|
  {
    if names == [] then []
    else
      var n := |names| - 1;
      Joined(leads[..n], names[..n]) + [leads[n]] + names[n]
  }

  /** The names joined by dashes, each preceded by one. */
  function DashJoined(names: seq<string>): string
    decreases |names|
  {
    if names == [] then []
    else
      var n := |names| - 1;
      DashJoined(names[..n]) + ("-" + names[n])
  }

  /**
   * A path such as "/Users/foo/github.com/project" becomes its names
   * joined by dashes, the leading separator included:
   * "-Users-foo-github-com-project".
   */
  lemma {:induction false} PathToClaudePathJoined(leads: seq<char>, names: seq<string>)
    requires |leads| == |names|
    requires forall k :: 0 <= k < |leads| ==> leads[k] == Separator || leads[k] == '.'
    requires forall k :: 0 <= k < |names| ==> Separator !in names[k] && '.' !in names[k]
    ensures PathToClaudePath(Joined(leads, names)) == DashJoined(names)
    decreases |names|
  {
    if names != [] {
      var n := |names| - 1;
      var prefix := Joined(leads[..n], names[..n]);
      var level := [leads[n]] + names[n];
      calc {
        PathToClaudePath(Joined(leads, names));
        { assert Joined(leads, names) == prefix + level; }
        PathToClaudePath(prefix + level);
        { PathToClaudePathConcat(prefix, level); }
        PathToClaudePath(prefix) + PathToClaudePath(level);
        { PathToClaudePathJoined(leads[..n], names[..n]); PathToClaudePathLevel(leads[n], names[n]); }
        DashJoined(names[..n]) + ("-" + names[n]);
      }
    }
  }

  // ---------------------------------------------------------------------
  // Start-up ingestion (cmd/root.go:99-116)
  // ---------------------------------------------------------------------

  /** The file os.Open yields for a path: the snapshot's contents, or nothing when it cannot be opened. */
  function Opened(files: map<string, Jsonl.OpenFile>, path: string): (r: Option<Jsonl.OpenFile>)
    ensures r.Some? <==> path in files
  {
    if path in files then Some(files[path]) else None
  }

  /**
   * The sessions after ingesting `events` in order; the clock reads `t0`
   * at the first event and advances by one per event.
   */
  function IngestAll(sessions: map<string, Session>, events: seq<Watcher.Event>,
                     files: map<string, Jsonl.OpenFile>,
                     decode: seq<Jsonl.byte> -> Option<Jsonl.Message>, t0: int): map<string, Session>
    decreases |events|
  {
    if events == [] then sessions
    else
      var n := |events| - 1;
      Ingest(IngestAll(sessions, events[..n], files, decode, t0), events[n], Opened(files, events[n].path), decode, t0 + n)
  }

  /** The IDs named by a list of events. */
  function IdsOf(events: seq<Watcher.Event>): set<string>
    decreases |events|
  {
    if events == [] then {} else IdsOf(events[..|events| - 1]) + {events[|events| - 1].sessionID}
  }

  /** IdsOf holds exactly the IDs some event names. */
  lemma {:induction false} IdsOfNamed(events: seq<Watcher.Event>, id: string)
    ensures id in IdsOf(events) <==> exists k :: 0 <= k < |events| && events[k].sessionID == id
    decreases |events|
  {
    if events != [] {
      var n := |events| - 1;
      IdsOfNamed(events[..n], id);
      if exists k :: 0 <= k < n && events[..n][k].sessionID == id {
        var k :| 0 <= k < n && events[..n][k].sessionID == id;
        assert events[k].sessionID == id;
      }
      if exists k :: 0 <= k < |events| && events[k].sessionID == id {
        var k :| 0 <= k < |events| && events[k].sessionID == id;
        if k < n {
          assert events[..n][k].sessionID == id;
        }
      }
    }
  }

  /** Ingestion registers exactly the sessions the events name, besides those already known. */
  lemma {:induction false} IngestAllKeys(sessions: map<string, Session>, events: seq<Watcher.Event>,
                                         files: map<string, Jsonl.OpenFile>,
                                         decode: seq<Jsonl.byte> -> Option<Jsonl.Message>, t0: int)
    ensures IngestAll(sessions, events, files, decode, t0).Keys == sessions.Keys + IdsOf(events)
    decreases |events|
  {
    if events != [] {
      var n := |events| - 1;
      IngestAllKeys(sessions, events[..n], files, decode, t0);
      IngestKeepsOthers(IngestAll(sessions, events[..n], files, decode, t0), events[n], Opened(files, events[n].path), decode, t0 + n);
    }
  }

  /** Event `j` is the first to name its session, which did not exist before. */
  ghost predicate Creates(sessions: map<string, Session>, events: seq<Watcher.Event>, j: int)
    requires 0 <= j < |events|
  {
    events[j].sessionID !in sessions && events[j].sessionID !in IdsOf(events[..j])
  }

  /** Event `j` created the newest session among the first `i` events. */
  ghost predicate LatestCreation(sessions: map<string, Session>, events: seq<Watcher.Event>, j: int, i: int)
    requires 0 <= j < i <= |events|
  {
    Creates(sessions, events, j) && forall k :: j < k < i ==> !Creates(sessions, events, k)
  }

  /**
   * The last event among the first `i` that created a session left that
   * session on the panel table, unless it is excluded.
   */
  ghost predicate LastCreatedPlaced(sessions: map<string, Session>, events: seq<Watcher.Event>, i: int,
                                    assign: map<int, string>, patterns: seq<string>)
    requires 0 <= i <= |events|
    decreases i
  {
    if i == 0 then true
    else if Creates(sessions, events, i - 1) then
      !Excluded(patterns, events[i - 1].sessionID) ==> OnTable(assign, events[i - 1].sessionID)
    else LastCreatedPlaced(sessions, events, i - 1, assign, patterns)
  }

  /** LastCreatedPlaced speaks of the latest creation: the creation no later one among the first `i` events follows. */
  lemma {:induction false} LastCreatedPlacedLatest(sessions: map<string, Session>, events: seq<Watcher.Event>, i: int,
                                                   j: int, assign: map<int, string>, patterns: seq<string>)
    requires 0 <= j < i <= |events|
    requires LastCreatedPlaced(sessions, events, i, assign, patterns)
    requires LatestCreation(sessions, events, j, i) && !Excluded(patterns, events[j].sessionID)
    ensures OnTable(assign, events[j].sessionID)
    decreases i
  {
    if Creates(sessions, events, i - 1) {
      assert j == i - 1;
    } else {
      assert j < i - 1;
      assert LatestCreation(sessions, events, j, i - 1);
      LastCreatedPlacedLatest(sessions, events, i - 1, j, assign, patterns);
    }
  }

  /** The events name pairwise distinct sessions, as one event per log file does. */
  ghost predicate DistinctIds(events: seq<Watcher.Event>)
  {
    forall j, k :: 0 <= j < k < |events| ==> events[j].sessionID != events[k].sessionID
  }

  /** The IDs the events name that are not excluded, in event order: the sessions offered a panel. */
  ghost function Admitted(events: seq<Watcher.Event>, patterns: seq<string>): seq<string>
    decreases |events|
  {
    if events == [] then []
    else
      var n := |events| - 1;
      Admitted(events[..n], patterns) + (if Excluded(patterns, events[n].sessionID) then [] else [events[n].sessionID])
  }

  lemma AdmittedStep(events: seq<Watcher.Event>, i: int, patterns: seq<string>)
    requires 0 <= i < |events|
    ensures Admitted(events[..i + 1], patterns) ==
      Admitted(events[..i], patterns) + (if Excluded(patterns, events[i].sessionID) then [] else [events[i].sessionID])
  {
    assert events[..i + 1][..i] == events[..i];
  }

  /** The last `n` IDs of `ids`, or all of them when there are fewer. */
  function Recent(ids: seq<string>, n: nat): (r: seq<string>)
    ensures |r| == (if |ids| <= n then |ids| else n) && r == ids[|ids| - |r|..]
  {
    if |ids| <= n then ids else ids[|ids| - n..]
  }

  /** The panel table shows exactly the `panels` newest of the admitted sessions. */
  ghost predicate HoldsRecent(assign: map<int, string>, admitted: seq<string>, panels: nat)
  {
    forall id :: OnTable(assign, id) <==> id in Recent(admitted, panels)
  }

  /**
   * The admitted sessions are registered, older than `clock`, and strictly
   * older the earlier they were admitted.
   */
  ghost predicate Timed(sessions: map<string, Session>, admitted: seq<string>, clock: int)
  {
    (forall j | 0 <= j < |admitted| :: admitted[j] in sessions && sessions[admitted[j]].lastUpdate < clock) &&
    (forall j, k | 0 <= j < k < |admitted| && admitted[j] in sessions && admitted[k] in sessions ::
       sessions[admitted[j]].lastUpdate < sessions[admitted[k]].lastUpdate)
  }

  /**
   * The indices in use: below `panels`, the first |admitted| of them while
   * the table is filling, all of them once it is full.
   */
  ghost predicate Layout(assign: map<int, string>, admitted: seq<string>, panels: int)
  {
    (forall p | p in assign :: 0 <= p < panels) &&
    (|admitted| < panels ==> forall k :: k in assign <==> 0 <= k < |admitted|) &&
    (|admitted| >= panels ==> forall k :: 0 <= k < panels ==> k in assign)
  }

  /** What start-up keeps from one event to the next when every event creates its session. */
  ghost predicate Rolling(assign: map<int, string>, sessions: map<string, Session>, admitted: seq<string>,
                          panels: nat, clock: int)
  {
    Timed(sessions, admitted, clock) && Layout(assign, admitted, panels) && HoldsRecent(assign, admitted, panels)
  }

  /** An excluded new session leaves the table and the admitted list alone. */
  lemma RollingExcluded(assign: map<int, string>, sessions: map<string, Session>, next: map<string, Session>,
                        admitted: seq<string>, id: string, panels: nat, now: int)
    requires Rolling(assign, sessions, admitted, panels, now)
    requires id !in sessions && id in next && next[id].lastUpdate == now
    requires forall x | x in sessions && x != id :: x in next && next[x] == sessions[x]
    ensures Rolling(assign, next, admitted, panels, now + 1)
  {
  }

  /** A new session joins the admitted list with the newest time. */
  lemma TimedStep(sessions: map<string, Session>, next: map<string, Session>, admitted: seq<string>, id: string, now: int)
    requires Timed(sessions, admitted, now)
    requires id !in sessions && id in next && next[id].lastUpdate == now
    requires forall x | x in sessions && x != id :: x in next && next[x] == sessions[x]
    ensures Timed(next, admitted + [id], now + 1)
  {
    var a := admitted + [id];
    forall j | 0 <= j < |a| ensures a[j] in next && next[a[j]].lastUpdate < now + 1 {
      if j < |admitted| {
        assert a[j] == admitted[j];
      }
    }
    forall j, k | 0 <= j < k < |a| && a[j] in next && a[k] in next ensures next[a[j]].lastUpdate < next[a[k]].lastUpdate {
      assert a[j] == admitted[j];
      if k < |admitted| {
        assert a[k] == admitted[k];
      }
    }
  }

  /** While the table is filling, the new session takes the next index. */
  lemma RollingFill(before: map<int, string>, after: map<int, string>, sessions: map<string, Session>,
                    admitted: seq<string>, id: string, panels: nat)
    requires Layout(before, admitted, panels) && HoldsRecent(before, admitted, panels)
    requires |admitted| < panels && !OnTable(before, id)
    requires after == before[LowestFree(before, panels) := id]
    ensures Layout(after, admitted + [id], panels) && HoldsRecent(after, admitted + [id], panels)
  {
    var f := LowestFree(before, panels);
    assert f < |admitted| ==> f in before;
    assert f > |admitted| ==> |admitted| in before;
    assert f == |admitted| && f !in before;
    var a := admitted + [id];
    assert Recent(a, panels) == a && Recent(admitted, panels) == admitted;
    forall y ensures OnTable(after, y) <==> y in a {
      if OnTable(after, y) {
        var q :| q in after && after[q] == y;
        if q == f {
          assert a[|admitted|] == y;
        } else {
          assert before[q] == y && OnTable(before, y);
          var t :| 0 <= t < |admitted| && admitted[t] == y;
          assert a[t] == y;
        }
      }
      if y in a {
        var t :| 0 <= t < |a| && a[t] == y;
        if t == |admitted| {
          assert after[f] == y;
        } else {
          assert admitted[t] == y && OnTable(before, y);
          var q :| q in before && before[q] == y;
          assert after[q] == y;
        }
      }
    }
  }

  /** The session held at an index of the table is one of the admitted sessions from `s` on. */
  lemma OnTableIndex(assign: map<int, string>, admitted: seq<string>, panels: nat, q: int) returns (j: int)
    requires HoldsRecent(assign, admitted, panels) && |admitted| >= panels && q in assign
    ensures |admitted| - panels <= j < |admitted| && admitted[j] == assign[q]
  {
    var w := Recent(admitted, panels);
    assert OnTable(assign, assign[q]);
    var t :| 0 <= t < |w| && w[t] == assign[q];
    j := |admitted| - panels + t;
  }

  /**
   * Once the table is full, the oldest entry is the first of the window,
   * which gives way to the new session.
   */
  lemma RollingEvict(before: map<int, string>, after: map<int, string>, sessions: map<string, Session>,
                     admitted: seq<string>, id: string, created: Session, p: int, panels: nat,
                     patterns: seq<string>, now: int)
    requires Timed(sessions, admitted, now) && Layout(before, admitted, panels) && HoldsRecent(before, admitted, panels)
    requires TableOk(before, sessions, patterns) && id !in sessions
    requires |admitted| >= panels >= 1
    requires IsOldestPanel(before, sessions[id := created], p) && after == before[p := id]
    ensures Layout(after, admitted + [id], panels) && HoldsRecent(after, admitted + [id], panels)
  {
    var s := |admitted| - panels;
    var jp := OnTableIndex(before, admitted, panels, p);
    assert jp == s by {
      assert admitted[s] in Recent(admitted, panels);
      var q :| q in before && before[q] == admitted[s];
      assert before[q] in sessions && before[p] in sessions;
    }
    var a := admitted + [id];
    var w, w' := Recent(admitted, panels), Recent(a, panels);
    assert w == admitted[s..] && w' == a[s + 1..];
    forall y ensures OnTable(after, y) <==> y in w' {
      if OnTable(after, y) {
        var q :| q in after && after[q] == y;
        if q == p {
          assert w'[|w'| - 1] == y;
        } else {
          var j := OnTableIndex(before, admitted, panels, q);
          assert j != s;
          assert w'[j - s - 1] == y;
        }
      }
      if y in w' {
        var t :| 0 <= t < |w'| && w'[t] == y;
        if t == |w'| - 1 {
          assert after[p] == y;
        } else {
          assert y == admitted[s + 1 + t] && w[t + 1] == y;
          assert OnTable(before, y);
          var q :| q in before && before[q] == y;
          assert q != p by {
            assert admitted[s] in sessions && y in sessions;
          }
          assert after[q] == y;
        }
      }
    }
  }

  /** One more event in a start-up where every event creates its session keeps Rolling. */
  lemma RollingStep(before: map<int, string>, after: map<int, string>, sessions: map<string, Session>,
                    next: map<string, Session>, admitted: seq<string>, admitted': seq<string>, id: string,
                    created: Session, panels: nat, patterns: seq<string>, now: int)
    requires Rolling(before, sessions, admitted, panels, now) && panels >= 1
    requires admitted' == admitted + (if Excluded(patterns, id) then [] else [id])
    requires TableOk(before, sessions, patterns)
    requires id !in sessions && created.lastUpdate == now
    requires Assigned(before, after, id, panels, sessions[id := created], patterns)
    requires id in next && next[id].lastUpdate == now
    requires forall x | x in sessions && x != id :: x in next && next[x] == sessions[x]
    ensures Rolling(after, next, admitted', panels, now + 1)
  {
    if Excluded(patterns, id) {
      RollingExcluded(before, sessions, next, admitted, id, panels, now);
      assert admitted + [] == admitted;
    } else {
      assert !OnTable(before, id) by {
        forall q | q in before ensures before[q] != id {
          assert before[q] in sessions;
        }
      }
      TimedStep(sessions, next, admitted, id, now);
      if |admitted| < panels {
        assert LowestFree(before, panels) <= |admitted| by {
          assert LowestFree(before, panels) > |admitted| ==> |admitted| in before;
        }
        RollingFill(before, after, sessions, admitted, id, panels);
      } else {
        assert LowestFree(before, panels) >= panels by {
          assert LowestFree(before, panels) < panels ==> LowestFree(before, panels) in before;
        }
        var p :| IsOldestPanel(before, sessions[id := created], p) && after == before[p := id];
        RollingEvict(before, after, sessions, admitted, id, created, p, panels, patterns, now);
      }
    }
  }

  /** An empty manager starts the invariant: no sessions and an empty table. */
  lemma RollingStart(assign: map<int, string>, patterns: seq<string>, panels: nat, clock: int)
    requires TableOk(assign, map[], patterns) && panels >= 1
    ensures Rolling(assign, map[], [], panels, clock)
  {
    forall k ensures k !in assign {
    }
  }

  /** From an empty manager and distinct IDs, every event creates its session. */
  lemma CreatedAtStart(events: seq<Watcher.Event>, i: int, files: map<string, Jsonl.OpenFile>,
                       decode: seq<Jsonl.byte> -> Option<Jsonl.Message>, t0: int, current: map<string, Session>)
    requires 0 <= i < |events| && DistinctIds(events)
    requires current == IngestAll(map[], events[..i], files, decode, t0)
    ensures events[i].sessionID !in current
  {
    IngestAllKeys(map[], events[..i], files, decode, t0);
    IdsOfNamed(events[..i], events[i].sessionID);
    assert forall k :: 0 <= k < i ==> events[..i][k].sessionID != events[i].sessionID;
  }

  /**
   * The loop of runTUI over the existing files (cmd/root.go:110-116): get
   * or create each event's session, parse its file from the session's
   * offset, and append only a successful, non-empty batch. The newest
   * session created holds a panel unless it is excluded; when the manager
   * starts empty and the events name distinct sessions, the panels hold
   * exactly the most recently created sessions that are not excluded.
   */
  method IngestExisting(manager: Manager, events: seq<Watcher.Event>, files: map<string, Jsonl.OpenFile>,
                        decode: seq<Jsonl.byte> -> Option<Jsonl.Message>, t0: int)
    requires manager.Valid()
    modifies manager
    ensures manager.Valid() && manager.panels == old(manager.panels)
    ensures manager.sessions == IngestAll(old(manager.sessions), events, files, decode, t0)
    ensures manager.sessions.Keys == old(manager.sessions).Keys + IdsOf(events)
    ensures LastCreatedPlaced(old(manager.sessions), events, |events|, manager.panelAssign, manager.excludePatterns)
    ensures old(manager.sessions) == map[] && DistinctIds(events) ==>
      HoldsRecent(manager.panelAssign, Admitted(events, manager.excludePatterns), manager.panels)
  {
    if old(manager.sessions) == map[] {
      RollingStart(manager.panelAssign, manager.excludePatterns, manager.panels, t0);
      assert events[..0] == [];
    }
    for i := 0 to |events|
      invariant manager.Valid() && manager.panels == old(manager.panels)
      invariant manager.sessions == IngestAll(old(manager.sessions), events[..i], files, decode, t0)
      invariant LastCreatedPlaced(old(manager.sessions), events, i, manager.panelAssign, manager.excludePatterns)
      invariant old(manager.sessions) == map[] && DistinctIds(events) ==>
        Rolling(manager.panelAssign, manager.sessions, Admitted(events[..i], manager.excludePatterns), manager.panels, t0 + i)
    {
      IngestNext(manager, old(manager.sessions), events, i, files, decode, t0);
    }
    assert events[..|events|] == events;
    IngestAllKeys(old(manager.sessions), events, files, decode, t0);
  }

  /** One turn of that loop: event `i` is ingested, with the clock at `t0 + i`. */
  method IngestNext(manager: Manager, ghost initial: map<string, Session>, events: seq<Watcher.Event>, i: int,
                    files: map<string, Jsonl.OpenFile>,
                    decode: seq<Jsonl.byte> -> Option<Jsonl.Message>, t0: int)
    requires 0 <= i < |events| && manager.Valid()
    requires manager.sessions == IngestAll(initial, events[..i], files, decode, t0)
    requires LastCreatedPlaced(initial, events, i, manager.panelAssign, manager.excludePatterns)
    requires initial == map[] && DistinctIds(events) ==>
      Rolling(manager.panelAssign, manager.sessions, Admitted(events[..i], manager.excludePatterns), manager.panels, t0 + i)
    modifies manager
    ensures manager.Valid() && manager.panels == old(manager.panels)
    ensures manager.sessions == IngestAll(initial, events[..i + 1], files, decode, t0)
    ensures LastCreatedPlaced(initial, events, i + 1, manager.panelAssign, manager.excludePatterns)
    ensures initial == map[] && DistinctIds(events) ==>
      Rolling(manager.panelAssign, manager.sessions, Admitted(events[..i + 1], manager.excludePatterns), manager.panels, t0 + i + 1)
  {
    var file := Opened(files, events[i].path);
    ghost var current := manager.sessions;
    ghost var assignBefore := manager.panelAssign;
    ghost var next := Ingest(current, events[i], file, decode, t0 + i);
    IngestAllStep(initial, events, i, files, decode, t0, current);
    IngestEvent(manager, events[i], file, decode, t0 + i);
    assert manager.sessions == next;
    if events[i].sessionID !in current && !Excluded(manager.excludePatterns, events[i].sessionID) {
      AssignedPlaces(assignBefore, manager.panelAssign, events[i].sessionID, manager.panels,
                     current[events[i].sessionID := Touched(current, events[i], t0 + i)], manager.excludePatterns);
    }
    LastCreatedPlacedStep(initial, events, i, files, decode, t0, current, assignBefore,
                          manager.panelAssign, manager.excludePatterns);
    if initial == map[] && DistinctIds(events) {
      RollingNext(events, i, files, decode, t0, current, assignBefore, manager.panelAssign, manager.sessions,
                  manager.panels, manager.excludePatterns);
    }
  }

  /** Rolling carried over one event of a start-up from an empty manager with distinct IDs. */
  lemma RollingNext(events: seq<Watcher.Event>, i: int, files: map<string, Jsonl.OpenFile>,
                    decode: seq<Jsonl.byte> -> Option<Jsonl.Message>, t0: int, current: map<string, Session>,
                    before: map<int, string>, after: map<int, string>, next: map<string, Session>,
                    panels: nat, patterns: seq<string>)
    requires 0 <= i < |events| && DistinctIds(events) && panels >= 1
    requires current == IngestAll(map[], events[..i], files, decode, t0)
    requires next == Ingest(current, events[i], Opened(files, events[i].path), decode, t0 + i)
    requires TableOk(before, current, patterns)
    requires Rolling(before, current, Admitted(events[..i], patterns), panels, t0 + i)
    requires events[i].sessionID !in current ==>
      Assigned(before, after, events[i].sessionID, panels,
               current[events[i].sessionID := Touched(current, events[i], t0 + i)], patterns)
    ensures Rolling(after, next, Admitted(events[..i + 1], patterns), panels, t0 + i + 1)
  {
    CreatedAtStart(events, i, files, decode, t0, current);
    IngestKeepsOthers(current, events[i], Opened(files, events[i].path), decode, t0 + i);
    AdmittedStep(events, i, patterns);
    RollingStep(before, after, current, next, Admitted(events[..i], patterns), Admitted(events[..i + 1], patterns),
                events[i].sessionID, Touched(current, events[i], t0 + i), panels, patterns, t0 + i);
    ghost var a' := Admitted(events[..i + 1], patterns);
    assert Rolling(after, next, a', panels, (t0 + i) + 1);
  }

  lemma IngestAllStep(sessions: map<string, Session>, events: seq<Watcher.Event>, i: int,
                      files: map<string, Jsonl.OpenFile>,
                      decode: seq<Jsonl.byte> -> Option<Jsonl.Message>, t0: int,
                      current: map<string, Session>)
    requires 0 <= i < |events|
    requires current == IngestAll(sessions, events[..i], files, decode, t0)
    ensures IngestAll(sessions, events[..i + 1], files, decode, t0) ==
      Ingest(current, events[i], Opened(files, events[i].path), decode, t0 + i)
  {
    assert events[..i + 1][..i] == events[..i];
  }

  /** One more event keeps LastCreatedPlaced: a creating event is placed, any other leaves the table alone. */
  lemma LastCreatedPlacedStep(sessions: map<string, Session>, events: seq<Watcher.Event>, i: int,
                              files: map<string, Jsonl.OpenFile>,
                              decode: seq<Jsonl.byte> -> Option<Jsonl.Message>, t0: int,
                              current: map<string, Session>, before: map<int, string>, after: map<int, string>,
                              patterns: seq<string>)
    requires 0 <= i < |events|
    requires current == IngestAll(sessions, events[..i], files, decode, t0)
    requires LastCreatedPlaced(sessions, events, i, before, patterns)
    requires events[i].sessionID in current ==> after == before
    requires events[i].sessionID !in current && !Excluded(patterns, events[i].sessionID) ==> OnTable(after, events[i].sessionID)
    ensures LastCreatedPlaced(sessions, events, i + 1, after, patterns)
  {
    IngestAllKeys(sessions, events[..i], files, decode, t0);
    assert (events[i].sessionID !in current) == Creates(sessions, events, i);
  }

  /** The body of that loop (cmd/root.go:111-115), for one event. */
  method IngestEvent(manager: Manager, event: Watcher.Event, file: Option<Jsonl.OpenFile>,
                     decode: seq<Jsonl.byte> -> Option<Jsonl.Message>, now: int)
    requires manager.Valid()
    modifies manager
    ensures manager.Valid() && manager.panels == old(manager.panels)
    ensures manager.sessions == Ingest(old(manager.sessions), event, file, decode, now)
    ensures event.sessionID in old(manager.sessions) ==> manager.panelAssign == old(manager.panelAssign)
    ensures event.sessionID !in old(manager.sessions) ==>
      Assigned(old(manager.panelAssign), manager.panelAssign, event.sessionID, manager.panels,
               old(manager.sessions)[event.sessionID := Touched(old(manager.sessions), event, now)],
               manager.excludePatterns)
  {
    ghost var before := manager.sessions;
    var sess := manager.GetOrCreateSession(event.sessionID, event.path, event.isSubagent, now);
    var messages, newOffset, err := Jsonl.ParseFromOffset(file, sess.offset, decode);
    IngestParts(before, event, file, decode, now, manager.sessions, messages, newOffset, err);
    if err == false && |messages| > 0 {
      manager.UpdateSession(event.sessionID, messages, newOffset, now);
    }
  }

  /** The files ScanExisting reports, oldest first. */
  ghost predicate Scanned(entries: seq<Watcher.WalkEntry>, events: seq<Watcher.Event>)
  {
    exists order :: Watcher.OldestFirst(entries, order) && events == Watcher.EventsOf(order)
  }

  /**
   * The core of runTUI (cmd/root.go:99-122): a manager with the requested
   * panel count is filled from the scanned files, oldest first, and handed
   * to a new model.
   */
  method RunTui(panels: int, entries: seq<Watcher.WalkEntry>, files: map<string, Jsonl.OpenFile>,
                decode: seq<Jsonl.byte> -> Option<Jsonl.Message>, t0: int) returns (model: Model)
    requires panels >= 1
    ensures model.Valid() && model.viewMode == ViewModePanel && model.manager.panels == panels
    ensures exists events :: (Scanned(entries, events) &&
      model.manager.sessions == IngestAll(map[], events, files, decode, t0) &&
      LastCreatedPlaced(map[], events, |events|, model.manager.panelAssign, model.manager.excludePatterns) &&
      (DistinctIds(events) ==> HoldsRecent(model.manager.panelAssign, Admitted(events, model.manager.excludePatterns), panels)))
  {
    var manager := new Manager(panels);
    var events := Watcher.ScanExisting(entries);
    IngestExisting(manager, events, files, decode, t0);
    model := new Model(manager);
    assert Scanned(entries, events);
  }
}
