/**
 * The file-to-session mapping of internal/watcher/watcher.go: which paths
 * under the project directory are session logs, the session ID each names,
 * and the order in which the startup scan reports them.
 *
 * filepath.Rel is a parameter: each operation receives its result for the
 * path, None when it fails. The separator is '/'.
 */
module Watcher {
  import opened Text
  import opened Sorting

  const Separator: char := '/'
  const LogSuffix: string := ".jsonl"
  const SubagentsDir: string := "subagents"

  /** watcher.Event. */
  datatype Event = Event(path: string, sessionID: string, isSubagent: bool)

  /** The fsnotify operation bits handleEvent looks at. */
  datatype Op = Op(create: bool, write: bool)

  /** What handleEvent does with a notification. */
  datatype Reaction = WatchDirectory | Emit(event: Event) | Ignore

  /**
   * parseSessionInfo (watcher.go:151-178): `{id}.jsonl` is the main session
   * `id`; `{id}/subagents/.../{agent}.jsonl` is the subagent `id/agent`;
   * every other relative path, and a failed filepath.Rel, names no session.
   */
  function ParseSessionInfo(rel: Option<string>): (string, bool)
  {
    if rel.None? then ("", false) else InfoOfParts(Split(rel.value, Separator))
  }

  /** parseSessionInfo once the relative path is split at the separator. */
  function InfoOfParts(parts: seq<string>): (string, bool)
  {
    if |parts| == 0 then ("", false)
    else if |parts| == 1 then (TrimSuffix(parts[0], LogSuffix), false)
    else if |parts| >= 3 && parts[1] == SubagentsDir then
      (parts[0] + [Separator] + TrimSuffix(parts[|parts| - 1], LogSuffix), true)
    else ("", false)
  }

  /** A log directly in the project directory is a main session named after the file. */
  lemma MainSessionPath(id: string)
    requires Separator !in id
    ensures ParseSessionInfo(Some(id + LogSuffix)) == (id, false)
  {
    assert Separator !in id + LogSuffix;
    SplitWithoutSeparator(id + LogSuffix, Separator);
    SuffixOfAppend(id, LogSuffix);
  }

  /**
   * A log under `{id}/subagents/`, at any depth, is a subagent session named
   * by the session directory and the file; the directories in between are
   * ignored.
   */
  lemma SubagentPath(parts: seq<string>, agent: string)
    requires |parts| >= 3 && parts[1] == SubagentsDir && parts[|parts| - 1] == agent + LogSuffix
    requires forall k :: 0 <= k < |parts| ==> Separator !in parts[k]
    ensures ParseSessionInfo(Some(Join(parts, Separator))) == (parts[0] + [Separator] + agent, true)
  {
    var rel := Join(parts, Separator);
    JoinSplit(parts, Separator);
    SuffixOfAppend(agent, LogSuffix);
    assert Split(rel, Separator) == parts;
    assert TrimSuffix(parts[|parts| - 1], LogSuffix) == agent;
    assert InfoOfParts(parts) == (parts[0] + [Separator] + agent, true);
  }

  /** Two components never name a session, whatever they are. */
  lemma TwoComponentPath(dir: string, file: string)
    requires Separator !in dir && Separator !in file
    ensures ParseSessionInfo(Some(dir + [Separator] + file)) == ("", false)
  {
    JoinSplit([dir, file], Separator);
    assert Join([dir, file], Separator) == dir + [Separator] + Join([file], Separator);
  }

  /** Three or more components name no session unless the second is `subagents`. */
  lemma OtherDirectoryPath(parts: seq<string>)
    requires |parts| >= 3 && parts[1] != SubagentsDir
    requires forall k :: 0 <= k < |parts| ==> Separator !in parts[k]
    ensures ParseSessionInfo(Some(Join(parts, Separator))) == ("", false)
  {
    JoinSplit(parts, Separator);
  }

  /**
   * handleEvent (watcher.go:112-149): a created directory is watched; a
   * write or create on a `.jsonl` path naming a session is reported; the
   * rest is ignored. `isDir` is whether os.Stat succeeds and reports a
   * directory; `rel` is filepath.Rel of the path.
   */
  function HandleEvent(path: string, op: Op, isDir: bool, rel: Option<string>): (r: Reaction)
    ensures r.Emit? <==>
      !(op.create && isDir) && HasSuffix(path, LogSuffix) && (op.write || op.create) && ParseSessionInfo(rel).0 != ""
    ensures r.Emit? ==> r.event == Event(path, ParseSessionInfo(rel).0, ParseSessionInfo(rel).1)
    ensures r.WatchDirectory? <==> op.create && isDir
  {
    if op.create && isDir then WatchDirectory
    else if !HasSuffix(path, LogSuffix) then Ignore
    else if !(op.write || op.create) then Ignore
    else
      var (id, sub) := ParseSessionInfo(rel);
      if id == "" then Ignore else Emit(Event(path, id, sub))
  }

  /** What filepath.Walk hands the callback for one accessible path. */
  datatype WalkEntry = WalkEntry(path: string, isDir: bool, modTime: int, rel: Option<string>)

  /** eventWithModTime. */
  datatype Timed = Timed(event: Event, modTime: int)

  /** The Walk callback's test (watcher.go:195-203): a `.jsonl` file whose relative path names a session. */
  predicate Accepts(e: WalkEntry)
  {
    !e.isDir && HasSuffix(e.path, LogSuffix) && ParseSessionInfo(e.rel).0 != ""
  }

  /** The event the callback records for an accepted file. */
  function ToTimed(e: WalkEntry): Timed
  {
    Timed(Event(e.path, ParseSessionInfo(e.rel).0, ParseSessionInfo(e.rel).1), e.modTime)
  }

  /** The events the Walk callback of ScanExisting collects (watcher.go:190-215), in walk order. */
  function Accepted(entries: seq<WalkEntry>): (r: seq<Timed>)
    ensures |r| <= |entries|
  {
    if entries == [] then []
    else (if Accepts(entries[0]) then [ToTimed(entries[0])] else []) + Accepted(entries[1..])
  }

  /** The scan records exactly the accepted files. */
  lemma {:induction false} AcceptedMembers(entries: seq<WalkEntry>, t: Timed)
    ensures t in Accepted(entries) <==> exists k :: 0 <= k < |entries| && Accepts(entries[k]) && ToTimed(entries[k]) == t
  {
    if entries != [] {
      AcceptedMembers(entries[1..], t);
      if exists k :: 0 <= k < |entries| && Accepts(entries[k]) && ToTimed(entries[k]) == t {
        var k :| 0 <= k < |entries| && Accepts(entries[k]) && ToTimed(entries[k]) == t;
        if k > 0 {
          assert entries[1..][k - 1] == entries[k];
        }
      }
      if t in Accepted(entries[1..]) {
        var k :| 0 <= k < |entries[1..]| && Accepts(entries[1..][k]) && ToTimed(entries[1..][k]) == t;
        assert entries[k + 1] == entries[1..][k];
      }
    }
  }

  /** The walk from entry `k` on records what entry `k` contributes, then the rest. */
  lemma AcceptedStep(entries: seq<WalkEntry>, k: nat)
    requires k < |entries|
    ensures Accepted(entries[k..]) == (if Accepts(entries[k]) then [ToTimed(entries[k])] else []) + Accepted(entries[k + 1..])
  {
    assert entries[k..][1..] == entries[k + 1..];
  }

  /** The sort key that puts older files first under a newest-first sort. */
  function Age(t: Timed): int
  {
    -t.modTime
  }

  /**
   * The filepath.Walk of ScanExisting (watcher.go:188-215), over the entries
   * the walk visits in its order: the callback records every accepted file.
   */
  method WalkProject(entries: seq<WalkEntry>) returns (timed: seq<Timed>)
    ensures timed == Accepted(entries)
  {
    timed := [];
    for k := 0 to |entries|
      invariant timed + Accepted(entries[k..]) == Accepted(entries)
    {
      var e := entries[k];
      AcceptedStep(entries, k);
      Regroup(timed, if Accepts(e) then [ToTimed(e)] else [], Accepted(entries[k + 1..]));
      if e.isDir {
        continue;
      }
      if !HasSuffix(e.path, LogSuffix) {
        continue;
      }
      var (id, sub) := ParseSessionInfo(e.rel);
      if id != "" {
        timed := timed + [Timed(Event(e.path, id, sub), e.modTime)];
      }
    }
    assert entries[|entries|..] == [];
  }

  /** `order` holds the accepted files of the walk, oldest first. */
  ghost predicate OldestFirst(entries: seq<WalkEntry>, order: seq<Timed>)
  {
    && multiset(order) == multiset(Accepted(entries))
    && forall i, j :: 0 <= i < j < |order| ==> order[i].modTime <= order[j].modTime
  }

  /** The events of a list of timed events, in its order. */
  function EventsOf(order: seq<Timed>): (r: seq<Event>)
    ensures |r| == |order| && forall i :: 0 <= i < |order| ==> r[i] == order[i].event
  {
    seq(|order|, i requires 0 <= i < |order| => order[i].event)
  }

  /**
   * ScanExisting (watcher.go:187-232) after the walk: order by modification
   * time, oldest first, and keep the events. sort.Slice is stood in for by
   * the exchange sort on the negated time; both promise only an ordered
   * permutation.
   */
  method ScanExisting(entries: seq<WalkEntry>) returns (events: seq<Event>)
    ensures exists order :: OldestFirst(entries, order) && events == EventsOf(order)
  {
    var timed := WalkProject(entries);
    var order := SortedCopy(timed, Age);
    events := ExtractEvents(order);
    assert OldestFirst(entries, order);
  }

  /** The extraction loop of ScanExisting (watcher.go:226-229). */
  method ExtractEvents(order: seq<Timed>) returns (events: seq<Event>)
    ensures events == EventsOf(order)
  {
    var a := new Event[|order|];
    for i := 0 to |order|
      invariant forall j :: 0 <= j < i ==> a[j] == order[j].event
    {
      a[i] := order[i].event;
    }
    events := a[..];
  }

  /** Every event of the scan comes from a `.jsonl` file and names a session. */
  lemma ScanEventsNameSessions(entries: seq<WalkEntry>, order: seq<Timed>, t: Timed)
    requires OldestFirst(entries, order) && t in order
    ensures t.event.sessionID != "" && HasSuffix(t.event.path, LogSuffix)
  {
    assert t in multiset(Accepted(entries));
    AcceptedMembers(entries, t);
  }
}
