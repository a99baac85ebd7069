/**
 * The session manager of internal/session/session.go: a registry of
 * sessions keyed by ID, and an LRU table assigning sessions to display
 * panels. Time is a parameter `now` of every operation that reads the clock;
 * map iteration order is left to the verifier's choice (`:|`), so every
 * contract holds for any order Go might pick.
 */
module Sessions {
  import opened Text
  import opened Sorting
  import Jsonl

  /** The exclusion list every manager starts with (session.go:12-14). */
  const DefaultExcludePatterns: seq<string> := ["prompt_suggestion"]

  /** SetPanelCount accepts 1 to MaxPanels panels. */
  const MaxPanels: int := 5

  datatype Session = Session(
    id: string,
    path: string,
    parentID: string,
    isSubagent: bool,
    messages: seq<Jsonl.Message>,
    offset: int,
    lastUpdate: int)

  /** A session with its child sessions, as GetSessionTree builds it. */
  datatype Node = Node(session: Session, children: seq<Node>, expanded: bool)

  /** The sort key of every newest-first view. */
  function LastUpdate(s: Session): int
  {
    s.lastUpdate
  }

  /** strings.Contains against each configured pattern. */
  predicate Excluded(patterns: seq<string>, id: string)
  {
    exists k | 0 <= k < |patterns| :: Contains(id, patterns[k])
  }

  lemma DefaultExclusion(id: string)
    ensures Excluded(DefaultExcludePatterns, id) <==> Contains(id, "prompt_suggestion")
  {
    if Contains(id, "prompt_suggestion") {
      assert Contains(id, DefaultExcludePatterns[0]);
    }
  }

  /** Every session is stored under its own ID. */
  ghost predicate IdsConsistent(sessions: map<string, Session>)
  {
    forall id | id in sessions :: sessions[id].id == id
  }

  /**
   * The panel table's invariant: indices are non-negative, and the sessions
   * it names are distinct, registered and not excluded.
   */
  ghost predicate TableOk(assign: map<int, string>, sessions: map<string, Session>, patterns: seq<string>)
  {
    (forall p | p in assign :: p >= 0 && assign[p] in sessions && !Excluded(patterns, assign[p])) &&
    (forall p, q | p in assign && q in assign && p != q :: assign[p] != assign[q])
  }

  /** The lowest index in [from, panels) without an entry, or the first index at or past `panels`. */
  ghost function FreeFrom(assign: map<int, string>, from: nat, panels: int): (i: nat)
    ensures from <= i
    ensures i < panels ==> i !in assign
    ensures forall k :: from <= k < i ==> k in assign && k < panels
    ensures i >= panels ==> i == from || i == panels
    decreases panels - from
  {
    if from >= panels || from !in assign then from else FreeFrom(assign, from + 1, panels)
  }

  /** The index assignPanel fills when one is free: the lowest index in [0, panels) without an entry. */
  ghost function LowestFree(assign: map<int, string>, panels: int): nat
  {
    FreeFrom(assign, 0, panels)
  }

  /**
   * An eviction candidate: a panel whose session is unknown, or, when every
   * panel's session is known, one holding the least recently updated
   * session.
   */
  ghost predicate IsOldestPanel(assign: map<int, string>, sessions: map<string, Session>, p: int)
  {
    p in assign &&
    (assign[p] !in sessions ||
     forall q | q in assign :: assign[q] in sessions && sessions[assign[p]].lastUpdate <= sessions[assign[q]].lastUpdate)
  }

  /** What assignPanel does to the table (session.go:135-162). */
  ghost predicate Assigned(before: map<int, string>, after: map<int, string>, id: string, panels: int,
                           sessions: map<string, Session>, patterns: seq<string>)
  {
    if Excluded(patterns, id) || OnTable(before, id) then after == before
    else if LowestFree(before, panels) < panels then after == before[LowestFree(before, panels) := id]
    else exists p :: IsOldestPanel(before, sessions, p) && after == before[p := id]
  }

  /** `x` is the session registered under its ID. */
  ghost predicate Registered(sessions: map<string, Session>, x: Session)
  {
    x.id in sessions && sessions[x.id] == x
  }

  /** A session fillEmptyPanels may place: registered, not on the table, not excluded. */
  ghost predicate Unplaced(assign: map<int, string>, sessions: map<string, Session>, patterns: seq<string>, x: Session)
  {
    Registered(sessions, x) && !OnTable(assign, x.id) && !Excluded(patterns, x.id)
  }

  /** Entries already on the table stay. */
  ghost predicate Kept(before: map<int, string>, after: map<int, string>)
  {
    forall p | p in before :: p in after && after[p] == before[p]
  }

  /** Every new entry lies below `panels` and names a session that was unplaced. */
  ghost predicate NewEntriesUnplaced(before: map<int, string>, after: map<int, string>, panels: int,
                                     sessions: map<string, Session>, patterns: seq<string>)
  {
    forall p | p in after && p !in before ::
      0 <= p < panels && after[p] in sessions && Unplaced(before, sessions, patterns, sessions[after[p]])
  }

  /** New entries at lower indices hold newer sessions. */
  ghost predicate NewEntriesNewestFirst(before: map<int, string>, after: map<int, string>, sessions: map<string, Session>)
  {
    forall p, q | p in after && q in after && p !in before && q !in before && p < q &&
                  after[p] in sessions && after[q] in sessions ::
      sessions[after[p]].lastUpdate >= sessions[after[q]].lastUpdate
  }

  /** No index below a new entry was skipped. */
  ghost predicate LowestFirst(before: map<int, string>, after: map<int, string>)
  {
    forall p, q | p in after && p !in before && 0 <= q < p && q !in before :: q in after
  }

  /** An index below `panels` stays free only when every unplaced session has been placed. */
  ghost predicate FreeOnlyWhenExhausted(before: map<int, string>, after: map<int, string>, panels: int,
                                        sessions: map<string, Session>, patterns: seq<string>)
  {
    forall q | 0 <= q < panels && q !in after ::
      forall x | Unplaced(before, sessions, patterns, x) :: OnTable(after, x.id)
  }

  /** The sessions placed are at least as new as every unplaced session left out. */
  ghost predicate NewestPlaced(before: map<int, string>, after: map<int, string>,
                               sessions: map<string, Session>, patterns: seq<string>)
  {
    forall p, x | p in after && p !in before && after[p] in sessions &&
                  Unplaced(before, sessions, patterns, x) && !OnTable(after, x.id) ::
      sessions[after[p]].lastUpdate >= x.lastUpdate
  }

  /**
   * What fillEmptyPanels does to the table (session.go:253-286): existing
   * entries stay; new entries go to the lowest missing indices below
   * `panels`, newest session first, and take the newest unplaced sessions;
   * an index stays missing only when no unplaced session is left.
   */
  ghost predicate Filled(before: map<int, string>, after: map<int, string>, panels: int,
                         sessions: map<string, Session>, patterns: seq<string>)
  {
    Kept(before, after) &&
    NewEntriesUnplaced(before, after, panels, sessions, patterns) &&
    NewEntriesNewestFirst(before, after, sessions) &&
    LowestFirst(before, after) &&
    FreeOnlyWhenExhausted(before, after, panels, sessions, patterns) &&
    NewestPlaced(before, after, sessions, patterns)
  }

  /** Some panel shows the session `id`. */
  predicate OnTable(assign: map<int, string>, id: string)
  {
    exists p | p in assign :: assign[p] == id
  }

  /** The order every view promises: no repetitions, newest first, and exactly the given sessions. */
  ghost predicate NewestFirst(r: seq<Session>)
  {
    Distinct(r) && NonIncreasing(r, LastUpdate)
  }

  /** GetPanelSessions' result: the ordered sessions, cut or padded with nothing to `n` entries. */
  function Padded(order: seq<Session>, n: nat): (r: seq<Option<Session>>)
    ensures |r| == n
    ensures forall i :: 0 <= i < n ==> r[i] == (if i < |order| then Some(order[i]) else None)
  {
    seq(n, i requires 0 <= i < n => if i < |order| then Some(order[i]) else None)
  }

  /** The padding loop of GetPanelSessions (session.go:206-212). */
  method PadPanels(order: seq<Session>, n: nat) returns (result: seq<Option<Session>>)
    ensures result == Padded(order, n)
  {
    var a := new Option<Session>[n](_ => None);
    for i := 0 to n
      invariant forall k :: 0 <= k < i ==> a[k] == (if k < |order| then Some(order[k]) else None)
      invariant forall k :: i <= k < n ==> a[k] == None
    {
      if i < |order| {
        a[i] := Some(order[i]);
      }
    }
    result := a[..];
  }

  /** What the fill loop of fillEmptyPanels has done once it has looked at the indices below `i`. */
  ghost predicate FillProgress(before: map<int, string>, after: map<int, string>, order: seq<Session>,
                               filled: seq<int>, i: int, sessions: map<string, Session>, patterns: seq<string>)
  {
    |filled| <= |order| &&
    (forall j :: 0 <= j < |filled| ==> 0 <= filled[j] < i && filled[j] !in before) &&
    (forall j, k :: 0 <= j < k < |filled| ==> filled[j] < filled[k]) &&
    (forall p | p in before :: p in after && after[p] == before[p]) &&
    (forall j :: 0 <= j < |filled| ==> filled[j] in after && after[filled[j]] == order[j].id) &&
    (forall p | p in after :: p in before || p in filled) &&
    (forall q :: 0 <= q < i && q !in before && q !in filled ==> |filled| == |order|) &&
    (forall j, q :: 0 <= j < |filled| && 0 <= q < filled[j] && q !in before ==> q in filled) &&
    TableOk(after, sessions, patterns)
  }

  /** The candidates fillEmptyPanels places, in the order it places them. */
  ghost predicate FillOrder(before: map<int, string>, order: seq<Session>, sessions: map<string, Session>, patterns: seq<string>)
  {
    IdsConsistent(sessions) && TableOk(before, sessions, patterns) && NewestFirst(order) &&
    (forall x :: x in order <==> Unplaced(before, sessions, patterns, x))
  }

  lemma FillStep(before: map<int, string>, after: map<int, string>, order: seq<Session>,
                 filled: seq<int>, i: int, sessions: map<string, Session>, patterns: seq<string>)
    requires FillOrder(before, order, sessions, patterns) && 0 <= i
    requires FillProgress(before, after, order, filled, i, sessions, patterns)
    ensures i !in after && |filled| < |order| ==>
      FillProgress(before, after[i := order[|filled|].id], order, filled + [i], i + 1, sessions, patterns)
    ensures !(i !in after && |filled| < |order|) ==>
      FillProgress(before, after, order, filled, i + 1, sessions, patterns)
  {
    if i !in after && |filled| < |order| {
      FillPlace(before, after, order, filled, i, sessions, patterns);
    }
  }

  /** Placing the next candidate at a free index keeps the fill loop's invariant. */
  lemma FillPlace(before: map<int, string>, after: map<int, string>, order: seq<Session>,
                  filled: seq<int>, i: int, sessions: map<string, Session>, patterns: seq<string>)
    requires FillOrder(before, order, sessions, patterns) && 0 <= i
    requires FillProgress(before, after, order, filled, i, sessions, patterns)
    requires i !in after && |filled| < |order|
    ensures FillProgress(before, after[i := order[|filled|].id], order, filled + [i], i + 1, sessions, patterns)
  {
    var idx := |filled|;
    var filled' := filled + [i];
    PlaceKeepsTable(before, after, order, filled, i, sessions, patterns);
    forall j, q | 0 <= j < |filled'| && 0 <= q < filled'[j] && q !in before ensures q in filled' {
      if j < idx {
        assert q in filled;
      }
    }
  }

  /** The candidate placed next is on no panel yet, so the table stays valid. */
  lemma PlaceKeepsTable(before: map<int, string>, after: map<int, string>, order: seq<Session>,
                        filled: seq<int>, i: int, sessions: map<string, Session>, patterns: seq<string>)
    requires FillOrder(before, order, sessions, patterns) && 0 <= i
    requires FillProgress(before, after, order, filled, i, sessions, patterns)
    requires i !in after && |filled| < |order|
    ensures TableOk(after[i := order[|filled|].id], sessions, patterns)
  {
    var x := order[|filled|];
    assert x in order;
    forall p | p in after ensures after[p] != x.id {
      if p in before {
        assert !OnTable(before, x.id);
      } else {
        var j :| 0 <= j < |filled| && filled[j] == p;
        assert order[j] in order;
        assert order[j] != x;
      }
    }
  }

  lemma FillDonePlaced(before: map<int, string>, after: map<int, string>, order: seq<Session>,
                       filled: seq<int>, panels: int, sessions: map<string, Session>, patterns: seq<string>)
    requires FillOrder(before, order, sessions, patterns) && 0 <= panels
    requires FillProgress(before, after, order, filled, panels, sessions, patterns)
    ensures NewEntriesUnplaced(before, after, panels, sessions, patterns)
  {
    forall p | p in after && p !in before
      ensures 0 <= p < panels && after[p] in sessions && Unplaced(before, sessions, patterns, sessions[after[p]])
    {
      var j :| 0 <= j < |filled| && filled[j] == p;
      assert order[j] in order;
    }
  }

  lemma FillDoneOrdered(before: map<int, string>, after: map<int, string>, order: seq<Session>,
                        filled: seq<int>, panels: int, sessions: map<string, Session>, patterns: seq<string>)
    requires FillOrder(before, order, sessions, patterns) && 0 <= panels
    requires FillProgress(before, after, order, filled, panels, sessions, patterns)
    ensures NewEntriesNewestFirst(before, after, sessions)
  {
    forall p, q | p in after && q in after && p !in before && q !in before && p < q &&
                  after[p] in sessions && after[q] in sessions
      ensures sessions[after[p]].lastUpdate >= sessions[after[q]].lastUpdate
    {
      var j :| 0 <= j < |filled| && filled[j] == p;
      var k :| 0 <= k < |filled| && filled[k] == q;
      assert order[j] in order && order[k] in order;
      assert j < k;
    }
  }

  lemma FillDoneExhausted(before: map<int, string>, after: map<int, string>, order: seq<Session>,
                          filled: seq<int>, panels: int, sessions: map<string, Session>, patterns: seq<string>)
    requires FillOrder(before, order, sessions, patterns) && 0 <= panels
    requires FillProgress(before, after, order, filled, panels, sessions, patterns)
    ensures FreeOnlyWhenExhausted(before, after, panels, sessions, patterns)
  {
    forall q | 0 <= q < panels && q !in after
      ensures forall x | Unplaced(before, sessions, patterns, x) :: OnTable(after, x.id)
    {
      assert |filled| == |order|;
      forall x | Unplaced(before, sessions, patterns, x) ensures OnTable(after, x.id) {
        var t :| 0 <= t < |order| && order[t] == x;
        assert filled[t] in after && after[filled[t]] == x.id;
      }
    }
  }

  lemma FillDoneNewest(before: map<int, string>, after: map<int, string>, order: seq<Session>,
                       filled: seq<int>, panels: int, sessions: map<string, Session>, patterns: seq<string>)
    requires FillOrder(before, order, sessions, patterns) && 0 <= panels
    requires FillProgress(before, after, order, filled, panels, sessions, patterns)
    ensures NewestPlaced(before, after, sessions, patterns)
  {
    forall p, x | p in after && p !in before && after[p] in sessions &&
                  Unplaced(before, sessions, patterns, x) && !OnTable(after, x.id)
      ensures sessions[after[p]].lastUpdate >= x.lastUpdate
    {
      var j :| 0 <= j < |filled| && filled[j] == p;
      var t :| 0 <= t < |order| && order[t] == x;
      assert order[j] in order;
    }
  }

  lemma FillDoneLowestFirst(before: map<int, string>, after: map<int, string>, order: seq<Session>,
                            filled: seq<int>, panels: int, sessions: map<string, Session>, patterns: seq<string>)
    requires FillProgress(before, after, order, filled, panels, sessions, patterns)
    ensures LowestFirst(before, after)
  {
    forall p, q | p in after && p !in before && 0 <= q < p && q !in before ensures q in after {
      var j :| 0 <= j < |filled| && filled[j] == p;
      assert q in filled;
    }
  }

  /** Once every index below `panels` has been looked at, the table is Filled. */
  lemma FillDone(before: map<int, string>, after: map<int, string>, order: seq<Session>,
                 filled: seq<int>, panels: int, sessions: map<string, Session>, patterns: seq<string>)
    requires FillOrder(before, order, sessions, patterns) && 0 <= panels
    requires FillProgress(before, after, order, filled, panels, sessions, patterns)
    ensures Filled(before, after, panels, sessions, patterns)
  {
    FillDonePlaced(before, after, order, filled, panels, sessions, patterns);
    FillDoneOrdered(before, after, order, filled, panels, sessions, patterns);
    FillDoneExhausted(before, after, order, filled, panels, sessions, patterns);
    FillDoneNewest(before, after, order, filled, panels, sessions, patterns);
    FillDoneLowestFirst(before, after, order, filled, panels, sessions, patterns);
  }

  /**
   * `x` sits at depth `d` of the forest: it is registered and not excluded,
   * and either has no parent (depth 0) or its parent is registered and sits
   * at depth d - 1.
   */
  ghost predicate InTree(sessions: map<string, Session>, patterns: seq<string>, x: Session, d: nat)
    decreases d
  {
    Registered(sessions, x) && !Excluded(patterns, x.id) &&
    if d == 0 then x.parentID == ""
    else x.parentID != "" && x.parentID in sessions && InTree(sessions, patterns, sessions[x.parentID], d - 1)
  }

  /** The sessions of a list of nodes. */
  function Heads(ns: seq<Node>): (r: seq<Session>)
    ensures |r| == |ns| && forall k :: 0 <= k < |ns| ==> r[k] == ns[k].session
  {
    seq(|ns|, k requires 0 <= k < |ns| => ns[k].session)
  }

  /** The sessions that buildNode makes children of the session `pid`. */
  ghost predicate ChildOf(sessions: map<string, Session>, patterns: seq<string>, pid: string, x: Session)
  {
    Registered(sessions, x) && !Excluded(patterns, x.id) && x.parentID == pid && pid != ""
  }

  /**
   * A node as buildNode makes it (session.go:354-376) for a session at
   * depth `d`: expanded, its children exactly the non-excluded sessions
   * naming it as parent, newest first, each shaped the same way.
   */
  ghost predicate Shaped(sessions: map<string, Session>, patterns: seq<string>, n: Node, d: nat)
    decreases n
  {
    InTree(sessions, patterns, n.session, d) && n.expanded &&
    NewestFirst(Heads(n.children)) &&
    (forall x :: x in Heads(n.children) <==> ChildOf(sessions, patterns, n.session.id, x)) &&
    (forall k | 0 <= k < |n.children| :: Shaped(sessions, patterns, n.children[k], d + 1))
  }

  /**
   * The forest GetSessionTree returns (session.go:316-352): the roots are
   * exactly the non-excluded sessions without a parent, newest first.
   */
  ghost predicate Forest(sessions: map<string, Session>, patterns: seq<string>, roots: seq<Node>)
  {
    NewestFirst(Heads(roots)) &&
    (forall x :: x in Heads(roots) <==> Registered(sessions, x) && !Excluded(patterns, x.id) && x.parentID == "") &&
    (forall k | 0 <= k < |roots| :: Shaped(sessions, patterns, roots[k], 0))
  }

  /** childrenMap[pid], with a missing key read as the empty list as Go does. */
  function Kids(childrenMap: map<string, seq<Session>>, pid: string): seq<Session>
  {
    if pid in childrenMap then childrenMap[pid] else []
  }

  /** The childrenMap GetSessionTree builds: for each parent ID, its non-excluded children, once each. */
  ghost predicate ChildIndex(childrenMap: map<string, seq<Session>>, sessions: map<string, Session>, patterns: seq<string>)
  {
    (forall pid :: Distinct(Kids(childrenMap, pid))) &&
    (forall pid, x :: x in Kids(childrenMap, pid) <==> ChildOf(sessions, patterns, pid, x))
  }

  /** Every ID in `ids` names a session sitting higher than depth `d`. */
  ghost predicate Shallower(sessions: map<string, Session>, patterns: seq<string>, ids: set<string>, d: nat)
  {
    forall a | a in ids :: a in sessions && exists k: nat :: k < d && InTree(sessions, patterns, sessions[a], k)
  }

  /**
   * What buildNode relies on to expand `s`: the index is right, `s` sits at
   * depth `d`, and every ID in `above` names a session higher up.
   */
  ghost predicate Expandable(sessions: map<string, Session>, patterns: seq<string>, childrenMap: map<string, seq<Session>>,
                             s: Session, d: nat, above: set<string>)
  {
    IdsConsistent(sessions) && ChildIndex(childrenMap, sessions, patterns) &&
    InTree(sessions, patterns, s, d) && s.id !in above && Shallower(sessions, patterns, above, d)
  }

  /** A child of an expandable session is expandable one level down, below its parent. */
  lemma ChildBelow(sessions: map<string, Session>, patterns: seq<string>, childrenMap: map<string, seq<Session>>,
                   s: Session, d: nat, above: set<string>, c: Session)
    requires Expandable(sessions, patterns, childrenMap, s, d, above)
    requires ChildOf(sessions, patterns, s.id, c)
    ensures Expandable(sessions, patterns, childrenMap, c, d + 1, above + {s.id})
  {
    assert sessions[c.parentID] == s;
    if c.id == s.id {
      DepthUnique(sessions, patterns, s, d, d + 1);
    } else if c.id in above {
      var k: nat :| k < d && InTree(sessions, patterns, sessions[c.id], k);
      DepthUnique(sessions, patterns, c, k, d + 1);
    }
    forall a | a in above + {s.id} ensures a in sessions && exists k: nat :: k < d + 1 && InTree(sessions, patterns, sessions[a], k) {
      if a == s.id {
        assert InTree(sessions, patterns, sessions[a], d);
      } else {
        var k: nat :| k < d && InTree(sessions, patterns, sessions[a], k);
        assert k < d + 1;
      }
    }
  }

  /** Every tree of a list is shaped at depth `d`. */
  ghost predicate AllShaped(sessions: map<string, Session>, patterns: seq<string>, ns: seq<Node>, d: nat)
  {
    forall k | 0 <= k < |ns| :: Shaped(sessions, patterns, ns[k], d)
  }

  /** Appending the tree built for the next child keeps the children loop's invariant. */
  lemma BuiltStep(sessions: map<string, Session>, patterns: seq<string>, kids: seq<Node>, child: Node,
                  children: seq<Session>, i: nat, d: nat)
    requires i < |children| && Heads(kids) == children[..i] && AllShaped(sessions, patterns, kids, d)
    requires child.session == children[i] && Shaped(sessions, patterns, child, d)
    ensures Heads(kids + [child]) == children[..i + 1] && AllShaped(sessions, patterns, kids + [child], d)
  {
    assert Heads(kids + [child]) == children[..i + 1];
  }

  /** A node assembled from shaped subtrees over the right children, in the right order, is shaped. */
  lemma NodeShaped(sessions: map<string, Session>, patterns: seq<string>, n: Node, d: nat, children: seq<Session>)
    requires InTree(sessions, patterns, n.session, d) && n.expanded
    requires NewestFirst(children) && forall x :: x in children <==> ChildOf(sessions, patterns, n.session.id, x)
    requires Heads(n.children) == children && AllShaped(sessions, patterns, n.children, d + 1)
    ensures Shaped(sessions, patterns, n, d)
  {
  }

  /** The sessions of a tree, in pre-order. */
  function Flat(n: Node): seq<Session>
    decreases n, 1
  {
    [n.session] + FlatForest(n.children)
  }

  /** The sessions of a forest, in pre-order. */
  function FlatForest(ns: seq<Node>): seq<Session>
    decreases ns, 0
  {
    if ns == [] then [] else Flat(ns[0]) + FlatForest(ns[1..])
  }

  /** The session `k` parent steps above `x`. */
  ghost function Anc(sessions: map<string, Session>, x: Session, k: nat): Session
    decreases k
  {
    if k == 0 || x.parentID !in sessions then x else Anc(sessions, sessions[x.parentID], k - 1)
  }

  /** A session has one depth: the parent chain decides it. */
  lemma {:induction false} DepthUnique(sessions: map<string, Session>, patterns: seq<string>, x: Session, d: nat, e: nat)
    requires InTree(sessions, patterns, x, d) && InTree(sessions, patterns, x, e)
    ensures d == e
    decreases d
  {
    if d > 0 && e > 0 {
      DepthUnique(sessions, patterns, sessions[x.parentID], d - 1, e - 1);
    }
  }

  lemma {:induction false} FlatForestMembers(ns: seq<Node>, y: Session)
    ensures y in FlatForest(ns) <==> exists k :: 0 <= k < |ns| && y in Flat(ns[k])
    decreases ns
  {
    if ns != [] {
      FlatForestMembers(ns[1..], y);
      if exists k :: 0 <= k < |ns| && y in Flat(ns[k]) {
        var k :| 0 <= k < |ns| && y in Flat(ns[k]);
        if k > 0 {
          assert ns[1..][k - 1] == ns[k];
        }
      }
      if y in FlatForest(ns[1..]) {
        var k :| 0 <= k < |ns[1..]| && y in Flat(ns[1..][k]);
        assert ns[1..][k] == ns[k + 1];
      }
    }
  }

  /** A session of one tree of a forest is a session of the forest. */
  lemma InChildTree(ns: seq<Node>, k: nat, y: Session)
    requires k < |ns| && y in Flat(ns[k])
    ensures y in FlatForest(ns)
  {
    FlatForestMembers(ns, y);
  }

  /** The tree of a forest that holds a given session of the forest. */
  lemma TreeHolding(ns: seq<Node>, y: Session) returns (k: nat)
    requires y in FlatForest(ns)
    ensures k < |ns| && y in Flat(ns[k])
  {
    FlatForestMembers(ns, y);
    k :| 0 <= k < |ns| && y in Flat(ns[k]);
  }

  /** One more parent step is one step above the session `k` steps up. */
  lemma {:induction false} AncStep(sessions: map<string, Session>, patterns: seq<string>, y: Session, e: nat, k: nat)
    requires InTree(sessions, patterns, y, e) && k < e
    ensures InTree(sessions, patterns, Anc(sessions, y, k), e - k)
    ensures Anc(sessions, y, k + 1) == sessions[Anc(sessions, y, k).parentID]
    decreases k
  {
    if k > 0 {
      AncStep(sessions, patterns, sessions[y.parentID], e - 1, k - 1);
    }
  }

  /** `y` sits at a depth `e >= d`, and its ancestor at depth `d` is `root`. */
  ghost predicate Below(sessions: map<string, Session>, patterns: seq<string>, y: Session, d: nat, root: Session)
  {
    exists e: nat :: e >= d && InTree(sessions, patterns, y, e) && Anc(sessions, y, e - d) == root
  }

  /** The depth of a session below depth `d`. */
  lemma DepthOf(sessions: map<string, Session>, patterns: seq<string>, y: Session, d: nat, r: Session) returns (e: nat)
    requires Below(sessions, patterns, y, d, r)
    ensures e >= d && InTree(sessions, patterns, y, e)
  {
    e :| e >= d && InTree(sessions, patterns, y, e) && Anc(sessions, y, e - d) == r;
  }

  /** A session has one ancestor at each depth above it. */
  lemma BelowUnique(sessions: map<string, Session>, patterns: seq<string>, y: Session, d: nat, r: Session, r': Session)
    requires Below(sessions, patterns, y, d, r) && Below(sessions, patterns, y, d, r')
    ensures r == r'
  {
    var e: nat :| e >= d && InTree(sessions, patterns, y, e) && Anc(sessions, y, e - d) == r;
    var e': nat :| e' >= d && InTree(sessions, patterns, y, e') && Anc(sessions, y, e' - d) == r';
    DepthUnique(sessions, patterns, y, e, e');
  }

  /** A session below depth `d` does not sit at a depth above it. */
  lemma BelowDepth(sessions: map<string, Session>, patterns: seq<string>, y: Session, d: nat, r: Session, e: nat)
    requires Below(sessions, patterns, y, d, r) && InTree(sessions, patterns, y, e)
    ensures e >= d
  {
    var e' := DepthOf(sessions, patterns, y, d, r);
    DepthUnique(sessions, patterns, y, e, e');
  }

  /** Every session of a tree shaped at depth `d` lies below the tree's root session. */
  lemma {:induction false} FlatDepths(sessions: map<string, Session>, patterns: seq<string>, n: Node, d: nat, y: Session)
    requires Shaped(sessions, patterns, n, d) && y in Flat(n)
    ensures Below(sessions, patterns, y, d, n.session)
    decreases n
  {
    if y == n.session {
      assert InTree(sessions, patterns, y, d) && Anc(sessions, y, 0) == n.session;
    } else {
      var k := TreeHolding(n.children, y);
      var c := n.children[k];
      FlatDepths(sessions, patterns, c, d + 1, y);
      var e: nat :| e >= d + 1 && InTree(sessions, patterns, y, e) && Anc(sessions, y, e - (d + 1)) == c.session;
      AncStep(sessions, patterns, y, e, e - (d + 1));
      assert c.session in Heads(n.children);
      assert InTree(sessions, patterns, y, e) && Anc(sessions, y, e - d) == n.session;
    }
  }

  /** No session appears twice in a shaped tree. */
  lemma {:induction false} FlatDistinct(sessions: map<string, Session>, patterns: seq<string>, n: Node, d: nat)
    requires Shaped(sessions, patterns, n, d)
    ensures Distinct(Flat(n))
    decreases n, 1
  {
    ForestDistinct(sessions, patterns, n.children, d + 1);
    forall y | y in FlatForest(n.children) ensures y != n.session {
      var k := TreeHolding(n.children, y);
      FlatDepths(sessions, patterns, n.children[k], d + 1, y);
      if y == n.session {
        BelowDepth(sessions, patterns, y, d + 1, n.children[k].session, d);
      }
    }
    DistinctConcat([n.session], FlatForest(n.children));
  }

  /** Trees at the same depth whose root sessions differ share no session. */
  lemma {:induction false} ForestDistinct(sessions: map<string, Session>, patterns: seq<string>, ns: seq<Node>, d: nat)
    requires Distinct(Heads(ns)) && AllShaped(sessions, patterns, ns, d)
    ensures Distinct(FlatForest(ns))
    decreases ns, 0
  {
    if ns != [] {
      FlatDistinct(sessions, patterns, ns[0], d);
      assert Heads(ns[1..]) == Heads(ns)[1..];
      ForestDistinct(sessions, patterns, ns[1..], d);
      forall y | y in Flat(ns[0]) ensures y !in FlatForest(ns[1..]) {
        if y in FlatForest(ns[1..]) {
          var k := TreeHolding(ns[1..], y);
          assert ns[1..][k].session == Heads(ns)[k + 1];
          FlatDepths(sessions, patterns, ns[0], d, y);
          FlatDepths(sessions, patterns, ns[1..][k], d, y);
          BelowUnique(sessions, patterns, y, d, ns[0].session, ns[1..][k].session);
        }
      }
      DistinctConcat(Flat(ns[0]), FlatForest(ns[1..]));
    }
  }

  /** A shaped tree holding a session holds that session's children too. */
  lemma {:induction false} ChildClosed(sessions: map<string, Session>, patterns: seq<string>, n: Node, d: nat, y: Session, x: Session)
    requires Shaped(sessions, patterns, n, d) && y in Flat(n) && ChildOf(sessions, patterns, y.id, x)
    ensures x in Flat(n)
    decreases n
  {
    if y == n.session {
      assert x in Heads(n.children);
      var k :| 0 <= k < |n.children| && n.children[k].session == x;
      InChildTree(n.children, k, x);
    } else {
      var k := TreeHolding(n.children, y);
      ChildClosed(sessions, patterns, n.children[k], d + 1, y, x);
      InChildTree(n.children, k, x);
    }
  }

  /** Every session at some depth of the forest is in the forest. */
  lemma {:induction false} Reachable(sessions: map<string, Session>, patterns: seq<string>, roots: seq<Node>, x: Session, d: nat)
    requires IdsConsistent(sessions) && Forest(sessions, patterns, roots) && InTree(sessions, patterns, x, d)
    ensures x in FlatForest(roots)
    decreases d
  {
    if d == 0 {
      assert x in Heads(roots);
      var k :| 0 <= k < |roots| && roots[k].session == x;
      InChildTree(roots, k, x);
    } else {
      var parent := sessions[x.parentID];
      Reachable(sessions, patterns, roots, parent, d - 1);
      var k := TreeHolding(roots, parent);
      ChildClosed(sessions, patterns, roots[k], 0, parent, x);
      InChildTree(roots, k, x);
    }
  }

  /**
   * What GetSessionTree promises about the sessions it shows: exactly those
   * whose whole parent chain is registered, not excluded and ends in a
   * session without a parent.
   */
  lemma ForestMember(sessions: map<string, Session>, patterns: seq<string>, roots: seq<Node>, x: Session)
    requires IdsConsistent(sessions) && Forest(sessions, patterns, roots)
    ensures x in FlatForest(roots) <==> exists d: nat :: InTree(sessions, patterns, x, d)
  {
    if x in FlatForest(roots) {
      var k := TreeHolding(roots, x);
      FlatDepths(sessions, patterns, roots[k], 0, x);
      var e := DepthOf(sessions, patterns, x, 0, roots[k].session);
      assert exists d: nat :: InTree(sessions, patterns, x, d);
    }
    if exists d: nat :: InTree(sessions, patterns, x, d) {
      var d: nat :| InTree(sessions, patterns, x, d);
      Reachable(sessions, patterns, roots, x, d);
    }
  }

  /** No session appears twice in the forest. */
  lemma ForestUnique(sessions: map<string, Session>, patterns: seq<string>, roots: seq<Node>)
    requires IdsConsistent(sessions) && Forest(sessions, patterns, roots)
    ensures Distinct(FlatForest(roots))
  {
    ForestDistinct(sessions, patterns, roots, 0);
  }

  /** A session whose parent is missing or excluded appears nowhere in the forest. */
  lemma Orphaned(sessions: map<string, Session>, patterns: seq<string>, roots: seq<Node>, x: Session)
    requires IdsConsistent(sessions) && Forest(sessions, patterns, roots)
    requires x.parentID != "" && (x.parentID !in sessions || Excluded(patterns, x.parentID))
    ensures x !in FlatForest(roots)
  {
    ForestMember(sessions, patterns, roots, x);
  }

  /**
   * buildNode (session.go:354-376): the node for `s`, expanded, with the
   * children the index lists for its ID, sorted newest first and expanded
   * in turn. `s` sits at depth `d`; `above` holds the IDs of the sessions
   * above it, which bounds the recursion. The Go method reads nothing of
   * the manager but `childrenMap`; the registry and the exclusion list are
   * parameters here only for the specification.
   */
  method BuildNode(sessions: map<string, Session>, patterns: seq<string>, s: Session,
                   childrenMap: map<string, seq<Session>>, ghost d: nat, ghost above: set<string>)
    returns (node: Node)
    requires Expandable(sessions, patterns, childrenMap, s, d, above)
    ensures node.session == s && Shaped(sessions, patterns, node, d)
    decreases |sessions.Keys - above|, 1
  {
    var children := SortedCopy(Kids(childrenMap, s.id), LastUpdate);
    DistinctPermutation(Kids(childrenMap, s.id), children);
    PermutationMembers(children, Kids(childrenMap, s.id));
    RemainderShrinks(sessions.Keys, above, s.id);
    var kids := BuildChildren(sessions, patterns, s, children, childrenMap, d, above);
    node := Node(s, kids, true);
    NodeShaped(sessions, patterns, node, d, children);
  }

  /** The loop of buildNode over the sorted children of `s` (session.go:370-373). */
  method BuildChildren(sessions: map<string, Session>, patterns: seq<string>, s: Session, children: seq<Session>,
                       childrenMap: map<string, seq<Session>>, ghost d: nat, ghost above: set<string>)
    returns (kids: seq<Node>)
    requires Expandable(sessions, patterns, childrenMap, s, d, above)
    requires forall x :: x in children ==> ChildOf(sessions, patterns, s.id, x)
    ensures Heads(kids) == children && AllShaped(sessions, patterns, kids, d + 1)
    decreases |sessions.Keys - (above + {s.id})|, 2
  {
    kids := [];
    for i := 0 to |children|
      invariant Heads(kids) == children[..i] && AllShaped(sessions, patterns, kids, d + 1)
    {
      ChildBelow(sessions, patterns, childrenMap, s, d, above, children[i]);
      var child := BuildNode(sessions, patterns, children[i], childrenMap, d + 1, above + {s.id});
      BuiltStep(sessions, patterns, kids, child, children, i, d + 1);
      kids := kids + [child];
    }
    assert children[..|children|] == children;
  }

  /** Adding a new element to `above` leaves fewer elements of `all` outside it. */
  lemma RemainderShrinks<T>(all: set<T>, above: set<T>, x: T)
    requires x in all && x !in above
    ensures |all - (above + {x})| < |all - above|
  {
    assert all - above == (all - (above + {x})) + {x};
  }

  /** One element of a non-empty set: the next key a Go map iteration visits. */
  method Pick<T>(s: set<T>) returns (x: T)
    requires s != {}
    ensures x in s
  {
    x :| x in s;
  }

  class Manager {
    var panels: int
    var sessions: map<string, Session>
    var panelAssign: map<int, string>
    const excludePatterns: seq<string>

    ghost predicate Valid()
      reads this
    {
      panels >= 1 && IdsConsistent(sessions) && TableOk(panelAssign, sessions, excludePatterns)
    }

    /** NewManager (session.go:44-51); the panel count must be positive. */
    constructor (panels: int)
      requires panels >= 1
      ensures Valid()
      ensures this.panels == panels && sessions == map[] && panelAssign == map[]
      ensures excludePatterns == DefaultExcludePatterns
    {
      this.panels := panels;
      sessions := map[];
      panelAssign := map[];
      excludePatterns := DefaultExcludePatterns;
    }

    /** shouldExcludeSession (session.go:54-62). */
    method ShouldExcludeSession(id: string) returns (excluded: bool)
      ensures excluded == Excluded(excludePatterns, id)
    {
      for k := 0 to |excludePatterns|
        invariant forall q :: 0 <= q < k ==> !Contains(id, excludePatterns[q])
      {
        if Contains(id, excludePatterns[k]) {
          return true;
        }
      }
      return false;
    }

    /**
     * GetOrCreateSessionWithParent (session.go:92-117): an existing session
     * only has its update time refreshed; a new one starts with no messages
     * at offset 0 and is offered a panel.
     */
    method GetOrCreateSessionWithParent(id: string, path: string, parentID: string, isSubagent: bool, now: int)
      returns (s: Session)
      requires Valid()
      modifies this
      ensures Valid() && panels == old(panels)
      ensures id in sessions && s == sessions[id] && sessions == old(sessions)[id := s]
      ensures id in old(sessions) ==> s == old(sessions)[id].(lastUpdate := now) && panelAssign == old(panelAssign)
      ensures id !in old(sessions) ==>
        s == Session(id, path, parentID, isSubagent, [], 0, now) &&
        Assigned(old(panelAssign), panelAssign, id, panels, sessions, excludePatterns)
    {
      if id in sessions {
        s := sessions[id].(lastUpdate := now);
        sessions := sessions[id := s];
        return;
      }
      s := Session(id, path, parentID, isSubagent, [], 0, now);
      sessions := sessions[id := s];
      AssignPanel(id);
    }

    /**
     * GetOrCreateSession (session.go:65-89): the same as
     * GetOrCreateSessionWithParent with an empty parent ID, which is what the
     * Go code's duplicate leaves in the field.
     */
    method GetOrCreateSession(id: string, path: string, isSubagent: bool, now: int) returns (s: Session)
      requires Valid()
      modifies this
      ensures Valid() && panels == old(panels)
      ensures id in sessions && s == sessions[id] && sessions == old(sessions)[id := s]
      ensures id in old(sessions) ==> s == old(sessions)[id].(lastUpdate := now) && panelAssign == old(panelAssign)
      ensures id !in old(sessions) ==>
        s == Session(id, path, "", isSubagent, [], 0, now) &&
        Assigned(old(panelAssign), panelAssign, id, panels, sessions, excludePatterns)
    {
      s := GetOrCreateSessionWithParent(id, path, "", isSubagent, now);
    }

    /**
     * UpdateSession (session.go:120-132): appends a batch of messages,
     * replaces the offset and refreshes the update time; an unknown ID
     * changes nothing.
     */
    method UpdateSession(id: string, batch: seq<Jsonl.Message>, newOffset: int, now: int)
      requires Valid()
      modifies this
      ensures Valid() && panels == old(panels) && panelAssign == old(panelAssign)
      ensures id !in old(sessions) ==> sessions == old(sessions)
      ensures id in old(sessions) ==>
        sessions == old(sessions)[id := old(sessions)[id].(messages := old(sessions)[id].messages + batch,
                                                         offset := newOffset, lastUpdate := now)]
    {
      if id !in sessions {
        return;
      }
      var s := sessions[id];
      sessions := sessions[id := s.(messages := s.messages + batch, offset := newOffset, lastUpdate := now)];
    }

    /**
     * assignPanel (session.go:135-162): nothing for an excluded or already
     * placed session; otherwise the lowest free index below `panels`, and
     * failing that the panel getOldestPanel picks.
     */
    method AssignPanel(id: string)
      requires Valid() && id in sessions
      modifies this
      ensures Valid() && panels == old(panels) && sessions == old(sessions)
      ensures Assigned(old(panelAssign), panelAssign, id, panels, sessions, excludePatterns)
    {
      var excluded := ShouldExcludeSession(id);
      if excluded {
        return;
      }
      var keys := panelAssign.Keys;
      while keys != {}
        invariant unchanged(this)
        invariant keys <= panelAssign.Keys
        invariant forall p | p in panelAssign && p !in keys :: panelAssign[p] != id
        decreases keys
      {
        var p := Pick(keys);
        if panelAssign[p] == id {
          return;
        }
        keys := keys - {p};
      }
      assert !OnTable(panelAssign, id) by {
        assert keys == {};
      }
      for i := 0 to panels
        invariant unchanged(this)
        invariant forall k :: 0 <= k < i ==> k in panelAssign
      {
        if i !in panelAssign {
          assert LowestFree(panelAssign, panels) == i;
          panelAssign := panelAssign[i := id];
          return;
        }
      }
      assert LowestFree(panelAssign, panels) >= panels;
      assert 0 in panelAssign;
      var oldest := GetOldestPanel();
      if oldest >= 0 {
        panelAssign := panelAssign[oldest := id];
      }
    }

    /**
     * getOldestPanel (session.go:165-182): -1 for an empty table; otherwise a
     * panel whose session is unknown if there is one, else a panel holding a
     * least recently updated session. Ties go to whichever panel the map
     * iteration meets first.
     */
    method GetOldestPanel() returns (p: int)
      requires forall q | q in panelAssign :: q >= 0
      ensures panelAssign == map[] ==> p == -1
      ensures panelAssign != map[] ==> IsOldestPanel(panelAssign, sessions, p)
    {
      var oldestPanel := -1;
      var oldestTime := 0;
      var keys := panelAssign.Keys;
      while keys != {}
        invariant keys <= panelAssign.Keys
        invariant oldestPanel == -1 <==> keys == panelAssign.Keys
        invariant oldestPanel != -1 ==>
          oldestPanel in panelAssign && oldestPanel !in keys && panelAssign[oldestPanel] in sessions &&
          oldestTime == sessions[panelAssign[oldestPanel]].lastUpdate
        invariant forall q | q in panelAssign && q !in keys ::
          panelAssign[q] in sessions && oldestTime <= sessions[panelAssign[q]].lastUpdate
        decreases keys
      {
        var panel := Pick(keys);
        var sid := panelAssign[panel];
        if sid !in sessions {
          return panel;
        }
        var s := sessions[sid];
        if oldestPanel == -1 || s.lastUpdate < oldestTime {
          oldestPanel := panel;
          oldestTime := s.lastUpdate;
        }
        keys := keys - {panel};
      }
      return oldestPanel;
    }

    /**
     * The registered sessions `keep` accepts, in map iteration order: the
     * collection loop that opens GetAllSessions, GetChildSessions,
     * fillEmptyPanels and GetSessionTree.
     */
    method Collect(keep: Session -> bool) returns (r: seq<Session>)
      requires IdsConsistent(sessions)
      ensures Distinct(r)
      ensures forall x :: x in r <==> Registered(sessions, x) && keep(x)
    {
      r := [];
      var ids := sessions.Keys;
      while ids != {}
        invariant ids <= sessions.Keys
        invariant Distinct(r)
        invariant forall x :: x in r <==> Registered(sessions, x) && keep(x) && x.id !in ids
        decreases ids
      {
        var k := Pick(ids);
        var s := sessions[k];
        if keep(s) {
          r := r + [s];
        }
        ids := ids - {k};
      }
    }

    /**
     * GetPanelSessions (session.go:185-215): every session on the table,
     * stale indices included, newest first, cut or padded with nothing to
     * exactly `panels` entries.
     */
    method GetPanelSessions() returns (result: seq<Option<Session>>)
      requires Valid()
      ensures exists order ::
        && NewestFirst(order)
        && (forall x :: x in order <==> Registered(sessions, x) && OnTable(panelAssign, x.id))
        && result == Padded(order, panels)
    {
      var placed := AssignedSessions();
      var order := SortedCopy(placed, LastUpdate);
      DistinctPermutation(placed, order);
      PermutationMembers(order, placed);
      result := PadPanels(order, panels);
    }

    /** The collection loop of GetPanelSessions (session.go:189-195): the registered sessions on the table. */
    method AssignedSessions() returns (placed: seq<Session>)
      requires Valid()
      ensures Distinct(placed)
      ensures forall x :: x in placed <==> Registered(sessions, x) && OnTable(panelAssign, x.id)
    {
      placed := [];
      var keys := panelAssign.Keys;
      while keys != {}
        invariant keys <= panelAssign.Keys
        invariant Distinct(placed)
        invariant forall x :: x in placed <==>
          Registered(sessions, x) && exists p | p in panelAssign && p !in keys :: panelAssign[p] == x.id
        decreases keys
      {
        var p := Pick(keys);
        var sid := panelAssign[p];
        if sid in sessions {
          placed := placed + [sessions[sid]];
        }
        keys := keys - {p};
      }
    }

    /** The `assigned` set fillEmptyPanels builds first: the IDs on the table. */
    method TableIds() returns (ids: set<string>)
      ensures forall id :: id in ids <==> OnTable(panelAssign, id)
    {
      ids := {};
      var keys := panelAssign.Keys;
      while keys != {}
        invariant keys <= panelAssign.Keys
        invariant forall id :: id in ids <==> exists p | p in panelAssign && p !in keys :: panelAssign[p] == id
        decreases keys
      {
        var p := Pick(keys);
        ids := ids + {panelAssign[p]};
        keys := keys - {p};
      }
    }

    /**
     * fillEmptyPanels (session.go:253-286): the unplaced, non-excluded
     * sessions, newest first, go to the indices below `panels` that have no
     * entry, lowest index first, until either runs out.
     */
    method FillEmptyPanels()
      requires Valid()
      modifies this
      ensures Valid() && sessions == old(sessions) && panels == old(panels)
      ensures Filled(old(panelAssign), panelAssign, panels, sessions, excludePatterns)
    {
      var onTable := TableIds();
      var patterns := excludePatterns;
      var candidates := Collect((s: Session) => s.id !in onTable && !Excluded(patterns, s.id));
      var unplaced := SortedCopy(candidates, LastUpdate);
      DistinctPermutation(candidates, unplaced);
      PermutationMembers(unplaced, candidates);
      ghost var before := panelAssign;
      var idx := 0;
      ghost var filled: seq<int> := [];
      for i := 0 to panels
        invariant sessions == old(sessions) && panels == old(panels)
        invariant idx == |filled|
        invariant FillProgress(before, panelAssign, unplaced, filled, i, sessions, excludePatterns)
      {
        FillStep(before, panelAssign, unplaced, filled, i, sessions, excludePatterns);
        if i !in panelAssign && idx < |unplaced| {
          panelAssign := panelAssign[i := unplaced[idx].id];
          filled := filled + [i];
          idx := idx + 1;
        }
      }
      FillDone(before, panelAssign, unplaced, filled, panels, sessions, excludePatterns);
    }

    /**
     * SetPanelCount (session.go:232-249): a count outside 1..MaxPanels
     * becomes 1; growing fills the new room, shrinking leaves the table as
     * it is, stale indices included.
     */
    method SetPanelCount(count: int)
      requires Valid()
      modifies this
      ensures Valid() && sessions == old(sessions)
      ensures panels == (if 1 <= count <= MaxPanels then count else 1)
      ensures panels <= old(panels) ==> panelAssign == old(panelAssign)
      ensures panels > old(panels) ==> Filled(old(panelAssign), panelAssign, panels, sessions, excludePatterns)
    {
      var n := count;
      if n < 1 {
        n := 1;
      } else if n > MaxPanels {
        n := 1;
      }
      var oldCount := panels;
      panels := n;
      if n > oldCount {
        FillEmptyPanels();
      }
    }

    /** GetAllSessions (session.go:290-312): every session that is not excluded, newest first. */
    method GetAllSessions() returns (r: seq<Session>)
      requires Valid()
      ensures NewestFirst(r)
      ensures forall x :: x in r <==> Registered(sessions, x) && !Excluded(excludePatterns, x.id)
    {
      var patterns := excludePatterns;
      var all := Collect((s: Session) => !Excluded(patterns, s.id));
      r := SortedCopy(all, LastUpdate);
      DistinctPermutation(all, r);
      forall x ensures x in r <==> x in all {
        assert x in r <==> x in multiset(r);
        assert x in all <==> x in multiset(all);
      }
    }

    /**
     * The first pass of GetSessionTree (session.go:323-333): the
     * non-excluded sessions without a parent, and for every parent ID the
     * non-excluded sessions naming it, each once, in map iteration order.
     */
    method IndexSessions() returns (top: seq<Session>, childrenMap: map<string, seq<Session>>)
      requires Valid()
      ensures Distinct(top)
      ensures forall x :: x in top <==> Registered(sessions, x) && !Excluded(excludePatterns, x.id) && x.parentID == ""
      ensures ChildIndex(childrenMap, sessions, excludePatterns)
    {
      childrenMap := map[];
      top := [];
      var ids := sessions.Keys;
      while ids != {}
        invariant ids <= sessions.Keys
        invariant Distinct(top)
        invariant forall x :: x in top <==>
          Registered(sessions, x) && !Excluded(excludePatterns, x.id) && x.parentID == "" && x.id !in ids
        invariant forall pid :: Distinct(Kids(childrenMap, pid))
        invariant forall pid, x :: x in Kids(childrenMap, pid) <==>
          ChildOf(sessions, excludePatterns, pid, x) && x.id !in ids
        decreases ids
      {
        var k := Pick(ids);
        var s := sessions[k];
        ids := ids - {k};
        var excluded := ShouldExcludeSession(s.id);
        if excluded {
          continue;
        }
        if s.parentID == "" {
          top := top + [s];
        } else {
          DistinctConcat(Kids(childrenMap, s.parentID), [s]);
          ghost var before := childrenMap;
          childrenMap := childrenMap[s.parentID := Kids(childrenMap, s.parentID) + [s]];
          forall pid ensures Distinct(Kids(childrenMap, pid)) {
            if pid != s.parentID {
              assert Kids(childrenMap, pid) == Kids(before, pid);
            }
          }
        }
      }
    }

    /**
     * GetSessionTree (session.go:316-352): one pass over the sessions sorts
     * the non-excluded ones into roots and a parent-to-children index; the
     * roots are sorted newest first and each is expanded by buildNode.
     */
    method GetSessionTree() returns (roots: seq<Node>)
      requires Valid()
      ensures Forest(sessions, excludePatterns, roots)
    {
      var top, childrenMap := IndexSessions();
      var sorted := SortedCopy(top, LastUpdate);
      DistinctPermutation(top, sorted);
      PermutationMembers(sorted, top);
      roots := [];
      for i := 0 to |sorted|
        invariant Heads(roots) == sorted[..i] && AllShaped(sessions, excludePatterns, roots, 0)
      {
        assert sorted[i] in top;
        var node := BuildNode(sessions, excludePatterns, sorted[i], childrenMap, 0, {});
        BuiltStep(sessions, excludePatterns, roots, node, sorted, i, 0);
        roots := roots + [node];
      }
      assert sorted[..|sorted|] == sorted;
    }

    /**
     * GetChildSessions (session.go:380-401): the sessions that are not
     * excluded and name `parentID` as their parent, newest first. With an
     * empty `parentID` these are the root sessions.
     */
    method GetChildSessions(parentID: string) returns (r: seq<Session>)
      requires Valid()
      ensures NewestFirst(r)
      ensures forall x :: x in r <==> Registered(sessions, x) && x.parentID == parentID && !Excluded(excludePatterns, x.id)
    {
      var patterns := excludePatterns;
      var children := Collect((s: Session) => s.parentID == parentID && !Excluded(patterns, s.id));
      r := SortedCopy(children, LastUpdate);
      DistinctPermutation(children, r);
      forall x ensures x in r <==> x in children {
        assert x in r <==> x in multiset(r);
        assert x in children <==> x in multiset(children);
      }
    }

    /** GetSession (session.go:218-223). */
    method GetSession(id: string) returns (r: Option<Session>)
      ensures id in sessions <==> r.Some?
      ensures id in sessions ==> r.value == sessions[id]
    {
      if id in sessions {
        return Some(sessions[id]);
      }
      return None;
    }

    /** PanelCount (session.go:226-228). */
    method PanelCount() returns (n: int)
      ensures n == panels
    {
      return panels;
    }
  }
}
