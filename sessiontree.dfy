/**
 * The session tree component of internal/tui/components/sessiontree.go: it
 * keeps the forest the manager last built, reconciled with the order the
 * user already sees, flattens it into display rows, and moves a selection
 * and a scroll window over the rows.
 *
 * Nodes are values here. The Go code overwrites the `Children` of the new
 * nodes it reuses; the model returns the reconciled nodes instead.
 */
module SessionTreeComponent {
  import opened Text
  import opened Sorting
  import Sessions

  type Node = Sessions.Node
  type Session = Sessions.Session

  /** The session ID of a node. */
  function Id(n: Node): string
  {
    n.session.id
  }

  /** The session IDs of a list of nodes, in order. */
  function Ids(ns: seq<Node>): (r: seq<string>)
    ensures |r| == |ns| && forall k :: 0 <= k < |ns| ==> r[k] == Id(ns[k])
  {
    seq(|ns|, k requires 0 <= k < |ns| => Id(ns[k]))
  }

  /**
   * The map preserveOrder builds from the new nodes (sessiontree.go:84-87):
   * each ID to the last node carrying it.
   */
  function ById(ns: seq<Node>): (m: map<string, Node>)
    ensures forall id :: id in m <==> id in Ids(ns)
    ensures Keyed(m)
    ensures forall id | id in m :: m[id] in ns
  {
    if ns == [] then map[] else ById(ns[..|ns| - 1])[Id(ns[|ns| - 1]) := ns[|ns| - 1]]
  }

  /** Every node of the map sits under its own ID. */
  ghost predicate Keyed(m: map<string, Node>)
  {
    forall id | id in m :: Id(m[id]) == id
  }

  /**
   * The first loop of preserveOrder over the old nodes: each old node whose
   * ID is still present contributes the new node of that ID, with its
   * children reconciled against the old node's children.
   */
  function Survivors(olds: seq<Node>, m: map<string, Node>): seq<Node>
    decreases olds, 0
  {
    if olds == [] then []
    else Survivors(olds[..|olds| - 1], m) + Survivor(olds[|olds| - 1], m)
  }

  /** What one old node contributes to the first loop. */
  function Survivor(o: Node, m: map<string, Node>): seq<Node>
    decreases o, 2
  {
    if Id(o) in m then [m[Id(o)].(children := Reconciled(o.children, m[Id(o)].children))] else []
  }

  /** The IDs the first loop marks as seen: those of the old nodes still present. */
  function Seen(olds: seq<Node>, m: map<string, Node>): (r: set<string>)
    ensures forall id :: id in r <==> id in Ids(olds) && id in m
  {
    if olds == [] then {}
    else Seen(olds[..|olds| - 1], m) + (if Id(olds[|olds| - 1]) in m then {Id(olds[|olds| - 1])} else {})
  }

  /** The second loop: the new nodes whose ID was not seen, in their order. */
  function Fresh(news: seq<Node>, seen: set<string>): (r: seq<Node>)
    ensures |r| <= |news|
  {
    if news == [] then []
    else Fresh(news[..|news| - 1], seen) + (if Id(news[|news| - 1]) !in seen then [news[|news| - 1]] else [])
  }

  /**
   * preserveOrder and preserveChildOrder (sessiontree.go:82-147): the old
   * order for what survives, at every depth, then what is new.
   */
  function Reconciled(olds: seq<Node>, news: seq<Node>): seq<Node>
    decreases olds, 1
  {
    Survivors(olds, ById(news)) + Fresh(news, Seen(olds, ById(news)))
  }

  /** The IDs of `ids` that lie in `keep`, in order. */
  function Select(ids: seq<string>, keep: set<string>): (r: seq<string>)
    ensures forall x :: x in r <==> x in ids && x in keep
  {
    if ids == [] then []
    else Select(ids[..|ids| - 1], keep) + (if ids[|ids| - 1] in keep then [ids[|ids| - 1]] else [])
  }

  /** The IDs of `ids` that lie outside `drop`, in order. */
  function Omit(ids: seq<string>, drop: set<string>): (r: seq<string>)
    ensures forall x :: x in r <==> x in ids && x !in drop
  {
    if ids == [] then []
    else Omit(ids[..|ids| - 1], drop) + (if ids[|ids| - 1] !in drop then [ids[|ids| - 1]] else [])
  }

  /** The elements of a list of IDs. */
  function SetOf(ids: seq<string>): (r: set<string>)
    ensures forall x :: x in r <==> x in ids
  {
    set x | x in ids
  }

  lemma IdsAppend(a: seq<Node>, b: seq<Node>)
    ensures Ids(a + b) == Ids(a) + Ids(b)
  {
  }

  lemma {:induction false} SurvivorIds(olds: seq<Node>, m: map<string, Node>)
    requires Keyed(m)
    ensures Ids(Survivors(olds, m)) == Select(Ids(olds), m.Keys)
  {
    if olds != [] {
      var init := olds[..|olds| - 1];
      SurvivorIds(init, m);
      assert Ids(olds)[..|olds| - 1] == Ids(init);
      IdsAppend(Survivors(init, m), Survivor(olds[|olds| - 1], m));
    }
  }

  lemma {:induction false} FreshIds(news: seq<Node>, seen: set<string>)
    ensures Ids(Fresh(news, seen)) == Omit(Ids(news), seen)
  {
    if news != [] {
      var init, last := news[..|news| - 1], news[|news| - 1];
      FreshIds(init, seen);
      assert Ids(news)[..|news| - 1] == Ids(init);
      if Id(last) !in seen {
        calc {
          Ids(Fresh(news, seen));
          Ids(Fresh(init, seen) + [last]);
          { IdsAppend(Fresh(init, seen), [last]); }
          Omit(Ids(init), seen) + [Id(last)];
          Omit(Ids(news), seen);
        }
      } else {
        assert Fresh(news, seen) == Fresh(init, seen) + [];
      }
    }
  }

  /** Omitting two sets that agree on the list omits the same IDs. */
  lemma {:induction false} OmitAgreeing(ids: seq<string>, s: set<string>, t: set<string>)
    requires forall x :: x in ids ==> (x in s <==> x in t)
    ensures Omit(ids, s) == Omit(ids, t)
  {
    if ids != [] {
      OmitAgreeing(ids[..|ids| - 1], s, t);
    }
  }

  /**
   * The order preserveOrder produces (sessiontree.go:82-111): the IDs of the
   * old list that are still present, in their old order, then the IDs that
   * are new, in their new order; IDs only in the old list are gone.
   */
  lemma ReconciledIds(olds: seq<Node>, news: seq<Node>)
    ensures Ids(Reconciled(olds, news)) == Select(Ids(olds), SetOf(Ids(news))) + Omit(Ids(news), SetOf(Ids(olds)))
  {
    var m := ById(news);
    assert m.Keys == SetOf(Ids(news));
    SurvivorIds(olds, m);
    FreshIds(news, Seen(olds, m));
    OmitAgreeing(Ids(news), Seen(olds, m), SetOf(Ids(olds)));
    IdsAppend(Survivors(olds, m), Fresh(news, Seen(olds, m)));
  }

  lemma {:induction false} SelectDistinct(ids: seq<string>, keep: set<string>)
    requires Distinct(ids)
    ensures Distinct(Select(ids, keep))
  {
    if ids != [] {
      DistinctInit(ids);
      SelectDistinct(ids[..|ids| - 1], keep);
      DistinctConcat(Select(ids[..|ids| - 1], keep), if ids[|ids| - 1] in keep then [ids[|ids| - 1]] else []);
    }
  }

  lemma {:induction false} OmitDistinct(ids: seq<string>, drop: set<string>)
    requires Distinct(ids)
    ensures Distinct(Omit(ids, drop))
  {
    if ids != [] {
      DistinctInit(ids);
      OmitDistinct(ids[..|ids| - 1], drop);
      DistinctConcat(Omit(ids[..|ids| - 1], drop), if ids[|ids| - 1] !in drop then [ids[|ids| - 1]] else []);
    }
  }

  /**
   * With unique IDs on both sides, preserveOrder returns each new ID exactly
   * once: its result is a permutation of the new nodes' IDs.
   */
  lemma ReconciledPermutation(olds: seq<Node>, news: seq<Node>)
    requires Distinct(Ids(olds)) && Distinct(Ids(news))
    ensures Distinct(Ids(Reconciled(olds, news)))
    ensures multiset(Ids(Reconciled(olds, news))) == multiset(Ids(news))
  {
    var kept := Select(Ids(olds), SetOf(Ids(news)));
    var added := Omit(Ids(news), SetOf(Ids(olds)));
    ReconciledIds(olds, news);
    SelectDistinct(Ids(olds), SetOf(Ids(news)));
    OmitDistinct(Ids(news), SetOf(Ids(olds)));
    DistinctConcat(kept, added);
    DistinctSameMembers(kept + added, Ids(news));
  }

  lemma {:induction false} FreshUnseen(news: seq<Node>, seen: set<string>)
    requires forall k :: 0 <= k < |news| ==> Id(news[k]) !in seen
    ensures Fresh(news, seen) == news
  {
    if news != [] {
      var init, last := news[..|news| - 1], news[|news| - 1];
      FreshUnseen(init, seen);
      assert Id(last) !in seen;
      assert Fresh(news, seen) == init + [last];
      assert news == init + [last];
    }
  }

  /**
   * preserveChildOrder's shortcut for an empty old list (sessiontree.go:115-117)
   * returns what its loops would: the new list unchanged.
   */
  lemma ReconciledFromNothing(news: seq<Node>)
    ensures Reconciled([], news) == news
  {
    FreshUnseen(news, {});
  }

  /** The loop that builds newNodeMap / newChildMap (sessiontree.go:84-87, 120-123). */
  method IndexById(news: seq<Node>) returns (m: map<string, Node>)
    ensures m == ById(news)
  {
    m := map[];
    for i := 0 to |news|
      invariant m == ById(news[..i])
    {
      assert news[..i + 1][..i] == news[..i];
      m := m[Id(news[i]) := news[i]];
    }
    assert news[..|news|] == news;
  }

  /**
   * preserveChildOrder (sessiontree.go:114-147): an empty old list returns
   * the new list as it is; otherwise the surviving children in their old
   * order, each with its own children reconciled in turn, then the new ones.
   */
  method PreserveChildOrder(olds: seq<Node>, news: seq<Node>) returns (result: seq<Node>)
    ensures result == Reconciled(olds, news)
    decreases olds
  {
    if |olds| == 0 {
      ReconciledFromNothing(news);
      return news;
    }
    result := Reorder(olds, news);
  }

  /**
   * The two loops shared by preserveOrder (sessiontree.go:89-110) and
   * preserveChildOrder (sessiontree.go:125-146).
   */
  method Reorder(olds: seq<Node>, news: seq<Node>) returns (result: seq<Node>)
    ensures result == Reconciled(olds, news)
    decreases olds, 2
  {
    var m := IndexById(news);
    var seen;
    result, seen := KeepSurvivors(olds, m);
    result := AppendFresh(result, news, seen);
  }

  /** The first loop: the surviving nodes in their old order, and the IDs seen. */
  method KeepSurvivors(olds: seq<Node>, m: map<string, Node>) returns (result: seq<Node>, seen: set<string>)
    ensures result == Survivors(olds, m) && seen == Seen(olds, m)
    decreases olds, 1
  {
    result := [];
    seen := {};
    for k := 0 to |olds|
      invariant result == Survivors(olds[..k], m) && seen == Seen(olds[..k], m)
    {
      var o := olds[k];
      SurvivorsStep(olds, k, m);
      if Id(o) in m {
        var newNode := m[Id(o)];
        var children := PreserveChildOrder(o.children, newNode.children);
        result := result + [newNode.(children := children)];
        seen := seen + {Id(o)};
      }
    }
    assert olds[..|olds|] == olds;
  }

  /** The second loop: append the new nodes whose ID was not seen. */
  method AppendFresh(survivors: seq<Node>, news: seq<Node>, seen: set<string>) returns (result: seq<Node>)
    ensures result == survivors + Fresh(news, seen)
  {
    result := survivors;
    for i := 0 to |news|
      invariant result == survivors + Fresh(news[..i], seen)
    {
      var n := news[i];
      FreshStep(news, i, seen);
      Regroup(survivors, Fresh(news[..i], seen), if Id(n) !in seen then [n] else []);
      if Id(n) !in seen {
        result := result + [n];
      }
    }
    assert news[..|news|] == news;
  }

  lemma SurvivorsStep(olds: seq<Node>, k: nat, m: map<string, Node>)
    requires k < |olds|
    ensures Survivors(olds[..k + 1], m) == Survivors(olds[..k], m) + Survivor(olds[k], m)
    ensures Seen(olds[..k + 1], m) == Seen(olds[..k], m) + (if Id(olds[k]) in m then {Id(olds[k])} else {})
  {
    assert olds[..k + 1][..k] == olds[..k];
  }

  lemma FreshStep(news: seq<Node>, i: nat, seen: set<string>)
    requires i < |news|
    ensures Fresh(news[..i + 1], seen) == Fresh(news[..i], seen) + (if Id(news[i]) !in seen then [news[i]] else [])
  {
    assert news[..i + 1][..i] == news[..i];
  }

  /** TreeItem: one display row of the flattened tree. */
  datatype TreeItem = TreeItem(session: Session, depth: int, hasChild: bool, isLast: bool)

  /**
   * The rows flattenTree (sessiontree.go:150-171) emits for the nodes from
   * index `i` on: each node's own row, then, when it is expanded and has
   * children, the rows of its children one level deeper.
   */
  function Entries(ns: seq<Node>, i: nat, depth: int): seq<TreeItem>
    requires i <= |ns|
    decreases ns, |ns| - i, 1
  {
    if i == |ns| then [] else Emitted(ns, i, depth) + Entries(ns, i + 1, depth)
  }

  /**
   * The rows of one node and its subtree: the node's row, then the rows of
   * its children when it is expanded and has some.
   */
  function Emitted(ns: seq<Node>, i: nat, depth: int): seq<TreeItem>
    requires i < |ns|
    decreases ns, 0
  {
    [TreeItem(ns[i].session, depth, |ns[i].children| > 0, i == |ns| - 1)] +
    (if ns[i].expanded && |ns[i].children| > 0 then Flattened(ns[i].children, depth + 1) else [])
  }

  /** All the rows of a list of nodes at the given depth. */
  function Flattened(ns: seq<Node>, depth: int): seq<TreeItem>
    decreases ns, |ns| + 1
  {
    Entries(ns, 0, depth)
  }

  /** The sessions of a list of rows. */
  function ItemSessions(items: seq<TreeItem>): (r: seq<Session>)
    ensures |r| == |items| && forall k :: 0 <= k < |items| ==> r[k] == items[k].session
  {
    seq(|items|, k requires 0 <= k < |items| => items[k].session)
  }

  /** Every node at every depth is expanded. */
  ghost predicate FullyExpanded(ns: seq<Node>)
    decreases ns, 1
  {
    forall k | 0 <= k < |ns| :: ExpandedTree(ns[k])
  }

  /** A node and all the nodes below it are expanded. */
  ghost predicate ExpandedTree(n: Node)
    decreases n, 0
  {
    n.expanded && FullyExpanded(n.children)
  }

  /**
   * With every node expanded, the rows list the sessions of the forest in
   * pre-order, one row per node.
   */
  lemma {:induction false} EntriesPreOrder(ns: seq<Node>, i: nat, depth: int)
    requires i <= |ns| && FullyExpanded(ns)
    ensures ItemSessions(Entries(ns, i, depth)) == Sessions.FlatForest(ns[i..])
    decreases ns, |ns| - i
  {
    if i < |ns| {
      var n := ns[i];
      assert ExpandedTree(n);
      EntriesSessionsStep(ns, i, depth);
      FlatForestStep(ns, i);
      EntriesPreOrder(n.children, 0, depth + 1);
      assert n.children[0..] == n.children;
      EntriesPreOrder(ns, i + 1, depth);
    }
  }

  /** The sessions of the rows from index `i` on: the node's own, its subtree's, then the rest. */
  lemma EntriesSessionsStep(ns: seq<Node>, i: nat, depth: int)
    requires i < |ns|
    ensures ItemSessions(Entries(ns, i, depth)) ==
      [ns[i].session] +
      ItemSessions(if ns[i].expanded && |ns[i].children| > 0 then Flattened(ns[i].children, depth + 1) else []) +
      ItemSessions(Entries(ns, i + 1, depth))
  {
    var n := ns[i];
    var row := TreeItem(n.session, depth, |n.children| > 0, i == |ns| - 1);
    var sub := if n.expanded && |n.children| > 0 then Flattened(n.children, depth + 1) else [];
    assert Entries(ns, i, depth) == [row] + sub + Entries(ns, i + 1, depth);
    ItemSessionsAppend3([row], sub, Entries(ns, i + 1, depth));
  }

  lemma FlatForestStep(ns: seq<Node>, i: nat)
    requires i < |ns|
    ensures Sessions.FlatForest(ns[i..]) == [ns[i].session] + Sessions.FlatForest(ns[i].children) + Sessions.FlatForest(ns[i + 1..])
  {
    assert ns[i..][0] == ns[i] && ns[i..][1..] == ns[i + 1..];
  }

  lemma ItemSessionsAppend3(a: seq<TreeItem>, b: seq<TreeItem>, c: seq<TreeItem>)
    ensures ItemSessions(a + b + c) == ItemSessions(a) + ItemSessions(b) + ItemSessions(c)
  {
  }

  /** flattenTree over a fully expanded forest emits exactly its nodes, in pre-order. */
  lemma FlattenedPreOrder(ns: seq<Node>, depth: int)
    requires FullyExpanded(ns)
    ensures ItemSessions(Flattened(ns, depth)) == Sessions.FlatForest(ns)
    ensures |Flattened(ns, depth)| == |Sessions.FlatForest(ns)|
  {
    EntriesPreOrder(ns, 0, depth);
    assert ns[0..] == ns;
  }

  /**
   * The rows read as a pre-order listing at depth `depth`: none is
   * shallower, the first is at that depth, and each row is at most one
   * level deeper than the one before it.
   */
  ghost predicate Layered(items: seq<TreeItem>, depth: int)
  {
    && (forall k :: 0 <= k < |items| ==> items[k].depth >= depth)
    && (|items| > 0 ==> items[0].depth == depth)
    && (forall k :: 0 <= k < |items| - 1 ==> items[k + 1].depth <= items[k].depth + 1)
  }

  /** A row marked as having children is followed by a row one level deeper. */
  ghost predicate ChildFollows(items: seq<TreeItem>)
  {
    forall k :: 0 <= k < |items| && items[k].hasChild ==> k + 1 < |items| && items[k + 1].depth == items[k].depth + 1
  }

  lemma LayeredConcat(a: seq<TreeItem>, b: seq<TreeItem>, depth: int)
    requires Layered(a, depth) && Layered(b, depth)
    ensures Layered(a + b, depth)
  {
    if a != [] && b != [] {
      assert (a + b)[|a|] == b[0] && (a + b)[|a| - 1] == a[|a| - 1];
    }
  }

  lemma LayeredNest(row: TreeItem, sub: seq<TreeItem>)
    requires Layered(sub, row.depth + 1)
    ensures Layered([row] + sub, row.depth)
  {
  }

  lemma ChildFollowsConcat(a: seq<TreeItem>, b: seq<TreeItem>)
    requires ChildFollows(a) && ChildFollows(b)
    ensures ChildFollows(a + b)
  {
    forall k | 0 <= k < |a + b| && (a + b)[k].hasChild
      ensures k + 1 < |a + b| && (a + b)[k + 1].depth == (a + b)[k].depth + 1
    {
      if k < |a| {
        assert a[k].hasChild;
      } else {
        assert (a + b)[k] == b[k - |a|] && (a + b)[k + 1] == b[k - |a| + 1];
      }
    }
  }

  lemma ChildFollowsNest(row: TreeItem, sub: seq<TreeItem>)
    requires ChildFollows(sub) && Layered(sub, row.depth + 1)
    requires row.hasChild ==> sub != []
    ensures ChildFollows([row] + sub)
  {
    forall k | 0 <= k < |[row] + sub| && ([row] + sub)[k].hasChild
      ensures k + 1 < |[row] + sub| && ([row] + sub)[k + 1].depth == ([row] + sub)[k].depth + 1
    {
      if k > 0 {
        assert ([row] + sub)[k] == sub[k - 1];
      }
    }
  }

  /**
   * flattenTree lists a pre-order: every row is at `depth` or deeper, the
   * first at `depth`, and no row is more than one level below its
   * predecessor. With every node expanded, a row with children is
   * directly followed by its first child's row.
   */
  lemma {:induction false} EntriesShape(ns: seq<Node>, i: nat, depth: int)
    requires i <= |ns|
    ensures Layered(Entries(ns, i, depth), depth)
    ensures FullyExpanded(ns) ==> ChildFollows(Entries(ns, i, depth))
    ensures i < |ns| ==> Entries(ns, i, depth) != [] && Entries(ns, i, depth)[0].session == ns[i].session
    decreases ns, |ns| - i
  {
    if i < |ns| {
      var n := ns[i];
      var row := TreeItem(n.session, depth, |n.children| > 0, i == |ns| - 1);
      var sub := if n.expanded && |n.children| > 0 then Flattened(n.children, depth + 1) else [];
      EntriesShape(n.children, 0, depth + 1);
      EntriesShape(ns, i + 1, depth);
      assert Entries(ns, i, depth) == [row] + sub + Entries(ns, i + 1, depth);
      LayeredNest(row, sub);
      LayeredConcat([row] + sub, Entries(ns, i + 1, depth), depth);
      if FullyExpanded(ns) {
        assert ExpandedTree(n);
        ChildFollowsNest(row, sub);
        ChildFollowsConcat([row] + sub, Entries(ns, i + 1, depth));
      }
    }
  }

  /** The rows at exactly depth `d`, in order. */
  function AtDepth(items: seq<TreeItem>, d: int): seq<TreeItem>
  {
    if items == [] then []
    else (if items[0].depth == d then [items[0]] else []) + AtDepth(items[1..], d)
  }

  lemma {:induction false} AtDepthConcat(a: seq<TreeItem>, b: seq<TreeItem>, d: int)
    ensures AtDepth(a + b, d) == AtDepth(a, d) + AtDepth(b, d)
  {
    if a == [] {
      assert a + b == b;
    } else {
      var head := if a[0].depth == d then [a[0]] else [];
      AtDepthConcat(a[1..], b, d);
      calc {
        AtDepth(a + b, d);
        { assert (a + b)[0] == a[0] && (a + b)[1..] == a[1..] + b; }
        head + AtDepth(a[1..] + b, d);
        head + (AtDepth(a[1..], d) + AtDepth(b, d));
        { Regroup(head, AtDepth(a[1..], d), AtDepth(b, d)); }
        AtDepth(a, d) + AtDepth(b, d);
      }
    }
  }

  lemma {:induction false} AtDepthNone(items: seq<TreeItem>, d: int)
    requires forall k :: 0 <= k < |items| ==> items[k].depth > d
    ensures AtDepth(items, d) == []
  {
    if items != [] {
      AtDepthNone(items[1..], d);
    }
  }

  /** The rows a list of nodes from index `i` on gets at its own depth. */
  function SiblingRows(ns: seq<Node>, i: nat, depth: int): (r: seq<TreeItem>)
    requires i <= |ns|
    ensures |r| == |ns| - i
    ensures forall k :: 0 <= k < |r| ==> r[k] == TreeItem(ns[i + k].session, depth, |ns[i + k].children| > 0, i + k == |ns| - 1)
  {
    seq(|ns| - i, k requires 0 <= k < |ns| - i => TreeItem(ns[i + k].session, depth, |ns[i + k].children| > 0, i + k == |ns| - 1))
  }

  /**
   * The rows at the top depth of flattenTree's output are the given nodes,
   * one each, in order: a row has children exactly when its node does, and
   * is marked last exactly when its node is the last of the list.
   */
  lemma {:induction false} EntriesTopRows(ns: seq<Node>, i: nat, depth: int)
    requires i <= |ns|
    ensures AtDepth(Entries(ns, i, depth), depth) == SiblingRows(ns, i, depth)
    decreases |ns| - i
  {
    if i < |ns| {
      var n := ns[i];
      var row := TreeItem(n.session, depth, |n.children| > 0, i == |ns| - 1);
      var sub := if n.expanded && |n.children| > 0 then Flattened(n.children, depth + 1) else [];
      var rest := Entries(ns, i + 1, depth);
      assert Entries(ns, i, depth) == [row] + sub + rest;
      calc {
        AtDepth(Entries(ns, i, depth), depth);
        { AtDepthConcat([row] + sub, rest, depth); }
        AtDepth([row] + sub, depth) + AtDepth(rest, depth);
        { EntriesShape(n.children, 0, depth + 1); AtDepthNone(sub, depth); AtDepthConcat([row], sub, depth); AtDepthSingle(row); }
        [row] + AtDepth(rest, depth);
        { EntriesTopRows(ns, i + 1, depth); SiblingRowsStep(ns, i, depth); }
        SiblingRows(ns, i, depth);
      }
    }
  }

  lemma AtDepthSingle(row: TreeItem)
    ensures AtDepth([row], row.depth) == [row]
  {
    assert [row][1..] == [];
  }

  lemma SiblingRowsStep(ns: seq<Node>, i: nat, depth: int)
    requires i < |ns|
    ensures SiblingRows(ns, i, depth) == [TreeItem(ns[i].session, depth, |ns[i].children| > 0, i == |ns| - 1)] + SiblingRows(ns, i + 1, depth)
  {
  }

  lemma FlattenedTopRows(ns: seq<Node>, depth: int)
    ensures AtDepth(Flattened(ns, depth), depth) == SiblingRows(ns, 0, depth)
  {
    EntriesTopRows(ns, 0, depth);
  }

  /**
   * flattenTree (sessiontree.go:150-171): the row of each node, followed,
   * when the node is expanded and has children, by the rows of its
   * children one level deeper.
   */
  method FlattenTree(ns: seq<Node>, depth: int) returns (items: seq<TreeItem>)
    ensures items == Flattened(ns, depth)
    decreases ns, 1
  {
    items := [];
    for i := 0 to |ns|
      invariant items + Entries(ns, i, depth) == Flattened(ns, depth)
    {
      var rows := EmitNode(ns, i, depth);
      Regroup(items, rows, Entries(ns, i + 1, depth));
      items := items + rows;
    }
  }

  /** One iteration of flattenTree's loop: the node's row, then its children's rows. */
  method EmitNode(ns: seq<Node>, i: nat, depth: int) returns (rows: seq<TreeItem>)
    requires i < |ns|
    ensures rows == Emitted(ns, i, depth)
    decreases ns, 0
  {
    var node := ns[i];
    var isLast := i == |ns| - 1;
    var hasChild := |node.children| > 0;
    rows := [TreeItem(node.session, depth, hasChild, isLast)];
    if node.expanded && hasChild {
      var childItems := FlattenTree(node.children, depth + 1);
      rows := rows + childItems;
    }
  }

  /** A tree as buildNode makes it is expanded throughout. */
  lemma {:induction false} ShapedExpanded(sessions: map<string, Session>, patterns: seq<string>, n: Node, d: nat)
    requires Sessions.Shaped(sessions, patterns, n, d)
    ensures ExpandedTree(n)
    decreases n
  {
    forall k | 0 <= k < |n.children| ensures ExpandedTree(n.children[k]) {
      ShapedExpanded(sessions, patterns, n.children[k], d + 1);
    }
  }

  /** Every node of the forest GetSessionTree returns is expanded. */
  lemma ForestExpanded(sessions: map<string, Session>, patterns: seq<string>, roots: seq<Node>)
    requires Sessions.Forest(sessions, patterns, roots)
    ensures FullyExpanded(roots)
  {
    forall k | 0 <= k < |roots| ensures ExpandedTree(roots[k]) {
      ShapedExpanded(sessions, patterns, roots[k], 0);
    }
  }

  /** Every node stored in the map is expanded throughout. */
  ghost predicate ExpandedValues(m: map<string, Node>)
  {
    forall id | id in m :: ExpandedTree(m[id])
  }

  lemma ExpandedConcat(a: seq<Node>, b: seq<Node>)
    requires FullyExpanded(a) && FullyExpanded(b)
    ensures FullyExpanded(a + b)
  {
    forall k | 0 <= k < |a + b| ensures ExpandedTree((a + b)[k]) {
      if k >= |a| {
        assert (a + b)[k] == b[k - |a|];
      }
    }
  }

  lemma {:induction false} SurvivorsExpanded(olds: seq<Node>, m: map<string, Node>)
    requires ExpandedValues(m)
    ensures FullyExpanded(Survivors(olds, m))
    decreases olds, 0
  {
    if olds != [] {
      SurvivorsExpanded(olds[..|olds| - 1], m);
      SurvivorExpanded(olds[|olds| - 1], m);
      ExpandedConcat(Survivors(olds[..|olds| - 1], m), Survivor(olds[|olds| - 1], m));
    }
  }

  lemma {:induction false} SurvivorExpanded(o: Node, m: map<string, Node>)
    requires ExpandedValues(m)
    ensures FullyExpanded(Survivor(o, m))
    decreases o, 2
  {
    if Id(o) in m {
      assert ExpandedTree(m[Id(o)]);
      ReconciledExpanded(o.children, m[Id(o)].children);
    }
  }

  /**
   * Reconciling against expanded new nodes yields expanded nodes: every
   * node of the result is a new node, or a new node whose children were
   * reconciled in turn.
   */
  lemma {:induction false} ReconciledExpanded(olds: seq<Node>, news: seq<Node>)
    requires FullyExpanded(news)
    ensures FullyExpanded(Reconciled(olds, news))
    decreases olds, 1
  {
    var m := ById(news);
    assert ExpandedValues(m);
    SurvivorsExpanded(olds, m);
    var added := Fresh(news, Seen(olds, m));
    FreshExpanded(news, Seen(olds, m));
    ExpandedConcat(Survivors(olds, m), added);
  }

  lemma {:induction false} FreshExpanded(news: seq<Node>, seen: set<string>)
    requires FullyExpanded(news)
    ensures FullyExpanded(Fresh(news, seen))
  {
    if news != [] {
      var init, last := news[..|news| - 1], news[|news| - 1];
      assert FullyExpanded(init) by {
        forall k | 0 <= k < |init| ensures ExpandedTree(init[k]) {
          assert init[k] == news[k];
        }
      }
      FreshExpanded(init, seen);
      assert ExpandedTree(last);
      ExpandedConcat(Fresh(init, seen), if Id(last) !in seen then [last] else []);
    }
  }

  /**
   * The row MoveToChild's loop (sessiontree.go:370-379) stops at for the
   * row `s`: the first later row one level deeper, reached before any row
   * at or above the depth of `s`.
   */
  ghost predicate ChildAt(items: seq<TreeItem>, s: int, j: int)
    requires 0 <= s < |items|
  {
    s < j < |items| && items[j].depth == items[s].depth + 1 &&
    forall i :: s < i < j ==> items[i].depth > items[s].depth + 1
  }

  /**
   * The row MoveToParent's loop (sessiontree.go:402-408) stops at for the
   * row `s`: the nearest earlier row one level up.
   */
  ghost predicate ParentAt(items: seq<TreeItem>, s: int, j: int)
    requires 0 <= s < |items|
  {
    0 <= j < s && items[j].depth == items[s].depth - 1 &&
    forall i :: j < i < s ==> items[i].depth != items[s].depth - 1
  }

  /** In a pre-order listing the child row MoveToChild finds can only be the next row. */
  lemma ChildRowIsNext(items: seq<TreeItem>, s: int, j: int)
    requires Layered(items, 0) && 0 <= s < |items| && ChildAt(items, s, j)
    ensures j == s + 1
  {
    assert items[s + 1].depth <= items[s].depth + 1;
  }

  /** With every node expanded, a row with children has its first child on the next row. */
  lemma ChildRowFound(items: seq<TreeItem>, s: int)
    requires ChildFollows(items) && 0 <= s < |items| && items[s].hasChild
    ensures ChildAt(items, s, s + 1)
  {
  }

  /**
   * In a pre-order listing every row below the top level has a parent row
   * above it, so MoveToParent fails on a selected row only at depth 0.
   */
  lemma ParentRowFound(items: seq<TreeItem>, s: int) returns (j: int)
    requires Layered(items, 0) && 0 <= s < |items| && items[s].depth > 0
    ensures ParentAt(items, s, j)
  {
    j := ParentRowFrom(items, s, s - 1);
  }

  /** The search for the parent row, from row `k` back, when the rows after `k` up to `s` lie deeper. */
  lemma {:induction false} ParentRowFrom(items: seq<TreeItem>, s: int, k: int) returns (j: int)
    requires Layered(items, 0) && 0 <= k < s < |items| && items[s].depth > 0
    requires items[k + 1].depth > items[s].depth - 1
    requires forall i :: k < i < s ==> items[i].depth != items[s].depth - 1
    ensures ParentAt(items, s, j)
    decreases k
  {
    assert items[k].depth >= items[k + 1].depth - 1;
    if items[k].depth == items[s].depth - 1 {
      j := k;
    } else {
      assert k > 0;
      j := ParentRowFrom(items, s, k - 1);
    }
  }

  /** The row's session ID at `sel`, or "" when `sel` is out of range. */
  function SelectedId(items: seq<TreeItem>, sel: int): (id: string)
    ensures 0 <= sel < |items| ==> id == items[sel].session.id
  {
    if 0 <= sel < |items| then items[sel].session.id else ""
  }

  /** The session IDs of the rows, in order. */
  function RowIds(items: seq<TreeItem>): (r: seq<string>)
    ensures |r| == |items| && forall k :: 0 <= k < |items| ==> r[k] == items[k].session.id
  {
    seq(|items|, k requires 0 <= k < |items| => items[k].session.id)
  }

  /** `i` is the first row of the session `id`. */
  ghost predicate FirstRowOf(items: seq<TreeItem>, id: string, i: int)
  {
    0 <= i < |items| && items[i].session.id == id && forall j :: 0 <= j < i ==> items[j].session.id != id
  }

  /**
   * The name renderItem shows for a session (sessiontree.go:272-279): a
   * subagent's ID is cut at '/' and only the last part is shown.
   */
  function DisplayName(s: Session): (name: string)
    ensures !s.isSubagent ==> name == s.id
  {
    var parts := Split(s.id, '/');
    if s.isSubagent && |parts| > 1 then parts[|parts| - 1] else s.id
  }

  /** A subagent named `session/agent`, as the watcher names them, is shown as `agent`. */
  lemma SubagentDisplayName(s: Session, session: string, agent: string)
    requires s.isSubagent && s.id == session + "/" + agent
    requires '/' !in session && '/' !in agent
    ensures DisplayName(s) == agent
  {
    SplitPrefix(session, agent, '/');
    SplitWithoutSeparator(agent, '/');
  }

  /** A subagent ID without '/' is shown whole. */
  lemma PlainSubagentDisplayName(s: Session)
    requires '/' !in s.id
    ensures DisplayName(s) == s.id
  {
    SplitWithoutSeparator(s.id, '/');
  }

  /**
   * SessionTree (sessiontree.go:22-31): the current forest, its rows, the
   * selected row, the scroll offset, the size and the focus flag. The
   * highlight set only styles rows and is not modelled.
   */
  class SessionTree {
    var items: seq<TreeItem>
    var nodes: seq<Node>
    var selected: int
    var width: int
    var height: int
    var focused: bool
    var offset: int

    /**
     * The rows are the flattened forest; the selection and the offset are
     * never negative, and the selection is a row whenever there are rows.
     */
    ghost predicate Valid()
      reads this
    {
      items == Flattened(nodes, 0) && 0 <= selected && 0 <= offset && (|items| > 0 ==> selected < |items|)
    }

    /** NewSessionTree (sessiontree.go:34-39): empty and focused. */
    constructor()
      ensures Valid() && focused
      ensures nodes == [] && items == [] && selected == 0 && offset == 0 && width == 0 && height == 0
    {
      items := [];
      nodes := [];
      selected := 0;
      width := 0;
      height := 0;
      focused := true;
      offset := 0;
    }

    /** SetSize (sessiontree.go:42-45). */
    method SetSize(w: int, h: int)
      modifies this`width, this`height
      ensures width == w && height == h
    {
      width := w;
      height := h;
    }

    /** SetFocused (sessiontree.go:174-176). */
    method SetFocused(f: bool)
      modifies this`focused
      ensures focused == f
    {
      focused := f;
    }

    /** preserveOrder (sessiontree.go:82-111): the new nodes in the order of the current ones. */
    method PreserveOrder(newNodes: seq<Node>) returns (result: seq<Node>)
      ensures result == Reconciled(nodes, newNodes)
    {
      result := Reorder(nodes, newNodes);
    }

    /**
     * SetSessionTree (sessiontree.go:48-78): reconcile with the current
     * order when there is a current forest, flatten, and keep the selected
     * session selected when it is still listed; otherwise pull an
     * out-of-range selection back to the last row.
     */
    method SetSessionTree(newNodes: seq<Node>)
      requires Valid()
      modifies this`nodes, this`items, this`selected
      ensures Valid()
      ensures nodes == if |old(nodes)| > 0 then Reconciled(old(nodes), newNodes) else newNodes
      ensures var id := SelectedId(old(items), old(selected));
        if id != "" && id in RowIds(items) then FirstRowOf(items, id, selected)
        else selected == if old(selected) >= |items| && |items| > 0 then |items| - 1 else old(selected)
    {
      var selectedId := "";
      if 0 <= selected < |items| {
        selectedId := items[selected].session.id;
      }
      var ns := newNodes;
      if |nodes| > 0 {
        ns := PreserveOrder(ns);
      }
      nodes := ns;
      items := FlattenTree(ns, 0);
      if selectedId != "" {
        var i := 0;
        while i < |items|
          invariant 0 <= i <= |items| && items == Flattened(nodes, 0) && nodes == ns && selected == old(selected)
          invariant forall j :: 0 <= j < i ==> items[j].session.id != selectedId
        {
          if items[i].session.id == selectedId {
            selected := i;
            return;
          }
          i := i + 1;
        }
        assert selectedId !in RowIds(items);
      }
      if selected >= |items| && |items| > 0 {
        selected := |items| - 1;
      }
    }

    /** SelectedSession (sessiontree.go:184-190): the session of the selected row, if any. */
    method SelectedSession() returns (r: Option<Session>)
      requires Valid()
      ensures r.Some? <==> |items| > 0
      ensures r.Some? ==> r.value == items[selected].session
    {
      if |items| == 0 || selected < 0 || selected >= |items| {
        return None;
      }
      return Some(items[selected].session);
    }

    /** MoveUp (sessiontree.go:345-349): one row up unless at the top. */
    method MoveUp()
      requires Valid()
      modifies this`selected
      ensures Valid()
      ensures old(selected) > 0 ==> selected == old(selected) - 1
      ensures old(selected) == 0 ==> selected == 0
    {
      if selected > 0 {
        selected := selected - 1;
      }
    }

    /** MoveDown (sessiontree.go:352-356): one row down unless at the last row. */
    method MoveDown()
      requires Valid()
      modifies this`selected
      ensures Valid()
      ensures old(selected) < |items| - 1 ==> selected == old(selected) + 1
      ensures old(selected) >= |items| - 1 ==> selected == old(selected)
    {
      if selected < |items| - 1 {
        selected := selected + 1;
      }
    }

    /**
     * MoveToChild (sessiontree.go:359-382): from a selected row with
     * children, to the first row one level deeper before the subtree ends.
     */
    method MoveToChild() returns (moved: bool)
      requires Valid()
      modifies this`selected
      ensures Valid()
      ensures moved ==> 0 <= old(selected) < |items| && items[old(selected)].hasChild && ChildAt(items, old(selected), selected)
      ensures !moved ==> selected == old(selected)
      ensures !moved && 0 <= old(selected) < |items| && items[old(selected)].hasChild ==>
        forall j :: !ChildAt(items, old(selected), j)
    {
      if selected < 0 || selected >= |items| {
        return false;
      }
      var current := items[selected];
      if !current.hasChild {
        return false;
      }
      var i := selected + 1;
      while i < |items|
        invariant selected + 1 <= i <= |items| && selected == old(selected)
        invariant forall k :: selected < k < i ==> items[k].depth > current.depth + 1
      {
        if items[i].depth == current.depth + 1 {
          selected := i;
          return true;
        }
        if items[i].depth <= current.depth {
          break;
        }
        i := i + 1;
      }
      return false;
    }

    /**
     * MoveToParent (sessiontree.go:391-411): from a selected row below the
     * top level, to the nearest earlier row one level up.
     */
    method MoveToParent() returns (moved: bool)
      requires Valid()
      modifies this`selected
      ensures Valid()
      ensures moved ==> 0 <= old(selected) < |items| && ParentAt(items, old(selected), selected)
      ensures !moved ==> selected == old(selected)
      ensures !moved && 0 <= old(selected) < |items| && items[old(selected)].depth != 0 ==>
        forall j :: !ParentAt(items, old(selected), j)
    {
      if selected < 0 || selected >= |items| {
        return false;
      }
      var current := items[selected];
      if current.depth == 0 {
        return false;
      }
      var i := selected - 1;
      while i >= 0
        invariant -1 <= i < selected && selected == old(selected)
        invariant forall k :: i < k < selected ==> items[k].depth != current.depth - 1
      {
        if items[i].depth == current.depth - 1 {
          selected := i;
          return true;
        }
        i := i - 1;
      }
      return false;
    }

    /** ResetSelection (sessiontree.go:385-388). */
    method ResetSelection()
      requires Valid()
      modifies this`selected, this`offset
      ensures Valid() && selected == 0 && offset == 0
    {
      selected := 0;
      offset := 0;
    }

    /** HasChildren (sessiontree.go:414-420): whether the selected row has children. */
    method HasChildren() returns (r: bool)
      requires Valid()
      ensures r <==> |items| > 0 && items[selected].hasChild
    {
      if selected < 0 || selected >= |items| {
        return false;
      }
      return items[selected].hasChild;
    }

    /** HasParent (sessiontree.go:423-429): whether the selected row is below the top level. */
    method HasParent() returns (r: bool)
      requires Valid()
      ensures r <==> |items| > 0 && items[selected].depth > 0
    {
      if selected < 0 || selected >= |items| {
        return false;
      }
      return items[selected].depth > 0;
    }

    /**
     * adjustScroll (sessiontree.go:243-254): scroll just enough to show the
     * selected row in a window of `visibleHeight` rows, never above row 0.
     */
    method AdjustScroll(visibleHeight: int)
      modifies this`offset
      ensures offset >= 0
      ensures old(Valid()) ==> Valid()
      ensures selected >= 0 && visibleHeight >= 1 ==> offset <= selected < offset + visibleHeight
      ensures 0 <= old(offset) <= selected < old(offset) + visibleHeight ==> offset == old(offset)
      ensures 0 <= selected < old(offset) && visibleHeight >= 1 ==> offset == selected
      ensures 0 <= old(offset) && old(offset) + visibleHeight <= selected ==> offset == selected - visibleHeight + 1
    {
      if selected < offset {
        offset := selected;
      }
      if selected >= offset + visibleHeight {
        offset := selected - visibleHeight + 1;
      }
      if offset < 0 {
        offset := 0;
      }
    }
  }
}
