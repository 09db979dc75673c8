/** bftw(): a breadth-first walk of the in-memory tree driven by a FIFO queue
    of directories still to be read, under a budget of open directory
    handles, calling the callback once per file and obeying its actions. */
module Walker {
  import opened Paths
  import opened ShortLex
  import opened Bftw

  /** A directory waiting in the queue to be read: the file, its path and
      its position in the tree. */
  datatype Pending = Pending(node: Node, path: Path, pos: Pos)

  // -----------------------------------------------------------------------
  // Sizes, for termination: reading a directory replaces it in the queue by
  // some of its children, whose sizes add up to less than its own.

  function Size(n: Node): nat
    decreases n
  {
    1 + SumSizes(n.children)
  }

  function SumSizes(s: seq<Node>): nat
    decreases s
  {
    if s == [] then 0 else SumSizes(s[..|s| - 1]) + Size(s[|s| - 1])
  }

  function QueueSize(q: seq<Pending>): nat {
    if q == [] then 0 else QueueSize(q[..|q| - 1]) + Size(q[|q| - 1].node)
  }

  lemma {:induction false} QueueSizeFront(q: seq<Pending>)
    requires q != []
    ensures QueueSize(q) == Size(q[0].node) + QueueSize(q[1..])
  {
    if |q| > 1 {
      QueueSizeFront(q[..|q| - 1]);
      assert q[..|q| - 1][1..] == q[1..][..|q| - 2];
    }
  }

  lemma {:induction false} SumSizesPrefix(s: seq<Node>, i: nat)
    requires i <= |s|
    ensures SumSizes(s[..i]) <= SumSizes(s)
    decreases |s|
  {
    if i < |s| {
      SumSizesPrefix(s[..|s| - 1], i);
      assert s[..|s| - 1][..i] == s[..i];
    } else {
      assert s[..i] == s;
    }
  }

  lemma SumSizesStep(s: seq<Node>, i: nat)
    requires i < |s|
    ensures SumSizes(s[..i + 1]) == SumSizes(s[..i]) + Size(s[i])
  {
    assert s[..i + 1][..i] == s[..i];
  }

  /** The queue-size bound across one entry of a directory: the queue
      grew by at most that entry's size, which stays within the directory's. */
  lemma EntryQueueBound(n: Node, i: nat, start: nat, before: nat, after: nat)
    requires i < |n.children|
    requires before <= start + SumSizes(n.children[..i]) && after <= before + Size(n.children[i])
    ensures after <= start + SumSizes(n.children[..i + 1]) && after < start + Size(n)
  {
    SumSizesStep(n.children, i);
    SumSizesPrefix(n.children, i + 1);
  }

  lemma QueueSizeAppend(q: seq<Pending>, p: Pending)
    ensures QueueSize(q + [p]) == QueueSize(q) + Size(p.node)
  {
    assert (q + [p])[..|q|] == q;
  }

  // -----------------------------------------------------------------------
  // The trace of callback calls

  ghost function Positions(trace: seq<Visit>): set<Pos> {
    set m | 0 <= m < |trace| :: trace[m].pos
  }

  /** Positions of the directories the walk descends into. */
  ghost function Expanded(trace: seq<Visit>): set<Pos> {
    set m | 0 <= m < |trace| && Expands(trace[m]) :: trace[m].pos
  }

  ghost function Queued(queue: seq<Pending>): set<Pos> {
    set a | 0 <= a < |queue| :: queue[a].pos
  }

  function Last(trace: seq<Visit>): Visit
    requires trace != []
  {
    trace[|trace| - 1]
  }

  /** Every call is for a file of the tree and carries its path and record. */
  ghost predicate AllDescribed(env: Env, trace: seq<Visit>) {
    forall m | 0 <= m < |trace| :: Describes(env, trace[m])
  }

  /** Calls come in breadth-first order: shallower files first, and within
      a level directory by directory in queue order, each directory's
      entries in the order it yields them. In particular no file twice. */
  ghost predicate BreadthFirst(trace: seq<Visit>) {
    forall m, n | 0 <= m < n < |trace| :: Less(trace[m].pos, trace[n].pos)
  }

  /** Each call's ancestors are directories the walk descended into. */
  ghost predicate AncestorsExpanded(trace: seq<Visit>) {
    forall m, k | 0 <= m < |trace| && 0 <= k < |trace[m].pos| :: trace[m].pos[..k] in Expanded(trace)
  }

  /** After SkipSiblings, no later call is for an entry of the same directory. */
  ghost predicate SiblingsSkipped(trace: seq<Visit>) {
    forall m, n | 0 <= m < n < |trace| && trace[m].action == SkipSiblings && trace[m].pos != [] && trace[n].pos != [] ::
      Parent(trace[n].pos) != Parent(trace[m].pos)
  }

  /** Error records are only passed when errors are to be recovered from. */
  ghost predicate ErrorsOnlyIfRecovering(env: Env, trace: seq<Visit>) {
    !Recovers(env.flags) ==> forall m | 0 <= m < |trace| :: trace[m].ftw.typeflag != Error
  }

  /** The walk descends below a file only if it is a directory the
      callback let it enter. */
  ghost predicate OnlyBelowExpanded(trace: seq<Visit>) {
    forall i, j | 0 <= i < |trace| && 0 <= j < |trace| && StrictPrefix(trace[i].pos, trace[j].pos) :: Expands(trace[i])
  }

  /** Only the last call can have asked to stop. */
  ghost predicate StopsLast(trace: seq<Visit>) {
    forall m | 0 <= m < |trace| - 1 :: trace[m].action != Stop
  }

  ghost predicate NoStop(trace: seq<Visit>) {
    forall m | 0 <= m < |trace| :: trace[m].action != Stop
  }

  /** When the walk descends into a non-empty directory, its first entry is seen. */
  ghost predicate FirstChildSeen(env: Env, v: Visit, seen: set<Pos>) {
    Expands(v) && ChildCount(env.tree, v.pos) > 0 ==> v.pos + [0] in seen
  }

  /** Unless an entry asked to skip its siblings, the next entry of the same
      directory is seen. */
  ghost predicate NextSiblingSeen(env: Env, v: Visit, seen: set<Pos>) {
    v.pos != [] && v.action != SkipSiblings && Index(v.pos) + 1 < ChildCount(env.tree, Parent(v.pos)) ==>
      Parent(v.pos) + [Index(v.pos) + 1] in seen
  }

  /** Nothing the callback did not prune was left out. */
  ghost predicate Complete(env: Env, trace: seq<Visit>) {
    forall m | 0 <= m < |trace| ::
      FirstChildSeen(env, trace[m], Positions(trace)) && NextSiblingSeen(env, trace[m], Positions(trace))
  }

  /** Every call's first-entry duty is done, or its position is `pending`. */
  ghost predicate FirstChildrenSeen(env: Env, trace: seq<Visit>, pending: set<Pos>) {
    forall m | 0 <= m < |trace| :: FirstChildSeen(env, trace[m], Positions(trace)) || trace[m].pos in pending
  }

  /** Every call's next-entry duty is done, or its position is `pending`. */
  ghost predicate NextSiblingsSeen(env: Env, trace: seq<Visit>, pending: set<Pos>) {
    forall m | 0 <= m < |trace| :: NextSiblingSeen(env, trace[m], Positions(trace)) || trace[m].pos in pending
  }

  /** What holds of the calls made so far at every point of the walk. */
  ghost predicate WalkTrace(env: Env, trace: seq<Visit>) {
    && trace != [] && trace[0].pos == []
    && AllDescribed(env, trace)
    && BreadthFirst(trace)
    && AncestorsExpanded(trace)
    && SiblingsSkipped(trace)
    && ErrorsOnlyIfRecovering(env, trace)
  }

  // The queue holds directories of the tree, in breadth-first order, that the
  // walk descended into and has not read yet.

  ghost predicate QueueEntries(env: Env, queue: seq<Pending>) {
    forall a | 0 <= a < |queue| ::
      Lookup(env.tree, queue[a].pos) == Some(queue[a].node) && queue[a].path == PathOf(env.root, env.tree, queue[a].pos)
  }

  ghost predicate QueueExpanded(trace: seq<Visit>, queue: seq<Pending>) {
    forall a, k | 0 <= a < |queue| && 0 <= k <= |queue[a].pos| :: queue[a].pos[..k] in Expanded(trace)
  }

  ghost predicate QueueSorted(queue: seq<Pending>) {
    forall a, b | 0 <= a < b < |queue| :: Less(queue[a].pos, queue[b].pos)
  }

  ghost predicate QueueUpTo(queue: seq<Pending>, p: Pos) {
    forall a | 0 <= a < |queue| :: queue[a].pos == p || Less(queue[a].pos, p)
  }

  ghost predicate QueueAfter(queue: seq<Pending>, p: Pos) {
    forall a | 0 <= a < |queue| :: Less(p, queue[a].pos)
  }

  ghost predicate WalkQueue(env: Env, trace: seq<Visit>, queue: seq<Pending>)
    requires trace != []
  {
    QueueEntries(env, queue) && QueueExpanded(trace, queue) && QueueSorted(queue) && QueueUpTo(queue, Last(trace).pos)
  }

  // Where the calls made so far stand relative to a directory p.

  ghost predicate PrefixesExpanded(trace: seq<Visit>, p: Pos) {
    forall k | 0 <= k <= |p| :: p[..k] in Expanded(trace)
  }

  ghost predicate ParentsUpTo(trace: seq<Visit>, p: Pos) {
    forall m | 0 <= m < |trace| && trace[m].pos != [] :: Parent(trace[m].pos) == p || Less(Parent(trace[m].pos), p)
  }

  ghost predicate SkipsBefore(trace: seq<Visit>, p: Pos) {
    forall m | 0 <= m < |trace| && trace[m].pos != [] && trace[m].action == SkipSiblings :: Less(Parent(trace[m].pos), p)
  }

  /** Between two directory reads: `cur` is the last directory read, if any. */
  ghost predicate Between(env: Env, trace: seq<Visit>, queue: seq<Pending>, cur: Pos, started: bool) {
    && WalkTrace(env, trace)
    && WalkQueue(env, trace, queue)
    && NoStop(trace)
    && (started ==> QueueAfter(queue, cur) && ParentsUpTo(trace, cur))
    && (!started ==> |trace| == 1)
    && FirstChildrenSeen(env, trace, Queued(queue))
    && NextSiblingsSeen(env, trace, {})
  }

  /** While reading directory `dir`, before its entry number i. */
  ghost predicate Reading(env: Env, trace: seq<Visit>, queue: seq<Pending>, dir: Pending, i: nat) {
    && WalkTrace(env, trace)
    && WalkQueue(env, trace, queue)
    && NoStop(trace)
    && Lookup(env.tree, dir.pos) == Some(dir.node)
    && dir.path == PathOf(env.root, env.tree, dir.pos)
    && i <= |dir.node.children|
    && PrefixesExpanded(trace, dir.pos)
    && QueueAfter(queue, dir.pos)
    && ParentsUpTo(trace, dir.pos)
    && SkipsBefore(trace, dir.pos)
    && (i > 0 ==> Last(trace).pos == dir.pos + [i - 1])
    && (i == 0 ==> Last(trace).pos == [] || Less(Parent(Last(trace).pos), dir.pos))
    && FirstChildrenSeen(env, trace, Queued(queue) + (if i == 0 then {dir.pos} else {}))
    && NextSiblingsSeen(env, trace, if i > 0 then {dir.pos + [i - 1]} else {})
  }

  // -----------------------------------------------------------------------
  // How the sets grow when a call is appended

  lemma PositionsAppend(trace: seq<Visit>, v: Visit)
    ensures Positions(trace + [v]) == Positions(trace) + {v.pos}
  {
    var t := trace + [v];
    forall p | p in Positions(t) ensures p in Positions(trace) + {v.pos} {
      var m :| 0 <= m < |t| && t[m].pos == p;
      if m < |trace| { assert trace[m] == t[m]; }
    }
    forall p | p in Positions(trace) ensures p in Positions(t) {
      var m :| 0 <= m < |trace| && trace[m].pos == p;
      assert t[m] == trace[m];
    }
    assert t[|trace|] == v;
  }

  lemma ExpandedAppend(trace: seq<Visit>, v: Visit)
    ensures Expanded(trace + [v]) == Expanded(trace) + (if Expands(v) then {v.pos} else {})
  {
    var t := trace + [v];
    forall p | p in Expanded(t) ensures p in Expanded(trace) + (if Expands(v) then {v.pos} else {}) {
      var m :| 0 <= m < |t| && Expands(t[m]) && t[m].pos == p;
      if m < |trace| { assert trace[m] == t[m]; }
    }
    forall p | p in Expanded(trace) ensures p in Expanded(t) {
      var m :| 0 <= m < |trace| && Expands(trace[m]) && trace[m].pos == p;
      assert t[m] == trace[m];
    }
    assert t[|trace|] == v;
  }

  lemma QueuedAppend(queue: seq<Pending>, p: Pending)
    ensures Queued(queue + [p]) == Queued(queue) + {p.pos}
  {
    var q := queue + [p];
    forall x | x in Queued(q) ensures x in Queued(queue) + {p.pos} {
      var a :| 0 <= a < |q| && q[a].pos == x;
      if a < |queue| { assert queue[a] == q[a]; }
    }
    forall x | x in Queued(queue) ensures x in Queued(q) {
      var a :| 0 <= a < |queue| && queue[a].pos == x;
      assert q[a] == queue[a];
    }
    assert q[|queue|] == p;
  }

  lemma QueuedFront(queue: seq<Pending>)
    requires queue != [] && QueueSorted(queue)
    ensures Queued(queue) == Queued(queue[1..]) + {queue[0].pos}
    ensures queue[0].pos !in Queued(queue[1..])
  {
    var q := queue[1..];
    forall x | x in Queued(queue) ensures x in Queued(q) + {queue[0].pos} {
      var a :| 0 <= a < |queue| && queue[a].pos == x;
      if a > 0 { assert q[a - 1] == queue[a]; }
    }
    forall x | x in Queued(q) ensures x in Queued(queue) {
      var a :| 0 <= a < |q| && q[a].pos == x;
      assert queue[a + 1] == q[a];
    }
    LessIrreflexive(queue[0].pos);
    forall a | 0 <= a < |q| ensures q[a].pos != queue[0].pos {
      assert Less(queue[0].pos, queue[a + 1].pos);
    }
  }

  // -----------------------------------------------------------------------
  // Appending one call keeps each property of the trace

  lemma AppendBreadthFirst(trace: seq<Visit>, v: Visit)
    requires trace != [] && BreadthFirst(trace) && Less(Last(trace).pos, v.pos)
    ensures BreadthFirst(trace + [v])
  {
    var t := trace + [v];
    forall m, n | 0 <= m < n < |t| ensures Less(t[m].pos, t[n].pos) {
      if n == |trace| && m < |trace| - 1 {
        assert t[m] == trace[m] && Last(trace) == trace[|trace| - 1];
        LessTransitive(t[m].pos, Last(trace).pos, v.pos);
      } else if n < |trace| {
        assert t[m] == trace[m] && t[n] == trace[n];
      }
    }
  }

  lemma AppendAncestors(trace: seq<Visit>, v: Visit, dir: Pos)
    requires AncestorsExpanded(trace) && PrefixesExpanded(trace, dir)
    requires v.pos != [] && Parent(v.pos) == dir
    ensures AncestorsExpanded(trace + [v]) && PrefixesExpanded(trace + [v], dir)
    ensures Expanded(trace) <= Expanded(trace + [v])
  {
    var t := trace + [v];
    ExpandedAppend(trace, v);
    forall m, k | 0 <= m < |t| && 0 <= k < |t[m].pos| ensures t[m].pos[..k] in Expanded(t) {
      if m == |trace| {
        assert t[m].pos[..k] == dir[..k];
      } else {
        assert t[m] == trace[m];
      }
    }
  }

  lemma AppendSiblings(trace: seq<Visit>, v: Visit, dir: Pos)
    requires SiblingsSkipped(trace) && SkipsBefore(trace, dir) && ParentsUpTo(trace, dir)
    requires v.pos != [] && Parent(v.pos) == dir
    ensures SiblingsSkipped(trace + [v]) && ParentsUpTo(trace + [v], dir)
    ensures v.action != SkipSiblings ==> SkipsBefore(trace + [v], dir)
  {
    var t := trace + [v];
    LessIrreflexive(dir);
    assert forall m | 0 <= m < |trace| :: t[m] == trace[m];
    assert t[|trace|] == v;
  }

  lemma GrowQueueExpanded(trace: seq<Visit>, trace': seq<Visit>, queue: seq<Pending>)
    requires QueueExpanded(trace, queue) && Expanded(trace) <= Expanded(trace')
    ensures QueueExpanded(trace', queue)
  {
  }

  /** Every queued directory comes before p once the newest call, which
      every queued directory does not follow, comes before p. */
  lemma QueueBeforeNext(queue: seq<Pending>, last: Pos, p: Pos)
    requires QueueUpTo(queue, last) && Less(last, p)
    ensures forall a | 0 <= a < |queue| :: Less(queue[a].pos, p)
  {
    forall a | 0 <= a < |queue| ensures Less(queue[a].pos, p) {
      if queue[a].pos != last { LessTransitive(queue[a].pos, last, p); }
    }
  }

  /** Queueing p, an entry of dir that comes after everything queued. */
  lemma QueuePush(env: Env, queue: seq<Pending>, dir: Pos, p: Pending)
    requires QueueEntries(env, queue) && QueueSorted(queue) && QueueAfter(queue, dir)
    requires forall a | 0 <= a < |queue| :: Less(queue[a].pos, p.pos)
    requires p.pos != [] && Parent(p.pos) == dir
    requires Lookup(env.tree, p.pos) == Some(p.node) && p.path == PathOf(env.root, env.tree, p.pos)
    ensures QueueEntries(env, queue + [p]) && QueueSorted(queue + [p])
    ensures QueueUpTo(queue + [p], p.pos) && QueueAfter(queue + [p], dir)
  {
    QueuePushEntries(env, queue, p);
    QueuePushOrder(queue, dir, p);
  }

  lemma QueuePushEntries(env: Env, queue: seq<Pending>, p: Pending)
    requires QueueEntries(env, queue)
    requires Lookup(env.tree, p.pos) == Some(p.node) && p.path == PathOf(env.root, env.tree, p.pos)
    ensures QueueEntries(env, queue + [p])
  {
    var q := queue + [p];
    forall a | 0 <= a < |q|
      ensures Lookup(env.tree, q[a].pos) == Some(q[a].node) && q[a].path == PathOf(env.root, env.tree, q[a].pos)
    {
      if a < |queue| { assert q[a] == queue[a]; }
    }
  }

  lemma QueuePushOrder(queue: seq<Pending>, dir: Pos, p: Pending)
    requires QueueSorted(queue) && QueueAfter(queue, dir)
    requires forall a | 0 <= a < |queue| :: Less(queue[a].pos, p.pos)
    requires p.pos != [] && Parent(p.pos) == dir
    ensures QueueSorted(queue + [p]) && QueueUpTo(queue + [p], p.pos) && QueueAfter(queue + [p], dir)
  {
    var q := queue + [p];
    assert forall a | 0 <= a < |queue| :: q[a] == queue[a];
    assert q[|queue|] == p;
    assert StrictPrefix(dir, p.pos);
  }

  /** The directory just queued, and all its ancestors, were descended into. */
  lemma QueuePushExpanded(trace: seq<Visit>, queue: seq<Pending>, dir: Pos, v: Visit, p: Pending)
    requires QueueExpanded(trace, queue) && PrefixesExpanded(trace, dir)
    requires Expands(v) && v.pos != [] && Parent(v.pos) == dir && p.pos == v.pos
    ensures QueueExpanded(trace + [v], queue + [p])
  {
    var q := queue + [p];
    ExpandedAppend(trace, v);
    forall a, k | 0 <= a < |q| && 0 <= k <= |q[a].pos| ensures q[a].pos[..k] in Expanded(trace + [v]) {
      if a == |queue| {
        if k <= |dir| {
          assert q[a].pos[..k] == dir[..k];
        } else {
          assert q[a].pos[..k] == v.pos;
        }
      } else {
        assert q[a] == queue[a];
      }
    }
  }

  /** The queue after entry v of dir was called, with v appended to it when
      the walk is to descend into it. */
  lemma AppendQueue(env: Env, trace: seq<Visit>, queue: seq<Pending>, dir: Pos, v: Visit, p: Pending, queue': seq<Pending>)
    requires trace != [] && QueueEntries(env, queue) && QueueSorted(queue) && QueueUpTo(queue, Last(trace).pos)
    requires QueueExpanded(trace, queue) && QueueAfter(queue, dir)
    requires Less(Last(trace).pos, v.pos) && v.pos != [] && Parent(v.pos) == dir
    requires PrefixesExpanded(trace, dir)
    requires p.pos == v.pos && Lookup(env.tree, p.pos) == Some(p.node) && p.path == PathOf(env.root, env.tree, p.pos)
    requires queue' == if Expands(v) then queue + [p] else queue
    ensures WalkQueue(env, trace + [v], queue') && QueueAfter(queue', dir)
    ensures Queued(queue') == Queued(queue) + (if Expands(v) then {v.pos} else {})
  {
    assert Last(trace + [v]) == v;
    QueueBeforeNext(queue, Last(trace).pos, v.pos);
    if Expands(v) {
      QueuePush(env, queue, dir, p);
      QueuePushExpanded(trace, queue, dir, v, p);
      QueuedAppend(queue, p);
    } else {
      ExpandedAppend(trace, v);
      GrowQueueExpanded(trace, trace + [v], queue);
    }
  }

  lemma FirstChildSeenGrow(env: Env, v: Visit, s: set<Pos>, s': set<Pos>)
    requires s <= s' && FirstChildSeen(env, v, s)
    ensures FirstChildSeen(env, v, s')
  {
  }

  lemma NextSiblingSeenGrow(env: Env, v: Visit, s: set<Pos>, s': set<Pos>)
    requires s <= s' && NextSiblingSeen(env, v, s)
    ensures NextSiblingSeen(env, v, s')
  {
  }

  /** Entry i of dir was called: it is the first entry that was owed if
      i is 0, and it is itself owed its first entry if it is queued. */
  lemma AppendFirstChildren(env: Env, trace: seq<Visit>, pending: set<Pos>, pending': set<Pos>, dir: Pos, i: nat, v: Visit)
    requires v.pos == dir + [i]
    requires FirstChildrenSeen(env, trace, pending + (if i == 0 then {dir} else {}))
    requires pending <= pending' && (Expands(v) ==> v.pos in pending')
    ensures FirstChildrenSeen(env, trace + [v], pending')
  {
    var t := trace + [v];
    PositionsAppend(trace, v);
    forall m | 0 <= m < |t| ensures FirstChildSeen(env, t[m], Positions(t)) || t[m].pos in pending' {
      if m < |trace| {
        assert t[m] == trace[m];
        if i == 0 && trace[m].pos == dir {
          assert dir + [0] == v.pos;
        } else if trace[m].pos !in pending {
          FirstChildSeenGrow(env, trace[m], Positions(trace), Positions(t));
        }
      } else {
        assert t[m] == v;
      }
    }
  }

  /** Entry i of dir was called: it is the next entry that was owed, and it
      is itself owed its next sibling unless it asked to skip them. */
  lemma AppendNextSiblings(env: Env, trace: seq<Visit>, dir: Pos, i: nat, v: Visit)
    requires v.pos == dir + [i]
    requires NextSiblingsSeen(env, trace, if i > 0 then {dir + [i - 1]} else {})
    ensures NextSiblingsSeen(env, trace + [v], if v.action == SkipSiblings then {} else {v.pos})
  {
    var t := trace + [v];
    PositionsAppend(trace, v);
    forall m | 0 <= m < |t|
      ensures NextSiblingSeen(env, t[m], Positions(t)) || t[m].pos in (if v.action == SkipSiblings then {} else {v.pos})
    {
      if m < |trace| {
        assert t[m] == trace[m];
        if i > 0 && trace[m].pos == dir + [i - 1] {
          assert Parent(trace[m].pos) == dir && Index(trace[m].pos) == i - 1;
          assert dir + [i] == v.pos;
        } else {
          NextSiblingSeenGrow(env, trace[m], Positions(trace), Positions(t));
        }
      } else {
        assert t[m] == v;
      }
    }
  }

  // -----------------------------------------------------------------------
  // The steps of the walk preserve its invariants

  lemma InitQueue(env: Env, v: Visit, queue: seq<Pending>)
    requires v.pos == []
    requires queue == if Expands(v) then [Pending(env.tree, env.root, [])] else []
    ensures WalkQueue(env, [v], queue)
    ensures FirstChildrenSeen(env, [v], Queued(queue)) && NextSiblingsSeen(env, [v], {})
  {
    if Expands(v) {
      assert [v][0] == v;
      assert [] in Expanded([v]);
      assert queue[0].pos in Queued(queue);
      assert forall k | 0 <= k <= |queue[0].pos| :: queue[0].pos[..k] == [];
    }
  }

  /** After the root's call, before any directory is read. */
  lemma Init(env: Env, v: Visit, queue: seq<Pending>)
    requires Describes(env, v) && v.pos == [] && v.action != Stop
    requires !Recovers(env.flags) ==> v.ftw.typeflag != Error
    requires queue == if Expands(v) then [Pending(env.tree, env.root, [])] else []
    ensures Between(env, [v], queue, [], false)
  {
    InitQueue(env, v, queue);
  }

  /** Taking the next directory out of the queue. */
  lemma StartDirectory(env: Env, trace: seq<Visit>, queue: seq<Pending>, cur: Pos, started: bool)
    requires Between(env, trace, queue, cur, started) && queue != []
    ensures Reading(env, trace, queue[1..], queue[0], 0)
  {
    var dir := queue[0];
    var rest := queue[1..];
    QueuedFront(queue);
    assert forall a | 0 <= a < |rest| :: rest[a] == queue[a + 1];
    if started {
      forall m | 0 <= m < |trace| && trace[m].pos != []
        ensures Parent(trace[m].pos) == dir.pos || Less(Parent(trace[m].pos), dir.pos)
      {
        if Parent(trace[m].pos) != cur { LessTransitive(Parent(trace[m].pos), cur, dir.pos); }
      }
      forall m | 0 <= m < |trace| && trace[m].pos != [] && trace[m].action == SkipSiblings
        ensures Less(Parent(trace[m].pos), dir.pos)
      {
        if Parent(trace[m].pos) != cur { LessTransitive(Parent(trace[m].pos), cur, dir.pos); }
      }
      var last := Last(trace).pos;
      if last != [] {
        if Parent(last) != cur { LessTransitive(Parent(last), cur, dir.pos); }
      }
    }
    forall a | 0 <= a < |rest| ensures Less(dir.pos, rest[a].pos) {
      assert Less(queue[0].pos, queue[a + 1].pos);
    }
    assert dir.pos[..|dir.pos|] == dir.pos;
  }

  /** The entry called next comes after the last call. */
  lemma EntryAfterLast(trace: seq<Visit>, dir: Pos, i: nat, v: Visit)
    requires trace != [] && v.pos == dir + [i]
    requires i > 0 ==> Last(trace).pos == dir + [i - 1]
    requires i == 0 ==> Last(trace).pos == [] || Less(Parent(Last(trace).pos), dir)
    ensures Less(Last(trace).pos, v.pos)
  {
    var last := Last(trace).pos;
    assert Parent(v.pos) == dir && Index(v.pos) == i;
    if i > 0 {
      LessSiblings(dir, i - 1, i);
    } else if last != [] {
      ParentOrder(last, v.pos);
    }
  }

  /** Appending a correct call keeps the calls correct, root first, free of
      unwanted errors and, unless it is Stop, free of Stop. */
  lemma AppendDescribed(env: Env, trace: seq<Visit>, v: Visit)
    requires trace != [] && trace[0].pos == [] && AllDescribed(env, trace) && ErrorsOnlyIfRecovering(env, trace) && NoStop(trace)
    requires Describes(env, v) && (!Recovers(env.flags) ==> v.ftw.typeflag != Error)
    ensures (trace + [v])[0].pos == [] && AllDescribed(env, trace + [v]) && ErrorsOnlyIfRecovering(env, trace + [v])
    ensures v.action != Stop ==> NoStop(trace + [v])
  {
    var t := trace + [v];
    assert forall m | 0 <= m < |trace| :: t[m] == trace[m];
    assert t[|trace|] == v;
  }

  /** Appending a correct call for entry v of dir keeps every property of
      the trace. */
  lemma AppendTrace(env: Env, trace: seq<Visit>, dir: Pos, v: Visit)
    requires WalkTrace(env, trace) && NoStop(trace)
    requires PrefixesExpanded(trace, dir) && ParentsUpTo(trace, dir) && SkipsBefore(trace, dir)
    requires Less(Last(trace).pos, v.pos) && v.pos != [] && Parent(v.pos) == dir
    requires Describes(env, v) && (!Recovers(env.flags) ==> v.ftw.typeflag != Error)
    ensures WalkTrace(env, trace + [v])
    ensures v.action != Stop ==> NoStop(trace + [v])
    ensures PrefixesExpanded(trace + [v], dir) && ParentsUpTo(trace + [v], dir)
    ensures v.action != SkipSiblings ==> SkipsBefore(trace + [v], dir)
  {
    AppendDescribed(env, trace, v);
    AppendBreadthFirst(trace, v);
    AppendAncestors(trace, v, dir);
    AppendSiblings(trace, v, dir);
  }

  /** The calls after entry i of `dir` was called. */
  lemma VisitTrace(env: Env, trace: seq<Visit>, queue: seq<Pending>, dir: Pending, i: nat, v: Visit)
    requires Reading(env, trace, queue, dir, i)
    requires Describes(env, v) && v.pos == dir.pos + [i]
    requires !Recovers(env.flags) ==> v.ftw.typeflag != Error
    ensures WalkTrace(env, trace + [v]) && NoStop(trace)
    ensures v.action != Stop ==> NoStop(trace + [v])
    ensures PrefixesExpanded(trace + [v], dir.pos) && ParentsUpTo(trace + [v], dir.pos)
    ensures v.action != SkipSiblings ==> SkipsBefore(trace + [v], dir.pos)
  {
    assert Parent(v.pos) == dir.pos;
    EntryAfterLast(trace, dir.pos, i, v);
    AppendTrace(env, trace, dir.pos, v);
  }

  /** The queue and the outstanding duties after entry i of `dir` was called. */
  lemma VisitQueue(env: Env, trace: seq<Visit>, queue: seq<Pending>, dir: Pending, i: nat,
                   v: Visit, queue': seq<Pending>)
    requires Reading(env, trace, queue, dir, i) && i < |dir.node.children|
    requires Describes(env, v) && v.pos == dir.pos + [i]
    requires queue' == if Expands(v) then queue + [Pending(dir.node.children[i], v.fpath, v.pos)] else queue
    ensures WalkQueue(env, trace + [v], queue') && QueueAfter(queue', dir.pos)
    ensures FirstChildrenSeen(env, trace + [v], Queued(queue'))
    ensures NextSiblingsSeen(env, trace + [v], if v.action == SkipSiblings then {} else {v.pos})
  {
    assert Parent(v.pos) == dir.pos && Index(v.pos) == i;
    EntryAfterLast(trace, dir.pos, i, v);
    var p := Pending(dir.node.children[i], v.fpath, v.pos);
    assert Lookup(env.tree, v.pos) == Some(dir.node.children[i]);
    AppendQueue(env, trace, queue, dir.pos, v, p, queue');
    AppendFirstChildren(env, trace, Queued(queue), Queued(queue'), dir.pos, i, v);
    AppendNextSiblings(env, trace, dir.pos, i, v);
  }

  /** Calling the callback for entry i of `dir`, which does not ask to skip
      the rest of `dir`, and queueing that entry if the walk is to descend
      into it. */
  lemma VisitEntry(env: Env, trace: seq<Visit>, queue: seq<Pending>, dir: Pending, i: nat,
                   v: Visit, queue': seq<Pending>)
    requires Reading(env, trace, queue, dir, i) && i < |dir.node.children|
    requires Describes(env, v) && v.pos == dir.pos + [i] && v.action != Stop && v.action != SkipSiblings
    requires !Recovers(env.flags) ==> v.ftw.typeflag != Error
    requires queue' == if Expands(v) then queue + [Pending(dir.node.children[i], v.fpath, v.pos)] else queue
    ensures Reading(env, trace + [v], queue', dir, i + 1)
  {
    VisitTrace(env, trace, queue, dir, i, v);
    VisitQueue(env, trace, queue, dir, i, v, queue');
    assert Last(trace + [v]) == v;
  }

  /** Entry i of `dir` asked to skip the rest of `dir`: the walk goes on
      with the next directory in the queue. */
  lemma VisitSkip(env: Env, trace: seq<Visit>, queue: seq<Pending>, dir: Pending, i: nat,
                  v: Visit, queue': seq<Pending>)
    requires Reading(env, trace, queue, dir, i) && i < |dir.node.children|
    requires Describes(env, v) && v.pos == dir.pos + [i] && v.action == SkipSiblings
    requires !Recovers(env.flags) ==> v.ftw.typeflag != Error
    requires queue' == if Expands(v) then queue + [Pending(dir.node.children[i], v.fpath, v.pos)] else queue
    ensures Between(env, trace + [v], queue', dir.pos, true)
  {
    VisitTrace(env, trace, queue, dir, i, v);
    VisitQueue(env, trace, queue, dir, i, v, queue');
  }

  /** The call made for entry i of `dir`: its path joins the directory's
      path and the entry's name, its record puts the base at the name. */
  function EntryVisit(env: Env, dir: Pending, i: nat): Visit
    requires i < |dir.node.children|
  {
    var child := dir.node.children[i];
    var cpath := JoinPath(dir.path, child.name);
    var ftw := Record(child, |cpath| - |child.name|, |dir.pos| + 1, env.flags);
    Visit(cpath, ftw, dir.pos + [i], env.fn(cpath, ftw))
  }

  /** The call made for entry i of `dir` is a correct one. */
  lemma EntryDescribed(env: Env, dir: Pending, i: nat)
    requires Lookup(env.tree, dir.pos) == Some(dir.node) && dir.path == PathOf(env.root, env.tree, dir.pos)
    requires i < |dir.node.children|
    requires dir.node.children[i].failure.Some? ==> Recovers(env.flags)
    ensures Describes(env, EntryVisit(env, dir, i)) && EntryVisit(env, dir, i).pos == dir.pos + [i]
    ensures !Recovers(env.flags) ==> EntryVisit(env, dir, i).ftw.typeflag != Error
  {
    var v := EntryVisit(env, dir, i);
    assert Parent(v.pos) == dir.pos && Index(v.pos) == i;
    assert Lookup(env.tree, v.pos) == Some(dir.node.children[i]);
  }

  /** The callback asked to stop at entry i of `dir`. */
  lemma VisitLast(env: Env, trace: seq<Visit>, queue: seq<Pending>, dir: Pending, i: nat, v: Visit)
    requires Reading(env, trace, queue, dir, i)
    requires Describes(env, v) && v.pos == dir.pos + [i]
    requires !Recovers(env.flags) ==> v.ftw.typeflag != Error
    ensures WalkTrace(env, trace + [v]) && Last(trace + [v]) == v && StopsLast(trace + [v])
  {
    VisitTrace(env, trace, queue, dir, i, v);
    StopsLastAppend(trace, v);
  }

  lemma StopsLastAppend(trace: seq<Visit>, v: Visit)
    requires NoStop(trace)
    ensures Last(trace + [v]) == v && StopsLast(trace + [v])
  {
    assert forall m | 0 <= m < |trace| :: (trace + [v])[m] == trace[m];
  }

  /** After the last entry of `dir`. */
  lemma FinishDirectory(env: Env, trace: seq<Visit>, queue: seq<Pending>, dir: Pending)
    requires Reading(env, trace, queue, dir, |dir.node.children|)
    ensures Between(env, trace, queue, dir.pos, true)
  {
    FinishFirstChildren(env, trace, queue, dir);
    FinishNextSiblings(env, trace, dir);
  }

  /** An empty directory owes no first entry. */
  lemma FinishFirstChildren(env: Env, trace: seq<Visit>, queue: seq<Pending>, dir: Pending)
    requires Lookup(env.tree, dir.pos) == Some(dir.node)
    requires FirstChildrenSeen(env, trace, Queued(queue) + (if |dir.node.children| == 0 then {dir.pos} else {}))
    ensures FirstChildrenSeen(env, trace, Queued(queue))
  {
    assert ChildCount(env.tree, dir.pos) == |dir.node.children|;
  }

  /** The last entry of a directory owes no next entry. */
  lemma FinishNextSiblings(env: Env, trace: seq<Visit>, dir: Pending)
    requires Lookup(env.tree, dir.pos) == Some(dir.node)
    requires NextSiblingsSeen(env, trace, if |dir.node.children| > 0 then {dir.pos + [|dir.node.children| - 1]} else {})
    ensures NextSiblingsSeen(env, trace, {})
  {
    var n := |dir.node.children|;
    assert ChildCount(env.tree, dir.pos) == n;
    if n > 0 {
      forall m | 0 <= m < |trace| ensures NextSiblingSeen(env, trace[m], Positions(trace)) {
        if trace[m].pos == dir.pos + [n - 1] {
          assert Parent(trace[m].pos) == dir.pos && Index(trace[m].pos) == n - 1;
        }
      }
    }
  }

  // -----------------------------------------------------------------------
  // What the invariants give once the walk returns

  /** The walk never descends below a file unless it is a directory the
      callback let it enter. */
  lemma PrunedBelow(trace: seq<Visit>, i: nat, j: nat)
    requires BreadthFirst(trace) && AncestorsExpanded(trace)
    requires i < |trace| && j < |trace| && StrictPrefix(trace[i].pos, trace[j].pos)
    ensures Expands(trace[i])
  {
    var p := trace[i].pos;
    assert trace[j].pos[..|p|] == p;
    assert p in Expanded(trace);
    var n :| 0 <= n < |trace| && Expands(trace[n]) && trace[n].pos == p;
    LessIrreflexive(p);
    assert n == i;
  }

  lemma PrunedBelowAll(trace: seq<Visit>)
    requires BreadthFirst(trace) && AncestorsExpanded(trace)
    ensures OnlyBelowExpanded(trace)
  {
    forall i, j | 0 <= i < |trace| && 0 <= j < |trace| && StrictPrefix(trace[i].pos, trace[j].pos)
      ensures Expands(trace[i])
    {
      PrunedBelow(trace, i, j);
    }
  }

  /** What the walk promises of any sequence of calls it made. */
  lemma Conclude(env: Env, trace: seq<Visit>)
    requires WalkTrace(env, trace)
    ensures trace != [] && trace[0].pos == [] && AllDescribed(env, trace) && BreadthFirst(trace)
    ensures AncestorsExpanded(trace) && OnlyBelowExpanded(trace) && SiblingsSkipped(trace)
    ensures ErrorsOnlyIfRecovering(env, trace)
  {
    PrunedBelowAll(trace);
  }

  /** With nothing left in the queue, no duty is outstanding. */
  lemma Drained(env: Env, trace: seq<Visit>, cur: Pos, started: bool)
    requires Between(env, trace, [], cur, started)
    ensures Complete(env, trace)
  {
    assert Queued([]) == {};
  }

  /** The root alone is a correct sequence of calls. */
  lemma RootOnly(env: Env, v: Visit)
    requires Describes(env, v) && v.pos == []
    requires !Recovers(env.flags) ==> v.ftw.typeflag != Error
    ensures WalkTrace(env, [v])
  {
  }

  // -----------------------------------------------------------------------
  // Where a walk that ends early stands

  /** The call v obliges the walk to call position q: q is the first entry
      of a directory v let the walk enter, or the entry after v in its
      directory unless v asked to skip the rest. */
  ghost predicate Owes(env: Env, v: Visit, q: Pos) {
    || (Expands(v) && ChildCount(env.tree, v.pos) > 0 && q == v.pos + [0])
    || (v.pos != [] && v.action != SkipSiblings && Index(v.pos) + 1 < ChildCount(env.tree, Parent(v.pos))
        && q == Parent(v.pos) + [Index(v.pos) + 1])
  }

  /** Some call made obliges the walk to call q. */
  ghost predicate Owed(env: Env, trace: seq<Visit>, q: Pos) {
    exists m | 0 <= m < |trace| :: Owes(env, trace[m], q)
  }

  /** Every position owed by the calls made that comes before f in
      breadth-first order was called. */
  ghost predicate DoneBefore(env: Env, trace: seq<Visit>, f: Pos) {
    forall m, q {:trigger Owes(env, trace[m], q)} | 0 <= m < |trace| && Owes(env, trace[m], q) && Less(q, f) ::
      q in Positions(trace)
  }

  /** The file at f cannot be processed. */
  predicate Unprocessable(t: Node, f: Pos) {
    Lookup(t, f).Some? && Lookup(t, f).value.failure.Some?
  }

  /** Every call made is for a position before f in breadth-first order. */
  ghost predicate CalledBefore(trace: seq<Visit>, f: Pos) {
    forall m | 0 <= m < |trace| :: Less(trace[m].pos, f)
  }

  /** The walk gave up at f: f was owed, everything owed before it was
      called, and f cannot be processed. */
  ghost predicate AbortedAt(env: Env, trace: seq<Visit>, f: Pos) {
    Unprocessable(env.tree, f) && Owed(env, trace, f) && DoneBefore(env, trace, f)
  }

  /** In a breadth-first trace, a position after the last call is after
      every call. */
  lemma LastCalledBefore(trace: seq<Visit>, f: Pos)
    requires trace != [] && BreadthFirst(trace) && Less(Last(trace).pos, f)
    ensures CalledBefore(trace, f)
  {
    forall m | 0 <= m < |trace| ensures Less(trace[m].pos, f) {
      if m < |trace| - 1 {
        LessTransitive(trace[m].pos, Last(trace).pos, f);
      }
    }
  }

  /** After the calls for the first k entries of `dir`, begun where the
      last call was for an entry of an earlier directory (or was the root),
      entry k comes after every call made. */
  lemma EntryAfterCalls(env: Env, dir: Pending, trace0: seq<Visit>, trace: seq<Visit>, k: nat, f: Pos)
    requires trace0 != [] && (Last(trace0).pos == [] || Less(Parent(Last(trace0).pos), dir.pos))
    requires EntriesRead(env, dir, trace0, trace) && k == |trace| - |trace0| && f == dir.pos + [k]
    requires BreadthFirst(trace)
    ensures CalledBefore(trace, f)
  {
    assert Parent(f) == dir.pos && Index(f) == k;
    if k == 0 {
      assert trace == trace0;
      var last := Last(trace0).pos;
      if last != [] {
        ParentOrder(last, f);
      }
    } else {
      assert Last(trace) == EntryVisits(env, dir, k)[k - 1];
      LessSiblings(dir.pos, k - 1, k);
    }
    LastCalledBefore(trace, f);
  }

  /** Inside a directory, before entry i: the walk owes that entry. */
  lemma ReadingOwed(env: Env, trace: seq<Visit>, dir: Pending, i: nat)
    requires trace != [] && Lookup(env.tree, dir.pos) == Some(dir.node) && i < |dir.node.children|
    requires PrefixesExpanded(trace, dir.pos) && SkipsBefore(trace, dir.pos)
    requires i > 0 ==> Last(trace).pos == dir.pos + [i - 1]
    ensures Owed(env, trace, dir.pos + [i])
  {
    assert ChildCount(env.tree, dir.pos) == |dir.node.children|;
    if i == 0 {
      assert dir.pos[..|dir.pos|] == dir.pos;
      assert dir.pos in Expanded(trace);
      var m :| 0 <= m < |trace| && Expands(trace[m]) && trace[m].pos == dir.pos;
      assert Owes(env, trace[m], dir.pos + [0]);
    } else {
      var m := |trace| - 1;
      var v := trace[m];
      assert Parent(v.pos) == dir.pos && Index(v.pos) == i - 1;
      LessIrreflexive(dir.pos);
      assert v.action != SkipSiblings;
      assert Owes(env, v, dir.pos + [i]);
    }
  }

  /** Inside a directory, before entry i: everything owed before that entry
      was called. */
  lemma ReadingDoneBefore(env: Env, trace: seq<Visit>, queue: seq<Pending>, dir: Pending, i: nat)
    requires QueueAfter(queue, dir.pos)
    requires FirstChildrenSeen(env, trace, Queued(queue) + (if i == 0 then {dir.pos} else {}))
    requires NextSiblingsSeen(env, trace, if i > 0 then {dir.pos + [i - 1]} else {})
    ensures DoneBefore(env, trace, dir.pos + [i])
  {
    var f := dir.pos + [i];
    var seen := Positions(trace);
    forall m, q | 0 <= m < |trace| && Owes(env, trace[m], q)
      ensures Less(q, f) ==> q in seen
    {
      var v := trace[m];
      if Expands(v) && ChildCount(env.tree, v.pos) > 0 && q == v.pos + [0] {
        assert FirstChildSeen(env, v, seen) || v.pos in Queued(queue) || (i == 0 && v.pos == dir.pos);
        if v.pos in Queued(queue) {
          var a :| 0 <= a < |queue| && queue[a].pos == v.pos;
          LessChildren(dir.pos, v.pos, i, 0);
          LessAsymmetric(f, q);
        } else if i == 0 && v.pos == dir.pos {
          LessIrreflexive(f);
        }
      } else {
        assert NextSiblingSeen(env, v, seen) || (i > 0 && v.pos == dir.pos + [i - 1]);
        if i > 0 && v.pos == dir.pos + [i - 1] {
          assert Parent(v.pos) == dir.pos && Index(v.pos) == i - 1;
          LessIrreflexive(f);
        }
      }
    }
  }

  /** Inside a directory, an entry that cannot be processed is where the
      walk gives up. */
  lemma ReadingAborted(env: Env, trace: seq<Visit>, queue: seq<Pending>, dir: Pending, i: nat)
    requires trace != [] && Lookup(env.tree, dir.pos) == Some(dir.node) && i < |dir.node.children|
    requires PrefixesExpanded(trace, dir.pos) && SkipsBefore(trace, dir.pos) && QueueAfter(queue, dir.pos)
    requires i > 0 ==> Last(trace).pos == dir.pos + [i - 1]
    requires FirstChildrenSeen(env, trace, Queued(queue) + (if i == 0 then {dir.pos} else {}))
    requires NextSiblingsSeen(env, trace, if i > 0 then {dir.pos + [i - 1]} else {})
    requires dir.node.children[i].failure.Some?
    ensures AbortedAt(env, trace, dir.pos + [i])
  {
    assert Parent(dir.pos + [i]) == dir.pos && Index(dir.pos + [i]) == i;
    ReadingOwed(env, trace, dir, i);
    ReadingDoneBefore(env, trace, queue, dir, i);
  }

  /** A call whose predecessors left nothing owed before it leaves nothing
      owed before it either: what it owes comes after it. */
  lemma DoneBeforeAppend(env: Env, trace: seq<Visit>, v: Visit)
    requires DoneBefore(env, trace, v.pos)
    ensures DoneBefore(env, trace + [v], v.pos)
  {
    var t := trace + [v];
    PositionsAppend(trace, v);
    forall m, q | 0 <= m < |t| && Owes(env, t[m], q)
      ensures Less(q, v.pos) ==> q in Positions(t)
    {
      if m < |trace| {
        assert t[m] == trace[m];
      } else if q == v.pos + [0] {
        assert q[..|v.pos|] == v.pos;
        LessThanDescendant(v.pos, q);
        LessAsymmetric(v.pos, q);
      } else {
        assert v.pos == Parent(v.pos) + [Index(v.pos)];
        LessSiblings(Parent(v.pos), Index(v.pos), Index(v.pos) + 1);
        LessAsymmetric(v.pos, q);
      }
    }
  }

  // -----------------------------------------------------------------------
  // Reading a directory, and the directories opened

  /** trace is trace0 followed by the calls for the first entries of `dir`,
      in the order the directory yields them. */
  ghost predicate EntriesRead(env: Env, dir: Pending, trace0: seq<Visit>, trace: seq<Visit>) {
    var read := |trace0| <= |trace| <= |trace0| + |dir.node.children|
                && trace == trace0 + EntryVisits(env, dir, |trace| - |trace0|);
    read
  }

  /** The calls for the first n entries of `dir`, in order. */
  ghost function EntryVisits(env: Env, dir: Pending, n: nat): (r: seq<Visit>)
    requires n <= |dir.node.children|
    ensures |r| == n && forall k | 0 <= k < n :: r[k] == EntryVisit(env, dir, k)
  {
    if n == 0 then [] else EntryVisits(env, dir, n - 1) + [EntryVisit(env, dir, n - 1)]
  }

  lemma EntriesReadNone(env: Env, dir: Pending, trace: seq<Visit>)
    ensures EntriesRead(env, dir, trace, trace)
  {
    assert trace + [] == trace;
  }

  lemma EntriesReadStep(env: Env, dir: Pending, trace0: seq<Visit>, trace: seq<Visit>, i: nat)
    requires EntriesRead(env, dir, trace0, trace) && |trace| == |trace0| + i && i < |dir.node.children|
    ensures EntriesRead(env, dir, trace0, trace + [EntryVisit(env, dir, i)])
  {
    assert trace0 + EntryVisits(env, dir, i) + [EntryVisit(env, dir, i)] == trace0 + EntryVisits(env, dir, i + 1);
  }

  /** `dirs` lists the directories opened, in the order they were opened:
      each once and in breadth-first order, each a directory the walk
      descended into, and every call below the root is for an entry of
      one of them. */
  ghost predicate OpenedDirs(trace: seq<Visit>, dirs: seq<Pos>) {
    && (forall a, b | 0 <= a < b < |dirs| :: Less(dirs[a], dirs[b]))
    && (forall a | 0 <= a < |dirs| :: dirs[a] in Expanded(trace))
    && (forall p | p in Parents(trace) :: p in dirs)
  }

  /** The directories whose entries have been called. */
  ghost function Parents(trace: seq<Visit>): set<Pos> {
    set m | 0 <= m < |trace| && trace[m].pos != [] :: Parent(trace[m].pos)
  }

  lemma ExpandedGrows(trace0: seq<Visit>, trace: seq<Visit>)
    requires |trace0| <= |trace| && trace[..|trace0|] == trace0
    ensures Expanded(trace0) <= Expanded(trace)
  {
    forall p | p in Expanded(trace0) ensures p in Expanded(trace) {
      var m :| 0 <= m < |trace0| && Expands(trace0[m]) && trace0[m].pos == p;
      assert trace[m] == trace0[m];
    }
  }

  /** Opening `dir` after the directories opened so far and reading some
      of its entries keeps the list of opened directories correct. */
  lemma OpenedStep(env: Env, dir: Pending, trace0: seq<Visit>, trace: seq<Visit>, dirs: seq<Pos>)
    requires OpenedDirs(trace0, dirs) && PrefixesExpanded(trace0, dir.pos)
    requires dirs != [] ==> Less(dirs[|dirs| - 1], dir.pos)
    requires EntriesRead(env, dir, trace0, trace)
    ensures OpenedDirs(trace, dirs + [dir.pos])
  {
    OpenedSorted(dirs, dir.pos);
    assert trace[..|trace0|] == trace0;
    OpenedExpanded(trace0, trace, dirs, dir.pos);
    OpenedParents(env, dir, trace0, trace, dirs);
  }

  lemma OpenedSorted(dirs: seq<Pos>, d: Pos)
    requires forall a, b | 0 <= a < b < |dirs| :: Less(dirs[a], dirs[b])
    requires dirs != [] ==> Less(dirs[|dirs| - 1], d)
    ensures forall a, b | 0 <= a < b < |dirs + [d]| :: Less((dirs + [d])[a], (dirs + [d])[b])
  {
    var o := dirs + [d];
    forall a, b | 0 <= a < b < |o| ensures Less(o[a], o[b]) {
      if b == |dirs| && a < |dirs| - 1 {
        LessTransitive(dirs[a], dirs[|dirs| - 1], d);
      }
    }
  }

  lemma OpenedExpanded(trace0: seq<Visit>, trace: seq<Visit>, dirs: seq<Pos>, d: Pos)
    requires |trace0| <= |trace| && trace[..|trace0|] == trace0
    requires forall a | 0 <= a < |dirs| :: dirs[a] in Expanded(trace0)
    requires PrefixesExpanded(trace0, d)
    ensures forall a | 0 <= a < |dirs + [d]| :: (dirs + [d])[a] in Expanded(trace)
  {
    ExpandedGrows(trace0, trace);
    assert d[..|d|] == d;
  }

  lemma OpenedParents(env: Env, dir: Pending, trace0: seq<Visit>, trace: seq<Visit>, dirs: seq<Pos>)
    requires EntriesRead(env, dir, trace0, trace)
    requires forall p | p in Parents(trace0) :: p in dirs
    ensures forall p | p in Parents(trace) :: p in dirs + [dir.pos]
  {
    forall p | p in Parents(trace) ensures p in dirs + [dir.pos] {
      var m :| 0 <= m < |trace| && trace[m].pos != [] && Parent(trace[m].pos) == p;
      if m < |trace0| {
        assert trace[m] == trace0[m];
        assert p in Parents(trace0);
      } else {
        assert trace[m] == EntryVisits(env, dir, |trace| - |trace0|)[m - |trace0|];
        assert Parent(trace[m].pos) == dir.pos;
      }
    }
  }

  // -----------------------------------------------------------------------
  // The walk

  /** How reading one directory ended: all its entries were read (or the
      rest were skipped), the callback asked to stop, or the entry at `at`
      could not be processed and errors are not recovered from. */
  datatype Outcome = Finished | Stopped | Failed(at: Pos)

  /** Reads entry i of `dir`: gives up if it cannot be processed and
      errors are not recovered from, and otherwise calls the callback for
      it. `skip` tells that the callback asked to skip the rest of `dir`. */
  method ReadEntry(env: Env, dir: Pending, i: nat, queue0: seq<Pending>, trace0: seq<Visit>)
    returns (out: Outcome, skip: bool, queue: seq<Pending>, trace: seq<Visit>)
    requires Reading(env, trace0, queue0, dir, i) && i < |dir.node.children|
    // the outcome is decided by the entry and by the callback's action
    ensures out.Failed? <==> dir.node.children[i].failure.Some? && !Recovers(env.flags)
    ensures out == Stopped <==> !out.Failed? && EntryVisit(env, dir, i).action == Stop
    ensures skip <==> out == Finished && EntryVisit(env, dir, i).action == SkipSiblings
    // the callback is called once for the entry, unless the walk gives up there
    ensures out.Failed? ==> trace == trace0 && out.at == dir.pos + [i] && AbortedAt(env, trace, out.at)
    ensures !out.Failed? ==> trace == trace0 + [EntryVisit(env, dir, i)]
    ensures out == Finished ==> queue == NextQueue(queue0, env, dir, i)
    ensures WalkTrace(env, trace)
    ensures out == Finished && !skip ==> Reading(env, trace, queue, dir, i + 1)
    ensures out == Finished && skip ==> Between(env, trace, queue, dir.pos, true)
    ensures out == Stopped ==> Last(trace).action == Stop && StopsLast(trace) && DoneBefore(env, trace, Last(trace).pos)
    ensures out.Failed? ==> NoStop(trace)
    ensures QueueSize(queue) <= QueueSize(queue0) + Size(dir.node.children[i])
  {
    if dir.node.children[i].failure.Some? && !Recovers(env.flags) {
      ReadingAborted(env, trace0, queue0, dir, i);
      out, skip, queue, trace := Failed(dir.pos + [i]), false, queue0, trace0;
      return;
    }
    out, skip, queue, trace := CallEntry(env, dir, i, queue0, trace0);
  }

  /** The queue after entry i of `dir`: the entry is appended when the walk
      is to descend into it. */
  function NextQueue(queue: seq<Pending>, env: Env, dir: Pending, i: nat): (r: seq<Pending>)
    requires i < |dir.node.children|
    ensures |queue| <= |r| <= |queue| + 1 && r[..|queue|] == queue
    ensures |r| == |queue| + 1 <==> Expands(EntryVisit(env, dir, i))
    // what is queued is entry i itself, with the path it was called with
    ensures |r| > |queue| ==>
              && r[|queue|].pos == dir.pos + [i]
              && r[|queue|].node == dir.node.children[i]
              && r[|queue|].path == EntryVisit(env, dir, i).fpath
  {
    var v := EntryVisit(env, dir, i);
    if Expands(v) then queue + [Pending(dir.node.children[i], v.fpath, v.pos)] else queue
  }

  /** Calls the callback for entry i of `dir`, which can be processed or is
      to be reported as an error, and queues the entry if the walk is to
      descend into it. */
  method CallEntry(env: Env, dir: Pending, i: nat, queue0: seq<Pending>, trace0: seq<Visit>)
    returns (out: Outcome, skip: bool, queue: seq<Pending>, trace: seq<Visit>)
    requires Reading(env, trace0, queue0, dir, i) && i < |dir.node.children|
    requires dir.node.children[i].failure.Some? ==> Recovers(env.flags)
    ensures out == Stopped <==> EntryVisit(env, dir, i).action == Stop
    ensures !out.Failed? && (skip <==> out == Finished && EntryVisit(env, dir, i).action == SkipSiblings)
    ensures trace == trace0 + [EntryVisit(env, dir, i)]
    ensures out == Finished ==> queue == NextQueue(queue0, env, dir, i)
    ensures WalkTrace(env, trace)
    ensures out == Finished && !skip ==> Reading(env, trace, queue, dir, i + 1)
    ensures out == Finished && skip ==> Between(env, trace, queue, dir.pos, true)
    ensures out == Stopped ==> Last(trace).action == Stop && StopsLast(trace) && DoneBefore(env, trace, Last(trace).pos)
    ensures QueueSize(queue) <= QueueSize(queue0) + Size(dir.node.children[i])
  {
    queue, trace, skip := queue0, trace0, false;
    var v := EntryVisit(env, dir, i);
    EntryDescribed(env, dir, i);
    if v.action == Stop {
      VisitLast(env, trace, queue, dir, i, v);
      ReadingDoneBefore(env, trace, queue, dir, i);
      DoneBeforeAppend(env, trace, v);
      trace := trace + [v];
      out := Stopped;
      return;
    }
    out := Finished;
    queue := NextQueue(queue0, env, dir, i);
    if v.action == SkipSiblings {
      VisitSkip(env, trace, queue0, dir, i, v, queue);
      skip := true;
    } else {
      VisitEntry(env, trace, queue0, dir, i, v, queue);
    }
    trace := trace + [v];
    if Expands(v) {
      QueueSizeAppend(queue0, Pending(dir.node.children[i], v.fpath, v.pos));
    }
  }

  /** One turn of the loop over the entries of `dir`: reads entry i and
      states the outcome relative to where the directory's reading began,
      at `trace0` and `queue0`. */
  method ReadNext(env: Env, dir: Pending, i: nat, ghost queue0: seq<Pending>, ghost trace0: seq<Visit>,
                  queue1: seq<Pending>, trace1: seq<Visit>)
    returns (out: Outcome, skip: bool, queue: seq<Pending>, trace: seq<Visit>)
    requires Reading(env, trace1, queue1, dir, i) && i < |dir.node.children|
    requires EntriesRead(env, dir, trace0, trace1) && |trace1| == |trace0| + i
    requires QueueSize(queue1) <= QueueSize(queue0) + SumSizes(dir.node.children[..i])
    ensures EntriesRead(env, dir, trace0, trace)
    ensures WalkTrace(env, trace)
    ensures QueueSize(queue) <= QueueSize(queue0) + SumSizes(dir.node.children[..i + 1])
    ensures QueueSize(queue) < QueueSize(queue0) + Size(dir.node)
    ensures out == Finished && !skip ==> Reading(env, trace, queue, dir, i + 1) && |trace| == |trace0| + i + 1
    ensures out == Finished && skip ==>
              && Between(env, trace, queue, dir.pos, true)
              && |trace| == |trace0| + i + 1
              && EntryVisit(env, dir, i).action == SkipSiblings
    ensures out == Stopped ==> Last(trace).action == Stop && StopsLast(trace) && DoneBefore(env, trace, Last(trace).pos)
    ensures out.Failed? ==> NoStop(trace) && !Recovers(env.flags)
    ensures out.Failed? ==> out.at == dir.pos + [i] && |trace| == |trace0| + i && AbortedAt(env, trace, out.at)
  {
    out, skip, queue, trace := ReadEntry(env, dir, i, queue1, trace1);
    EntryQueueBound(dir.node, i, QueueSize(queue0), QueueSize(queue1), QueueSize(queue));
    if !out.Failed? {
      EntriesReadStep(env, dir, trace0, trace1, i);
    }
  }

  /** Reads the entries of `dir` in order, until the last one or until the
      callback asks to skip the rest, to stop, or an entry fails. */
  method ReadDirectory(env: Env, dir: Pending, queue0: seq<Pending>, trace0: seq<Visit>)
    returns (out: Outcome, queue: seq<Pending>, trace: seq<Visit>)
    requires Reading(env, trace0, queue0, dir, 0)
    // the calls made are for the directory's entries, in order
    ensures EntriesRead(env, dir, trace0, trace)
    ensures WalkTrace(env, trace)
    // all entries are read unless the callback skips the rest
    ensures out == Finished ==>
              || |trace| == |trace0| + |dir.node.children|
              || (|trace| > |trace0| && EntryVisit(env, dir, |trace| - |trace0| - 1).action == SkipSiblings)
    ensures out == Finished ==> Between(env, trace, queue, dir.pos, true)
    ensures out == Stopped ==> Last(trace).action == Stop && StopsLast(trace) && DoneBefore(env, trace, Last(trace).pos)
    // failing is giving up at the next entry
    ensures out.Failed? ==> NoStop(trace) && !Recovers(env.flags)
    ensures out.Failed? ==> out.at == dir.pos + [|trace| - |trace0|] && AbortedAt(env, trace, out.at)
    ensures QueueSize(queue) < QueueSize(queue0) + Size(dir.node)
  {
    queue, trace := queue0, trace0;
    EntriesReadNone(env, dir, trace);
    var i := 0;
    while i < |dir.node.children|
      invariant Reading(env, trace, queue, dir, i)
      invariant EntriesRead(env, dir, trace0, trace) && |trace| == |trace0| + i
      invariant QueueSize(queue) <= QueueSize(queue0) + SumSizes(dir.node.children[..i])
    {
      var skip;
      out, skip, queue, trace := ReadNext(env, dir, i, queue0, trace0, queue, trace);
      if out != Finished || skip {
        return;
      }
      i := i + 1;
    }
    out := Finished;
    FinishDirectory(env, trace, queue, dir);
    SumSizesPrefix(dir.node.children, i);
  }

  /** Walks the tree below `path` breadth-first, calling `fn` for every
      file found, with at most `nopenfd` directory handles open at once.
      `trace` lists the calls made, in order; `dirs` the directories
      opened, in order; `peak` is the largest number of handles ever open;
      `opens` and `closes` count opens and closes. */
  method Walk(path: Path, fn: Callback, nopenfd: int, flags: bv32, tree: Node)
    returns (ret: int, trace: seq<Visit>, dirs: seq<Pos>, peak: nat, opens: nat, closes: nat)
    // 0 on success, -1 on failure
    ensures ret == 0 || ret == -1
    ensures nopenfd < 1 || tree.failure.Some? ==> ret == -1 && trace == []
    ensures ret == -1 && nopenfd >= 1 && tree.failure.None? ==>
              && !Recovers(flags)
              && exists f :: AbortedAt(Env(tree, path, flags, fn), trace, f) && CalledBefore(trace, f)
    ensures ret == 0 ==> trace != []
    // the root comes first; each call is for a file of the tree, with its
    // path, record and level, in breadth-first order (so levels never decrease)
    ensures trace != [] ==> trace[0].pos == []
    ensures AllDescribed(Env(tree, path, flags, fn), trace) && BreadthFirst(trace)
    // the callback's actions are obeyed
    ensures AncestorsExpanded(trace) && OnlyBelowExpanded(trace) && SiblingsSkipped(trace) && StopsLast(trace)
    ensures trace != [] && Last(trace).action == Stop ==>
              ret == 0 && DoneBefore(Env(tree, path, flags, fn), trace, Last(trace).pos)
    // without BFTW_RECOVER, an error ends the walk instead of being reported
    ensures ErrorsOnlyIfRecovering(Env(tree, path, flags, fn), trace)
    // each directory whose entries are read is opened once, within the
    // handle budget, and every handle opened is closed
    ensures |dirs| == opens && OpenedDirs(trace, dirs)
    ensures nopenfd >= 1 ==> peak <= nopenfd && peak == if opens < nopenfd then opens else nopenfd
    ensures opens == closes
    // a successful walk that was not stopped left out nothing it was not told to skip
    ensures ret == 0 && NoStop(trace) ==> Complete(Env(tree, path, flags, fn), trace)
  {
    var env := Env(tree, path, flags, fn);
    trace, dirs, peak, opens, closes := [], [], 0, 0, 0;
    if nopenfd < 1 || tree.failure.Some? {
      ret := -1;
      return;
    }
    var rootFtw := Record(tree, BaseOffset(path), 0, flags);
    var rootVisit := Visit(path, rootFtw, [], fn(path, rootFtw));
    trace := [rootVisit];
    RootOnly(env, rootVisit);
    Conclude(env, trace);
    if rootVisit.action == Stop {
      ret := 0;
      return;
    }
    var queue := if Expands(rootVisit) then [Pending(tree, path, [])] else [];
    Init(env, rootVisit, queue);
    var out;
    out, trace, dirs, peak, opens, closes := Drain(env, nopenfd, queue, trace);
    Conclude(env, trace);
    ret := if out.Failed? then -1 else 0;
  }

  /** The handles held open are for the last directories opened, in the
      order they were opened. */
  ghost predicate Recent(cache: seq<Pos>, dirs: seq<Pos>) {
    |cache| <= |dirs| && forall k | 0 <= k < |cache| :: cache[k] == dirs[|dirs| - |cache| + k]
  }

  /** Opens a handle for directory `p`, first closing the least recently
      opened one if all `nopenfd` are in use. The cache holds the last
      directories opened, in order; afterwards it ends with `p`. */
  method OpenHandle(cache0: seq<Pos>, nopenfd: int, p: Pos, ghost dirs: seq<Pos>) returns (cache: seq<Pos>, closed: nat)
    requires 1 <= nopenfd && |cache0| <= nopenfd
    requires Recent(cache0, dirs)
    ensures 1 <= |cache| <= nopenfd && closed == |cache0| + 1 - |cache|
    ensures closed <= 1 && (closed == 1 <==> |cache0| == nopenfd)
    ensures Recent(cache, dirs + [p])
  {
    cache, closed := cache0, 0;
    if |cache| == nopenfd {
      cache := cache[1..];
      closed := 1;
    }
    cache := cache + [p];
  }

  /** The bookkeeping of handles after the directories `dirs` were opened:
      one open per directory, every open either closed or still in the
      cache, and the cache as full as the budget and the opens allow,
      which is also the most ever held at once. */
  ghost predicate Handles(nopenfd: int, dirs: seq<Pos>, cache: seq<Pos>, opens: nat, closes: nat, peak: nat) {
    && opens == |dirs| && opens == closes + |cache|
    && Recent(cache, dirs)
    && peak == |cache| == (if opens < nopenfd then opens else nopenfd)
  }

  /** Opens a handle for directory `p` and counts the open, the close it
      may cost, and the largest number of handles held. */
  method CountedOpen(cache0: seq<Pos>, nopenfd: int, p: Pos, ghost dirs: seq<Pos>, opens0: nat, closes0: nat, peak0: nat)
    returns (cache: seq<Pos>, opens: nat, closes: nat, peak: nat)
    requires 1 <= nopenfd && Handles(nopenfd, dirs, cache0, opens0, closes0, peak0)
    ensures Handles(nopenfd, dirs + [p], cache, opens, closes, peak)
    ensures opens == opens0 + 1 && (closes == closes0 + 1 <==> opens0 >= nopenfd)
  {
    var closed;
    cache, closed := OpenHandle(cache0, nopenfd, p, dirs);
    opens, closes, peak := opens0 + 1, closes0 + closed, peak0;
    if |cache| > peak {
      peak := |cache|;
    }
  }

  /** Opens a handle for the directory at the head of the queue and reads
      it, recording it among the directories opened. */
  method ReadQueued(env: Env, nopenfd: int, queue0: seq<Pending>, trace0: seq<Visit>, ghost cur: Pos, ghost started: bool,
                    dirs0: seq<Pos>, cache0: seq<Pos>, opens0: nat, closes0: nat, peak0: nat)
    returns (out: Outcome, queue: seq<Pending>, trace: seq<Visit>, dirs: seq<Pos>,
             cache: seq<Pos>, opens: nat, closes: nat, peak: nat)
    requires queue0 != [] && Between(env, trace0, queue0, cur, started)
    requires OpenedDirs(trace0, dirs0) && (started <==> dirs0 != []) && (started ==> dirs0[|dirs0| - 1] == cur)
    requires 1 <= nopenfd && Handles(nopenfd, dirs0, cache0, opens0, closes0, peak0)
    ensures dirs == dirs0 + [queue0[0].pos] && OpenedDirs(trace, dirs)
    ensures |dirs| == |dirs0| + 1 && dirs[|dirs| - 1] == queue0[0].pos
    ensures Handles(nopenfd, dirs, cache, opens, closes, peak)
    ensures WalkTrace(env, trace)
    ensures out == Finished ==> Between(env, trace, queue, queue0[0].pos, true)
    ensures out == Finished ==> QueueSize(queue) < QueueSize(queue0)
    ensures out.Failed? ==> NoStop(trace)
    ensures out == Stopped ==> Last(trace).action == Stop && StopsLast(trace) && DoneBefore(env, trace, Last(trace).pos)
    ensures out.Failed? ==> !Recovers(env.flags) && AbortedAt(env, trace, out.at) && CalledBefore(trace, out.at)
  {
    var dir := queue0[0];
    cache, opens, closes, peak := CountedOpen(cache0, nopenfd, dir.pos, dirs0, opens0, closes0, peak0);
    StartDirectory(env, trace0, queue0, cur, started);
    QueueSizeFront(queue0);
    out, queue, trace := ReadDirectory(env, dir, queue0[1..], trace0);
    if out.Failed? {
      EntryAfterCalls(env, dir, trace0, trace, |trace| - |trace0|, out.at);
    }
    OpenedStep(env, dir, trace0, trace, dirs0);
    dirs := dirs0 + [dir.pos];
  }

  /** The walk after the root call: takes directories from the queue in
      order and reads each one, until the queue is empty, the callback
      stops the walk or an entry cannot be processed. */
  method Drain(env: Env, nopenfd: int, queue0: seq<Pending>, trace0: seq<Visit>)
    returns (out: Outcome, trace: seq<Visit>, dirs: seq<Pos>, peak: nat, opens: nat, closes: nat)
    requires nopenfd >= 1
    requires Between(env, trace0, queue0, [], false) && OpenedDirs(trace0, [])
    ensures WalkTrace(env, trace)
    ensures out != Stopped ==> NoStop(trace)
    ensures out == Finished ==> Complete(env, trace)
    ensures out == Stopped ==> Last(trace).action == Stop && StopsLast(trace) && DoneBefore(env, trace, Last(trace).pos)
    ensures out.Failed? ==> !Recovers(env.flags) && AbortedAt(env, trace, out.at) && CalledBefore(trace, out.at)
    ensures |dirs| == opens && OpenedDirs(trace, dirs)
    ensures peak <= nopenfd && opens == closes
    // the handles open at once grow to nopenfd and then stay there
    ensures peak == if opens < nopenfd then opens else nopenfd
  {
    var queue := queue0;
    trace, dirs, peak, opens, closes := trace0, [], 0, 0, 0;
    // The handles held open, least recently opened first.
    var cache: seq<Pos> := [];
    ghost var cur: Pos := [];
    ghost var started := false;
    while queue != []
      invariant Between(env, trace, queue, cur, started)
      invariant OpenedDirs(trace, dirs) && (started <==> dirs != []) && (started ==> dirs[|dirs| - 1] == cur)
      invariant Handles(nopenfd, dirs, cache, opens, closes, peak)
      decreases QueueSize(queue)
    {
      var dir := queue[0];
      out, queue, trace, dirs, cache, opens, closes, peak :=
        ReadQueued(env, nopenfd, queue, trace, cur, started, dirs, cache, opens, closes, peak);
      if out != Finished {
        closes := closes + |cache|;
        cache := [];
        return;
      }
      cur := dir.pos;
      started := true;
    }
    out := Finished;
    closes := closes + |cache|;
    cache := [];
    Drained(env, trace, cur, started);
  }

  // -----------------------------------------------------------------------
  // Consequences of what the walk promises

  /** Levels: the root is at level 0 and levels never decrease. */
  lemma LevelOrder(env: Env, trace: seq<Visit>)
    requires trace != [] && trace[0].pos == [] && AllDescribed(env, trace) && BreadthFirst(trace)
    ensures trace[0].ftw.level == 0
    ensures forall m, n | 0 <= m < n < |trace| :: trace[m].ftw.level <= trace[n].ftw.level
  {
    assert Describes(env, trace[0]);
    forall m, n | 0 <= m < n < |trace| ensures trace[m].ftw.level <= trace[n].ftw.level {
      assert Describes(env, trace[m]) && Describes(env, trace[n]);
      assert Less(trace[m].pos, trace[n].pos);
    }
  }

  /** SKIP_SUBTREE: nothing below a file whose call returned it is called. */
  lemma SkipSubtreeObeyed(trace: seq<Visit>, i: nat, j: nat)
    requires OnlyBelowExpanded(trace) && i < |trace| && j < |trace| && trace[i].action == SkipSubtree
    ensures !StrictPrefix(trace[i].pos, trace[j].pos)
  {
  }

  /** For an entry with a proper name, the base offset is where the basename
      of its path starts, and the dirname is the path of its directory. */
  lemma EntryBasename(env: Env, v: Visit)
    requires Describes(env, v) && v.pos != []
    requires var n := Lookup(env.tree, v.pos).value; n.name != [] && '/' !in n.name
    ensures v.ftw.base <= |v.fpath| && Basename(v.fpath) == v.fpath[v.ftw.base..]
    ensures var d := StripTrailingSlashes(PathOf(env.root, env.tree, Parent(v.pos)));
            Dirname(v.fpath) == if d == [] then "/" else d
  {
    EntryBase(env, v);
    var n := Lookup(env.tree, v.pos).value;
    assert v.fpath == JoinPath(PathOf(env.root, env.tree, Parent(v.pos)), n.name);
    ChildPathDecomposes(PathOf(env.root, env.tree, Parent(v.pos)), n.name);
  }

  /** The ancestors of a file of the tree are files of the tree. */
  lemma {:induction false} LookupPrefix(t: Node, p: Pos, k: nat)
    requires Lookup(t, p).Some? && k <= |p|
    ensures Lookup(t, p[..k]).Some?
    decreases |p|
  {
    if k < |p| {
      LookupPrefix(t, Parent(p), k);
      assert Parent(p)[..k] == p[..k];
    } else {
      assert p[..k] == p;
    }
  }

  /** Each prefix of a called position lies below directories the walk
      could read. */
  lemma {:induction false} PrefixReachable(env: Env, trace: seq<Visit>, m: nat, k: nat)
    requires AllDescribed(env, trace) && AncestorsExpanded(trace)
    requires m < |trace| && k <= |trace[m].pos|
    ensures Reachable(env.tree, trace[m].pos[..k])
    decreases k
  {
    var p := trace[m].pos[..k];
    if k > 0 {
      PrefixReachable(env, trace, m, k - 1);
      assert Parent(p) == trace[m].pos[..k - 1];
      assert Parent(p) in Expanded(trace);
      var n :| 0 <= n < |trace| && Expands(trace[n]) && trace[n].pos == Parent(p);
      ExpandsEnterable(env, trace[n]);
      assert Describes(env, trace[m]);
      LookupPrefix(env.tree, trace[m].pos, k);
      ReachableChild(env.tree, p);
    }
  }

  /** A file the walk descends into is a directory that can be read. */
  lemma ExpandsEnterable(env: Env, v: Visit)
    requires Describes(env, v) && Expands(v)
    ensures Enterable(env.tree, v.pos)
  {
  }

  /** A file of the tree whose directory is reachable and can be read is
      reachable. */
  lemma ReachableChild(t: Node, p: Pos)
    requires p != [] && Lookup(t, p).Some?
    requires Reachable(t, Parent(p)) && Enterable(t, Parent(p))
    ensures Reachable(t, p)
  {
  }

  /** Soundness: the walk calls the callback only for files it can reach,
      never below a file that is not a readable directory. */
  lemma VisitedReachable(env: Env, trace: seq<Visit>, m: nat)
    requires AllDescribed(env, trace) && AncestorsExpanded(trace) && m < |trace|
    ensures Reachable(env.tree, trace[m].pos)
  {
    PrefixReachable(env, trace, m, |trace[m].pos|);
    assert trace[m].pos[..|trace[m].pos|] == trace[m].pos;
  }

  /** Every call returned Continue. */
  ghost predicate AllContinue(trace: seq<Visit>) {
    forall m | 0 <= m < |trace| :: trace[m].action == Continue
  }

  /** A directory that was called has its first entry called, when no call
      skips anything. */
  lemma FirstEntryVisited(env: Env, trace: seq<Visit>, d: Pos)
    requires AllDescribed(env, trace) && Complete(env, trace) && AllContinue(trace)
    requires d in Positions(trace) && Enterable(env.tree, d) && 0 < ChildCount(env.tree, d)
    ensures d + [0] in Positions(trace)
  {
    var m :| 0 <= m < |trace| && trace[m].pos == d;
    assert Describes(env, trace[m]);
    assert FirstChildSeen(env, trace[m], Positions(trace));
  }

  /** After entry k - 1 of a directory, entry k is called, when no call
      skips anything. */
  lemma NextEntryVisited(env: Env, trace: seq<Visit>, d: Pos, k: nat)
    requires Complete(env, trace) && AllContinue(trace)
    requires 0 < k < ChildCount(env.tree, d) && d + [k - 1] in Positions(trace)
    ensures d + [k] in Positions(trace)
  {
    var m :| 0 <= m < |trace| && trace[m].pos == d + [k - 1];
    assert Parent(trace[m].pos) == d && Index(trace[m].pos) == k - 1;
    assert NextSiblingSeen(env, trace[m], Positions(trace));
  }

  /** Once the first entry of a directory is called, entries 0..k all are,
      when no call skips anything. */
  lemma {:induction false} EntriesVisited(env: Env, trace: seq<Visit>, d: Pos, k: nat)
    requires Complete(env, trace) && AllContinue(trace)
    requires d + [0] in Positions(trace) && k < ChildCount(env.tree, d)
    ensures d + [k] in Positions(trace)
    decreases k
  {
    if k > 0 {
      EntriesVisited(env, trace, d, k - 1);
      NextEntryVisited(env, trace, d, k);
    }
  }

  /** Completeness: when every call returns Continue, a walk that ends with
      all its duties done calls the callback for every reachable file. */
  lemma {:induction false} ReachableVisited(env: Env, trace: seq<Visit>, p: Pos)
    requires trace != [] && trace[0].pos == [] && AllDescribed(env, trace) && Complete(env, trace)
    requires AllContinue(trace)
    requires Reachable(env.tree, p)
    ensures p in Positions(trace)
    decreases |p|
  {
    if p == [] {
      assert trace[0].pos in Positions(trace);
    } else {
      ReachableVisited(env, trace, Parent(p));
      assert p == Parent(p) + [Index(p)];
      FirstEntryVisited(env, trace, Parent(p));
      EntriesVisited(env, trace, Parent(p), Index(p));
    }
  }

}
