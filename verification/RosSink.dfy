/** The path-aggregated diagnostics tree and its rate-limited publication. */
module RosSink {
  import opened Messages
  import opened Options
  import opened Paths

  datatype RosStatus = RosStatus(level: int, name: string, message: string, hardwareId: string, values: seq<Entry>)

  function ToStatus(m: Message, name: string): RosStatus {
    RosStatus(m.level, name, m.msg, m.hwId, m.values)
  }

  function LevelMessage(level: int): string {
    match level
    case 0 => "OK"
    case 1 => "WARN"
    case 2 => "ERROR"
    case 3 => "STALE"
    case _ => "UNKNOWN"
  }

  function ToGroupStatus(name: string, level: int): RosStatus {
    RosStatus(level, name, LevelMessage(level), "", [])
  }

  // ---------------------------------------------------------------- what the tree must be

  function LeafPath(root: string, node: string): string {
    PathOf(Segments(root, node), |Segments(root, node)|)
  }

  /** A node lies beneath a path when the path is one of its segment prefixes, its own leaf included. */
  ghost predicate Beneath(root: string, node: string, path: string) {
    exists n | 1 <= n <= |Segments(root, node)| :: PathOf(Segments(root, node), n) == path
  }

  ghost predicate Occupied(root: string, states: map<string, Message>, path: string) {
    exists k | k in states :: LeafPath(root, states[k].node) == path
  }

  /** Key k is the last key, in sorted order, whose message occupies the path. */
  ghost predicate Wins(root: string, states: map<string, Message>, path: string, k: string) {
    && k in states && LeafPath(root, states[k].node) == path
    && forall other | other in states && LeafPath(root, states[other].node) == path :: other == k || Less(other, k)
  }

  /** The maximum of 0 and the levels of the messages beneath a path. */
  ghost predicate IsWorst(root: string, states: map<string, Message>, path: string, level: int) {
    && level >= 0
    && (forall k | k in states && Beneath(root, states[k].node, path) :: states[k].level <= level)
    && (level == 0 || exists k | k in states && Beneath(root, states[k].node, path) :: states[k].level == level)
  }

  ghost predicate StatusFor(root: string, states: map<string, Message>, status: RosStatus) {
    if Occupied(root, states, status.name) then
      exists k :: Wins(root, states, status.name, k) && status == ToStatus(states[k], status.name)
    else
      exists level :: IsWorst(root, states, status.name, level) && status == ToGroupStatus(status.name, level)
  }

  ghost predicate Appears(statuses: seq<RosStatus>, path: string) {
    exists i | 0 <= i < |statuses| :: statuses[i].name == path
  }

  ghost predicate PathOfSomeNode(root: string, states: map<string, Message>, path: string) {
    exists k | k in states :: Beneath(root, states[k].node, path)
  }

  /** Every prefix path of every node, once, in increasing order; messages where a path is occupied and
      the worst level beneath it everywhere else. */
  ghost predicate IsTree(root: string, states: map<string, Message>, statuses: seq<RosStatus>) {
    && (forall i, j | 0 <= i < j < |statuses| :: Less(statuses[i].name, statuses[j].name))
    && (forall path :: Appears(statuses, path) <==> PathOfSomeNode(root, states, path))
    && (forall i | 0 <= i < |statuses| :: StatusFor(root, states, statuses[i]))
  }

  // ---------------------------------------------------------------- consequences

  /** Everything beneath a path is beneath every ancestor of that path. */
  lemma BeneathAncestor(root: string, node: string, i: nat, j: nat, other: string)
    requires 1 <= i <= j <= |Segments(root, node)|
    requires Beneath(root, other, PathOf(Segments(root, node), j))
    ensures Beneath(root, other, PathOf(Segments(root, node), i))
  {
    var segs, theirs := Segments(root, node), Segments(root, other);
    var n :| 1 <= n <= |theirs| && PathOf(theirs, n) == PathOf(segs, j);
    PathInjective(root, other, n, node, j);
    assert theirs[..i] == theirs[..n][..i] == segs[..j][..i] == segs[..i];
    assert PathOf(theirs, i) == PathOf(segs, i);
  }

  /** Levels never decrease on the way up to an unoccupied ancestor. */
  lemma UnoccupiedAncestorsDominate(root: string, states: map<string, Message>, node: string, i: nat, j: nat,
                                    upper: RosStatus, lower: RosStatus)
    requires 1 <= i <= j <= |Segments(root, node)|
    requires upper.name == PathOf(Segments(root, node), i) && lower.name == PathOf(Segments(root, node), j)
    requires StatusFor(root, states, upper) && StatusFor(root, states, lower)
    requires !Occupied(root, states, upper.name)
    ensures lower.level <= upper.level
  {
    var worst :| IsWorst(root, states, upper.name, worst) && upper == ToGroupStatus(upper.name, worst);
    if Occupied(root, states, lower.name) {
      var k :| Wins(root, states, lower.name, k) && lower == ToStatus(states[k], lower.name);
      LeafBeneath(root, states[k].node);
      BeneathAncestor(root, node, i, j, states[k].node);
    } else {
      var level :| IsWorst(root, states, lower.name, level) && lower == ToGroupStatus(lower.name, level);
      if level != 0 {
        var k :| k in states && Beneath(root, states[k].node, lower.name) && states[k].level == level;
        BeneathAncestor(root, node, i, j, states[k].node);
      }
    }
  }

  /** The leaf of a node that is given by its segments. */
  lemma LeafOfName(root: string, segs: seq<string>)
    requires forall i | 0 <= i < |segs| :: Segment(segs[i])
    ensures LeafPath(root, Join(segs))
         == if segs != [] && segs[0] == root then "/" + Join(segs)
            else if segs == [] then "/" + root else "/" + root + "/" + Join(segs)
  {
    SegmentsOfName(root, segs);
    WholePath(Segments(root, Join(segs)));
    JoinHead(root, segs);
    if segs != [] && segs[0] == root {
      assert [root] + segs[1..] == segs;
    }
  }

  lemma WholePath(segs: seq<string>)
    ensures PathOf(segs, |segs|) == "/" + Join(segs)
  {
    assert segs[..|segs|] == segs;
  }

  /** What a status of the tree says, field by field: the last message that occupies its path, or the worst
      level beneath the path by its name. */
  lemma StatusSays(root: string, states: map<string, Message>, status: RosStatus)
    requires StatusFor(root, states, status)
    ensures Occupied(root, states, status.name) ==>
              exists k :: Wins(root, states, status.name, k) && Copies(status, states[k])
    ensures !Occupied(root, states, status.name) ==>
              && IsWorst(root, states, status.name, status.level) && status.hardwareId == "" && status.values == []
              && status.message == if status.level <= 3 then ["OK", "WARN", "ERROR", "STALE"][status.level]
                                   else "UNKNOWN"
  {
    if Occupied(root, states, status.name) {
      var k :| Wins(root, states, status.name, k) && status == ToStatus(states[k], status.name);
      assert Copies(status, states[k]);
    }
  }

  predicate Copies(status: RosStatus, m: Message) {
    status.level == m.level && status.message == m.msg && status.hardwareId == m.hwId && status.values == m.values
  }

  lemma LeafBeneath(root: string, node: string)
    ensures Beneath(root, node, LeafPath(root, node))
  {
    assert PathOf(Segments(root, node), |Segments(root, node)|) == LeafPath(root, node);
  }

  lemma PrefixBeneath(root: string, node: string, other: string)
    ensures Beneath(root, other, LeafPath(root, node)) <==> Segments(root, node) <= Segments(root, other)
  {
    var mine, theirs := Segments(root, node), Segments(root, other);
    assert mine[..|mine|] == mine;
    if mine <= theirs {
      assert theirs[..|mine|] == mine;
      assert PathOf(theirs, |mine|) == PathOf(mine, |mine|);
    }
    if Beneath(root, other, LeafPath(root, node)) {
      var n :| 1 <= n <= |theirs| && PathOf(theirs, n) == LeafPath(root, node);
      PathInjective(root, other, n, node, |mine|);
    }
  }

  /** Two nodes share a leaf exactly when their canonical segments are the same. */
  lemma ShareLeafIff(root: string, a: string, b: string)
    ensures LeafPath(root, a) == LeafPath(root, b) <==> Segments(root, a) == Segments(root, b)
  {
    if LeafPath(root, a) == LeafPath(root, b) {
      PathInjective(root, a, |Segments(root, a)|, b, |Segments(root, b)|);
      assert Segments(root, a)[..|Segments(root, a)|] == Segments(root, a);
      assert Segments(root, b)[..|Segments(root, b)|] == Segments(root, b);
    }
  }

  /** Nothing beneath a status is worse than the status. */
  ghost predicate Covers(root: string, states: map<string, Message>, status: RosStatus) {
    forall k | k in states && Beneath(root, states[k].node, status.name) :: states[k].level <= status.level
  }

  /** Key k is the last one, in sorted order, with its canonical segments. */
  ghost predicate LastOfItsPath(root: string, states: map<string, Message>, k: string) {
    && k in states
    && forall other | other in states && Segments(root, states[other].node) == Segments(root, states[k].node) ::
         other == k || Less(other, k)
  }

  lemma LaterNode(root: string, states: map<string, Message>, node: string) returns (k: string)
    requires node in states && !LastOfItsPath(root, states, node)
    ensures k in states && Segments(root, states[k].node) == Segments(root, states[node].node) && Less(node, k)
  {
    k :| k in states && Segments(root, states[k].node) == Segments(root, states[node].node)
         && !(k == node || Less(k, node));
    LessTotal(k, node);
  }

  /** A message that is shown is at least as bad as every message whose path extends its own. */
  ghost predicate HidesNothing(root: string, states: map<string, Message>) {
    forall k, other | LastOfItsPath(root, states, k) && other in states
                      && Segments(root, states[k].node) <= Segments(root, states[other].node) ::
      states[other].level <= states[k].level
  }

  lemma WinsIff(root: string, states: map<string, Message>, path: string, k: string)
    requires k in states && LeafPath(root, states[k].node) == path
    ensures Wins(root, states, path, k) <==> LastOfItsPath(root, states, k)
  {
    forall other | other in states
      ensures LeafPath(root, states[other].node) == path
         <==> Segments(root, states[other].node) == Segments(root, states[k].node)
    {
      ShareLeafIff(root, states[other].node, states[k].node);
    }
  }

  /** A status of an occupied path covers what its winner covers; every other one covers everything. */
  lemma StatusCovers(root: string, states: map<string, Message>, status: RosStatus)
    requires StatusFor(root, states, status) && HidesNothing(root, states)
    ensures Covers(root, states, status)
  {
    if Occupied(root, states, status.name) {
      var k :| Wins(root, states, status.name, k) && status == ToStatus(states[k], status.name);
      WinsIff(root, states, status.name, k);
      forall other | other in states && Beneath(root, states[other].node, status.name)
        ensures states[other].level <= status.level
      {
        PrefixBeneath(root, states[k].node, states[other].node);
      }
    }
  }

  lemma WinnerShown(root: string, states: map<string, Message>, statuses: seq<RosStatus>, k: string)
    returns (i: nat)
    requires IsTree(root, states, statuses) && LastOfItsPath(root, states, k)
    ensures i < |statuses| && statuses[i] == ToStatus(states[k], LeafPath(root, states[k].node))
  {
    var path := LeafPath(root, states[k].node);
    LeafBeneath(root, states[k].node);
    assert PathOfSomeNode(root, states, path);
    i :| 0 <= i < |statuses| && statuses[i].name == path;
    assert StatusFor(root, states, statuses[i]);
    assert Occupied(root, states, path);
    WinsIff(root, states, path, k);
    var w :| Wins(root, states, path, w) && statuses[i] == ToStatus(states[w], path);
    LessTotal(w, k);
  }

  /** Every status of the tree is at least as bad as everything beneath it exactly when no shown message
      hides a worse one on a path that extends its own: a fact about the messages alone. */
  lemma TreeCoversIff(root: string, states: map<string, Message>, statuses: seq<RosStatus>)
    requires IsTree(root, states, statuses)
    ensures (forall i | 0 <= i < |statuses| :: Covers(root, states, statuses[i])) <==> HidesNothing(root, states)
  {
    if HidesNothing(root, states) {
      forall i | 0 <= i < |statuses|
        ensures Covers(root, states, statuses[i])
      {
        StatusCovers(root, states, statuses[i]);
      }
    }
    if forall i | 0 <= i < |statuses| :: Covers(root, states, statuses[i]) {
      forall k, other | LastOfItsPath(root, states, k) && other in states
                        && Segments(root, states[k].node) <= Segments(root, states[other].node)
        ensures states[other].level <= states[k].level
      {
        var i := WinnerShown(root, states, statuses, k);
        PrefixBeneath(root, states[k].node, states[other].node);
        assert Covers(root, states, statuses[i]);
      }
    }
  }

  /** Such a tree: with an error below a node that reports OK itself, that node is shown at OK. */
  lemma ErrorHiddenBelowOk(ok: Message, bad: Message, statuses: seq<RosStatus>) returns (i: nat)
    requires ok.node == "a" && ok.level == 0 && bad.node == "a/b" && bad.level == 2
    requires IsTree("Robot", map["a" := ok, "a/b" := bad], statuses)
    ensures i < |statuses| && statuses[i].name == "/Robot/a" && statuses[i].level == 0
    ensures !Covers("Robot", map["a" := ok, "a/b" := bad], statuses[i])
  {
    var states := map["a" := ok, "a/b" := bad];
    SegmentsOfPair();
    assert LastOfItsPath("Robot", states, "a") by {
      assert "a" in states;
      assert forall k | k in states :: k == "a" || k == "a/b";
      assert |Segments("Robot", "a")| != |Segments("Robot", "a/b")|;
    }
    i := WinnerShown("Robot", states, statuses, "a");
    assert "a/b" in states;
    assert PathOf(Segments("Robot", "a/b"), 2) == "/Robot/a";
    assert Beneath("Robot", states["a/b"].node, statuses[i].name);
  }

  lemma SegmentsOfPair()
    ensures Segments("Robot", "a") == ["Robot", "a"] && Segments("Robot", "a/b") == ["Robot", "a", "b"]
    ensures PathOf(["Robot", "a"], 2) == "/Robot/a" && PathOf(["Robot", "a", "b"], 2) == "/Robot/a"
    ensures PathOf(["Robot", "a", "b"], 3) == "/Robot/a/b"
  {
    PiecesOfSegment("a");
    PiecesOfSegment("b");
    PiecesAtSlash("a", "b");
    assert "a" + "/" + "b" == "a/b";
    assert Strip("a") == "a" && Strip("a/b") == "a/b";
    assert Segments("Robot", "a") == ["Robot"] + ["a"];
    assert Segments("Robot", "a/b") == ["Robot"] + (["a"] + ["b"]);
    assert ["Robot", "a"][..2] == ["Robot", "a", "b"][..2] == ["Robot"] + ["a"];
    assert ["Robot", "a", "b"][..3] == ["Robot"] + ["a", "b"];
    assert (["Robot"] + ["a"])[1..] == ["a"] && (["Robot"] + ["a", "b"])[1..] == ["a", "b"] && ["a", "b"][1..] == ["b"];
  }

  // ---------------------------------------------------------------- the tree is a function of the messages

  lemma StatusUnique(root: string, states: map<string, Message>, a: RosStatus, b: RosStatus)
    requires StatusFor(root, states, a) && StatusFor(root, states, b) && a.name == b.name
    ensures a == b
  {
    if Occupied(root, states, a.name) {
      var j :| Wins(root, states, a.name, j) && a == ToStatus(states[j], a.name);
      var k :| Wins(root, states, a.name, k) && b == ToStatus(states[k], a.name);
      LessTotal(j, k);
    } else {
      var x :| IsWorst(root, states, a.name, x) && a == ToGroupStatus(a.name, x);
      var y :| IsWorst(root, states, a.name, y) && b == ToGroupStatus(a.name, y);
      WorstUnique(root, states, a.name, x, y);
    }
  }

  lemma WorstUnique(root: string, states: map<string, Message>, path: string, x: int, y: int)
    requires IsWorst(root, states, path, x) && IsWorst(root, states, path, y)
    ensures x == y
  {}

  function Names(statuses: seq<RosStatus>): (names: seq<string>)
    ensures |names| == |statuses| && forall i | 0 <= i < |names| :: names[i] == statuses[i].name
  {
    seq(|statuses|, i requires 0 <= i < |statuses| => statuses[i].name)
  }

  lemma {:induction false} SortedUnique(a: seq<string>, b: seq<string>)
    requires StrictlySorted(a) && StrictlySorted(b) && forall x :: x in a <==> x in b
    ensures a == b
  {
    if a == [] {
      SomeMember(b);
    } else {
      assert a[0] in b;
      var init, init' := a[..|a| - 1], b[..|b| - 1];
      SameLast(a, b);
      forall x
        ensures x in init <==> x in init'
      {
        InInit(a, x);
        InInit(b, x);
      }
      SortedUnique(init, init');
      assert a == init + [a[|a| - 1]] && b == init' + [b[|b| - 1]];
    }
  }

  lemma SomeMember(b: seq<string>)
    ensures b == [] || exists x :: x in b
  {
    if b != [] {
      assert b[0] in b;
    }
  }

  lemma InInit(a: seq<string>, x: string)
    requires a != [] && StrictlySorted(a)
    ensures x in a[..|a| - 1] <==> x in a && x != a[|a| - 1]
  {
    LessTotal(x, x);
    assert a == a[..|a| - 1] + [a[|a| - 1]];
  }

  lemma SameLast(a: seq<string>, b: seq<string>)
    requires StrictlySorted(a) && StrictlySorted(b) && a != [] && b != [] && forall x :: x in a <==> x in b
    ensures a[|a| - 1] == b[|b| - 1]
  {
    var x, y := a[|a| - 1], b[|b| - 1];
    assert x in b && y in a;
    LessTotal(x, y);
  }

  lemma NamesMembers(root: string, states: map<string, Message>, statuses: seq<RosStatus>)
    requires IsTree(root, states, statuses)
    ensures StrictlySorted(Names(statuses))
    ensures forall path :: path in Names(statuses) <==> PathOfSomeNode(root, states, path)
  {
    forall path
      ensures path in Names(statuses) <==> Appears(statuses, path)
    {
      if Appears(statuses, path) {
        var i :| 0 <= i < |statuses| && statuses[i].name == path;
        assert Names(statuses)[i] == path;
      }
    }
  }

  lemma TreeUnique(root: string, states: map<string, Message>, a: seq<RosStatus>, b: seq<RosStatus>)
    requires IsTree(root, states, a) && IsTree(root, states, b)
    ensures a == b
  {
    NamesMembers(root, states, a);
    NamesMembers(root, states, b);
    SortedUnique(Names(a), Names(b));
    forall i | 0 <= i < |a|
      ensures a[i] == b[i]
    {
      assert a[i].name == Names(a)[i] == Names(b)[i] == b[i].name;
      StatusUnique(root, states, a[i], b[i]);
    }
  }

  /** Two snapshots put the same status on every path. */
  ghost predicate SameTree(root: string, a: map<string, Message>, b: map<string, Message>) {
    && (forall path :: PathOfSomeNode(root, a, path) <==> PathOfSomeNode(root, b, path))
    && forall status: RosStatus | PathOfSomeNode(root, a, status.name) ::
         StatusFor(root, a, status) <==> StatusFor(root, b, status)
  }

  /** An array that is the tree of one snapshot is that of another exactly when they agree on every path. */
  lemma TreeOfIff(root: string, a: map<string, Message>, b: map<string, Message>, statuses: seq<RosStatus>)
    requires IsTree(root, a, statuses)
    ensures IsTree(root, b, statuses) <==> SameTree(root, a, b)
  {
    if SameTree(root, a, b) {
      forall i | 0 <= i < |statuses|
        ensures StatusFor(root, b, statuses[i])
      {
        assert Appears(statuses, statuses[i].name);
      }
    }
    if IsTree(root, b, statuses) {
      forall status: RosStatus | PathOfSomeNode(root, a, status.name)
        ensures StatusFor(root, a, status) <==> StatusFor(root, b, status)
      {
        var i :| 0 <= i < |statuses| && statuses[i].name == status.name;
        AgreeAt(root, a, b, statuses[i], status);
      }
    }
  }

  lemma AgreeAt(root: string, a: map<string, Message>, b: map<string, Message>, shown: RosStatus, status: RosStatus)
    requires StatusFor(root, a, shown) && StatusFor(root, b, shown) && shown.name == status.name
    ensures StatusFor(root, a, status) <==> StatusFor(root, b, status)
  {
    if StatusFor(root, a, status) {
      StatusUnique(root, a, shown, status);
    }
    if StatusFor(root, b, status) {
      StatusUnique(root, b, shown, status);
    }
  }

  // ---------------------------------------------------------------- the two building loops

  /** Some message among the keys lies beneath the path. */
  ghost predicate AnyBeneath(root: string, states: map<string, Message>, keys: seq<string>, path: string) {
    exists k | k in keys && k in states :: Beneath(root, states[k].node, path)
  }

  /** Worst level beneath a path among the messages of some keys. */
  ghost function WorstOf(root: string, states: map<string, Message>, keys: seq<string>, path: string): (level: int)
    ensures level >= 0
    ensures forall k | k in keys && k in states && Beneath(root, states[k].node, path) :: states[k].level <= level
    ensures level == 0
            || exists k | k in keys && k in states && Beneath(root, states[k].node, path) :: states[k].level == level
  {
    if keys == [] then 0
    else
      var init, last := keys[..|keys| - 1], keys[|keys| - 1];
      assert keys == init + [last];
      var level := WorstOf(root, states, init, path);
      if last in states && Beneath(root, states[last].node, path) then Max(level, states[last].level) else level
  }

  /** The last key whose message occupies the path. */
  ghost function LastKey(root: string, states: map<string, Message>, keys: seq<string>,
                         path: string): (r: Option<string>)
    ensures r.Some? ==> r.value in states
  {
    if keys == [] then None
    else
      var last := keys[|keys| - 1];
      if last in states && LeafPath(root, states[last].node) == path then Some(last)
      else LastKey(root, states, keys[..|keys| - 1], path)
  }

  lemma {:induction false} LastKeyWins(root: string, states: map<string, Message>, keys: seq<string>, path: string)
    requires StrictlySorted(keys) && forall k | k in keys :: k in states
    ensures var r := LastKey(root, states, keys, path);
      && (r.None? ==> forall k | k in keys :: LeafPath(root, states[k].node) != path)
      && (r.Some? ==> r.value in keys && LeafPath(root, states[r.value].node) == path)
      && (r.Some? ==>
            forall k | k in keys && LeafPath(root, states[k].node) == path :: k == r.value || Less(k, r.value))
  {
    if keys == [] {
    } else {
      var init, last := keys[..|keys| - 1], keys[|keys| - 1];
      assert keys == init + [last];
      LastKeyWins(root, states, init, path);
      forall k | k in init
        ensures Less(k, last)
      {
        var i :| 0 <= i < |init| && init[i] == k;
        assert keys[i] == k && keys[|keys| - 1] == last;
      }
    }
  }

  /** group_levels after some keys: exactly the paths above their messages, at the worst level so far. */
  ghost predicate GroupsAre(root: string, states: map<string, Message>, keys: seq<string>, groups: map<string, int>) {
    forall path ::
      && (path in groups <==> AnyBeneath(root, states, keys, path))
      && (path in groups ==> groups[path] == WorstOf(root, states, keys, path))
  }

  /** leaf_statuses after some keys: the last message that occupies each path. */
  ghost predicate LeavesAre(root: string, states: map<string, Message>, keys: seq<string>,
                            leaves: map<string, RosStatus>) {
    forall path ::
      var k := LastKey(root, states, keys, path);
      && (path in leaves <==> k.Some?)
      && (path in leaves ==> leaves[path] == ToStatus(states[k.value], path))
  }

  function GetOr(m: map<string, int>, k: string, default: int): int {
    if k in m then m[k] else default
  }

  function Max(a: int, b: int): int { if a < b then b else a }

  /** The inner loop: raises the level of every prefix path of one message. */
  method RaiseLevels(root: string, m: Message, groups: map<string, int>) returns (r: map<string, int>)
    ensures forall path :: path in r <==> path in groups || Beneath(root, m.node, path)
    ensures forall path | path in r ::
              r[path] == if Beneath(root, m.node, path) then Max(GetOr(groups, path, 0), m.level) else groups[path]
  {
    var segments := Segments(root, m.node);
    r := groups;
    for length := 1 to |segments| + 1
      invariant forall path :: path in r <==> path in groups || BeneathUpTo(segments, length, path)
      invariant forall path | path in r ::
                  r[path] == if BeneathUpTo(segments, length, path) then Max(GetOr(groups, path, 0), m.level)
                             else groups[path]
    {
      var path := PathOf(segments, length);
      UpToNext(segments, length);
      r := r[path := Max(GetOr(r, path, 0), m.level)];
    }
    assert forall path :: BeneathUpTo(segments, |segments| + 1, path) == Beneath(root, m.node, path);
  }

  ghost predicate BeneathUpTo(segments: seq<string>, length: nat, path: string)
    requires length <= |segments| + 1
  {
    exists n | 1 <= n < length :: PathOf(segments, n) == path
  }

  lemma UpToNext(segments: seq<string>, length: nat)
    requires 1 <= length <= |segments|
    ensures forall path ::
              BeneathUpTo(segments, length + 1, path)
              <==> BeneathUpTo(segments, length, path) || path == PathOf(segments, length)
  {
    forall path | BeneathUpTo(segments, length, path) || path == PathOf(segments, length)
      ensures BeneathUpTo(segments, length + 1, path)
    {
      var n :| 1 <= n < length + 1 && PathOf(segments, n) == path;
    }
  }

  lemma GroupsNext(root: string, states: map<string, Message>, keys: seq<string>, k: string,
                   groups: map<string, int>, r: map<string, int>)
    requires k in states
    requires GroupsAre(root, states, keys, groups)
    requires forall path :: path in r <==> path in groups || Beneath(root, states[k].node, path)
    requires forall path | path in r ::
               r[path] == if Beneath(root, states[k].node, path) then Max(GetOr(groups, path, 0), states[k].level)
                          else groups[path]
    ensures GroupsAre(root, states, keys + [k], r)
  {
    var more := keys + [k];
    assert more[..|more| - 1] == keys && more[|more| - 1] == k;
    forall path
      ensures path in r <==> AnyBeneath(root, states, more, path)
      ensures path in r ==> r[path] == WorstOf(root, states, more, path)
    {
      assert path in groups <==> AnyBeneath(root, states, keys, path);
      assert k in more;
      if path !in groups {
        assert WorstOf(root, states, keys, path) == 0;
      }
    }
  }

  lemma LeavesNext(root: string, states: map<string, Message>, keys: seq<string>, k: string,
                   leaves: map<string, RosStatus>)
    requires k in states
    requires LeavesAre(root, states, keys, leaves)
    ensures var leaf := LeafPath(root, states[k].node);
      LeavesAre(root, states, keys + [k], leaves[leaf := ToStatus(states[k], leaf)])
  {
    var more := keys + [k];
    assert more[..|more| - 1] == keys && more[|more| - 1] == k;
  }

  /** One turn of the outer loop. */
  method AddMessage(root: string, states: map<string, Message>, ghost done: seq<string>, k: string,
                    groups: map<string, int>, leaves: map<string, RosStatus>)
    returns (groups': map<string, int>, leaves': map<string, RosStatus>)
    requires k in states
    requires GroupsAre(root, states, done, groups) && LeavesAre(root, states, done, leaves)
    ensures GroupsAre(root, states, done + [k], groups') && LeavesAre(root, states, done + [k], leaves')
  {
    var m := states[k];
    LeavesNext(root, states, done, k, leaves);
    leaves' := leaves[LeafPath(root, m.node) := ToStatus(m, LeafPath(root, m.node))];
    groups' := RaiseLevels(root, m, groups);
    GroupsNext(root, states, done, k, groups, groups');
  }

  lemma PrefixSnoc(keys: seq<string>, i: nat)
    requires i < |keys|
    ensures keys[..i + 1] == keys[..i] + [keys[i]]
  {}

  /** The outer loop over the messages in key order. */
  method Collect(root: string, states: map<string, Message>, keys: seq<string>)
    returns (groups: map<string, int>, leaves: map<string, RosStatus>)
    requires forall k | k in keys :: k in states
    ensures GroupsAre(root, states, keys, groups) && LeavesAre(root, states, keys, leaves)
  {
    groups, leaves := map[], map[];
    ghost var done: seq<string> := [];
    for i := 0 to |keys|
      invariant done == keys[..i]
      invariant GroupsAre(root, states, done, groups) && LeavesAre(root, states, done, leaves)
    {
      groups, leaves := AddMessage(root, states, done, keys[i], groups, leaves);
      PrefixSnoc(keys, i);
      done := done + [keys[i]];
    }
    assert done == keys;
  }

  method BuildAggregatedStatuses(root: string, states: map<string, Message>) returns (statuses: seq<RosStatus>)
    ensures IsTree(root, states, statuses)
  {
    var keys := SortKeys(states.Keys);
    var groups, leaves := Collect(root, states, keys);
    statuses := EmitTree(root, states, keys, groups, leaves);
  }

  method EmitTree(root: string, states: map<string, Message>, ghost keys: seq<string>,
                  groups: map<string, int>, leaves: map<string, RosStatus>) returns (statuses: seq<RosStatus>)
    requires StrictlySorted(keys) && forall k :: k in keys <==> k in states.Keys
    requires GroupsAre(root, states, keys, groups) && LeavesAre(root, states, keys, leaves)
    ensures IsTree(root, states, statuses)
  {
    LeavesNamed(root, states, keys, leaves);
    statuses := EmitStatuses(groups, leaves);
    TreeFromLoops(root, states, keys, groups, leaves, statuses);
  }

  lemma LeavesNamed(root: string, states: map<string, Message>, keys: seq<string>, leaves: map<string, RosStatus>)
    requires LeavesAre(root, states, keys, leaves)
    ensures forall path | path in leaves :: leaves[path].name == path
  {}

  /** The last loop: one status per path in increasing order, leaf statuses first choice. */
  method EmitStatuses(groups: map<string, int>, leaves: map<string, RosStatus>) returns (statuses: seq<RosStatus>)
    requires forall path | path in leaves :: leaves[path].name == path
    ensures forall i, j | 0 <= i < j < |statuses| :: Less(statuses[i].name, statuses[j].name)
    ensures forall path :: Appears(statuses, path) <==> path in groups
    ensures forall i | 0 <= i < |statuses| ::
              var path := statuses[i].name;
              path in groups
              && statuses[i] == if path in leaves then leaves[path] else ToGroupStatus(path, groups[path])
  {
    statuses := [];
    var paths := SortKeys(groups.Keys);
    for i := 0 to |paths|
      invariant |statuses| == i
      invariant forall k | 0 <= k < i :: statuses[k].name == paths[k]
      invariant forall k | 0 <= k < i ::
                  statuses[k] == if paths[k] in leaves then leaves[paths[k]]
                                 else ToGroupStatus(paths[k], groups[paths[k]])
    {
      var path := paths[i];
      assert path in groups;
      statuses := statuses + [if path in leaves then leaves[path] else ToGroupStatus(path, groups[path])];
    }
    forall path
      ensures Appears(statuses, path) <==> path in groups
    {
      if path in groups {
        assert path in paths;
        var i :| 0 <= i < |paths| && paths[i] == path;
        assert statuses[i].name == path;
      }
    }
  }

  lemma TreeFromLoops(root: string, states: map<string, Message>, keys: seq<string>,
                      groups: map<string, int>, leaves: map<string, RosStatus>, statuses: seq<RosStatus>)
    requires StrictlySorted(keys) && forall k :: k in keys <==> k in states.Keys
    requires GroupsAre(root, states, keys, groups) && LeavesAre(root, states, keys, leaves)
    requires forall i, j | 0 <= i < j < |statuses| :: Less(statuses[i].name, statuses[j].name)
    requires forall path :: Appears(statuses, path) <==> path in groups
    requires forall i | 0 <= i < |statuses| ::
               var path := statuses[i].name;
               path in groups
               && statuses[i] == if path in leaves then leaves[path] else ToGroupStatus(path, groups[path])
    ensures IsTree(root, states, statuses)
  {
    forall path
      ensures path in groups <==> PathOfSomeNode(root, states, path)
    {
      assert AnyBeneath(root, states, keys, path) <==> PathOfSomeNode(root, states, path);
    }
    forall i | 0 <= i < |statuses|
      ensures StatusFor(root, states, statuses[i])
    {
      StatusFromLoops(root, states, keys, groups, leaves, statuses[i]);
    }
  }

  lemma StatusFromLoops(root: string, states: map<string, Message>, keys: seq<string>,
                        groups: map<string, int>, leaves: map<string, RosStatus>, status: RosStatus)
    requires StrictlySorted(keys) && forall k :: k in keys <==> k in states.Keys
    requires GroupsAre(root, states, keys, groups) && LeavesAre(root, states, keys, leaves)
    requires status.name in groups
    requires status == if status.name in leaves then leaves[status.name]
                       else ToGroupStatus(status.name, groups[status.name])
    ensures StatusFor(root, states, status)
  {
    var path := status.name;
    LastKeyWins(root, states, keys, path);
    var k := LastKey(root, states, keys, path);
    if k.Some? {
      assert Wins(root, states, path, k.value);
    } else {
      assert !Occupied(root, states, path);
      assert IsWorst(root, states, path, groups[path]);
    }
  }

  // ---------------------------------------------------------------- rate-limited publication

  /** A snapshot handed to the sink, with the reading of its rate clock. */
  datatype Offer = Offer(states: map<string, Message>, now: real)

  /** Index of the latest offer that was published, or -1: the first one, and then each that comes at least
      a period after the previous publication. */
  function Latest(period: real, offers: seq<Offer>): (i: int)
    ensures -1 <= i < |offers| && (i == -1 <==> offers == [])
  {
    if offers == [] then -1
    else
      var before := Latest(period, offers[..|offers| - 1]);
      if before == -1 || offers[|offers| - 1].now - offers[before].now >= period then |offers| - 1 else before
  }

  function Accepted(period: real, offers: seq<Offer>): (accepted: seq<Offer>)
    ensures accepted != [] <==> offers != []
    ensures offers != [] ==> accepted[|accepted| - 1] == offers[Latest(period, offers)]
  {
    if offers == [] then []
    else
      Accepted(period, offers[..|offers| - 1])
      + (if Latest(period, offers) == |offers| - 1 then [offers[|offers| - 1]] else [])
  }

  lemma OfferSnoc(period: real, offers: seq<Offer>, next: Offer)
    ensures var accepts := offers == [] || next.now - offers[Latest(period, offers)].now >= period;
      && Latest(period, offers + [next]) == (if accepts then |offers| else Latest(period, offers))
      && Accepted(period, offers + [next]) == Accepted(period, offers) + (if accepts then [next] else [])
  {
    assert (offers + [next])[..|offers|] == offers;
  }

  /** From some offer on, something was published exactly when one of them came at least a period after
      the publication before them. */
  lemma {:induction false} PublishedSinceIff(period: real, offers: seq<Offer>, q: nat)
    requires 0 < q <= |offers|
    ensures Latest(period, offers) >= q
       <==> exists j | q <= j < |offers| ::
              offers[j].now - offers[Latest(period, offers[..q])].now >= period
    ensures Latest(period, offers) >= q || Latest(period, offers) == Latest(period, offers[..q])
  {
    if |offers| == q {
      assert offers[..q] == offers;
    } else {
      var init, last := offers[..|offers| - 1], |offers| - 1;
      PublishedSinceIff(period, init, q);
      assert init[..q] == offers[..q];
      if Latest(period, init) < q && Latest(period, offers) >= q {
        assert offers[last].now - offers[Latest(period, offers[..q])].now >= period;
      }
      if Latest(period, offers) < q {
        assert forall j | q <= j < |init| :: init[j] == offers[j];
      }
    }
  }

  ghost predicate Shows(root: string, published: (real, seq<RosStatus>), offer: Offer) {
    published.0 == offer.now && IsTree(root, offer.states, published.1)
  }

  ghost predicate AllShown(root: string, published: seq<(real, seq<RosStatus>)>, accepted: seq<Offer>) {
    |published| == |accepted| && forall i | 0 <= i < |published| :: Shows(root, published[i], accepted[i])
  }

  lemma AllShownSnoc(root: string, published: seq<(real, seq<RosStatus>)>, accepted: seq<Offer>,
                     next: (real, seq<RosStatus>), offer: Offer)
    requires AllShown(root, published, accepted) && Shows(root, next, offer)
    ensures AllShown(root, published + [next], accepted + [offer])
  {}

  lemma LastTime(root: string, period: real, published: seq<(real, seq<RosStatus>)>, offers: seq<Offer>)
    requires AllShown(root, published, Accepted(period, offers))
    ensures published == [] <==> offers == []
    ensures offers != [] ==> Shows(root, published[|published| - 1], offers[Latest(period, offers)])
  {}

  ghost predicate Spaced(published: seq<(real, seq<RosStatus>)>, period: real) {
    forall i | 0 < i < |published| :: published[i].0 - published[i - 1].0 >= period
  }

  /** What was published are the trees of the accepted snapshots, one each and at least a period apart; the
      other snapshots are lost. */
  ghost predicate Consistent(root: string, period: real, last: Option<real>,
                             published: seq<(real, seq<RosStatus>)>, offers: seq<Offer>)
  {
    && last == (if offers == [] then None else Some(offers[Latest(period, offers)].now))
    && AllShown(root, published, Accepted(period, offers))
    && Spaced(published, period)
  }

  lemma LastIsPublished(root: string, period: real, last: Option<real>, published: seq<(real, seq<RosStatus>)>,
                        offers: seq<Offer>)
    requires Consistent(root, period, last, published, offers)
    ensures last == if published == [] then None else Some(published[|published| - 1].0)
  {
    LastTime(root, period, published, offers);
  }

  lemma Dropped(root: string, period: real, last: Option<real>, published: seq<(real, seq<RosStatus>)>,
                offers: seq<Offer>, next: Offer)
    requires Consistent(root, period, last, published, offers)
    requires last.Some? && next.now - last.value < period
    ensures Consistent(root, period, last, published, offers + [next])
  {
    OfferSnoc(period, offers, next);
    assert Accepted(period, offers) + [] == Accepted(period, offers);
  }

  lemma Taken(root: string, period: real, last: Option<real>, published: seq<(real, seq<RosStatus>)>,
              offers: seq<Offer>, next: Offer, tree: seq<RosStatus>)
    requires Consistent(root, period, last, published, offers)
    requires last.None? || next.now - last.value >= period
    requires IsTree(root, next.states, tree)
    ensures Consistent(root, period, Some(next.now), published + [(next.now, tree)], offers + [next])
  {
    LastIsPublished(root, period, last, published, offers);
    OfferSnoc(period, offers, next);
    AllShownSnoc(root, published, Accepted(period, offers), (next.now, tree), next);
  }

  class RosDiagnosticsSink {
    const root: string
    const period: real
    var lastPublishTime: Option<real>

    /** Publication times and arrays, in order. */
    var published: seq<(real, seq<RosStatus>)>

    /** Every snapshot handed to the sink. */
    ghost var offers: seq<Offer>

    ghost predicate Valid()
      reads this
    {
      Consistent(root, period, lastPublishTime, published, offers)
    }

    constructor (aggregationRoot: string, publishPeriod: real)
      ensures Valid() && published == [] && offers == []
      ensures root == RootName(aggregationRoot) && period == publishPeriod
    {
      root, period := RootName(aggregationRoot), publishPeriod;
      lastPublishTime, published, offers := None, [], [];
    }

    /** Publishes the tree of the given states unless the last publication is less than a period old. */
    method PublishState(states: map<string, Message>, now: real)
      requires Valid()
      modifies this
      ensures Valid() && offers == old(offers) + [Offer(states, now)]
      ensures if old(published) != [] && now - old(published)[|old(published)| - 1].0 < period
              then published == old(published)
              else |published| == |old(published)| + 1 && published[..|old(published)|] == old(published)
                   && published[|old(published)|].0 == now
                   && IsTree(root, states, published[|old(published)|].1)
    {
      ghost var next := Offer(states, now);
      LastIsPublished(root, period, lastPublishTime, published, offers);
      if lastPublishTime.Some? && now - lastPublishTime.value < period {
        Dropped(root, period, lastPublishTime, published, offers, next);
        offers := offers + [next];
        return;
      }
      var statuses := BuildAggregatedStatuses(root, states);
      Taken(root, period, lastPublishTime, published, offers, next, statuses);
      lastPublishTime := Some(now);
      published := published + [(now, statuses)];
      offers := offers + [next];
    }
  }

  /** The array a reader sees last is the tree of the latest accepted snapshot. */
  lemma LastShown(sink: RosDiagnosticsSink)
    requires sink.Valid()
    ensures sink.published != [] <==> sink.offers != []
    ensures sink.offers != [] ==>
              Shows(sink.root, sink.published[|sink.published| - 1], sink.offers[Latest(sink.period, sink.offers)])
  {
    LastTime(sink.root, sink.period, sink.published, sink.offers);
  }
}
