/** What `CodeStruc.walk` computes, stated as the function `Run` over the
    list of pending nodes that threads the position counter `le`, and
    related to a recursive left-to-right pre-order of the tree.  The
    explicit-stack loop of the walker itself (module Astruc) is proved to
    emit exactly the records `Run` describes.

    Positions are handed out when a node is CREATED, and a node's children
    are all created when the node itself is taken off the stack; so
    positions follow generation order while records come out in pre-order. */
module Walk {
  import opened Ast

  /** The read/write flag `sl` of a graph node: 0, 1 (Store) or 2 (Load). */
  datatype Role = Plain | Write | Read

  /** `CodeStruc.Node`: a syntax node with its tokens, one position per token,
      and its read/write flag. */
  datatype GraphNode = GraphNode(node: Syntax, token: seq<string>, pos: seq<int>, sl: Role)

  /** One `{"current": ..., "children": [...]}` record of the walk. */
  datatype Record = Record(current: GraphNode, children: seq<GraphNode>)

  /** The optional sub-word tokenizer: `tokenize(text).words()`. */
  type Tokenizer = string -> seq<string>

  function Range(lo: int, hi: int): seq<int>
    requires lo <= hi
  {
    seq(hi - lo, k => lo + k)
  }

  lemma RangeConcat(a: int, b: int, c: int)
    requires a <= b <= c
    ensures Range(a, b) + Range(b, c) == Range(a, c)
  {
  }

  // ---------------------------------------------------------------------
  // get_node

  /** The words of a node's text: what the tokenizer makes of it, or the
      text itself when no tokenizer is configured. */
  function TextWords(tokenizer: Option<Tokenizer>, n: Syntax): seq<string> {
    match tokenizer
    case None => [GetText(n)]
    case Some(tokenize) => tokenize(GetText(n))
  }

  /** How the walker turns a syntax node into words; the walk below is
      stated for any such function and instantiated with `TextWords`. */
  type Splitter = Syntax -> seq<string>

  function SplitterOf(tokenizer: Option<Tokenizer>): Splitter {
    n => TextWords(tokenizer, n)
  }

  /** The node `get_node` builds for `n` while the counter stands at `le`:
      the words of its text, or the placeholder `_` when there are none, on
      the next counter values. */
  function Alloc(split: Splitter, n: Syntax, le: int): GraphNode {
    var ws := split(n);
    var tokens := if ws == [] then ["_"] else ws;
    GraphNode(n, tokens, Range(le, le + |tokens|), Plain)
  }

  /** A node has at least one token and one position per token, and its
      positions are consecutive. */
  predicate WellFormed(g: GraphNode) {
    && 1 <= |g.token|
    && |g.pos| == |g.token|
    && forall k :: 0 <= k < |g.pos| ==> g.pos[k] == g.pos[0] + k
  }

  /** A freshly created node is well formed, unflagged, and starts at `le`. */
  lemma AllocFacts(split: Splitter, n: Syntax, le: int)
    ensures var g := Alloc(split, n, le);
            && WellFormed(g) && g.sl == Plain && g.node == n
            && g.pos == Range(le, le + |g.token|) && g.pos[0] == le
  {
  }

  function RoleOf(marker: Syntax): Role
    requires IsMarker(marker)
  {
    if marker.kind.Store? then Write else Read
  }

  /** The flag a node ends up with: that of its first marker child, if any. */
  function MarkerRole(cs: seq<Syntax>): Role {
    var k := FirstMarker(cs);
    if k < |cs| then RoleOf(cs[k]) else Plain
  }

  function Nodes(gs: seq<GraphNode>): seq<Syntax> {
    seq(|gs|, i requires 0 <= i < |gs| => gs[i].node)
  }

  lemma NodesAppend(a: seq<GraphNode>, b: seq<GraphNode>)
    ensures Nodes(a + b) == Nodes(a) + Nodes(b)
  {
  }

  lemma NodesTail(gs: seq<GraphNode>)
    requires gs != []
    ensures Nodes(gs)[0] == gs[0].node && Nodes(gs)[1..] == Nodes(gs[1..])
  {
  }

  /** All positions of a list of nodes, in order. */
  function Positions(gs: seq<GraphNode>): seq<int> {
    if gs == [] then [] else gs[0].pos + Positions(gs[1..])
  }

  function GraphSize(gs: seq<GraphNode>): nat {
    if gs == [] then 0 else Size(gs[0].node) + GraphSize(gs[1..])
  }

  // ---------------------------------------------------------------------
  // The scan of one popped node's children

  datatype Scanned = Scanned(kids: seq<GraphNode>, sl: Role, le: int)

  /** The inner loop of the walk over the children `cs` of a popped node,
      counter at `le`: every child before the first Store/Load marker becomes
      a fresh node, in order, on consecutive positions; the first marker sets
      the flag and ends the scan. */
  function Scan(split: Splitter, cs: seq<Syntax>, le: int): (r: Scanned)
    decreases |cs|
  {
    if cs == [] then Scanned([], Plain, le)
    else if IsMarker(cs[0]) then Scanned([], RoleOf(cs[0]), le)
    else
      var g := Alloc(split, cs[0], le);
      var rest := Scan(split, cs[1..], le + |g.token|);
      Scanned([g] + rest.kids, rest.sl, rest.le)
  }

  /** One step of the scan at index `k`: a non-marker child becomes a node
      and the scan goes on after it; a marker ends the scan. */
  lemma ScanStep(split: Splitter, cs: seq<Syntax>, k: int, le: int)
    requires 0 <= k < |cs|
    ensures var g := Alloc(split, cs[k], le);
            var rest := Scan(split, cs[k + 1..], le + |g.token|);
            Scan(split, cs[k..], le)
            == if IsMarker(cs[k]) then Scanned([], RoleOf(cs[k]), le)
               else Scanned([g] + rest.kids, rest.sl, rest.le)
  {
    assert cs[k..][0] == cs[k] && cs[k..][1..] == cs[k + 1..];
  }

  /** A scan hands out the consecutive positions `[le, r.le)`, in order,
      to the nodes it creates. */
  lemma {:induction false} ScanPositions(split: Splitter, cs: seq<Syntax>, le: int)
    ensures var r := Scan(split, cs, le);
            le <= r.le && Positions(r.kids) == Range(le, r.le)
    decreases |cs|
  {
    if cs != [] && !IsMarker(cs[0]) {
      var g := Alloc(split, cs[0], le);
      var rest := Scan(split, cs[1..], le + |g.token|);
      ScanPositions(split, cs[1..], le + |g.token|);
      RangeConcat(le, le + |g.token|, rest.le);
      assert ([g] + rest.kids)[0] == g && ([g] + rest.kids)[1..] == rest.kids;
    }
  }

  /** A scan creates a node for exactly the children before the first
      marker, in order, and takes its flag from that marker. */
  lemma {:induction false} ScanNodes(split: Splitter, cs: seq<Syntax>, le: int)
    ensures var r := Scan(split, cs, le);
            Nodes(r.kids) == cs[..FirstMarker(cs)] && r.sl == MarkerRole(cs)
    decreases |cs|
  {
    if cs != [] && !IsMarker(cs[0]) {
      var g := Alloc(split, cs[0], le);
      var rest := Scan(split, cs[1..], le + |g.token|);
      ScanNodes(split, cs[1..], le + |g.token|);
      assert FirstMarker(cs) == 1 + FirstMarker(cs[1..]);
      assert Nodes([g] + rest.kids) == [cs[0]] + Nodes(rest.kids);
      assert cs[..FirstMarker(cs)] == [cs[0]] + cs[1..][..FirstMarker(cs[1..])];
    }
  }

  /** Every node a scan creates is well formed and unflagged. */
  lemma {:induction false} ScanWellFormed(split: Splitter, cs: seq<Syntax>, le: int)
    ensures forall c :: c in Scan(split, cs, le).kids ==> WellFormed(c) && c.sl == Plain
    decreases |cs|
  {
    if cs != [] && !IsMarker(cs[0]) {
      var g := Alloc(split, cs[0], le);
      var rest := Scan(split, cs[1..], le + |g.token|);
      ScanWellFormed(split, cs[1..], le + |g.token|);
      AllocFacts(split, cs[0], le);
      assert Scan(split, cs, le).kids == [g] + rest.kids;
    }
  }

  lemma {:induction false} GraphSizeNodes(gs: seq<GraphNode>)
    ensures GraphSize(gs) == SumSizes(Nodes(gs))
  {
    if gs != [] {
      assert Nodes(gs)[1..] == Nodes(gs[1..]);
      GraphSizeNodes(gs[1..]);
    }
  }

  /** The nodes a scan creates are, together, smaller than their parent. */
  lemma KidsSmaller(split: Splitter, n: Syntax, le: int)
    ensures Nodes(Scan(split, IterChildren(n), le).kids) == Materialised(n)
    ensures GraphSize(Scan(split, IterChildren(n), le).kids) < Size(n)
  {
    ScanNodes(split, IterChildren(n), le);
    GraphSizeNodes(Scan(split, IterChildren(n), le).kids);
  }

  lemma {:induction false} GraphSizeAppend(a: seq<GraphNode>, b: seq<GraphNode>)
    ensures GraphSize(a + b) == GraphSize(a) + GraphSize(b)
  {
    if a == [] {
      assert a + b == b;
    } else {
      assert (a + b)[0] == a[0] && (a + b)[1..] == a[1..] + b;
      GraphSizeAppend(a[1..], b);
    }
  }

  // ---------------------------------------------------------------------
  // The traversal

  datatype Walked = Walked(recs: seq<Record>, le: int)

  /** The walk's main loop from the moment the pending nodes are `work`,
      listed in the order they will be popped (the stack read from its top),
      with the counter at `le`: the first pending node is popped, its
      children are scanned, and the nodes created for them go, in order, in
      front of the remaining work.  Yields the records emitted and the final
      counter. */
  function Run(split: Splitter, work: seq<GraphNode>, le: int): Walked
    decreases GraphSize(work)
  {
    if work == [] then Walked([], le)
    else
      var g := work[0];
      var sc := Scan(split, IterChildren(g.node), le);
      KidsSmaller(split, g.node, le);
      GraphSizeAppend(sc.kids, work[1..]);
      var rest := Run(split, sc.kids + work[1..], sc.le);
      Walked([Record(g.(sl := sc.sl), sc.kids)] + rest.recs, rest.le)
  }

  /** One step of the loop: the first pending node is popped. */
  lemma RunStep(split: Splitter, g: GraphNode, rest: seq<GraphNode>, le: int)
    ensures var sc := Scan(split, IterChildren(g.node), le);
            var w := Run(split, sc.kids + rest, sc.le);
            Run(split, [g] + rest, le) == Walked([Record(g.(sl := sc.sl), sc.kids)] + w.recs, w.le)
  {
    assert ([g] + rest)[0] == g && ([g] + rest)[1..] == rest;
  }

  /** The node the walk starts from: the first child of a Module wrapper
      (None when the wrapper is empty), any other node itself. */
  function WalkRoot(tree: Syntax): Option<Syntax> {
    if tree.Node? && tree.kind.Module? then
      var cs := IterChildren(tree);
      if cs == [] then None else Some(cs[0])
    else Some(tree)
  }

  /** The whole walk from `root` with the counter at `le`, before sorting:
      the root's node is created, then the loop runs from it. */
  function WalkFrom(split: Splitter, root: Syntax, le: int): Walked {
    var g := Alloc(split, root, le);
    Run(split, [g], le + |g.token|)
  }

  // ---------------------------------------------------------------------
  // Pre-order

  /** Left-to-right pre-order over the materialised children. */
  function PreOrder(n: Syntax): seq<Syntax>
    decreases Size(n), 0
  {
    [n] + PreOrderAll(Materialised(n))
  }

  function PreOrderAll(ns: seq<Syntax>): seq<Syntax>
    decreases SumSizes(ns), 1
  {
    if ns == [] then [] else PreOrder(ns[0]) + PreOrderAll(ns[1..])
  }

  lemma {:induction false} PreOrderAllAppend(a: seq<Syntax>, b: seq<Syntax>)
    ensures PreOrderAll(a + b) == PreOrderAll(a) + PreOrderAll(b)
  {
    if a == [] {
      assert a + b == b;
    } else {
      assert (a + b)[0] == a[0] && (a + b)[1..] == a[1..] + b;
      PreOrderAllAppend(a[1..], b);
    }
  }

  lemma PreOrderAllCons(ns: seq<Syntax>)
    requires ns != []
    ensures PreOrderAll(ns) == [ns[0]] + (PreOrderAll(Materialised(ns[0])) + PreOrderAll(ns[1..]))
  {
    ConsAssoc(ns[0], PreOrderAll(Materialised(ns[0])), PreOrderAll(ns[1..]));
  }

  lemma ConsAssoc<T>(x: T, a: seq<T>, b: seq<T>)
    ensures [x] + a + b == [x] + (a + b)
  {
  }

  /** The syntax nodes of the emitted records, in emission order. */
  function Currents(recs: seq<Record>): seq<Syntax> {
    seq(|recs|, i requires 0 <= i < |recs| => recs[i].current.node)
  }

  lemma CurrentsCons(r: Record, recs: seq<Record>)
    ensures Currents([r] + recs) == [r.current.node] + Currents(recs)
  {
  }

  /** Records come out in left-to-right pre-order of the pending subtrees,
      one after the other. */
  lemma {:induction false} RunPreOrder(split: Splitter, work: seq<GraphNode>, le: int)
    ensures Currents(Run(split, work, le).recs) == PreOrderAll(Nodes(work))
    decreases GraphSize(work)
  {
    if work != [] {
      var g := work[0];
      var sc := Scan(split, IterChildren(g.node), le);
      KidsSmaller(split, g.node, le);
      GraphSizeAppend(sc.kids, work[1..]);
      var rest := Run(split, sc.kids + work[1..], sc.le);
      RunPreOrder(split, sc.kids + work[1..], sc.le);
      NodesAppend(sc.kids, work[1..]);
      PreOrderAllAppend(Nodes(sc.kids), Nodes(work[1..]));
      PreOrderAllCons(Nodes(work));
      NodesTail(work);
      assert Run(split, work, le).recs == [Record(g.(sl := sc.sl), sc.kids)] + rest.recs;
      CurrentsCons(Record(g.(sl := sc.sl), sc.kids), rest.recs);
      assert Currents(rest.recs) == PreOrderAll(Materialised(g.node)) + PreOrderAll(Nodes(work[1..]));
    }
  }

  // ---------------------------------------------------------------------
  // Positions

  lemma {:induction false} PositionsAppend(a: seq<GraphNode>, b: seq<GraphNode>)
    ensures Positions(a + b) == Positions(a) + Positions(b)
  {
    if a == [] {
      assert a + b == b;
    } else {
      assert (a + b)[0] == a[0] && (a + b)[1..] == a[1..] + b;
      PositionsAppend(a[1..], b);
    }
  }

  /** All positions of the records' current nodes, in record order. */
  function CurPositions(recs: seq<Record>): seq<int> {
    if recs == [] then [] else recs[0].current.pos + CurPositions(recs[1..])
  }

  /** Taken together, the records of the loop hold the positions of the
      pending nodes and every position handed out meanwhile, each exactly
      once. */
  lemma {:induction false} RunPositions(split: Splitter, work: seq<GraphNode>, le: int)
    ensures var w := Run(split, work, le);
            && le <= w.le
            && multiset(CurPositions(w.recs)) == multiset(Positions(work)) + multiset(Range(le, w.le))
    decreases GraphSize(work)
  {
    if work != [] {
      var g := work[0];
      var sc := Scan(split, IterChildren(g.node), le);
      KidsSmaller(split, g.node, le);
      ScanPositions(split, IterChildren(g.node), le);
      GraphSizeAppend(sc.kids, work[1..]);
      var rest := Run(split, sc.kids + work[1..], sc.le);
      RunPositions(split, sc.kids + work[1..], sc.le);
      PositionsAppend(sc.kids, work[1..]);
      RangeConcat(le, sc.le, rest.le);
      var head := Record(g.(sl := sc.sl), sc.kids);
      assert ([head] + rest.recs)[0] == head && ([head] + rest.recs)[1..] == rest.recs;
    }
  }

  // ---------------------------------------------------------------------
  // Shape of every record

  predicate Bounded(g: GraphNode, lo: int, hi: int) {
    forall p :: p in g.pos ==> lo <= p < hi
  }

  /** A record's node is well formed and all its positions, and those of its
      children, lie in `[lo, hi)`. */
  predicate Within(r: Record, lo: int, hi: int) {
    && WellFormed(r.current)
    && Bounded(r.current, lo, hi)
    && forall c :: c in r.children ==> Bounded(c, lo, hi)
  }

  /** A record's children are its node's children before the first
      Store/Load marker, and its flag is that marker's (0 without one).
      Each child was created after its parent, so its first position comes
      later than the parent's. */
  predicate Shaped(r: Record) {
    && Nodes(r.children) == Materialised(r.current.node)
    && r.current.sl == MarkerRole(IterChildren(r.current.node))
    && ChildrenAfter(r)
  }

  /** The record's node and each child have a position, and each child's
      first position comes after the node's. */
  predicate ChildrenAfter(r: Record) {
    && r.current.pos != []
    && forall c :: c in r.children ==> c.pos != [] && r.current.pos[0] < c.pos[0]
  }

  lemma RangeMembers(lo: int, hi: int, p: int)
    requires lo <= hi
    ensures p in Range(lo, hi) <==> lo <= p < hi
  {
    if lo <= p < hi {
      assert Range(lo, hi)[p - lo] == p;
    }
  }

  lemma {:induction false} PositionsMember(gs: seq<GraphNode>, i: nat, p: int)
    requires i < |gs| && p in gs[i].pos
    ensures p in Positions(gs)
  {
    if i > 0 {
      PositionsMember(gs[1..], i - 1, p);
    }
  }

  /** The nodes a scan creates are well formed, unflagged, and hold
      positions in `[le, r.le)` only. */
  lemma ScanBounded(split: Splitter, cs: seq<Syntax>, le: int)
    ensures var r := Scan(split, cs, le);
            forall c :: c in r.kids ==> WellFormed(c) && c.sl == Plain && Bounded(c, le, r.le)
  {
    var r := Scan(split, cs, le);
    ScanPositions(split, cs, le);
    ScanWellFormed(split, cs, le);
    forall c | c in r.kids ensures WellFormed(c) && c.sl == Plain && Bounded(c, le, r.le) {
      var i :| 0 <= i < |r.kids| && r.kids[i] == c;
      forall p | p in c.pos ensures le <= p < r.le {
        PositionsMember(r.kids, i, p);
        RangeMembers(le, r.le, p);
      }
    }
  }

  lemma WithinWiden(r: Record, lo: int, hi: int, lo': int, hi': int)
    requires Within(r, lo, hi) && lo' <= lo && hi <= hi'
    ensures Within(r, lo', hi')
  {
  }

  /** The record emitted when `g` is popped is shaped and within the
      positions handed out so far, and so are the nodes created for it. */
  lemma PopRecord(split: Splitter, g: GraphNode, le: int, lo: int)
    requires lo <= le && WellFormed(g) && Bounded(g, lo, le)
    ensures var sc := Scan(split, IterChildren(g.node), le);
            && le <= sc.le
            && Shaped(Record(g.(sl := sc.sl), sc.kids))
            && Within(Record(g.(sl := sc.sl), sc.kids), lo, sc.le)
            && forall c :: c in sc.kids ==> WellFormed(c) && Bounded(c, lo, sc.le)
  {
    var sc := Scan(split, IterChildren(g.node), le);
    KidsSmaller(split, g.node, le);
    ScanPositions(split, IterChildren(g.node), le);
    ScanNodes(split, IterChildren(g.node), le);
    ScanBounded(split, IterChildren(g.node), le);
    assert g.pos[0] in g.pos;
    forall c | c in sc.kids ensures c.pos != [] && g.pos[0] < c.pos[0] {
      assert c.pos[0] in c.pos;
    }
  }

  /** Every record the loop emits is shaped and within the positions
      handed out, provided the pending nodes are. */
  lemma {:induction false} RunShape(split: Splitter, work: seq<GraphNode>, le: int, lo: int)
    requires lo <= le
    requires forall g :: g in work ==> WellFormed(g) && Bounded(g, lo, le)
    ensures var w := Run(split, work, le);
            forall r :: r in w.recs ==> Shaped(r) && Within(r, lo, w.le)
    decreases GraphSize(work)
  {
    if work != [] {
      var g := work[0];
      assert g in work;
      var sc := Scan(split, IterChildren(g.node), le);
      PopRecord(split, g, le, lo);
      KidsSmaller(split, g.node, le);
      GraphSizeAppend(sc.kids, work[1..]);
      var next := sc.kids + work[1..];
      var rest := Run(split, next, sc.le);
      forall h | h in next ensures WellFormed(h) && Bounded(h, lo, sc.le) {
        if h !in sc.kids {
          assert h in work;
        }
      }
      RunShape(split, next, sc.le, lo);
      RunPositions(split, next, sc.le);
      var head := Record(g.(sl := sc.sl), sc.kids);
      WithinWiden(head, lo, sc.le, lo, rest.le);
      assert Run(split, work, le) == Walked([head] + rest.recs, rest.le);
    }
  }

  // ---------------------------------------------------------------------
  // Records and child entries

  /** The node of a record as it was created: a record carries the flag
      set when its node was popped, a child entry the flag 0 the node was
      created with. */
  function AsCreated(r: Record): GraphNode {
    r.current.(sl := Plain)
  }

  /** Every pending node gets a record, and so does every child entry of
      every record. */
  lemma {:induction false} RunEmits(split: Splitter, work: seq<GraphNode>, le: int)
    requires forall g :: g in work ==> g.sl == Plain
    ensures var recs := Run(split, work, le).recs;
            && (forall g :: g in work ==> exists x :: x in recs && AsCreated(x) == g)
            && (forall r, c :: r in recs && c in r.children ==> exists x :: x in recs && AsCreated(x) == c)
    decreases GraphSize(work)
  {
    if work != [] {
      var g := work[0];
      var sc := Scan(split, IterChildren(g.node), le);
      KidsSmaller(split, g.node, le);
      GraphSizeAppend(sc.kids, work[1..]);
      ScanWellFormed(split, IterChildren(g.node), le);
      var next := sc.kids + work[1..];
      forall h | h in next ensures h.sl == Plain {
        if h !in sc.kids {
          assert h in work[1..];
        }
      }
      var rest := Run(split, next, sc.le);
      RunEmits(split, next, sc.le);
      var head := Record(g.(sl := sc.sl), sc.kids);
      var recs := [head] + rest.recs;
      assert Run(split, work, le).recs == recs;
      assert g in work;
      assert AsCreated(head) == g;
      forall h | h in work ensures exists x :: x in recs && AsCreated(x) == h {
        if h == g {
          assert head in recs;
        } else {
          var m :| 0 <= m < |work| && work[m] == h;
          assert h == work[1..][m - 1] && h in next;
          var x :| x in rest.recs && AsCreated(x) == h;
          assert x in recs;
        }
      }
      forall r, c | r in recs && c in r.children ensures exists x :: x in recs && AsCreated(x) == c {
        if r in rest.recs {
          var x :| x in rest.recs && AsCreated(x) == c;
          assert x in recs;
        } else {
          assert r == head && c in next;
          var x :| x in rest.recs && AsCreated(x) == c;
          assert x in recs;
        }
      }
    }
  }

  /** Every record is that of a pending node or of some record's child entry. */
  lemma {:induction false} RunParents(split: Splitter, work: seq<GraphNode>, le: int)
    requires forall g :: g in work ==> g.sl == Plain
    ensures var recs := Run(split, work, le).recs;
            forall x :: x in recs ==> AsCreated(x) in work || exists r :: r in recs && AsCreated(x) in r.children
    decreases GraphSize(work)
  {
    if work != [] {
      var g := work[0];
      var sc := Scan(split, IterChildren(g.node), le);
      KidsSmaller(split, g.node, le);
      GraphSizeAppend(sc.kids, work[1..]);
      ScanWellFormed(split, IterChildren(g.node), le);
      var next := sc.kids + work[1..];
      forall h | h in next ensures h.sl == Plain {
        if h !in sc.kids {
          assert h in work[1..];
        }
      }
      var rest := Run(split, next, sc.le);
      RunParents(split, next, sc.le);
      var head := Record(g.(sl := sc.sl), sc.kids);
      var recs := [head] + rest.recs;
      assert Run(split, work, le).recs == recs;
      assert g in work;
      forall x | x in recs ensures AsCreated(x) in work || exists r :: r in recs && AsCreated(x) in r.children {
        if x == head {
          assert AsCreated(x) == g;
        } else if AsCreated(x) in sc.kids {
          assert head in recs;
        } else if AsCreated(x) in work[1..] {
          assert AsCreated(x) in work;
        } else {
          var r :| r in rest.recs && AsCreated(x) in r.children;
          assert r in recs;
        }
      }
    }
  }

  /** Nodes created one after another: each has a position, and their
      first positions increase. */
  predicate KidsInOrder(kids: seq<GraphNode>) {
    forall a, b :: 0 <= a < b < |kids| ==>
      kids[a].pos != [] && kids[b].pos != [] && kids[a].pos[0] < kids[b].pos[0]
  }

  /** Every node a scan creates starts in `[le, r.le)`. */
  lemma {:induction false} ScanStarts(split: Splitter, cs: seq<Syntax>, le: int)
    ensures var r := Scan(split, cs, le);
            forall c :: c in r.kids ==> c.pos != [] && le <= c.pos[0] < r.le
    decreases |cs|
  {
    if cs != [] && !IsMarker(cs[0]) {
      var g := Alloc(split, cs[0], le);
      var hi := le + |g.token|;
      AllocFacts(split, cs[0], le);
      var rest := Scan(split, cs[1..], hi);
      ScanStarts(split, cs[1..], hi);
      ScanPositions(split, cs[1..], hi);
      assert Scan(split, cs, le).kids == [g] + rest.kids && Scan(split, cs, le).le == rest.le;
    }
  }

  /** A scan creates its nodes in order. */
  lemma {:induction false} ScanInOrder(split: Splitter, cs: seq<Syntax>, le: int)
    ensures KidsInOrder(Scan(split, cs, le).kids)
    decreases |cs|
  {
    if cs != [] && !IsMarker(cs[0]) {
      var g := Alloc(split, cs[0], le);
      var hi := le + |g.token|;
      AllocFacts(split, cs[0], le);
      var rest := Scan(split, cs[1..], hi);
      ScanInOrder(split, cs[1..], hi);
      ScanStarts(split, cs[1..], hi);
      var kids := [g] + rest.kids;
      assert Scan(split, cs, le).kids == kids;
      forall a, b | 0 <= a < b < |kids|
        ensures kids[a].pos != [] && kids[b].pos != [] && kids[a].pos[0] < kids[b].pos[0]
      {
        assert kids[b] == rest.kids[b - 1] && kids[b] in rest.kids;
        if a > 0 {
          assert kids[a] == rest.kids[a - 1];
        }
      }
    }
  }

  /** Every child entry of the records emitted from `le` on starts in
      `[le, w.le)`. */
  lemma {:induction false} RunKidsFrom(split: Splitter, work: seq<GraphNode>, le: int)
    ensures var w := Run(split, work, le);
            && le <= w.le
            && forall r, c :: r in w.recs && c in r.children ==> c.pos != [] && le <= c.pos[0] < w.le
    decreases GraphSize(work)
  {
    if work != [] {
      var g := work[0];
      var sc := Scan(split, IterChildren(g.node), le);
      KidsSmaller(split, g.node, le);
      GraphSizeAppend(sc.kids, work[1..]);
      ScanStarts(split, IterChildren(g.node), le);
      var next := sc.kids + work[1..];
      var rest := Run(split, next, sc.le);
      RunKidsFrom(split, next, sc.le);
      var head := Record(g.(sl := sc.sl), sc.kids);
      var recs := [head] + rest.recs;
      assert Run(split, work, le).recs == recs;
      forall r, c | r in recs && c in r.children ensures c.pos != [] && le <= c.pos[0] < rest.le {
        if r !in rest.recs {
          assert r == head;
        }
      }
    }
  }

  /** Each record's children are in creation order, and no node is a child
      entry of two different records. */
  predicate OneParent(recs: seq<Record>) {
    && (forall r :: r in recs ==> KidsInOrder(r.children))
    && forall r, r', c :: r in recs && r' in recs && c in r.children && c in r'.children ==> r == r'
  }

  /** Each record's children were created in order, during its own scan, so
      no node is a child entry of two different records. */
  lemma {:induction false} RunOneParent(split: Splitter, work: seq<GraphNode>, le: int)
    ensures OneParent(Run(split, work, le).recs)
    decreases GraphSize(work)
  {
    if work != [] {
      var g := work[0];
      var sc := Scan(split, IterChildren(g.node), le);
      KidsSmaller(split, g.node, le);
      GraphSizeAppend(sc.kids, work[1..]);
      ScanInOrder(split, IterChildren(g.node), le);
      ScanStarts(split, IterChildren(g.node), le);
      var next := sc.kids + work[1..];
      var rest := Run(split, next, sc.le);
      RunOneParent(split, next, sc.le);
      RunKidsFrom(split, next, sc.le);
      var head := Record(g.(sl := sc.sl), sc.kids);
      var recs := [head] + rest.recs;
      assert Run(split, work, le).recs == recs;
      forall r | r in recs ensures KidsInOrder(r.children) {
        if r !in rest.recs {
          assert r == head;
        }
      }
      forall r, r', c | r in recs && r' in recs && c in r.children && c in r'.children
        ensures r == r'
      {
        if c.pos[0] < sc.le {
          assert r == head && r' == head;
        } else {
          assert r in rest.recs && r' in rest.recs;
        }
      }
    }
  }

  /** The whole walk emits one record per materialised node of the tree
      below `root`, in left-to-right pre-order. */
  lemma WalkFromPreOrder(split: Splitter, root: Syntax, le: int)
    ensures Currents(WalkFrom(split, root, le).recs) == PreOrder(root)
  {
    var g := Alloc(split, root, le);
    AllocFacts(split, root, le);
    RunPreOrder(split, [g], le + |g.token|);
    assert Nodes([g]) == [root];
    assert PreOrderAll([root]) == PreOrder(root) + PreOrderAll([]);
  }

  /** The whole walk hands out the positions `[le, w.le)`, and every one of
      them sits on exactly one record's node. */
  lemma WalkFromPositions(split: Splitter, root: Syntax, le: int)
    ensures var w := WalkFrom(split, root, le);
            && le < w.le
            && multiset(CurPositions(w.recs)) == multiset(Range(le, w.le))
  {
    var g := Alloc(split, root, le);
    var hi := le + |g.token|;
    AllocFacts(split, root, le);
    RunPositions(split, [g], hi);
    assert Positions([g]) == g.pos + [];
    RangeConcat(le, hi, WalkFrom(split, root, le).le);
  }

  /** Every record of the whole walk is shaped, and its node and its
      children hold positions in `[le, w.le)` only. */
  lemma WalkFromShape(split: Splitter, root: Syntax, le: int)
    ensures var w := WalkFrom(split, root, le);
            forall r :: r in w.recs ==> Shaped(r) && Within(r, le, w.le)
  {
    var g := Alloc(split, root, le);
    var hi := le + |g.token|;
    AllocFacts(split, root, le);
    forall p | p in g.pos ensures le <= p < hi {
      RangeMembers(le, hi, p);
    }
    RunShape(split, [g], hi, le);
  }

  /** The root's node gets a record, every child entry gets a record, and
      every record other than the root's is that of some child entry. */
  lemma WalkFromLinks(split: Splitter, root: Syntax, le: int)
    ensures var w := WalkFrom(split, root, le);
            var g := Alloc(split, root, le);
            && (exists x :: x in w.recs && AsCreated(x) == g)
            && (forall r, c :: r in w.recs && c in r.children ==> exists x :: x in w.recs && AsCreated(x) == c)
            && (forall x :: x in w.recs ==> AsCreated(x) == g || exists r :: r in w.recs && AsCreated(x) in r.children)
  {
    var g := Alloc(split, root, le);
    AllocFacts(split, root, le);
    RunEmits(split, [g], le + |g.token|);
    RunParents(split, [g], le + |g.token|);
    assert g in [g];
  }

  /** In the whole walk each record's children are in creation order, and
      no node is a child entry of two different records. */
  lemma WalkFromOneParent(split: Splitter, root: Syntax, le: int)
    ensures OneParent(WalkFrom(split, root, le).recs)
  {
    var g := Alloc(split, root, le);
    RunOneParent(split, [g], le + |g.token|);
  }

  // ---------------------------------------------------------------------
  // Tokens

  /** All tokens of the records' current nodes, in record order. */
  function TokenStream(recs: seq<Record>): seq<string> {
    if recs == [] then [] else recs[0].current.token + TokenStream(recs[1..])
  }

  lemma {:induction false} TokenStreamSnoc(recs: seq<Record>, r: Record)
    ensures TokenStream(recs + [r]) == TokenStream(recs) + r.current.token
  {
    if recs == [] {
      assert recs + [r] == [r];
    } else {
      assert (recs + [r])[0] == recs[0] && (recs + [r])[1..] == recs[1..] + [r];
      TokenStreamSnoc(recs[1..], r);
    }
  }

  /** One token per position. */
  lemma {:induction false} TokenStreamLength(recs: seq<Record>)
    requires forall r :: r in recs ==> WellFormed(r.current)
    ensures |TokenStream(recs)| == |CurPositions(recs)|
  {
    if recs != [] {
      TokenStreamLength(recs[1..]);
    }
  }
}
