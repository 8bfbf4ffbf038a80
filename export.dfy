/** The two views `CodeStruc` exports from the sorted records: the
    adjacency matrix over token positions and the tree of
    (tokens, positions) pairs.  The matrix is specified by the predicate
    `Edge`, the union of its three rules; the helper methods below fill one
    rule for one record into an array in place. */
module Export {
  import opened Walk
  import opened Sorting

  /** Side of the square matrix: 512 unless the counter has gone past it. */
  function Side(le: int): (n: int)
    ensures n >= 512 && n >= le
    ensures n == 512 || n == le
  {
    if le <= 512 then 512 else le
  }

  // ---------------------------------------------------------------------
  // The three rules

  /** Rule 1: a self-loop on each position of a node. */
  predicate SelfLoop(pos: seq<int>, a: int, b: int) {
    a == b && a in pos
  }

  /** Between the positions `ps` of a node and `qs` of one of its children,
      in either direction. */
  predicate Linked(ps: seq<int>, qs: seq<int>, a: int, b: int) {
    (a in ps && b in qs) || (a in qs && b in ps)
  }

  /** Rule 2: parent/child edges, both ways. */
  predicate ChildLink(pos: seq<int>, children: seq<GraphNode>, a: int, b: int) {
    exists c :: c in children && Linked(pos, c.pos, a, b)
  }

  /** Record `j` is a write of exactly the tokens record `i` holds. */
  predicate Feeds(recs: seq<Record>, j: int, i: int)
    requires 0 <= j < |recs| && 0 <= i < |recs|
  {
    recs[j].current.token == recs[i].current.token && recs[j].current.sl == Write
  }

  /** From a position of record `i` to a position of a record before index
      `n` that feeds it. */
  predicate FlowBefore(recs: seq<Record>, i: int, n: int, a: int, b: int)
    requires 0 <= i < |recs| && n <= |recs|
  {
    a in recs[i].current.pos &&
    exists j :: 0 <= j < n && Feeds(recs, j, i) && b in recs[j].current.pos
  }

  /** Rule 3: from every position of a read to every position of every
      earlier write with the same tokens, in that direction only. */
  predicate DataFlow(recs: seq<Record>, i: int, a: int, b: int)
    requires 0 <= i < |recs|
  {
    recs[i].current.sl == Read && FlowBefore(recs, i, i, a, b)
  }

  /** The cells record `i` sets. */
  predicate EdgeFrom(recs: seq<Record>, i: int, a: int, b: int)
    requires 0 <= i < |recs|
  {
    || SelfLoop(recs[i].current.pos, a, b)
    || ChildLink(recs[i].current.pos, recs[i].children, a, b)
    || DataFlow(recs, i, a, b)
  }

  /** The cells the records before index `n` set. */
  predicate EdgeBefore(recs: seq<Record>, n: int, a: int, b: int)
    requires n <= |recs|
  {
    exists i :: 0 <= i < n && EdgeFrom(recs, i, a, b)
  }

  /** The cells of the finished matrix. */
  predicate Edge(recs: seq<Record>, a: int, b: int) {
    EdgeBefore(recs, |recs|, a, b)
  }

  // ---------------------------------------------------------------------
  // Properties of the edge relation

  /** Every position of every record carries a self-loop. */
  lemma SelfLoopsEverywhere(recs: seq<Record>, i: int, p: int)
    requires 0 <= i < |recs| && p in recs[i].current.pos
    ensures Edge(recs, p, p)
  {
    assert EdgeFrom(recs, i, p, p);
  }

  /** Every position of a record is linked, both ways, with every position
      of each of its children. */
  lemma ChildEdgesBothWays(recs: seq<Record>, i: int, c: GraphNode, a: int, b: int)
    requires 0 <= i < |recs| && c in recs[i].children
    requires a in recs[i].current.pos && b in c.pos
    ensures Edge(recs, a, b) && Edge(recs, b, a)
  {
    assert Linked(recs[i].current.pos, c.pos, a, b) && Linked(recs[i].current.pos, c.pos, b, a);
    assert EdgeFrom(recs, i, a, b) && EdgeFrom(recs, i, b, a);
  }

  /** A read reaches every position of every earlier write of the same tokens. */
  lemma ReadReachesEarlierWrites(recs: seq<Record>, i: int, j: int, a: int, b: int)
    requires 0 <= j < i < |recs|
    requires recs[i].current.sl == Read && Feeds(recs, j, i)
    requires a in recs[i].current.pos && b in recs[j].current.pos
    ensures Edge(recs, a, b)
  {
    assert DataFlow(recs, i, a, b);
    assert EdgeFrom(recs, i, a, b);
  }

  /** Self-loops and parent/child edges come in both directions, so an
      edge without its reverse is a data-flow edge. */
  lemma OneWayEdgesAreDataFlow(recs: seq<Record>, a: int, b: int)
    requires Edge(recs, a, b) && !Edge(recs, b, a)
    ensures exists i :: 0 <= i < |recs| && DataFlow(recs, i, a, b)
  {
    var i :| 0 <= i < |recs| && EdgeFrom(recs, i, a, b);
    SymmetricRules(recs, i, a, b);
  }

  /** Apart from data flow, whatever a record links one way it also links
      the other way. */
  lemma SymmetricRules(recs: seq<Record>, i: int, a: int, b: int)
    requires 0 <= i < |recs| && EdgeFrom(recs, i, a, b)
    ensures DataFlow(recs, i, a, b) || EdgeFrom(recs, i, b, a)
  {
    if !DataFlow(recs, i, a, b) && !SelfLoop(recs[i].current.pos, a, b) {
      var c :| c in recs[i].children && Linked(recs[i].current.pos, c.pos, a, b);
      assert Linked(recs[i].current.pos, c.pos, b, a);
    }
  }

  /** When no position is held by two records, a data-flow edge never has
      a data-flow edge in the reverse direction: its target sits on a write
      and only reads start data-flow edges. */
  lemma DataFlowIsOneWay(recs: seq<Record>, i: int, k: int, a: int, b: int)
    requires 0 <= i < |recs| && DataFlow(recs, i, a, b) && 0 <= k < |recs|
    requires forall p :: multiset(CurPositions(recs))[p] <= 1
    ensures !DataFlow(recs, k, b, a)
  {
    var j :| 0 <= j < i && Feeds(recs, j, i) && b in recs[j].current.pos;
    if b in recs[k].current.pos {
      if k < j {
        SharedPositionCountsTwice(recs, k, j, b);
      } else if j < k {
        SharedPositionCountsTwice(recs, j, k, b);
      }
    }
  }

  /** When every record lies within `[lo, hi)`, so does every edge. */
  lemma EdgesWithin(recs: seq<Record>, lo: int, hi: int, a: int, b: int)
    requires forall r :: r in recs ==> Within(r, lo, hi)
    requires Edge(recs, a, b)
    ensures lo <= a < hi && lo <= b < hi
  {
    var i :| 0 <= i < |recs| && EdgeFrom(recs, i, a, b);
    assert Within(recs[i], lo, hi);
    if DataFlow(recs, i, a, b) {
      var j :| 0 <= j < i && Feeds(recs, j, i) && b in recs[j].current.pos;
      assert Within(recs[j], lo, hi);
    } else if !SelfLoop(recs[i].current.pos, a, b) {
      var c :| c in recs[i].children && Linked(recs[i].current.pos, c.pos, a, b);
    }
  }

  // ---------------------------------------------------------------------
  // Filling the matrix

  /** Every position of every record, and of its children, indexes the array. */
  predicate Fits(m: array2<bool>, recs: seq<Record>)
    reads {}
  {
    forall r :: r in recs ==> Within(r, 0, m.Length0) && Within(r, 0, m.Length1)
  }

  /** Every entry of `ps` is an index below `n`. */
  predicate Below(ps: seq<int>, n: int) {
    forall k :: 0 <= k < |ps| ==> 0 <= ps[k] < n
  }

  lemma BoundedBelow(g: GraphNode, n: int)
    requires Bounded(g, 0, n)
    ensures Below(g.pos, n)
  {
    forall k | 0 <= k < |g.pos| ensures 0 <= g.pos[k] < n {
      assert g.pos[k] in g.pos;
    }
  }

  /** `matrix[p, cols] = 1`. */
  method SetRow(m: array2<bool>, p: int, cols: seq<int>)
    requires 0 <= p < m.Length0 && Below(cols, m.Length1)
    modifies m
    ensures forall a, b :: 0 <= a < m.Length0 && 0 <= b < m.Length1 ==>
              m[a, b] == (old(m[a, b]) || (a == p && b in cols))
  {
    forall k | 0 <= k < |cols| {
      m[p, cols[k]] := true;
    }
  }

  /** `matrix[rows, p] = 1`. */
  method SetColumn(m: array2<bool>, rows: seq<int>, p: int)
    requires 0 <= p < m.Length1 && Below(rows, m.Length0)
    modifies m
    ensures forall a, b :: 0 <= a < m.Length0 && 0 <= b < m.Length1 ==>
              m[a, b] == (old(m[a, b]) || (a in rows && b == p))
  {
    forall k | 0 <= k < |rows| {
      m[rows[k], p] := true;
    }
  }

  /** `matrix[p][p] = 1` for each position `p` of a node. */
  method AddSelfLoops(m: array2<bool>, pos: seq<int>)
    requires Below(pos, m.Length0) && Below(pos, m.Length1)
    modifies m
    ensures forall a, b :: 0 <= a < m.Length0 && 0 <= b < m.Length1 ==>
              m[a, b] == (old(m[a, b]) || SelfLoop(pos, a, b))
  {
    for k := 0 to |pos|
      invariant forall a, b :: 0 <= a < m.Length0 && 0 <= b < m.Length1 ==>
                  m[a, b] == (old(m[a, b]) || SelfLoop(pos[..k], a, b))
    {
      assert pos[..k + 1] == pos[..k] + [pos[k]];
      m[pos[k], pos[k]] := true;
    }
    assert pos[..|pos|] == pos;
  }

  lemma ChildLinkSnoc(pos: seq<int>, cs: seq<GraphNode>, c: GraphNode, a: int, b: int)
    ensures ChildLink(pos, cs + [c], a, b) <==> ChildLink(pos, cs, a, b) || Linked(pos, c.pos, a, b)
  {
    if ChildLink(pos, cs + [c], a, b) {
      var d :| d in cs + [c] && Linked(pos, d.pos, a, b);
      if d != c {
        assert d in cs;
      }
    }
    if ChildLink(pos, cs, a, b) {
      var d :| d in cs && Linked(pos, d.pos, a, b);
      assert d in cs + [c];
    }
    if Linked(pos, c.pos, a, b) {
      assert c in cs + [c];
    }
  }

  /** Links a node's positions with those of one child, both ways. */
  method LinkChild(m: array2<bool>, pos: seq<int>, c: GraphNode)
    requires Below(pos, m.Length0) && Below(pos, m.Length1)
    requires Below(c.pos, m.Length0) && Below(c.pos, m.Length1)
    modifies m
    ensures forall a, b :: 0 <= a < m.Length0 && 0 <= b < m.Length1 ==>
              m[a, b] == (old(m[a, b]) || Linked(pos, c.pos, a, b))
  {
    for k := 0 to |pos|
      invariant forall a, b :: 0 <= a < m.Length0 && 0 <= b < m.Length1 ==>
                  m[a, b] == (old(m[a, b]) || Linked(pos[..k], c.pos, a, b))
    {
      assert pos[..k + 1] == pos[..k] + [pos[k]];
      SetRow(m, pos[k], c.pos);
      SetColumn(m, c.pos, pos[k]);
    }
    assert pos[..|pos|] == pos;
  }

  /** Parent/child edges of one record. */
  method AddChildEdges(m: array2<bool>, pos: seq<int>, children: seq<GraphNode>)
    requires Below(pos, m.Length0) && Below(pos, m.Length1)
    requires forall c :: c in children ==> Below(c.pos, m.Length0) && Below(c.pos, m.Length1)
    modifies m
    ensures forall a, b :: 0 <= a < m.Length0 && 0 <= b < m.Length1 ==>
              m[a, b] == (old(m[a, b]) || ChildLink(pos, children, a, b))
  {
    for ci := 0 to |children|
      invariant forall a, b :: 0 <= a < m.Length0 && 0 <= b < m.Length1 ==>
                  m[a, b] == (old(m[a, b]) || ChildLink(pos, children[..ci], a, b))
    {
      var c := children[ci];
      assert c in children;
      assert children[..ci + 1] == children[..ci] + [c];
      LinkChild(m, pos, c);
      forall a, b | 0 <= a < m.Length0 && 0 <= b < m.Length1
        ensures m[a, b] == (old(m[a, b]) || ChildLink(pos, children[..ci + 1], a, b))
      {
        ChildLinkSnoc(pos, children[..ci], c, a, b);
      }
    }
    assert children[..|children|] == children;
  }

  /** Data-flow edges of record `i`: nothing unless it is a read; otherwise
      from each of its positions to every position of every earlier write
      with the same tokens. */
  method AddDataFlow(m: array2<bool>, recs: seq<Record>, i: int)
    requires 0 <= i < |recs| && Fits(m, recs)
    modifies m
    ensures forall a, b :: 0 <= a < m.Length0 && 0 <= b < m.Length1 ==>
              m[a, b] == (old(m[a, b]) || DataFlow(recs, i, a, b))
  {
    if recs[i].current.sl == Read {
      var pos := recs[i].current.pos;
      assert recs[i] in recs;
      BoundedBelow(recs[i].current, m.Length0);
      for j := 0 to i
        invariant forall a, b :: 0 <= a < m.Length0 && 0 <= b < m.Length1 ==>
                    m[a, b] == (old(m[a, b]) || FlowBefore(recs, i, j, a, b))
      {
        if Feeds(recs, j, i) {
          var qs := recs[j].current.pos;
          assert recs[j] in recs;
          BoundedBelow(recs[j].current, m.Length1);
          for k := 0 to |pos|
            invariant forall a, b :: 0 <= a < m.Length0 && 0 <= b < m.Length1 ==>
                        m[a, b] == (old(m[a, b]) || FlowBefore(recs, i, j, a, b) || (a in pos[..k] && b in qs))
          {
            assert pos[..k + 1] == pos[..k] + [pos[k]];
            SetRow(m, pos[k], qs);
          }
          assert pos[..|pos|] == pos;
        }
      }
    }
  }

  /** Everything record `i` contributes to the matrix. */
  method AddRecordEdges(m: array2<bool>, recs: seq<Record>, i: int)
    requires 0 <= i < |recs| && Fits(m, recs)
    modifies m
    ensures forall a, b :: 0 <= a < m.Length0 && 0 <= b < m.Length1 ==>
              m[a, b] == (old(m[a, b]) || EdgeFrom(recs, i, a, b))
  {
    var r := recs[i];
    assert r in recs;
    BoundedBelow(r.current, m.Length0);
    BoundedBelow(r.current, m.Length1);
    forall c | c in r.children ensures Below(c.pos, m.Length0) && Below(c.pos, m.Length1) {
      BoundedBelow(c, m.Length0);
      BoundedBelow(c, m.Length1);
    }
    AddSelfLoops(m, recs[i].current.pos);
    AddChildEdges(m, recs[i].current.pos, recs[i].children);
    AddDataFlow(m, recs, i);
  }

  lemma EdgeBeforeStep(recs: seq<Record>, n: int, a: int, b: int)
    requires 0 <= n < |recs|
    ensures EdgeBefore(recs, n + 1, a, b) <==> EdgeBefore(recs, n, a, b) || EdgeFrom(recs, n, a, b)
  {
  }

  // ---------------------------------------------------------------------
  // The tree view

  /** A node seen from outside: its tokens and its positions. */
  datatype View = View(token: seq<string>, pos: seq<int>)

  /** One entry of the tree view: the record's node and its children. */
  datatype Entry = Entry(current: View, children: seq<View>)

  function ViewOf(g: GraphNode): View {
    View(g.token, g.pos)
  }

  function EntryOf(r: Record): Entry {
    Entry(ViewOf(r.current), seq(|r.children|, k requires 0 <= k < |r.children| => ViewOf(r.children[k])))
  }

  /** The tree view of a list of records: one entry per record, in order. */
  function TreeView(recs: seq<Record>): seq<Entry> {
    seq(|recs|, i requires 0 <= i < |recs| => EntryOf(recs[i]))
  }

  /** The tree view keeps the tokens and positions of every record and
      child, and each pair it shows is joined in the matrix both ways. */
  lemma TreeViewMatchesEdges(recs: seq<Record>, i: int, k: int, a: int, b: int)
    requires 0 <= i < |recs|
    ensures var t := TreeView(recs);
            && |t| == |recs|
            && t[i].current == View(recs[i].current.token, recs[i].current.pos)
            && |t[i].children| == |recs[i].children|
            && (0 <= k < |t[i].children| ==> t[i].children[k] == View(recs[i].children[k].token, recs[i].children[k].pos))
            && (0 <= k < |t[i].children| && a in t[i].current.pos && b in t[i].children[k].pos
                ==> Edge(recs, a, b) && Edge(recs, b, a))
  {
    if 0 <= k < |recs[i].children| && a in recs[i].current.pos && b in recs[i].children[k].pos {
      ChildEdgesBothWays(recs, i, recs[i].children[k], a, b);
    }
  }
}
