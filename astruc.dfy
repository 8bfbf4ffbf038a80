/** `CodeStruc`: the object that walks one parsed snippet, keeps the
    records, the token list and the position counter, and exports the
    adjacency matrix and the tree view. */
module Astruc {
  import opened Ast
  import opened Walk
  import opened Sorting
  import opened Export

  /** A sequence read back to front. */
  function Reversed<T>(s: seq<T>): (r: seq<T>)
    ensures |r| == |s|
  {
    seq(|s|, i requires 0 <= i < |s| => s[|s| - 1 - i])
  }

  /** Popping the top of a stack takes the first element of the reversed stack. */
  lemma ReversedPop<T>(s: seq<T>)
    requires s != []
    ensures Reversed(s) == [s[|s| - 1]] + Reversed(s[..|s| - 1])
  {
  }

  lemma ReversedTwice<T>(s: seq<T>)
    ensures Reversed(Reversed(s)) == s
  {
  }

  lemma ReversedSnoc<T>(s: seq<T>, x: T)
    ensures Reversed(s + [x]) == [x] + Reversed(s)
  {
  }

  /** The scan result `r` with the nodes `kids` created in front of it. */
  function Prepend(kids: seq<GraphNode>, r: Scanned): Scanned {
    Scanned(kids + r.kids, r.sl, r.le)
  }

  /** A non-marker child at index `k` becomes the next created node. */
  lemma ScanAdvance(split: Splitter, cs: seq<Syntax>, k: int, le0: int, le: int,
                    kids: seq<GraphNode>, g: GraphNode)
    requires 0 <= k < |cs| && !IsMarker(cs[k]) && g == Alloc(split, cs[k], le)
    requires Scan(split, cs, le0) == Prepend(kids, Scan(split, cs[k..], le))
    ensures Scan(split, cs, le0) == Prepend(kids + [g], Scan(split, cs[k + 1..], le + |g.token|))
  {
    ScanStep(split, cs, k, le);
    var r := Scan(split, cs[k + 1..], le + |g.token|);
    assert kids + ([g] + r.kids) == kids + [g] + r.kids;
  }

  /** A marker at index `k` ends the scan with its flag. */
  lemma ScanStop(split: Splitter, cs: seq<Syntax>, k: int, le0: int, le: int, kids: seq<GraphNode>)
    requires 0 <= k < |cs| && IsMarker(cs[k])
    requires Scan(split, cs, le0) == Prepend(kids, Scan(split, cs[k..], le))
    ensures Scan(split, cs, le0) == Scanned(kids, RoleOf(cs[k]), le)
  {
    ScanStep(split, cs, k, le);
    assert kids + [] == kids;
  }

  /** Past the last child the scan is complete and unflagged. */
  lemma ScanDone(split: Splitter, cs: seq<Syntax>, k: int, le0: int, le: int, kids: seq<GraphNode>)
    requires 0 <= k <= |cs|
    requires Scan(split, cs, le0) == Prepend(kids, Scan(split, cs[k..], le))
    ensures k == |cs| ==> Scan(split, cs, le0) == Scanned(kids, Plain, le)
  {
    if k == |cs| {
      assert cs[k..] == [];
      assert kids + [] == kids;
    }
  }

  /** Inserting at index `|stack|` of `stack + Reversed(kids)` yields the
      stack with one more created node on top of the earlier ones' base. */
  lemma StackInsert<T>(stack: seq<T>, kids: seq<T>, x: T)
    ensures var s := stack + Reversed(kids);
            s[..|stack|] + [x] + s[|stack|..] == stack + Reversed(kids + [x])
  {
    var s := stack + Reversed(kids);
    assert s[..|stack|] == stack && s[|stack|..] == Reversed(kids);
    ReversedSnoc(kids, x);
  }

  lemma AppendAssoc<T>(a: seq<T>, b: seq<T>, c: seq<T>)
    ensures a + (b + c) == a + b + c
  {
  }

  /** One turn of the stack loop: popping the top node `g` emits its record
      and leaves the loop to run on the rest with `g`'s new nodes on top. */
  lemma PopStep(split: Splitter, stack: seq<GraphNode>, le: int)
    requires stack != []
    ensures var g := stack[|stack| - 1];
            var sc := Scan(split, IterChildren(g.node), le);
            var w := Run(split, Reversed(stack), le);
            var w' := Run(split, Reversed(stack[..|stack| - 1] + Reversed(sc.kids)), sc.le);
            w.recs == [Record(g.(sl := sc.sl), sc.kids)] + w'.recs && w.le == w'.le
  {
    var g := stack[|stack| - 1];
    var base := stack[..|stack| - 1];
    var sc := Scan(split, IterChildren(g.node), le);
    ReversedPop(stack);
    RunStep(split, g, Reversed(base), le);
    ReversedAppend(base, Reversed(sc.kids));
    ReversedTwice(sc.kids);
  }

  lemma ReversedAppend<T>(base: seq<T>, top: seq<T>)
    ensures Reversed(base + top) == Reversed(top) + Reversed(base)
  {
  }

  class CodeStruc {
    /** The parsed snippet. */
    const tree: Syntax
    /** The optional sub-word tokenizer. */
    const tokenizer: Option<Tokenizer>
    /** The records of the walk, sorted by first position once the walk is done. */
    var ast: seq<Record>
    /** The tokens of all records, in the order the walk emitted them. */
    var tokens: seq<string>
    /** The position counter: the next position to hand out. */
    var le: int

    /** The counter never goes below zero, and every record has a well
        formed node whose positions, and those of its children, were handed
        out already. */
    ghost predicate Valid()
      reads this
    {
      && 0 <= le
      && forall r :: r in ast ==> Within(r, 0, le)
    }

    constructor(tree: Syntax, tokenizer: Option<Tokenizer>)
      ensures this.tree == tree && this.tokenizer == tokenizer
      ensures ast == [] && tokens == [] && le == 0
      ensures Valid()
    {
      this.tree := tree;
      this.tokenizer := tokenizer;
      ast := [];
      tokens := [];
      le := 0;
    }

    /** Wraps `n` in a fresh node: with a tokenizer its tokens are the
        tokenizer's words for the node's text, or the placeholder `_` when
        there are none; without one, the text itself is the only token.  The
        node gets one fresh position per token, taken from the counter. */
    method GetNode(n: Syntax) returns (g: GraphNode)
      modifies this`le
      ensures g.node == n && g.sl == Plain
      ensures tokenizer.None? ==> g.token == [GetText(n)]
      ensures tokenizer.Some? ==>
                var ws := tokenizer.value(GetText(n));
                g.token == if ws == [] then ["_"] else ws
      ensures old(le) <= le && g.pos == Range(old(le), le)
      ensures le == old(le) + |g.token| && |g.token| >= 1
      ensures WellFormed(g)
      ensures g == Alloc(SplitterOf(tokenizer), n, old(le))
      ensures old(Valid()) ==> Valid()
    {
      AllocFacts(SplitterOf(tokenizer), n, le);
      if tokenizer.Some? {
        var tokens := tokenizer.value(GetText(n));
        if tokens == [] {
          tokens := ["_"];
        }
        g := GraphNode(n, tokens, Range(le, le + |tokens|), Plain);
        le := le + |g.pos|;
      } else {
        g := GraphNode(n, [GetText(n)], [le], Plain);
        assert g.pos == Range(le, le + 1);
        le := le + 1;
      }
      assert old(Valid()) ==> forall r :: r in ast ==> Within(r, 0, old(le));
      forall r | r in ast && old(Valid()) ensures Within(r, 0, le) {
        WithinWiden(r, 0, old(le), 0, le);
      }
    }

    /** The scan of the children of a popped node, done in place: every
        child before the first Store/Load marker gets a fresh node, listed
        among `children` and inserted into the stack at index `ins`; the
        first marker sets the popped node's flag and ends the scan. */
    method ScanChildren(current: GraphNode, stack: seq<GraphNode>)
      returns (flagged: GraphNode, children: seq<GraphNode>, stack': seq<GraphNode>)
      requires current.sl == Plain
      modifies this`le
      ensures var sc := Scan(SplitterOf(tokenizer), IterChildren(current.node), old(le));
              && flagged == current.(sl := sc.sl)
              && children == sc.kids
              && le == sc.le
      ensures stack' == stack + Reversed(children)
      ensures forall g :: g in children ==> g.sl == Plain
    {
      ghost var split := SplitterOf(tokenizer);
      ghost var le0 := le;
      var cs := IterChildren(current.node);
      flagged := current;
      children := [];
      stack' := stack;
      var ins := |stack'|;
      var k := 0;
      while k < |cs|
        invariant 0 <= k <= |cs|
        invariant flagged == current
        invariant Scan(split, cs, le0) == Prepend(children, Scan(split, cs[k..], le))
        invariant stack' == stack + Reversed(children)
        invariant forall g :: g in children ==> g.sl == Plain
        decreases |cs| - k
      {
        var c := cs[k];
        if IsMarker(c) {
          ScanStop(split, cs, k, le0, le, children);
          flagged := current.(sl := if c.kind.Store? then Write else Read);
          break;
        }
        var node := GetNode(c);
        ScanAdvance(split, cs, k, le0, le - |node.token|, children, node);
        StackInsert(stack, children, node);
        children := children + [node];
        stack' := stack'[..ins] + [node] + stack'[ins..];
        k := k + 1;
      }
      ScanDone(split, cs, k, le0, le, children);
    }

    /** Walks the tree once and remembers the result.  A second call returns
        the remembered records and changes nothing.  An empty Module wrapper
        has no statement to start from: the walk fails (None) and changes
        nothing.  Otherwise the records are those of the traversal from the
        root, sorted by first position; the counter has advanced past every
        position handed out, each of which sits on exactly one record's node;
        the token list has grown by the records' tokens in emission order,
        one per position; and the records form the tree of the walk, each
        child entry having exactly one record and each record but the
        root's being exactly one earlier record's child. */
    method Walk() returns (r: Option<seq<Record>>)
      requires Valid()
      modifies this
      ensures Valid()
      ensures old(ast) != [] ==>
                r == Some(old(ast)) && ast == old(ast) && tokens == old(tokens) && le == old(le)
      ensures old(ast) == [] && WalkRoot(tree).None? ==>
                r.None? && ast == old(ast) && tokens == old(tokens) && le == old(le)
      ensures old(ast) == [] && WalkRoot(tree).Some? ==>
                var w := WalkFrom(SplitterOf(tokenizer), WalkRoot(tree).value, old(le));
                && Keyed(w.recs)
                && r == Some(ast) && ast != []
                && ast == SortByFirst(w.recs)
                && le == w.le
                && tokens == old(tokens) + TokenStream(w.recs)
      ensures old(ast) == [] && WalkRoot(tree).Some? ==>
                && old(le) < le
                && multiset(CurPositions(ast)) == multiset(Range(old(le), le))
                && |tokens| == |old(tokens)| + (le - old(le))
                && Keyed(ast)
                && (forall i, j :: 0 <= i < j < |ast| ==> Key(ast[i]) < Key(ast[j]))
                && (forall x :: x in ast ==> Shaped(x))
                && TreeLinked(ast, Alloc(SplitterOf(tokenizer), WalkRoot(tree).value, old(le)))
    {
      if ast != [] {
        return Some(ast);
      }
      var root := tree;
      // The Module wrapper is skipped: the walk starts at its first statement.
      if tree.Node? && tree.kind.Module? {
        var cs := IterChildren(tree);
        if cs == [] {
          return None;
        }
        root := cs[0];
      }
      assert WalkRoot(tree) == Some(root);
      Build(root);
      return Some(ast);
    }

    /** The walk proper, from `root`, on an object that has not walked yet:
        create the root's node, run the stack loop, collect the tokens in
        emission order, then sort the records by first position. */
    method Build(root: Syntax)
      requires ast == [] && 0 <= le
      modifies this`le, this`ast, this`tokens
      ensures var w := WalkFrom(SplitterOf(tokenizer), root, old(le));
              && Keyed(w.recs)
              && ast == SortByFirst(w.recs)
              && le == w.le
              && tokens == old(tokens) + TokenStream(w.recs)
      ensures Laid(ast, old(le), le) && |tokens| == |old(tokens)| + (le - old(le))
      ensures TreeLinked(ast, Alloc(SplitterOf(tokenizer), root, old(le)))
    {
      ghost var split, le0 := SplitterOf(tokenizer), le;
      var first := GetNode(root);
      ghost var le1 := le;
      Traverse(first);
      WalkOutcome(split, root, le0, first, le1, ast, le);
      CollectTokens();
      ast := SortByFirst(ast);
    }

    /** The stack loop of the walk, started from the created root node:
        pop the top node, scan its children in place, emit its record. */
    method Traverse(first: GraphNode)
      requires first.sl == Plain
      modifies this`le, this`ast
      ensures var w := Run(SplitterOf(tokenizer), [first], old(le));
              ast == old(ast) + w.recs && le == w.le
    {
      ghost var split := SplitterOf(tokenizer);
      ghost var target := Run(split, [first], le);
      ghost var ast0 := ast;
      var stack := [first];
      assert Reversed(stack) == [first];
      while stack != []
        invariant forall g :: g in stack ==> g.sl == Plain
        invariant ast0 + target.recs == ast + Run(split, Reversed(stack), le).recs
        invariant Run(split, Reversed(stack), le).le == target.le
        decreases |ast0| + |target.recs| - |ast|
      {
        stack := Emit(stack);
      }
    }

    /** One turn of the stack loop: pop the top node, scan its children
        (pushing the new nodes), append its record.  What is left to emit
        shrinks by exactly the record appended. */
    method Emit(stack: seq<GraphNode>) returns (stack': seq<GraphNode>)
      requires stack != [] && forall g :: g in stack ==> g.sl == Plain
      modifies this`le, this`ast
      ensures forall g :: g in stack' ==> g.sl == Plain
      ensures var split := SplitterOf(tokenizer);
              var before := Run(split, Reversed(stack), old(le));
              var after := Run(split, Reversed(stack'), le);
              && old(ast) + before.recs == ast + after.recs
              && before.le == after.le
              && |ast| == |old(ast)| + 1
    {
      ghost var split := SplitterOf(tokenizer);
      var current := stack[|stack| - 1];
      PopStep(split, stack, le);
      ghost var sc := Scan(split, IterChildren(current.node), le);
      ghost var next := Run(split, Reversed(stack[..|stack| - 1] + Reversed(sc.kids)), sc.le);
      var children;
      current, children, stack' := ScanChildren(current, stack[..|stack| - 1]);
      AppendAssoc(ast, [Record(current, children)], next.recs);
      ast := ast + [Record(current, children)];
    }

    /** Appends the tokens of every record, in record order. */
    method CollectTokens()
      modifies this`tokens
      ensures tokens == old(tokens) + TokenStream(ast)
    {
      for i := 0 to |ast|
        invariant tokens == old(tokens) + TokenStream(ast[..i])
      {
        assert ast[..i + 1] == ast[..i] + [ast[i]];
        TokenStreamSnoc(ast[..i], ast[i]);
        tokens := tokens + ast[i].current.token;
      }
      assert ast[..|ast|] == ast;
    }

    /** The adjacency matrix of the records: square with side `Side(le)`, a
        cell is set exactly when one of the three rules sets it, and no
        rule sets a cell outside the matrix. */
    method Matrix() returns (m: array2<bool>)
      requires Valid()
      ensures fresh(m) && m.Length0 == Side(le) && m.Length1 == Side(le)
      ensures forall a, b :: 0 <= a < m.Length0 && 0 <= b < m.Length1 ==> (m[a, b] <==> Edge(ast, a, b))
      ensures forall a, b :: Edge(ast, a, b) ==> 0 <= a < m.Length0 && 0 <= b < m.Length1
    {
      var n := Side(le);
      m := new bool[n, n]((a, b) => false);
      forall x | x in ast ensures Within(x, 0, n) {
        WithinWiden(x, 0, le, 0, n);
      }
      for i := 0 to |ast|
        invariant forall a, b :: 0 <= a < n && 0 <= b < n ==> (m[a, b] <==> EdgeBefore(ast, i, a, b))
      {
        AddRecordEdges(m, ast, i);
        forall a, b | 0 <= a < n && 0 <= b < n ensures m[a, b] <==> EdgeBefore(ast, i + 1, a, b) {
          EdgeBeforeStep(ast, i, a, b);
        }
      }
      forall a, b | Edge(ast, a, b) ensures 0 <= a < n && 0 <= b < n {
        EdgesWithin(ast, 0, le, a, b);
      }
    }

    /** The tree view: for each record, in order, the tokens and positions
        of its node and of each of its children. */
    function Tree(): (t: seq<Entry>)
      reads this
      ensures |t| == |ast|
      ensures forall i :: 0 <= i < |t| ==>
                && t[i].current == View(ast[i].current.token, ast[i].current.pos)
                && |t[i].children| == |ast[i].children|
                && forall k :: 0 <= k < |t[i].children| ==>
                     t[i].children[k] == View(ast[i].children[k].token, ast[i].children[k].pos)
    {
      TreeView(ast)
    }
  }

  /** The records of a finished walk that took the counter from `lo` to
      `hi`: at least one, each with a key, in strictly increasing key
      order, sharing out the positions `lo .. hi-1` among themselves (each
      exactly once), each shaped, and each with its own and its children's
      positions inside `0 .. hi-1`. */
  ghost predicate Laid(ast: seq<Record>, lo: int, hi: int) {
    && lo < hi && ast != [] && Keyed(ast)
    && multiset(CurPositions(ast)) == multiset(Range(lo, hi))
    && (forall i, j :: 0 <= i < j < |ast| ==> Key(ast[i]) < Key(ast[j]))
    && (forall x :: x in ast ==> Shaped(x) && Within(x, 0, hi))
  }

  /** The records form the tree rooted at `root`: every child entry has
      exactly one record, which comes later, and every record but the
      first, which is the root's, is exactly one child entry of an earlier
      record. */
  ghost predicate TreeLinked(ast: seq<Record>, root: GraphNode) {
    ChildRecords(ast) && ParentRecords(ast, root)
  }

  /** Each child entry of a record is the node of exactly one record, and
      that record comes later in the list. */
  ghost predicate ChildRecords(recs: seq<Record>) {
    forall i, k :: 0 <= i < |recs| && 0 <= k < |recs[i].children| ==>
      exists j :: i < j < |recs| && AsCreated(recs[j]) == recs[i].children[k]
                  && forall j' :: 0 <= j' < |recs| && AsCreated(recs[j']) == recs[i].children[k] ==> j' == j
  }

  /** The first record is that of `root`, and every later record is that of
      exactly one child entry, of an earlier record. */
  ghost predicate ParentRecords(recs: seq<Record>, root: GraphNode) {
    && recs != [] && AsCreated(recs[0]) == root
    && forall j :: 0 < j < |recs| ==> HasParent(recs, j)
  }

  /** Record `j` is the node of exactly one child entry of any record, and
      that record comes earlier. */
  ghost predicate HasParent(recs: seq<Record>, j: int)
    requires 0 <= j < |recs|
  {
    exists i, k :: i < j && ParentEntry(recs, j, i, k)
      && forall i', k' :: ParentEntry(recs, j, i', k') ==> i' == i && k' == k
  }

  /** Child entry `k` of record `i` is the node of record `j`. */
  ghost predicate ParentEntry(recs: seq<Record>, j: int, i: int, k: int)
    requires 0 <= j < |recs|
  {
    0 <= i < |recs| && 0 <= k < |recs[i].children| && recs[i].children[k] == AsCreated(recs[j])
  }

  /** In a list with strictly increasing keys, where every child entry is
      the node of some record and starts after its parent, each child's
      record is unique and comes after its parent's. */
  lemma ChildRecordsOrdered(t: seq<Record>)
    requires Keyed(t) && forall i, j :: 0 <= i < j < |t| ==> Key(t[i]) < Key(t[j])
    requires forall x :: x in t ==> ChildrenAfter(x)
    requires forall r, c :: r in t && c in r.children ==> exists x :: x in t && AsCreated(x) == c
    ensures ChildRecords(t)
  {
    forall i, k | 0 <= i < |t| && 0 <= k < |t[i].children|
      ensures exists j :: i < j < |t| && AsCreated(t[j]) == t[i].children[k]
                && forall j' :: 0 <= j' < |t| && AsCreated(t[j']) == t[i].children[k] ==> j' == j
    {
      var c := t[i].children[k];
      assert t[i] in t && c in t[i].children;
      var x :| x in t && AsCreated(x) == c;
      var j :| 0 <= j < |t| && t[j] == x;
      assert Key(t[i]) < Key(t[j]);
      forall j' | 0 <= j' < |t| && AsCreated(t[j']) == c ensures j' == j {
        assert Key(t[j']) == Key(t[j]);
      }
    }
  }

  /** In a list with strictly increasing keys that hold the positions
      `lo .. hi-1`, the record of the node holding `lo` comes first. */
  lemma RootFirst(t: seq<Record>, lo: int, hi: int, root: GraphNode)
    requires Keyed(t) && forall i, j :: 0 <= i < j < |t| ==> Key(t[i]) < Key(t[j])
    requires lo <= hi && multiset(CurPositions(t)) == multiset(Range(lo, hi))
    requires root.pos != [] && root.pos[0] == lo
    requires exists x :: x in t && AsCreated(x) == root
    ensures t != [] && AsCreated(t[0]) == root
  {
    var x0 :| x0 in t && AsCreated(x0) == root;
    var j0 :| 0 <= j0 < |t| && t[j0] == x0;
    var p := Key(t[0]);
    assert p in t[0].current.pos;
    CurPositionsMember(t, 0, p);
    assert p in multiset(CurPositions(t));
    assert p in multiset(Range(lo, hi));
    RangeMembers(lo, hi, p);
    assert AsCreated(t[j0]).pos == t[j0].current.pos;
    assert lo <= p && Key(t[j0]) == lo;
    assert j0 == 0;
  }

  /** In a list with strictly increasing keys whose first record is that
      of `root`, a later record that is some child entry's comes after
      that entry's record. */
  lemma ParentBefore(t: seq<Record>, root: GraphNode, j: int)
    requires Keyed(t) && forall i, j :: 0 <= i < j < |t| ==> Key(t[i]) < Key(t[j])
    requires forall x :: x in t ==> ChildrenAfter(x)
    requires 0 < j < |t| && AsCreated(t[0]) == root
    requires AsCreated(t[j]) == root || exists r :: r in t && AsCreated(t[j]) in r.children
    ensures exists i, k :: i < j && ParentEntry(t, j, i, k)
  {
    var c := AsCreated(t[j]);
    assert c != root by {
      assert Key(t[0]) < Key(t[j]);
      assert AsCreated(t[0]).pos != AsCreated(t[j]).pos;
    }
    var r :| r in t && c in r.children;
    var i :| 0 <= i < |t| && t[i] == r;
    var k :| 0 <= k < |r.children| && r.children[k] == c;
    assert ChildrenAfter(r);
    assert Key(t[i]) < c.pos[0] == Key(t[j]);
    assert ParentEntry(t, j, i, k);
  }

  /** With strictly increasing keys and no node a child entry of two
      records, a record is the node of at most one child entry. */
  lemma ParentUnique(t: seq<Record>, j: int, i: int, k: int)
    requires Keyed(t) && forall i, j :: 0 <= i < j < |t| ==> Key(t[i]) < Key(t[j])
    requires OneParent(t)
    requires 0 <= j < |t| && ParentEntry(t, j, i, k)
    ensures forall i', k' :: ParentEntry(t, j, i', k') ==> i' == i && k' == k
  {
    var c := AsCreated(t[j]);
    forall i', k' | ParentEntry(t, j, i', k') ensures i' == i && k' == k {
      assert t[i'] in t && c in t[i'].children;
      assert t[i] in t && c in t[i].children;
      assert t[i'] == t[i];
      assert Key(t[i']) == Key(t[i]);
      assert KidsInOrder(t[i].children);
    }
  }

  /** Hence every record but the first is exactly one record's child, and
      that record is earlier. */
  lemma ParentsBefore(t: seq<Record>, root: GraphNode)
    requires Keyed(t) && forall i, j :: 0 <= i < j < |t| ==> Key(t[i]) < Key(t[j])
    requires forall x :: x in t ==> ChildrenAfter(x)
    requires OneParent(t)
    requires t != [] && AsCreated(t[0]) == root
    requires forall x :: x in t ==> AsCreated(x) == root || exists r :: r in t && AsCreated(x) in r.children
    ensures ParentRecords(t, root)
  {
    forall j | 0 < j < |t| ensures HasParent(t, j) {
      assert t[j] in t;
      ParentBefore(t, root, j);
      var i, k :| i < j && ParentEntry(t, j, i, k);
      ParentUnique(t, j, i, k);
    }
  }

  /** Sorting keeps every record, so the links stated by membership carry
      over to the sorted list, where they become links between indices. */
  lemma SortedLinks(s: seq<Record>, lo: int, hi: int, root: GraphNode)
    requires lo <= hi && Keyed(s)
    requires multiset(CurPositions(s)) == multiset(Range(lo, hi))
    requires forall x :: x in s ==> ChildrenAfter(x)
    requires root.pos != [] && root.pos[0] == lo
    requires exists x :: x in s && AsCreated(x) == root
    requires forall r, c :: r in s && c in r.children ==> exists x :: x in s && AsCreated(x) == c
    requires forall x :: x in s ==> AsCreated(x) == root || exists r :: r in s && AsCreated(x) in r.children
    requires OneParent(s)
    ensures ChildRecords(SortByFirst(s)) && ParentRecords(SortByFirst(s), root)
  {
    var t := SortByFirst(s);
    SortByFirstStrict(s, lo, hi);
    SortByFirstPositions(s);
    SortByFirstMembers(s);
    var x0 :| x0 in s && AsCreated(x0) == root;
    assert x0 in t;
    forall r, c | r in t && c in r.children ensures exists x :: x in t && AsCreated(x) == c {
      var x :| x in s && AsCreated(x) == c;
      assert x in t;
    }
    forall x | x in t ensures AsCreated(x) == root || exists r :: r in t && AsCreated(x) in r.children {
      if AsCreated(x) != root {
        var r :| r in s && AsCreated(x) in r.children;
        assert r in t;
      }
    }
    forall x | x in t ensures KidsInOrder(x.children) {
      assert x in s;
    }
    forall r, r', c | r in t && r' in t && c in r.children && c in r'.children ensures r == r' {
      assert r in s && r' in s;
    }
    ChildRecordsOrdered(t);
    RootFirst(t, lo, hi, root);
    ParentsBefore(t, root);
  }

  /** The facts about the whole walk the Walk method needs, gathered. */
  lemma WalkFacts(split: Splitter, root: Syntax, le: int)
    requires 0 <= le
    ensures var w := WalkFrom(split, root, le);
            && le < w.le
            && w.recs != []
            && Keyed(w.recs)
            && multiset(CurPositions(w.recs)) == multiset(Range(le, w.le))
            && (forall x :: x in w.recs ==> Shaped(x) && Within(x, 0, w.le))
            && |TokenStream(w.recs)| == w.le - le
  {
    var w := WalkFrom(split, root, le);
    WalkFromPositions(split, root, le);
    WalkFromShape(split, root, le);
    WalkFromPreOrder(split, root, le);
    forall x | x in w.recs ensures Within(x, 0, w.le) {
      WithinWiden(x, le, w.le, 0, w.le);
    }
    TokenStreamLength(w.recs);
    assert |CurPositions(w.recs)| == |multiset(CurPositions(w.recs))| == |Range(le, w.le)|;
  }

  /** The stack loop started from the root's node is the walk from `root`,
      and what that walk establishes. */
  lemma WalkOutcome(split: Splitter, root: Syntax, le: int, first: GraphNode, le1: int,
                    recs: seq<Record>, le2: int)
    requires 0 <= le && first == Alloc(split, root, le) && le1 == le + |first.token|
    requires recs == Run(split, [first], le1).recs && le2 == Run(split, [first], le1).le
    ensures var w := WalkFrom(split, root, le);
            && recs == w.recs && le2 == w.le
            && Keyed(recs)
            && |TokenStream(recs)| == le2 - le
            && Laid(SortByFirst(recs), le, le2)
            && TreeLinked(SortByFirst(recs), first)
  {
    WalkFromFirst(split, root, le, first, le1);
    WalkResult(split, root, le);
    WalkLinks(split, root, le);
  }

  /** After sorting, the records of the walk from `root` are linked as a
      tree rooted at the root's node. */
  lemma WalkLinks(split: Splitter, root: Syntax, le: int)
    requires 0 <= le
    ensures var w := WalkFrom(split, root, le);
            Keyed(w.recs) && TreeLinked(SortByFirst(w.recs), Alloc(split, root, le))
  {
    var w := WalkFrom(split, root, le);
    WalkFacts(split, root, le);
    WalkFromLinks(split, root, le);
    WalkFromOneParent(split, root, le);
    AllocFacts(split, root, le);
    SortedLinks(w.recs, le, w.le, Alloc(split, root, le));
  }

  lemma WalkFromFirst(split: Splitter, root: Syntax, le: int, first: GraphNode, le1: int)
    requires first == Alloc(split, root, le) && le1 == le + |first.token|
    ensures WalkFrom(split, root, le) == Run(split, [first], le1)
  {
  }

  /** Everything the first walk from `root` establishes, after sorting. */
  lemma WalkResult(split: Splitter, root: Syntax, le: int)
    requires 0 <= le
    ensures var w := WalkFrom(split, root, le);
            && Keyed(w.recs)
            && |TokenStream(w.recs)| == w.le - le
            && Laid(SortByFirst(w.recs), le, w.le)
  {
    var w := WalkFrom(split, root, le);
    WalkFacts(split, root, le);
    SortedFacts(w.recs, le, w.le);
  }

  /** What sorting keeps of those facts, and the strict order it adds. */
  lemma SortedFacts(s: seq<Record>, lo: int, hi: int)
    requires lo <= hi && s != [] && Keyed(s)
    requires multiset(CurPositions(s)) == multiset(Range(lo, hi))
    requires forall x :: x in s ==> Shaped(x) && Within(x, 0, hi)
    ensures var t := SortByFirst(s);
            && t != [] && Keyed(t)
            && multiset(CurPositions(t)) == multiset(Range(lo, hi))
            && (forall i, j :: 0 <= i < j < |t| ==> Key(t[i]) < Key(t[j]))
            && (forall x :: x in t ==> Shaped(x) && Within(x, 0, hi))
  {
    SortByFirstStrict(s, lo, hi);
    SortByFirstPositions(s);
    var t := SortByFirst(s);
    forall x | x in t ensures x in s {
      assert multiset(t)[x] > 0;
    }
    assert |t| == |multiset(t)| == |multiset(s)| == |s|;
  }
}
