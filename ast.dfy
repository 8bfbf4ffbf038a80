/** Syntax trees as the parser hands them to the walker, and the two
    per-node policies the walker applies to them: which children it
    visits (`iter_children`) and which text stands for a node (`get_text`). */
module Ast {

  datatype Option<+T> = None | Some(value: T)

  /** The syntax categories the walker tells apart.  Every other category
      carries the label its class name gives it. */
  datatype Kind =
    | FunctionDef(name: string)
    | JoinedStr
    | Module
    | Store
    | Load
    | Other(category: string)

  /** A parsed syntax node: its category, the literal source text the
      parser recovers for it (if any) and its direct children in
      left-to-right order.  A dictionary display keeps its keys and values
      paired; a key is absent for a `**mapping` entry. */
  datatype Syntax =
    | Node(kind: Kind, text: Option<string>, children: seq<Syntax>)
    | Dict(text: Option<string>, entries: seq<DictEntry>)

  datatype DictEntry = DictEntry(key: Option<Syntax>, value: Syntax)

  /** Store and Load are the binding-context markers. */
  predicate IsMarker(n: Syntax) {
    n.Node? && (n.kind.Store? || n.kind.Load?)
  }

  predicate IsFunctionDef(n: Syntax) {
    n.Node? && n.kind.FunctionDef?
  }

  /** The category label used for nodes that have no single meaningful text. */
  function Label(n: Syntax): string {
    match n
    case Dict(_, _) => "Dict"
    case Node(k, _, _) =>
      match k
      case FunctionDef(_) => "FunctionDef"
      case JoinedStr => "JoinedStr"
      case Module => "Module"
      case Store => "Store"
      case Load => "Load"
      case Other(category) => category
  }

  /** The literal source text of a node; the empty string when there is none. */
  function Literal(n: Syntax): string {
    match n.text
    case Some(t) => t
    case None => ""
  }

  // ---------------------------------------------------------------------
  // Size of a subtree: the termination measure of every traversal here.

  function Size(n: Syntax): nat {
    match n
    case Node(_, _, cs) => 1 + SumSizes(cs)
    case Dict(_, es) => 1 + EntriesSize(es)
  }

  function SumSizes(ns: seq<Syntax>): nat {
    if ns == [] then 0 else Size(ns[0]) + SumSizes(ns[1..])
  }

  function EntrySize(e: DictEntry): nat {
    match e
    case DictEntry(None, v) => Size(v)
    case DictEntry(Some(k), v) => Size(k) + Size(v)
  }

  function EntriesSize(es: seq<DictEntry>): nat {
    if es == [] then 0 else EntrySize(es[0]) + EntriesSize(es[1..])
  }

  lemma {:induction false} SumSizesAppend(a: seq<Syntax>, b: seq<Syntax>)
    ensures SumSizes(a + b) == SumSizes(a) + SumSizes(b)
  {
    if a != [] {
      assert (a + b)[0] == a[0] && (a + b)[1..] == a[1..] + b;
      SumSizesAppend(a[1..], b);
    } else {
      assert a + b == b;
    }
  }

  /** A prefix of a node list is no larger than the whole list. */
  lemma {:induction false} SumSizesPrefix(ns: seq<Syntax>, k: nat)
    requires k <= |ns|
    ensures SumSizes(ns[..k]) <= SumSizes(ns)
  {
    assert ns == ns[..k] + ns[k..];
    SumSizesAppend(ns[..k], ns[k..]);
  }

  // ---------------------------------------------------------------------
  // iter_children

  /** What one dictionary entry contributes: its key when present, then its value. */
  function EntryItems(e: DictEntry): seq<Syntax> {
    (if e.key.Some? then [e.key.value] else []) + [e.value]
  }

  function DictItems(es: seq<DictEntry>): seq<Syntax> {
    if es == [] then [] else EntryItems(es[0]) + DictItems(es[1..])
  }

  lemma {:induction false} DictItemsSize(es: seq<DictEntry>)
    ensures SumSizes(DictItems(es)) == EntriesSize(es)
  {
    if es != [] {
      SumSizesAppend(EntryItems(es[0]), DictItems(es[1..]));
      DictItemsSize(es[1..]);
      var e := es[0];
      if e.key.Some? {
        SumSizesAppend([e.key.value], [e.value]);
      }
    }
  }

  /** The children the walker visits.  An f-string is opaque; a dictionary
      display yields each present key immediately followed by its value;
      every other node yields its direct children in order.  Each yielded
      child is a proper part of the node, and no part is yielded twice. */
  function IterChildren(n: Syntax): (cs: seq<Syntax>)
    ensures SumSizes(cs) < Size(n)
  {
    match n
    case Dict(_, es) =>
      DictItemsSize(es);
      DictItems(es)
    case Node(k, _, children) =>
      if k.JoinedStr? then [] else children
  }

  lemma {:induction false} DictItemsAppend(a: seq<DictEntry>, b: seq<DictEntry>)
    ensures DictItems(a + b) == DictItems(a) + DictItems(b)
  {
    if a != [] {
      assert (a + b)[0] == a[0] && (a + b)[1..] == a[1..] + b;
      DictItemsAppend(a[1..], b);
    } else {
      assert a + b == b;
    }
  }

  /** Where entry `i` of a dictionary display lands among the yielded
      children: right after everything the earlier entries yield, its key
      first (when present) and its value immediately after. */
  lemma DictItemsLayout(es: seq<DictEntry>, i: nat)
    requires i < |es|
    ensures var off := |DictItems(es[..i])|;
            var at := if es[i].key.Some? then off + 1 else off;
            && at < |DictItems(es)|
            && DictItems(es)[at] == es[i].value
            && (es[i].key.Some? ==> DictItems(es)[off] == es[i].key.value)
  {
    assert es == es[..i] + [es[i]] + es[i + 1..];
    DictItemsAppend(es[..i] + [es[i]], es[i + 1..]);
    DictItemsAppend(es[..i], [es[i]]);
    assert DictItems([es[i]]) == EntryItems(es[i]);
  }

  /** A dictionary display yields exactly its present keys and its values. */
  lemma {:induction false} DictItemsMembers(es: seq<DictEntry>, c: Syntax)
    ensures c in DictItems(es) <==>
            exists i :: 0 <= i < |es| && (es[i].key == Some(c) || es[i].value == c)
  {
    if es != [] {
      DictItemsMembers(es[1..], c);
      if c in DictItems(es[1..]) {
        var i :| 0 <= i < |es[1..]| && (es[1..][i].key == Some(c) || es[1..][i].value == c);
        assert es[i + 1] == es[1..][i];
      }
      if exists i :: 0 <= i < |es| && (es[i].key == Some(c) || es[i].value == c) {
        var i :| 0 <= i < |es| && (es[i].key == Some(c) || es[i].value == c);
        if i > 0 {
          assert es[1..][i - 1] == es[i];
        }
      }
    }
  }

  // ---------------------------------------------------------------------
  // get_text

  /** Every node in `cs` is a Store/Load marker. */
  predicate AllMarkers(cs: seq<Syntax>) {
    cs == [] || (IsMarker(cs[0]) && AllMarkers(cs[1..]))
  }

  /** The text that stands for a node (see GetTextPolicy). */
  function GetText(n: Syntax): string {
    if IsFunctionDef(n) then n.kind.name
    else if Literal(n) != "" then
      var cs := IterChildren(n);
      if cs == [] then Literal(n)
      else if AllMarkers(cs) then Literal(n)
      else Label(n)
    else Label(n)
  }

  lemma {:induction false} AllMarkersIff(cs: seq<Syntax>)
    ensures AllMarkers(cs) <==> forall c :: c in cs ==> IsMarker(c)
  {
    if cs != [] {
      AllMarkersIff(cs[1..]);
      assert forall c :: c in cs ==> c == cs[0] || c in cs[1..];
    }
  }

  /** A function definition stands for its declared name; any other node
      for its literal source text when it has some and every child it yields
      is a Store/Load marker (vacuously so for a node without children); in
      every other case, including empty or absent text, for its category
      label. */
  lemma GetTextPolicy(n: Syntax)
    ensures IsFunctionDef(n) ==> GetText(n) == n.kind.name
    ensures !IsFunctionDef(n) && Literal(n) != "" && (forall c :: c in IterChildren(n) ==> IsMarker(c))
            ==> GetText(n) == Literal(n)
    ensures !IsFunctionDef(n) && (Literal(n) == "" || exists c :: c in IterChildren(n) && !IsMarker(c))
            ==> GetText(n) == Label(n)
  {
    AllMarkersIff(IterChildren(n));
  }

  // ---------------------------------------------------------------------
  // Store/Load markers among a node's children

  /** Index of the first Store/Load marker in `cs`, or `|cs|` when there is none. */
  function FirstMarker(cs: seq<Syntax>): (k: nat)
    ensures k <= |cs|
    ensures k < |cs| ==> IsMarker(cs[k])
    ensures forall i :: 0 <= i < k ==> !IsMarker(cs[i])
  {
    if cs == [] then 0
    else if IsMarker(cs[0]) then 0
    else 1 + FirstMarker(cs[1..])
  }

  /** The children that become graph nodes: those yielded before the first marker. */
  function Materialised(n: Syntax): (cs: seq<Syntax>)
    ensures SumSizes(cs) < Size(n)
    ensures forall c :: c in cs ==> !IsMarker(c)
  {
    var all := IterChildren(n);
    SumSizesPrefix(all, FirstMarker(all));
    all[..FirstMarker(all)]
  }

  /** A node that stands for its non-empty literal text (it is no function
      definition and every child it yields is a Store/Load marker) becomes
      a leaf of the graph: none of its children is materialised. */
  lemma LiteralTextNodesAreLeaves(n: Syntax)
    requires !IsFunctionDef(n) && Literal(n) != ""
    requires forall c :: c in IterChildren(n) ==> IsMarker(c)
    ensures GetText(n) == Literal(n)
    ensures Materialised(n) == []
  {
    GetTextPolicy(n);
    if IterChildren(n) != [] {
      assert IsMarker(IterChildren(n)[0]);
    }
  }
}
