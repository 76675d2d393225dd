/**
 Trees of linked nodes (`paren_atom`): a picture of the pointers, and when a pointer in it stands
 for a forest.
 */
module ParenTree {
  import opened Bytes
  import opened ParenText

  class Node {
    var isText: bool
    var text: seq<byte>
    var child: Node?
    var peer: Node?

    /** `calloc`: an empty list without a peer. */
    constructor ()
      ensures !isText && text == [] && child == null && peer == null
    {
      isText, text, child, peer := false, [], null, null;
    }
  }

  /** A place that holds a pointer: the result variable, or a field of a node. */
  datatype Slot = Root | ChildOf(node: Node) | PeerOf(node: Node)

  /** Pointers that are settled, and for each node its word or, for a list, None. */
  datatype Picture = Picture(slots: map<Slot, Node?>, labels: map<Node, Option<seq<byte>>>)

  ghost predicate OneTree(n: Node, t: Tree, g: Picture)
    decreases t, 1
  {
    n in g.labels &&
    match t
    case Word(w) => g.labels[n] == Some(w)
    case List(children) => g.labels[n] == None && Closed(ChildOf(n), children, g)
  }

  /** From slot a on, the peers are exactly the trees of f, and then the list ends. */
  ghost predicate Closed(a: Slot, f: seq<Tree>, g: Picture)
    decreases f, 0
  {
    a in g.slots &&
    var n := g.slots[a];
    if f == [] then n == null
    else n != null && OneTree(n, f[0], g) && Closed(PeerOf(n), f[1..], g)
  }

  /** From slot a on, the trees of f lead to slot b. */
  ghost predicate Leads(a: Slot, f: seq<Tree>, b: Slot, g: Picture)
    decreases |f|
  {
    if f == [] then a == b
    else
      a in g.slots &&
      var n := g.slots[a];
      n != null && OneTree(n, f[0], g) && Leads(PeerOf(n), f[1..], b, g)
  }

  /** Settled pointers between nodes and labels stay as they are. */
  ghost predicate Below(g: Picture, h: Picture) {
    && (forall s :: s in g.slots && !s.Root? ==> s in h.slots && h.slots[s] == g.slots[s])
    && (forall n :: n in g.labels ==> n in h.labels && h.labels[n] == g.labels[n])
  }

  /** So does the result variable. */
  ghost predicate Grows(g: Picture, h: Picture) {
    Below(g, h) && (Root in g.slots ==> Root in h.slots && h.slots[Root] == g.slots[Root])
  }

  lemma {:induction false} OneTreeGrows(n: Node, t: Tree, g: Picture, h: Picture)
    requires OneTree(n, t, g) && Below(g, h)
    ensures OneTree(n, t, h)
    decreases t, 1
  {
    if t.List? { ClosedMoves(ChildOf(n), ChildOf(n), t.children, g, h); }
  }

  /** A list is the same list wherever its first pointer is held. */
  lemma {:induction false} ClosedMoves(a: Slot, b: Slot, f: seq<Tree>, g: Picture, h: Picture)
    requires Closed(a, f, g) && Below(g, h)
    requires b in h.slots && h.slots[b] == g.slots[a]
    ensures Closed(b, f, h)
    decreases f, 0
  {
    if f != [] {
      OneTreeGrows(g.slots[a], f[0], g, h);
      ClosedMoves(PeerOf(g.slots[a]), PeerOf(g.slots[a]), f[1..], g, h);
    }
  }

  lemma {:induction false} LeadsGrows(a: Slot, f: seq<Tree>, b: Slot, g: Picture, h: Picture)
    requires Leads(a, f, b, g) && Grows(g, h)
    ensures Leads(a, f, b, h)
    decreases |f|
  {
    if f != [] {
      OneTreeGrows(g.slots[a], f[0], g, h);
      LeadsGrows(PeerOf(g.slots[a]), f[1..], b, g, h);
    }
  }

  lemma {:induction false} LeadsOneMore(a: Slot, f: seq<Tree>, b: Slot, t: Tree, g: Picture)
    requires Leads(a, f, b, g) && b in g.slots && g.slots[b] != null && OneTree(g.slots[b], t, g)
    ensures Leads(a, f + [t], PeerOf(g.slots[b]), g)
    decreases |f|
  {
    hide OneTree;
    if f == [] {
      assert ([] + [t])[1..] == [];
    } else {
      assert (f + [t])[1..] == f[1..] + [t];
      LeadsOneMore(PeerOf(g.slots[a]), f[1..], b, t, g);
    }
  }

  lemma {:induction false} LeadsThenEnds(a: Slot, f: seq<Tree>, b: Slot, g: Picture)
    requires Leads(a, f, b, g) && b in g.slots && g.slots[b] == null
    ensures Closed(a, f, g)
    decreases |f|
  {
    hide OneTree;
    if f != [] {
      LeadsThenEnds(PeerOf(g.slots[a]), f[1..], b, g);
    }
  }

  /** No pointer into or out of this node is settled: it is new. */
  ghost predicate Absent(n: Node, g: Picture) {
    n !in g.labels && ChildOf(n) !in g.slots && PeerOf(n) !in g.slots
  }

  /** A slot of a labelled node, or the result variable. */
  ghost predicate Inside(s: Slot, g: Picture) {
    s.Root? || s.node in g.labels
  }

  /** All settled slots are. */
  ghost predicate Within(g: Picture) {
    forall s :: s in g.slots ==> Inside(s, g)
  }

  /** The picture is true of the heap, `root` being the result variable. */
  ghost predicate Pictured(root: Node?, g: Picture)
    reads g.labels.Keys
  {
    && (forall s :: s in g.slots && Inside(s, g) ==> Held(root, s) == g.slots[s])
    && (forall n :: n in g.labels ==> n.isText == g.labels[n].Some? && (n.isText ==> n.text == g.labels[n].value))
  }

  /** What a slot holds. */
  ghost function Held(root: Node?, s: Slot): Node?
    reads if s.Root? then {} else {s.node}
  {
    match s
    case Root => root
    case ChildOf(n) => n.child
    case PeerOf(n) => n.peer
  }
}
