/**
 Macro application (src/paren-parser/paren-preprocessor.c): the places of a parameter in the
 shared body are overwritten with an argument, and the body is then copied into the call's place.
 */
module ParenMacro {
  import opened Bytes
  import opened ParenText
  import opened ParenTree

  // ---------------------------------------------------------------------------
  // Simultaneous substitution

  type Bindings = map<seq<byte>, Tree>

  function Substitute(t: Tree, values: Bindings): Tree
    decreases t, 1
  {
    match t
    case Word(w) => if w in values then values[w] else t
    case List(children) => List(SubstituteAll(children, values))
  }

  function SubstituteAll(f: seq<Tree>, values: Bindings): (r: seq<Tree>)
    ensures |r| == |f|
    decreases f, 0
  {
    if f == [] then [] else [Substitute(f[0], values)] + SubstituteAll(f[1..], values)
  }

  /** The last parameter among the first k with this name. */
  function LastNamed(names: seq<Option<seq<byte>>>, k: nat, w: seq<byte>): (j: Option<nat>)
    requires k <= |names|
    ensures j.Some? ==> j.value < k && names[j.value] == Some(w)
    ensures j.None? ==> forall i :: 0 <= i < k ==> names[i] != Some(w)
  {
    if k == 0 then None
    else if names[k - 1] == Some(w) then Some(k - 1)
    else LastNamed(names, k - 1, w)
  }

  function Parameters(names: seq<Option<seq<byte>>>): set<seq<byte>> {
    set i | 0 <= i < |names| && names[i].Some? :: names[i].value
  }

  /** What a call binds: of parameters with one name the last counts. */
  function Bound(names: seq<Option<seq<byte>>>, args: seq<Tree>): Bindings
    requires |names| == |args|
  {
    map w | w in Parameters(names) && LastNamed(names, |names|, w).Some? ::
      args[LastNamed(names, |names|, w).value]
  }

  /** Printed words replaced one by one, wherever they stand; parentheses and other words stay. */
  function Replaced(tokens: seq<Token>, values: Bindings): seq<Token> {
    if tokens == [] then []
    else
      (if tokens[0].Text? && tokens[0].text in values then Print(values[tokens[0].text]) else [tokens[0]])
      + Replaced(tokens[1..], values)
  }

  lemma {:induction false} ReplacedConcat(a: seq<Token>, b: seq<Token>, values: Bindings)
    ensures Replaced(a + b, values) == Replaced(a, values) + Replaced(b, values)
    decreases |a|
  {
    hide Print;
    if a == [] {
      assert a + b == b;
    } else {
      assert (a + b)[1..] == a[1..] + b;
      ReplacedConcat(a[1..], b, values);
    }
  }

  lemma ReplacedOne(token: Token, values: Bindings)
    ensures Replaced([token], values)
         == if token.Text? && token.text in values then Print(values[token.text]) else [token]
  {
    hide Print;
    assert [token][1..] == [];
  }

  /** Substitution in a forest is replacing words in its printed form, at any depth. */
  lemma {:induction false} SubstitutionReplacesWords(f: seq<Tree>, values: Bindings)
    ensures PrintAll(SubstituteAll(f, values)) == Replaced(PrintAll(f), values)
    decreases f, 0
  {
    hide Print, Replaced;
    if f == [] {
      PrintNothing();
      assert Replaced([], values) == [] by { ReplacedNothing(values); }
    } else {
      SubstitutionInTree(f[0], values);
      SubstitutionReplacesWords(f[1..], values);
      ReplacedConcat(Print(f[0]), PrintAll(f[1..]), values);
      var r := SubstituteAll(f, values);
      assert r[0] == Substitute(f[0], values) && r[1..] == SubstituteAll(f[1..], values);
    }
  }

  lemma ReplacedNothing(values: Bindings)
    ensures Replaced([], values) == []
  {
  }

  lemma {:induction false} SubstitutionInTree(t: Tree, values: Bindings)
    ensures Print(Substitute(t, values)) == Replaced(Print(t), values)
    decreases t, 1
  {
    match t
    case Word(w) => ReplacedOne(Text(w), values);
    case List(children) =>
      hide PrintAll, Replaced;
      SubstitutionReplacesWords(children, values);
      PrintList(children);
      PrintList(SubstituteAll(children, values));
      ReplacedOne(Open, values);
      ReplacedOne(Close, values);
      ReplacedConcat([Open], PrintAll(children), values);
      ReplacedConcat([Open] + PrintAll(children), [Close], values);
  }

  /** A name stands for the argument of the last parameter with it. */
  lemma LastParameterCounts(names: seq<Option<seq<byte>>>, args: seq<Tree>, w: seq<byte>, j: nat)
    requires |names| == |args| && j < |names| && names[j] == Some(w)
    requires forall i :: j < i < |names| ==> names[i] != Some(w)
    ensures w in Bound(names, args) && Bound(names, args)[w] == args[j]
  {
    LastIs(names, |names|, w, j);
    assert w in Parameters(names);
  }

  lemma {:induction false} LastIs(names: seq<Option<seq<byte>>>, k: nat, w: seq<byte>, j: nat)
    requires j < k <= |names| && names[j] == Some(w) && forall i :: j < i < k ==> names[i] != Some(w)
    ensures LastNamed(names, k, w) == Some(j)
    decreases k
  {
    if k - 1 > j { LastIs(names, k - 1, w, j); }
  }

  // ---------------------------------------------------------------------------
  // The body, with holes where the parameters were

  /** Everything of the body but the contents of the holes; each hole has its parameter. */
  ghost predicate OneFrame(n: Node, t: Tree, g: Picture, holes: map<Node, seq<byte>>, parameters: set<seq<byte>>)
    decreases t, 1
  {
    match t
    case Word(w) =>
      if w in parameters then n in holes && holes[n] == w
      else n in g.labels && g.labels[n] == Some(w)
    case List(children) =>
      n in g.labels && g.labels[n] == None && Frame(ChildOf(n), children, g, holes, parameters)
  }

  ghost predicate Frame(a: Slot, f: seq<Tree>, g: Picture, holes: map<Node, seq<byte>>, parameters: set<seq<byte>>)
    decreases f, 0
  {
    a in g.slots &&
    var n := g.slots[a];
    if f == [] then n == null
    else n != null && OneFrame(n, f[0], g, holes, parameters) && Frame(PeerOf(n), f[1..], g, holes, parameters)
  }

  /** Filling every hole with the value of its parameter substitutes. */
  lemma {:induction false} FrameFilled(a: Slot, f: seq<Tree>, g: Picture, holes: map<Node, seq<byte>>,
                                       parameters: set<seq<byte>>, h: Picture, values: Bindings)
    requires Frame(a, f, g, holes, parameters) && Below(g, h)
    requires a in h.slots && h.slots[a] == g.slots[a]
    requires values.Keys == parameters
    requires forall n :: n in holes && holes[n] in parameters ==> OneTree(n, values[holes[n]], h)
    ensures Closed(a, SubstituteAll(f, values), h)
    decreases f, 0
  {
    if f != [] {
      var n := g.slots[a];
      OneFrameFilled(n, f[0], g, holes, parameters, h, values);
      FrameFilled(PeerOf(n), f[1..], g, holes, parameters, h, values);
      var r := SubstituteAll(f, values);
      assert r[0] == Substitute(f[0], values) && r[1..] == SubstituteAll(f[1..], values);
    }
  }

  lemma {:induction false} OneFrameFilled(n: Node, t: Tree, g: Picture, holes: map<Node, seq<byte>>,
                                          parameters: set<seq<byte>>, h: Picture, values: Bindings)
    requires OneFrame(n, t, g, holes, parameters) && Below(g, h)
    requires values.Keys == parameters
    requires forall n :: n in holes && holes[n] in parameters ==> OneTree(n, values[holes[n]], h)
    ensures OneTree(n, Substitute(t, values), h)
    decreases t, 1
  {
    if t.List? { FrameFilled(ChildOf(n), t.children, g, holes, parameters, h, values); }
  }

  // ---------------------------------------------------------------------------
  // The picture of a copy

  ghost predicate Apart(g: Picture, h: Picture) {
    g.labels.Keys !! h.labels.Keys
  }

  /** A copied word, and what has been copied before it. */
  ghost function WithWord(h: Picture, to: Slot, n: Node, w: seq<byte>): Picture {
    Picture(h.slots[to := n], h.labels[n := Some(w)])
  }

  /** A copied list with its copied contents, and what has been copied before it. */
  ghost function WithList(h: Picture, to: Slot, n: Node, below: Picture, end: Slot): Picture {
    var first := below.slots[end := null];
    Picture((first - {Root})[ChildOf(n) := if Root in first then first[Root] else null] + h.slots[to := n],
            below.labels + h.labels[n := None])
  }

  lemma WordCopied(f: seq<Tree>, to: Slot, h: Picture, n: Node, w: seq<byte>)
    requires Leads(Root, f, to, h) && to !in h.slots && Inside(to, h) && Within(h) && Absent(n, h)
    ensures var h' := WithWord(h, to, n, w);
      Leads(Root, f + [Word(w)], PeerOf(n), h') && PeerOf(n) !in h'.slots && Within(h')
  {
    hide Leads;
    var h' := WithWord(h, to, n, w);
    LeadsGrows(Root, f, to, h, h');
    LeadsOneMore(Root, f, to, Word(w), h');
  }

  lemma ListCopied(f: seq<Tree>, to: Slot, h: Picture, n: Node, children: seq<Tree>, below: Picture, end: Slot)
    requires Leads(Root, f, to, h) && to !in h.slots && Inside(to, h) && Within(h) && Absent(n, h)
    requires Leads(Root, children, end, below) && end !in below.slots && Inside(end, below) && Within(below)
    requires Absent(n, below) && Apart(h, below) && (f == [] <==> to.Root?)
    ensures var h' := WithList(h, to, n, below, end);
      Leads(Root, f + [List(children)], PeerOf(n), h') && PeerOf(n) !in h'.slots && Within(h')
  {
    var h' := WithList(h, to, n, below, end);
    var first := Picture(below.slots[end := null], below.labels);
    LeadsGrows(Root, children, end, below, first);
    LeadsThenEnds(Root, children, end, first);
    RootSettled(children, end, below);
    ListCopiedGrows(to, h, n, below, end);
    ClosedMoves(Root, ChildOf(n), children, first, h');
    RootSettled(f, to, h);
    hide Leads;
    LeadsGrows(Root, f, to, h, h');
    LeadsOneMore(Root, f, to, List(children), h');
  }

  lemma RootSettled(f: seq<Tree>, end: Slot, h: Picture)
    requires Leads(Root, f, end, h)
    ensures Root in h.slots || end == Root
  {
  }

  /** The copied contents are settled where they were, next to what was copied before. */
  lemma ContentsKept(to: Slot, h: Picture, n: Node, below: Picture, end: Slot)
    requires Inside(to, h) && Within(h) && Inside(end, below) && Within(below)
    requires Absent(n, below) && Apart(h, below)
    ensures Below(Picture(below.slots[end := null], below.labels), WithList(h, to, n, below, end))
  {
    var first := below.slots[end := null];
    var before := h.slots[to := n];
    forall s | s in first && !s.Root? ensures s !in before && s != ChildOf(n) {
      assert Inside(s, below);
    }
  }

  lemma SlotsInside(to: Slot, h: Picture, n: Node, below: Picture, end: Slot)
    requires Inside(to, h) && Within(h) && Inside(end, below) && Within(below)
    ensures Within(WithList(h, to, n, below, end))
  {
    var h' := WithList(h, to, n, below, end);
    forall s | s in h'.slots ensures Inside(s, h') {
      assert s == ChildOf(n) || s == to || s == end || s in h.slots || s in below.slots;
    }
  }

  lemma ListCopiedGrows(to: Slot, h: Picture, n: Node, below: Picture, end: Slot)
    requires to !in h.slots && Inside(to, h) && Within(h) && Absent(n, h)
    requires end !in below.slots && Inside(end, below) && Within(below)
    requires Absent(n, below) && Apart(h, below)
    ensures var h' := WithList(h, to, n, below, end);
      && Grows(h, h') && Below(Picture(below.slots[end := null], below.labels), h') && Within(h')
      && PeerOf(n) !in h'.slots && h'.slots[to] == n && h'.labels[n] == None
      && ChildOf(n) in h'.slots
      && (Root in below.slots || end == Root ==> h'.slots[ChildOf(n)] == below.slots[end := null][Root])
  {
    ContentsKept(to, h, n, below, end);
    SlotsInside(to, h, n, below, end);
    hide Below, Within;
    assert Grows(h, WithList(h, to, n, below, end)) by { EarlierKept(to, h, n, below, end); }
  }

  lemma EarlierKept(to: Slot, h: Picture, n: Node, below: Picture, end: Slot)
    requires to !in h.slots && n !in h.labels
    ensures Grows(h, WithList(h, to, n, below, end))
  {
  }

  // ---------------------------------------------------------------------------
  // Copying a tree

  /** What has been copied so far, over nodes of its own: from the result on f, up to the slot `to`. */
  ghost predicate Copied(f: seq<Tree>, to: Slot, retval: Node?, h: Picture)
    reads h.labels.Keys
  {
    && Leads(Root, f, to, h) && to !in h.slots && Inside(to, h) && (to.Root? <==> f == [])
    && Pictured(retval, h) && Within(h)
  }

  lemma NothingCopied()
    ensures Copied([], Root, null, Picture(map[], map[]))
  {
  }

  /** Where the next node is written: nowhere yet, or in a node of the copy. */
  lemma WritesIntoCopy(f: seq<Tree>, to: Slot, retval: Node?, h: Picture)
    requires Copied(f, to, retval, h)
    ensures to.Root? || to.node in h.labels
  {
  }

  /** The node a pointer of a list leads to, and the list behind it. */
  lemma FirstOfList(place: Slot, f: seq<Tree>, g: Picture, root: Node?)
    requires Closed(place, f, g) && Pictured(root, g)
    ensures place in g.slots && (g.slots[place] == null <==> f == [])
    ensures f != [] ==>
              var at := g.slots[place];
              && at != null && at in g.labels && OneTree(at, f[0], g)
              && Closed(PeerOf(at), f[1..], g) && PeerOf(at) in g.slots && at.peer == g.slots[PeerOf(at)]
  {
    if f != [] { assert Inside(PeerOf(g.slots[place]), g); }
  }

  /** `_dupe_tree`: new nodes only, standing for the same forest. */
  method DupeTree(from: Node?, ghost a: Slot, ghost f: seq<Tree>, ghost g: Picture, ghost root: Node?)
    returns (retval: Node?, ghost end: Slot, ghost h: Picture)
    requires Closed(a, f, g) && Pictured(root, g) && from == g.slots[a]
    ensures fresh(h.labels.Keys)
    ensures Copied(f, end, retval, h) && Held(retval, end) == null
    decreases f, 0
  {
    hide Copied, Closed, OneTree, Pictured;
    retval := null;
    var to := Root;
    h := Picture(map[], map[]);
    var at := from;
    ghost var place, i := a, 0;
    assert f[0..] == f && f[..0] == [];
    NothingCopied();
    FirstOfList(a, f, g, root);
    while at != null
      invariant 0 <= i <= |f| && Closed(place, f[i..], g) && place in g.slots && at == g.slots[place]
      invariant at == null <==> i == |f|
      invariant Pictured(root, g) && fresh(h.labels.Keys)
      invariant Copied(f[..i], to, retval, h)
      invariant Held(retval, to) == if to.Root? then null else at
      invariant to.Root? <==> i == 0
      decreases |f| - i
    {
      ghost var rest := f[i..];
      assert rest[0] == f[i] && rest[1..] == f[i + 1..];
      assert f[..i + 1] == f[..i] + [f[i]];
      FirstOfList(place, rest, g, root);
      WritesIntoCopy(f[..i], to, retval, h);
      var n: Node;
      retval, n, h := DupeOne(at, f[i], g, root, retval, to, f[..i], h);
      place, to, at, i := PeerOf(at), PeerOf(n), at.peer, i + 1;
      FirstOfList(place, f[i..], g, root);
    }
    assert f[..i] == f;
    end := to;
  }

  /** `*to = node`. */
  method Attach(before: Node?, to: Slot, n: Node, ghost f: seq<Tree>, ghost h: Picture) returns (retval: Node?)
    requires Copied(f, to, before, h) && n !in h.labels
    modifies if to.Root? then {} else {to.node}
    ensures Held(retval, to) == n && Copied(f, to, retval, h)
  {
    retval := before;
    match to {
      case Root => retval := n;
      case ChildOf(x) => x.child := n;
      case PeerOf(x) => x.peer := n;
    }
  }

  lemma PicturedWord(retval: Node?, to: Slot, h: Picture, n: Node, w: seq<byte>)
    requires Pictured(retval, h) && Held(retval, to) == n && Inside(to, h) && to !in h.slots
    requires n.isText && n.text == w && Absent(n, h)
    ensures Pictured(retval, WithWord(h, to, n, w))
  {
  }

  lemma PicturedList(retval: Node?, to: Slot, h: Picture, n: Node, child: Node?, below: Picture, end: Slot)
    requires Pictured(retval, h) && Held(retval, to) == n && Inside(to, h) && Within(h) && Absent(n, h)
    requires Pictured(child, below) && Inside(end, below) && Within(below) && Absent(n, below) && Apart(h, below)
    requires Held(child, end) == null && (Root in below.slots || end == Root)
    requires !n.isText && n.child == child
    ensures Pictured(retval, WithList(h, to, n, below, end))
  {
    var h' := WithList(h, to, n, below, end);
    forall s | s in h'.slots ensures Held(retval, s) == h'.slots[s] {
      ListSlotPictured(retval, to, h, n, child, below, end, s);
    }
  }

  lemma ListSlotPictured(retval: Node?, to: Slot, h: Picture, n: Node, child: Node?, below: Picture, end: Slot, s: Slot)
    requires Pictured(retval, h) && Held(retval, to) == n && Within(h)
    requires Pictured(child, below) && Within(below) && Held(child, end) == null && (Root in below.slots || end == Root)
    requires n.child == child && s in WithList(h, to, n, below, end).slots
    ensures Held(retval, s) == WithList(h, to, n, below, end).slots[s]
  {
    hide Pictured, Within;
    SlotPictured(retval, h, s);
    SlotPictured(child, below, s);
    SlotPictured(child, below, Root);
  }

  lemma SlotPictured(retval: Node?, h: Picture, s: Slot)
    requires Pictured(retval, h) && Within(h)
    ensures s in h.slots ==> Held(retval, s) == h.slots[s]
  {
    assert s in h.slots ==> Inside(s, h);
  }

  /** A word node written at the end of the copy. */
  lemma WordAdded(f: seq<Tree>, to: Slot, retval: Node?, h: Picture, n: Node, w: seq<byte>)
    requires Copied(f, to, retval, h) && Held(retval, to) == n && n !in h.labels
    requires n.isText && n.text == w
    ensures Copied(f + [Word(w)], PeerOf(n), retval, WithWord(h, to, n, w))
    ensures WithWord(h, to, n, w).labels.Keys == h.labels.Keys + {n}
  {
    NewIsAbsent(n, h);
    WordCopied(f, to, h, n, w);
    PicturedWord(retval, to, h, n, w);
  }

  /** A list node with its own copied contents. */
  lemma ListAdded(f: seq<Tree>, to: Slot, retval: Node?, h: Picture, n: Node,
                  children: seq<Tree>, child: Node?, below: Picture, end: Slot)
    requires Copied(f, to, retval, h) && Held(retval, to) == n && n !in h.labels
    requires Copied(children, end, child, below) && Held(child, end) == null && n !in below.labels
    requires !n.isText && n.child == child && Apart(h, below)
    ensures Copied(f + [List(children)], PeerOf(n), retval, WithList(h, to, n, below, end))
    ensures WithList(h, to, n, below, end).labels.Keys == h.labels.Keys + {n} + below.labels.Keys
  {
    NewIsAbsent(n, h);
    NewIsAbsent(n, below);
    RootSettled(children, end, below);
    hide Leads, Pictured, Within, WithList;
    LabelsWithList(h, to, n, below, end);
    ListCopied(f, to, h, n, children, below, end);
    PicturedList(retval, to, h, n, child, below, end);
  }

  /** A copied node by itself: the word, or the list with its contents copied. */
  ghost predicate NodeCopied(n: Node, t: Tree, child: Node?, below: Picture, end: Slot)
    reads n, below.labels.Keys
  {
    && n.isText == t.Word? && (t.Word? ==> n.text == t.text)
    && (t.List? ==>
          && n.child == child && n !in below.labels
          && Copied(t.children, end, child, below) && Held(child, end) == null)
  }

  ghost function WithNode(h: Picture, to: Slot, n: Node, t: Tree, below: Picture, end: Slot): Picture {
    if t.Word? then WithWord(h, to, n, t.text) else WithList(h, to, n, below, end)
  }

  lemma NodeAdded(f: seq<Tree>, to: Slot, retval: Node?, h: Picture, n: Node, t: Tree,
                  child: Node?, below: Picture, end: Slot)
    requires Copied(f, to, retval, h) && Held(retval, to) == n && n !in h.labels
    requires NodeCopied(n, t, child, below, end) && Apart(h, below)
    ensures var h' := WithNode(h, to, n, t, below, end);
      && Copied(f + [t], PeerOf(n), retval, h')
      && h'.labels.Keys <= h.labels.Keys + {n} + below.labels.Keys
  {
    hide Copied, WithWord, WithList;
    match t
    case Word(w) => WordAdded(f, to, retval, h, n, w);
    case List(children) => ListAdded(f, to, retval, h, n, children, child, below, end);
  }

  lemma LabelsWithList(h: Picture, to: Slot, n: Node, below: Picture, end: Slot)
    ensures WithList(h, to, n, below, end).labels.Keys == h.labels.Keys + {n} + below.labels.Keys
  {
  }

  lemma NewIsAbsent(n: Node, h: Picture)
    requires Within(h) && n !in h.labels
    ensures Absent(n, h)
  {
    assert ChildOf(n) in h.slots ==> Inside(ChildOf(n), h);
    assert PeerOf(n) in h.slots ==> Inside(PeerOf(n), h);
  }

  /** One node of the list, with the tree below it; its peer is copied along, to be replaced. */
  method DupeOne(at: Node, ghost t: Tree, ghost g: Picture, ghost root: Node?,
                 before: Node?, to: Slot, ghost f: seq<Tree>, ghost h: Picture)
    returns (retval: Node?, n: Node, ghost h': Picture)
    requires OneTree(at, t, g) && at in g.labels && Pictured(root, g)
    requires Copied(f, to, before, h) && h.labels.Keys !! g.labels.Keys
    modifies if to.Root? then {} else {to.node}
    ensures fresh(h'.labels.Keys - h.labels.Keys)
    ensures Copied(f + [t], PeerOf(n), retval, h') && n.peer == at.peer
    decreases t, 2
  {
    hide Copied, Pictured, OneTree, WithNode, NodeCopied;
    var child: Node?;
    ghost var below, end;
    retval, n, child, below, end := CopyAndAttach(at, t, g, root, before, to, f, h);
    NodeAdded(f, to, retval, h, n, t, child, below, end);
    h' := WithNode(h, to, n, t, below, end);
  }

  method CopyAndAttach(at: Node, ghost t: Tree, ghost g: Picture, ghost root: Node?,
                       before: Node?, to: Slot, ghost f: seq<Tree>, ghost h: Picture)
    returns (retval: Node?, n: Node, child: Node?, ghost below: Picture, ghost end: Slot)
    requires OneTree(at, t, g) && at in g.labels && Pictured(root, g)
    requires Copied(f, to, before, h) && h.labels.Keys !! g.labels.Keys
    modifies if to.Root? then {} else {to.node}
    ensures fresh(n) && fresh(below.labels.Keys) && n !in h.labels && Apart(h, below)
    ensures Copied(f, to, retval, h) && Held(retval, to) == n
    ensures NodeCopied(n, t, child, below, end) && n.peer == at.peer
    decreases t, 1
  {
    WritesIntoCopy(f, to, before, h);
    hide Copied, Pictured, OneTree, NodeCopied;
    n, child, below, end := CopyNode(at, t, g, root);
    retval := Attach(before, to, n, f, h);
  }

  method CopyNode(at: Node, ghost t: Tree, ghost g: Picture, ghost root: Node?)
    returns (n: Node, child: Node?, ghost below: Picture, ghost end: Slot)
    requires OneTree(at, t, g) && Pictured(root, g)
    ensures fresh(n) && n.peer == at.peer && fresh(below.labels.Keys)
    ensures NodeCopied(n, t, child, below, end)
    decreases t, 0
  {
    n := new Node();
    n.isText, n.text, n.child, n.peer := at.isText, at.text, at.child, at.peer;
    child := n.child;
    below, end := Picture(map[], map[]), Root;
    if !n.isText {
      child, end, below := DupeTree(at.child, ChildOf(at), t.children, g, root);
      n.child := child;
    }
  }

  // ---------------------------------------------------------------------------
  // Finding the places of a parameter

  /** The nodes that hold words. */
  ghost function Places(a: Slot, f: seq<Tree>, g: Picture): set<Node>
    requires Closed(a, f, g)
    decreases f, 0
  {
    if f == [] then {} else PlacesIn(g.slots[a], f[0], g) + Places(PeerOf(g.slots[a]), f[1..], g)
  }

  ghost function PlacesIn(n: Node, t: Tree, g: Picture): set<Node>
    requires OneTree(n, t, g)
    decreases t, 1
  {
    match t
    case Word(_) => {n}
    case List(children) => Places(ChildOf(n), children, g)
  }

  lemma {:induction false} PlacesAreWords(a: Slot, f: seq<Tree>, g: Picture)
    requires Closed(a, f, g)
    ensures forall n :: n in Places(a, f, g) ==> n in g.labels && g.labels[n].Some?
    decreases f, 0
  {
    if f != [] {
      PlacesInAreWords(g.slots[a], f[0], g);
      PlacesAreWords(PeerOf(g.slots[a]), f[1..], g);
    }
  }

  lemma {:induction false} PlacesInAreWords(n: Node, t: Tree, g: Picture)
    requires OneTree(n, t, g)
    ensures forall x :: x in PlacesIn(n, t, g) ==> x in g.labels && g.labels[x].Some?
    decreases t, 1
  {
    if t.List? { PlacesAreWords(ChildOf(n), t.children, g); }
  }

  function Size(t: Tree): nat
    decreases t, 1
  {
    match t case Word(_) => 1 case List(children) => 1 + SizeAll(children)
  }

  function SizeAll(f: seq<Tree>): nat
    decreases f, 0
  {
    if f == [] then 0 else Size(f[0]) + SizeAll(f[1..])
  }

  /** Parts of the body still to be searched: where they start and what they are. */
  datatype Part = Part(slot: Slot, forest: seq<Tree>)

  ghost predicate StartsAt(node: Node?, part: Part, g: Picture) {
    Closed(part.slot, part.forest, g) && node == g.slots[part.slot]
  }

  ghost predicate AllStart(nodes: seq<Node>, parts: seq<Part>, g: Picture) {
    |nodes| == |parts| && forall k :: 0 <= k < |parts| ==> StartsAt(nodes[k], parts[k], g)
  }

  /** The places in one part. */
  ghost function PlacesFrom(node: Node?, part: Part, g: Picture): set<Node>
    requires StartsAt(node, part, g)
  {
    Places(part.slot, part.forest, g)
  }

  /** The places in all of them. */
  ghost function PlacesOf(nodes: seq<Node>, parts: seq<Part>, g: Picture): set<Node>
    requires AllStart(nodes, parts, g)
  {
    if parts == [] then {}
    else
      var m := |parts| - 1;
      PlacesFrom(nodes[m], parts[m], g) + PlacesOf(nodes[..m], parts[..m], g)
  }

  function SizeOf(parts: seq<Part>): nat {
    if parts == [] then 0
    else
      var m := |parts| - 1;
      SizeAll(parts[m].forest) + SizeOf(parts[..m])
  }

  lemma NothingLeft(g: Picture)
    ensures AllStart([], [], g) && PlacesOf([], [], g) == {}
  {
  }

  lemma PartPushed(nodes: seq<Node>, parts: seq<Part>, node: Node, part: Part, g: Picture)
    requires AllStart(nodes, parts, g) && StartsAt(node, part, g)
    ensures AllStart(nodes + [node], parts + [part], g)
    ensures PlacesOf(nodes + [node], parts + [part], g) == PlacesFrom(node, part, g) + PlacesOf(nodes, parts, g)
    ensures SizeOf(parts + [part]) == SizeAll(part.forest) + SizeOf(parts)
  {
    hide Closed;
    assert (parts + [part])[..|parts|] == parts && (nodes + [node])[..|nodes|] == nodes;
  }

  lemma PartPopped(nodes: seq<Node>, parts: seq<Part>, g: Picture)
    requires AllStart(nodes, parts, g) && nodes != []
    ensures var m := |nodes| - 1;
      && |parts| == |nodes| && AllStart(nodes[..m], parts[..m], g) && StartsAt(nodes[m], parts[m], g)
      && PlacesOf(nodes, parts, g) == PlacesFrom(nodes[m], parts[m], g) + PlacesOf(nodes[..m], parts[..m], g)
      && SizeOf(parts) == SizeAll(parts[m].forest) + SizeOf(parts[..m])
  {
  }

  ghost predicate Named(n: Node, name: Option<seq<byte>>, g: Picture) {
    n in g.labels && name.Some? && g.labels[n] == name
  }

  ghost function AsSet(nodes: seq<Node>): set<Node> {
    set n | n in nodes
  }

  ghost function NamedIn(places: set<Node>, name: Option<seq<byte>>, g: Picture): set<Node> {
    set n | n in places && Named(n, name, g)
  }

  /** At a node: what its tree is, and what follows it. */
  lemma AtNode(child: Node?, here: Part, g: Picture, root: Node?)
    requires StartsAt(child, here, g) && Pictured(root, g)
    ensures child == null <==> here.forest == []
    ensures child != null ==>
              var t, rest := here.forest[0], Part(PeerOf(child), here.forest[1..]);
              && child in g.labels && child.isText == t.Word?
              && (t.Word? ==> child.text == t.text && g.labels[child] == Some(t.text))
              && StartsAt(child.peer, rest, g)
              && (t.Word? ==>
                    && PlacesFrom(child, here, g) == {child} + PlacesFrom(child.peer, rest, g)
                    && SizeAll(here.forest) == 1 + SizeAll(rest.forest))
              && (t.List? ==>
                    && var inner := Part(ChildOf(child), t.children);
                    && StartsAt(child.child, inner, g)
                    && PlacesFrom(child, here, g) == PlacesFrom(child.child, inner, g) + PlacesFrom(child.peer, rest, g)
                    && SizeAll(here.forest) == 1 + SizeAll(inner.forest) + SizeAll(rest.forest))
  {
    if child != null {
      var n: Node, t := child, here.forest[0];
      assert OneTree(n, t, g);
      assert Inside(PeerOf(n), g) && Inside(ChildOf(n), g);
      assert Places(here.slot, here.forest, g) == PlacesIn(n, t, g) + Places(PeerOf(n), here.forest[1..], g);
    }
  }

  /** The end of a list. */
  lemma AtEnd(here: Part, g: Picture)
    requires StartsAt(null, here, g)
    ensures PlacesFrom(null, here, g) == {} && SizeAll(here.forest) == 0
  {
  }

  /** `add_arg_list_matches` for one parameter: every word node of the body with its name. */
  method FindMatches(name: Option<seq<byte>>, root: Node?, ghost f: seq<Tree>, ghost g: Picture)
    returns (matches: seq<Node>)
    requires Closed(Root, f, g) && Pictured(root, g)
    ensures AsSet(matches) == NamedIn(Places(Root, f, g), name, g)
  {
    hide Places, PlacesFrom, PlacesOf, Closed, StartsAt, AllStart, Pictured, SizeAll, SizeOf;
    matches := [];
    var child := root;
    ghost var here := Part(Root, f);
    var peers: seq<Node> := [];
    ghost var parts: seq<Part>, done: set<Node> := [], {};
    RootHeld(root, f, g);
    NothingLeft(g);
    while child != null || peers != []
      invariant StartsAt(child, here, g) && AllStart(peers, parts, g)
      invariant done + PlacesFrom(child, here, g) + PlacesOf(peers, parts, g) == Places(Root, f, g)
      invariant forall n :: n in matches <==> n in done && Named(n, name, g)
      decreases SizeAll(here.forest) + SizeOf(parts)
    {
      if child == null {
        AtEnd(here, g);
        PartPopped(peers, parts, g);
        var m := |peers| - 1;
        child, here := peers[m], parts[m];
        peers, parts := peers[..m], parts[..m];
      }
      AtNode(child, here, g, root);
      ghost var rest := Part(PeerOf(child), here.forest[1..]);
      if child.isText {
        if name.Some? && child.text == name.value {
          matches := [child] + matches;
        }
        done := done + {child};
        here, child := rest, child.peer;
      } else {
        here := Part(ChildOf(child), here.forest[0].children);
        if child.peer != null {
          PartPushed(peers, parts, child.peer, rest, g);
          peers, parts := peers + [child.peer], parts + [rest];
        } else {
          AtEnd(rest, g);
        }
        child := child.child;
      }
    }
    AtEnd(here, g);
    NoneLeft(peers, parts, g);
  }

  lemma NoneLeft(nodes: seq<Node>, parts: seq<Part>, g: Picture)
    requires AllStart(nodes, parts, g) && nodes == []
    ensures PlacesOf(nodes, parts, g) == {}
  {
  }

  lemma RootHeld(root: Node?, f: seq<Tree>, g: Picture)
    requires Closed(Root, f, g) && Pictured(root, g)
    ensures StartsAt(root, Part(Root, f), g) && PlacesFrom(root, Part(Root, f), g) == Places(Root, f, g)
  {
  }

  // ---------------------------------------------------------------------------
  // A macro as read

  /** The body without the contents of its holes. */
  ghost function Emptied(g: Picture, holes: map<Node, seq<byte>>): Picture {
    Picture(map s | s in g.slots && (s.ChildOf? ==> s.node !in holes) :: g.slots[s], g.labels - holes.Keys)
  }

  lemma {:induction false} FrameOf(a: Slot, f: seq<Tree>, g: Picture, holes: map<Node, seq<byte>>,
                                   parameters: set<seq<byte>>)
    requires Closed(a, f, g) && !a.ChildOf?
    requires forall n :: n in holes ==> n in g.labels && g.labels[n] == Some(holes[n]) && holes[n] in parameters
    requires forall n :: n in Places(a, f, g) && n in g.labels && g.labels[n].Some? ==>
                           g.labels[n].value in parameters ==> n in holes
    ensures Frame(a, f, Emptied(g, holes), holes, parameters)
    decreases f, 0
  {
    if f != [] {
      OneFrameOf(g.slots[a], f[0], g, holes, parameters);
      FrameOf(PeerOf(g.slots[a]), f[1..], g, holes, parameters);
    }
  }

  lemma {:induction false} OneFrameOf(n: Node, t: Tree, g: Picture, holes: map<Node, seq<byte>>,
                                      parameters: set<seq<byte>>)
    requires OneTree(n, t, g)
    requires forall n :: n in holes ==> n in g.labels && g.labels[n] == Some(holes[n]) && holes[n] in parameters
    requires forall x :: x in PlacesIn(n, t, g) && x in g.labels && g.labels[x].Some? ==>
                           g.labels[x].value in parameters ==> x in holes
    ensures OneFrame(n, t, Emptied(g, holes), holes, parameters)
    decreases t, 1
  {
    if t.List? {
      var e := Emptied(g, holes);
      var c := ChildOf(n);
      if t.children != [] {
        assert PlacesIn(n, t, g) == Places(c, t.children, g)
            == PlacesIn(g.slots[c], t.children[0], g) + Places(PeerOf(g.slots[c]), t.children[1..], g);
        OneFrameOf(g.slots[c], t.children[0], g, holes, parameters);
        FrameOf(PeerOf(g.slots[c]), t.children[1..], g, holes, parameters);
      }
    }
  }

  /** The frame is true of the heap; what the holes contain is left open. */
  ghost predicate FramePictured(body: Node?, g: Picture, holes: map<Node, seq<byte>>)
    reads g.labels.Keys, holes.Keys
  {
    && (forall s :: s in g.slots && (s.Root? || s.node in g.labels || s.node in holes) ==> Held(body, s) == g.slots[s])
    && (forall n :: n in g.labels ==> n.isText == g.labels[n].Some? && (n.isText ==> n.text == g.labels[n].value))
  }

  /** Frame and holes do not overlap, and every slot belongs to one of them. */
  ghost predicate FrameWithin(g: Picture, holes: map<Node, seq<byte>>) {
    && g.labels.Keys !! holes.Keys
    && (forall s :: s in g.slots && !s.Root? ==> s.node in g.labels || s.node in holes)
    && (forall n :: n in holes ==> ChildOf(n) !in g.slots)
  }

  ghost function HolesNamed(holes: map<Node, seq<byte>>, name: Option<seq<byte>>): set<Node> {
    set n | n in holes && name == Some(holes[n])
  }

  /** For every parameter, the recorded places are the holes with its name. */
  ghost predicate MatchesAre(matches: seq<seq<Node>>, names: seq<Option<seq<byte>>>, holes: map<Node, seq<byte>>) {
    && |matches| == |names|
    && forall k :: 0 <= k < |names| ==> AsSet(matches[k]) == HolesNamed(holes, names[k])
  }

  method Overwrite(places: seq<Node>, input: Node)
    requires input !in AsSet(places)
    modifies AsSet(places)`isText, AsSet(places)`text, AsSet(places)`child
    ensures forall m :: m in AsSet(places) ==> SameContent(m, input)
  {
    for i := 0 to |places|
      invariant forall m :: m in places[..i] ==> SameContent(m, input)
    {
      var m := places[i];
      m.isText, m.text, m.child := input.isText, input.text, input.child;
    }
  }

  class Macro {
    const names: seq<Option<seq<byte>>>
    const body: Node?
    var matches: seq<seq<Node>>
    ghost const original: seq<Tree>
    ghost var frame: Picture
    ghost var holes: map<Node, seq<byte>>

    /** The body is the original one except for the contents of the recorded places. */
    ghost predicate Valid()
      reads this, frame.labels.Keys, holes.Keys
    {
      && original != []
      && Frame(Root, original, frame, holes, Parameters(names))
      && FramePictured(body, frame, holes)
      && FrameWithin(frame, holes)
      && MatchesAre(matches, names, holes)
      && (forall n :: n in holes ==> holes[n] in Parameters(names))
    }

    /** The part of `read_macro` that follows the parsing of its list. */
    constructor (names: seq<Option<seq<byte>>>, body: Node?, ghost f: seq<Tree>, ghost g: Picture)
      requires f != [] && Closed(Root, f, g) && Pictured(body, g) && Within(g)
      ensures Valid() && this.names == names && original == f
      ensures frame.labels.Keys + holes.Keys == g.labels.Keys
    {
      hide Closed, Pictured;
      this.names, this.body, original := names, body, f;
      matches := [];
      frame, holes := g, map[];
      new;
      while |matches| < |names|
        invariant |matches| <= |names|
        invariant forall k :: 0 <= k < |matches| ==> AsSet(matches[k]) == NamedIn(Places(Root, f, g), names[k], g)
      {
        var found := FindMatches(names[|matches|], body, f, g);
        matches := matches + [found];
      }
      holes := HolesOf(f, g, names);
      frame := Emptied(g, holes);
      HolesAreMatched(f, g, names, matches);
      EmptiedPictured(body, f, g, names);
    }

    /** The inner loop: all places of one parameter take over one argument. */
    method FillMatches(k: nat, input: Node, ghost nodes: seq<Node>, ghost g: Picture)
      requires Valid() && Pictured(null, g) && k < |names| && k < |nodes| && input == nodes[k]
      requires input in g.labels && g.labels.Keys !! frame.labels.Keys + holes.Keys
      requires forall n :: n in nodes ==> n in g.labels
      requires HolesHold(holes, names, k, nodes)
      modifies holes.Keys
      ensures Valid() && Pictured(null, g)
      ensures HolesHold(holes, names, k + 1, nodes)
    {
      hide Frame, LastNamed, HolesNamed;
      HolesOfParameter(matches, names, holes, k);
      Overwrite(matches[k], input);
      forall n | n in holes
        ensures var j := LastNamed(names, k + 1, holes[n]); j.Some? ==> SameContent(n, nodes[j.value])
      {
        LastNamedNext(names, k, holes[n]);
      }
    }

    /** The loops of `apply_macro` that overwrite the recorded places, argument by argument. */
    method Fill(first: Node?, ghost a: Slot, ghost args: seq<Tree>, ghost g: Picture) returns (input: Node?, k: nat)
      requires Valid() && Closed(a, args, g) && Pictured(null, g) && first == g.slots[a]
      requires g.labels.Keys !! frame.labels.Keys + holes.Keys
      modifies holes.Keys
      ensures Valid() && Pictured(null, g)
      ensures k <= |names| && k <= |args| && (input == null <==> k == |args|) && (input == null || k == |names|)
      ensures HolesHold(holes, names, k, ListNodes(a, args, g))
    {
      hide Frame, Closed, ListNodes;
      NodesLabelled(a, args, g);
      ghost var nodes := ListNodes(a, args, g);
      input, k := first, 0;
      ghost var place := a;
      Listed(place, args, g, first);
      assert args[0..] == args && nodes[0..] == nodes;
      while input != null && k < |names|
        invariant k <= |names| && k <= |args| == |nodes|
        invariant Closed(place, args[k..], g) && ListNodes(place, args[k..], g) == nodes[k..]
        invariant place in g.slots && input == g.slots[place]
        invariant Valid() && Pictured(null, g)
        invariant HolesHold(holes, names, k, nodes)
        invariant input == null <==> k == |args|
      {
        ghost var rest := args[k..];
        assert rest[1..] == args[k + 1..] && nodes[k..][1..] == nodes[k + 1..] && nodes[k..][0] == nodes[k];
        NextListed(place, rest, g);
        FillMatches(k, input, nodes, g);
        place, input, k := PeerOf(input), input.peer, k + 1;
        Listed(place, args[k..], g, input);
      }
    }

    /** The whole body, once every parameter has an argument, stands for the substituted one. */
    lemma BodyFilled(a: Slot, args: seq<Tree>, g: Picture)
      requires Valid() && Closed(a, args, g) && Pictured(null, g) && Root !in g.slots && |args| == |names|
      requires g.labels.Keys !! frame.labels.Keys + holes.Keys && Within(g)
      requires HolesHold(holes, names, |names|, ListNodes(a, args, g))
      ensures var h := Filled(frame, holes, names, g, ListNodes(a, args, g));
        && Pictured(body, h)
        && Closed(Root, SubstituteAll(original, Bound(names, args)), h)
    {
      var nodes := ListNodes(a, args, g);
      var h, values := Filled(frame, holes, names, g, nodes), Bound(names, args);
      FilledGrows(frame, holes, names, g, nodes);
      NodesLabelled(a, args, g);
      BoundKeys(names, args);
      forall n | n in holes && holes[n] in Parameters(names) ensures OneTree(n, values[holes[n]], h) {
        var j := LastNamed(names, |names|, holes[n]).value;
        ListNodesAre(a, args, g, j);
        HoleFilled(frame, holes, names, g, nodes, n, args[j]);
      }
      FrameFilled(Root, original, frame, holes, Parameters(names), h, values);
      FilledPictured(body, frame, holes, names, g, nodes);
    }

    /**
     `apply_macro`: with as many arguments as parameters, the result is a new copy of the
     original body with every parameter replaced, followed by what followed the call; otherwise
     the call fails. Either way the macro is as good as before for the next call.
     */
    method Apply(call: Node, ghost args: seq<Tree>, ghost g: Picture, ghost after: seq<Tree>, ghost later: Picture)
      returns (ok: bool, retval: Node?, ghost h: Picture)
      requires Valid()
      requires Pictured(null, g) && Within(g) && Root !in g.slots && call in g.labels && PeerOf(call) !in g.slots
      requires ChildOf(call) in g.slots && g.slots[ChildOf(call)] != null && !call.isText
      requires var name := g.slots[ChildOf(call)];
        name in g.labels && g.labels[name].Some? && Closed(PeerOf(name), args, g)
      requires Pictured(call.peer, later) && Within(later) && Closed(Root, after, later)
      requires g.labels.Keys !! frame.labels.Keys + holes.Keys
      requires later.labels.Keys !! holes.Keys && call !in later.labels
      modifies holes.Keys, call
      ensures Valid()
      ensures ok == (|args| == |names|)
      ensures ok ==> Closed(Root, SubstituteAll(original, Bound(names, args)) + after, h)
      ensures ok ==> Pictured(retval, h) && Within(h)
      ensures ok ==> later.labels.Keys <= h.labels.Keys && fresh(h.labels.Keys - later.labels.Keys)
    {
      hide Frame, Leads;
      retval, h := null, g;
      var name := call.child;
      assert Inside(ChildOf(call), g);
      ghost var place := PeerOf(name);
      var input, k := Fill(name.peer, place, args, g);
      if k < |names| { return false, retval, h; }
      if input != null { return false, retval, h; }
      retval, h := Expand(call, place, args, g, after, later);
      return true, retval, h;
    }

    /** The filled body is copied and put in the call's place. */
    method Expand(call: Node, ghost a: Slot, ghost args: seq<Tree>, ghost g: Picture,
                  ghost after: seq<Tree>, ghost later: Picture)
      returns (retval: Node?, ghost h: Picture)
      requires Valid() && Closed(a, args, g) && Pictured(null, g) && Root !in g.slots && |args| == |names|
      requires g.labels.Keys !! frame.labels.Keys + holes.Keys && Within(g) && call in g.labels
      requires HolesHold(holes, names, |names|, ListNodes(a, args, g))
      requires Pictured(call.peer, later) && Within(later) && Closed(Root, after, later) && call !in later.labels
      modifies call
      ensures Valid()
      ensures Closed(Root, SubstituteAll(original, Bound(names, args)) + after, h)
      ensures Pictured(retval, h) && Within(h)
      ensures later.labels.Keys <= h.labels.Keys && fresh(h.labels.Keys - later.labels.Keys)
    {
      hide Frame, Leads, Closed, ListNodes, Bound;
      ghost var f, end, copied;
      retval, f, end, copied := CopyBody(a, args, g);
      h := Splice(retval, call, f, end, copied, after, later);
    }

    /** The copy that is spliced in: `_dupe_tree` of the filled body. */
    method CopyBody(ghost a: Slot, ghost args: seq<Tree>, ghost g: Picture)
      returns (retval: Node?, ghost f: seq<Tree>, ghost end: Slot, ghost copied: Picture)
      requires Valid() && Closed(a, args, g) && Pictured(null, g) && Root !in g.slots && |args| == |names|
      requires g.labels.Keys !! frame.labels.Keys + holes.Keys && Within(g)
      requires HolesHold(holes, names, |names|, ListNodes(a, args, g))
      ensures f == SubstituteAll(original, Bound(names, args)) && f != []
      ensures fresh(copied.labels.Keys)
      ensures Leads(Root, f, end, copied) && end !in copied.slots && Inside(end, copied) && !end.Root?
      ensures Pictured(retval, copied) && Within(copied) && Held(retval, end) == null
    {
      BodyFilled(a, args, g);
      f := SubstituteAll(original, Bound(names, args));
      ghost var full := Filled(frame, holes, names, g, ListNodes(a, args, g));
      assert body == full.slots[Root];
      hide Valid, Closed, ListNodes, Filled, Bound;
      retval, end, copied := DupeTree(body, Root, f, full, body);
    }
  }

  ghost function HolesOf(f: seq<Tree>, g: Picture, names: seq<Option<seq<byte>>>): map<Node, seq<byte>>
    requires Closed(Root, f, g)
  {
    map n | n in Places(Root, f, g) && n in g.labels && g.labels[n].Some? && g.labels[n].value in Parameters(names) ::
      g.labels[n].value
  }

  lemma HolesAreMatched(f: seq<Tree>, g: Picture, names: seq<Option<seq<byte>>>, matches: seq<seq<Node>>)
    requires Closed(Root, f, g) && |matches| == |names|
    requires forall k :: 0 <= k < |matches| ==> AsSet(matches[k]) == NamedIn(Places(Root, f, g), names[k], g)
    ensures MatchesAre(matches, names, HolesOf(f, g, names))
  {
    var holes := HolesOf(f, g, names);
    forall k | 0 <= k < |names| ensures AsSet(matches[k]) == HolesNamed(holes, names[k]) {
      assert names[k].Some? ==> names[k].value in Parameters(names);
      assert NamedIn(Places(Root, f, g), names[k], g) == HolesNamed(holes, names[k]);
    }
  }

  lemma EmptiedPictured(body: Node?, f: seq<Tree>, g: Picture, names: seq<Option<seq<byte>>>)
    requires Closed(Root, f, g) && Pictured(body, g) && Within(g)
    ensures var holes := HolesOf(f, g, names);
      var e := Emptied(g, holes);
      && Frame(Root, f, e, holes, Parameters(names))
      && FramePictured(body, e, holes) && FrameWithin(e, holes)
      && e.labels.Keys + holes.Keys == g.labels.Keys
  {
    var holes := HolesOf(f, g, names);
    FrameOf(Root, f, g, holes, Parameters(names));
    forall s | s in Emptied(g, holes).slots && (s.Root? || s.node in g.labels)
      ensures Held(body, s) == g.slots[s]
    {
      assert Inside(s, g);
    }
  }

  // ---------------------------------------------------------------------------
  // Filling the holes

  /** The nodes of a list. */
  ghost function ListNodes(a: Slot, f: seq<Tree>, g: Picture): (r: seq<Node>)
    requires Closed(a, f, g)
    ensures |r| == |f|
    decreases |f|
  {
    if f == [] then [] else [g.slots[a]] + ListNodes(PeerOf(g.slots[a]), f[1..], g)
  }

  lemma {:induction false} ListNodesAre(a: Slot, f: seq<Tree>, g: Picture, j: nat)
    requires Closed(a, f, g) && j < |f|
    ensures OneTree(ListNodes(a, f, g)[j], f[j], g)
    decreases |f|
  {
    if j > 0 { ListNodesAre(PeerOf(g.slots[a]), f[1..], g, j - 1); }
  }

  lemma {:induction false} NodesLabelled(a: Slot, f: seq<Tree>, g: Picture)
    requires Closed(a, f, g)
    ensures forall n :: n in ListNodes(a, f, g) ==> n in g.labels
    decreases |f|
  {
    if f != [] { NodesLabelled(PeerOf(g.slots[a]), f[1..], g); }
  }

  lemma Listed(a: Slot, f: seq<Tree>, g: Picture, first: Node?)
    requires Closed(a, f, g) && first == g.slots[a]
    ensures a in g.slots && (first == null <==> f == [])
  {
  }

  lemma NextListed(a: Slot, f: seq<Tree>, g: Picture)
    requires Closed(a, f, g) && f != []
    ensures var n := g.slots[a];
      && n != null && n in g.labels && ListNodes(a, f, g)[0] == n
      && PeerOf(n) in g.slots && Closed(PeerOf(n), f[1..], g)
      && ListNodes(PeerOf(n), f[1..], g) == ListNodes(a, f, g)[1..]
  {
  }

  ghost predicate SameContent(n: Node, m: Node)
    reads n, m
  {
    n.isText == m.isText && n.text == m.text && n.child == m.child
  }

  /** Each hole holds the argument of the last of the first k parameters that has its name. */
  ghost predicate HolesHold(holes: map<Node, seq<byte>>, names: seq<Option<seq<byte>>>, k: nat, nodes: seq<Node>)
    requires k <= |names| && k <= |nodes|
    reads holes.Keys, nodes
  {
    forall n :: n in holes ==>
      var j := LastNamed(names, k, holes[n]);
      j.Some? ==> SameContent(n, nodes[j.value])
  }

  lemma LastNamedNext(names: seq<Option<seq<byte>>>, k: nat, w: seq<byte>)
    requires k < |names|
    ensures LastNamed(names, k + 1, w) == if names[k] == Some(w) then Some(k) else LastNamed(names, k, w)
  {
  }

  lemma HolesOfParameter(matches: seq<seq<Node>>, names: seq<Option<seq<byte>>>, holes: map<Node, seq<byte>>, k: nat)
    requires MatchesAre(matches, names, holes) && k < |names|
    ensures |matches| == |names| && AsSet(matches[k]) <= holes.Keys
    ensures forall n :: n in holes ==> (n in AsSet(matches[k]) <==> names[k] == Some(holes[n]))
  {
  }

  lemma {:induction false} LastNamedExists(names: seq<Option<seq<byte>>>, k: nat, w: seq<byte>)
    requires k <= |names| && exists i :: 0 <= i < k && names[i] == Some(w)
    ensures LastNamed(names, k, w).Some?
  {
  }

  lemma BoundKeys(names: seq<Option<seq<byte>>>, args: seq<Tree>)
    requires |names| == |args|
    ensures Bound(names, args).Keys == Parameters(names)
    ensures forall w :: w in Parameters(names) ==>
              LastNamed(names, |names|, w).Some? && Bound(names, args)[w] == args[LastNamed(names, |names|, w).value]
  {
    forall w | w in Parameters(names) ensures LastNamed(names, |names|, w).Some? {
      var i :| 0 <= i < |names| && names[i].Some? && names[i].value == w;
      LastNamedExists(names, |names|, w);
    }
  }

  /** The argument node whose content a hole holds. */
  ghost function SourceOf(names: seq<Option<seq<byte>>>, nodes: seq<Node>, w: seq<byte>): Option<Node>
    requires |nodes| == |names|
  {
    var j := LastNamed(names, |names|, w);
    if j.None? then None else Some(nodes[j.value])
  }

  /** Frame, arguments, and holes with the contents of arguments. */
  ghost function Filled(frame: Picture, holes: map<Node, seq<byte>>, names: seq<Option<seq<byte>>>, g: Picture,
                        nodes: seq<Node>): Picture
    requires |nodes| == |names|
  {
    Picture(
      (map n | n in holes && SourceOf(names, nodes, holes[n]).Some? &&
           ChildOf(SourceOf(names, nodes, holes[n]).value) in g.slots ::
         ChildOf(n) := g.slots[ChildOf(SourceOf(names, nodes, holes[n]).value)]) + g.slots + frame.slots,
      (map n | n in holes && SourceOf(names, nodes, holes[n]).Some? &&
           SourceOf(names, nodes, holes[n]).value in g.labels ::
         n := g.labels[SourceOf(names, nodes, holes[n]).value]) + g.labels + frame.labels)
  }

  lemma FilledGrows(frame: Picture, holes: map<Node, seq<byte>>, names: seq<Option<seq<byte>>>, g: Picture,
                    nodes: seq<Node>)
    requires |nodes| == |names| && FrameWithin(frame, holes) && Within(g) && Root !in g.slots
    requires g.labels.Keys !! frame.labels.Keys + holes.Keys
    ensures var h := Filled(frame, holes, names, g, nodes);
      Grows(frame, h) && Below(g, h)
  {
  }

  lemma HoleFilled(frame: Picture, holes: map<Node, seq<byte>>, names: seq<Option<seq<byte>>>, g: Picture,
                   nodes: seq<Node>, n: Node, t: Tree)
    requires |nodes| == |names| && FrameWithin(frame, holes) && Within(g) && Root !in g.slots
    requires g.labels.Keys !! frame.labels.Keys + holes.Keys
    requires n in holes && SourceOf(names, nodes, holes[n]).Some?
    requires OneTree(SourceOf(names, nodes, holes[n]).value, t, g)
    ensures OneTree(n, t, Filled(frame, holes, names, g, nodes))
  {
    var h := Filled(frame, holes, names, g, nodes);
    var m := SourceOf(names, nodes, holes[n]).value;
    assert h.labels[n] == g.labels[m];
    if t.List? {
      FilledGrows(frame, holes, names, g, nodes);
      assert Inside(ChildOf(m), g);
      assert ChildOf(n) !in g.slots by {
        assert ChildOf(n) in g.slots ==> Inside(ChildOf(n), g);
      }
      assert h.slots[ChildOf(n)] == g.slots[ChildOf(m)];
      ClosedMoves(ChildOf(m), ChildOf(n), t.children, g, h);
    }
  }

  /** Where a slot of the filled body comes from. */
  lemma SlotOfFilled(frame: Picture, holes: map<Node, seq<byte>>, names: seq<Option<seq<byte>>>, g: Picture,
                     nodes: seq<Node>, s: Slot)
    requires |nodes| == |names| && s in Filled(frame, holes, names, g, nodes).slots
    ensures var h := Filled(frame, holes, names, g, nodes);
      || (s in frame.slots && h.slots[s] == frame.slots[s])
      || (s in g.slots && h.slots[s] == g.slots[s])
      || (s.ChildOf? && s.node in holes && SourceOf(names, nodes, holes[s.node]).Some?
          && var m := SourceOf(names, nodes, holes[s.node]).value;
             ChildOf(m) in g.slots && h.slots[s] == g.slots[ChildOf(m)])
  {
  }

  lemma LabelOfFilled(frame: Picture, holes: map<Node, seq<byte>>, names: seq<Option<seq<byte>>>, g: Picture,
                      nodes: seq<Node>, n: Node)
    requires |nodes| == |names| && n in Filled(frame, holes, names, g, nodes).labels
    ensures var h := Filled(frame, holes, names, g, nodes);
      || (n in frame.labels && h.labels[n] == frame.labels[n])
      || (n in g.labels && h.labels[n] == g.labels[n])
      || (n in holes && SourceOf(names, nodes, holes[n]).Some?
          && var m := SourceOf(names, nodes, holes[n]).value;
             m in g.labels && h.labels[n] == g.labels[m])
  {
  }

  lemma HoleContent(holes: map<Node, seq<byte>>, names: seq<Option<seq<byte>>>, nodes: seq<Node>, n: Node)
    requires |nodes| == |names| && HolesHold(holes, names, |names|, nodes)
    requires n in holes && SourceOf(names, nodes, holes[n]).Some?
    ensures SameContent(n, SourceOf(names, nodes, holes[n]).value)
  {
  }

  lemma FilledPictured(body: Node?, frame: Picture, holes: map<Node, seq<byte>>, names: seq<Option<seq<byte>>>,
                       g: Picture, nodes: seq<Node>)
    requires |nodes| == |names| && FrameWithin(frame, holes) && Within(g) && Root !in g.slots
    requires FramePictured(body, frame, holes) && Pictured(null, g)
    requires HolesHold(holes, names, |names|, nodes)
    ensures Pictured(body, Filled(frame, holes, names, g, nodes))
  {
    hide Filled, SourceOf, HolesHold;
    var h := Filled(frame, holes, names, g, nodes);
    forall s | s in h.slots && Inside(s, h) ensures Held(body, s) == h.slots[s] {
      SlotOfFilled(frame, holes, names, g, nodes, s);
      if !(s in frame.slots && h.slots[s] == frame.slots[s]) && !(s in g.slots && h.slots[s] == g.slots[s]) {
        HoleContent(holes, names, nodes, s.node);
        assert Inside(ChildOf(SourceOf(names, nodes, holes[s.node]).value), g);
      } else if s in g.slots {
        assert Inside(s, g);
      }
    }
    forall n | n in h.labels
      ensures n.isText == h.labels[n].Some? && (n.isText ==> n.text == h.labels[n].value)
    {
      LabelOfFilled(frame, holes, names, g, nodes, n);
      if !(n in frame.labels && h.labels[n] == frame.labels[n]) && !(n in g.labels && h.labels[n] == g.labels[n]) {
        HoleContent(holes, names, nodes, n);
      }
    }
  }

  // ---------------------------------------------------------------------------
  // Splicing

  ghost function Joined(copied: Picture, end: Slot, later: Picture): Picture {
    Picture((later.slots - {Root}) + copied.slots[end := if Root in later.slots then later.slots[Root] else null],
            later.labels + copied.labels)
  }

  lemma {:induction false} LeadsThenClosed(a: Slot, f: seq<Tree>, b: Slot, k: seq<Tree>, g: Picture)
    requires Leads(a, f, b, g) && Closed(b, k, g)
    ensures Closed(a, f + k, g)
    decreases |f|
  {
    if f == [] {
      assert f + k == k;
    } else {
      assert (f + k)[1..] == f[1..] + k;
      LeadsThenClosed(PeerOf(g.slots[a]), f[1..], b, k, g);
    }
  }

  lemma JoinedClosed(f: seq<Tree>, end: Slot, copied: Picture, after: seq<Tree>, later: Picture)
    requires Leads(Root, f, end, copied) && end !in copied.slots && Inside(end, copied) && Within(copied) && !end.Root?
    requires Closed(Root, after, later) && Within(later) && Apart(copied, later)
    ensures var h := Joined(copied, end, later);
      Closed(Root, f + after, h) && Within(h)
  {
    var h := Joined(copied, end, later);
    JoinedGrows(end, copied, later);
    LeadsGrows(Root, f, end, copied, h);
    ClosedMoves(Root, end, after, later, h);
    LeadsThenClosed(Root, f, end, after, h);
  }

  lemma JoinedGrows(end: Slot, copied: Picture, later: Picture)
    requires end !in copied.slots && Inside(end, copied) && Within(copied) && !end.Root?
    requires Root in later.slots && Within(later) && Apart(copied, later)
    ensures var h := Joined(copied, end, later);
      Grows(copied, h) && Below(later, h) && Within(h) && end in h.slots && h.slots[end] == later.slots[Root]
  {
    var h := Joined(copied, end, later);
    forall s | s in later.slots && !s.Root? ensures s in h.slots && h.slots[s] == later.slots[s] {
      assert Inside(s, later);
    }
    forall s | s in h.slots ensures Inside(s, h) {
      assert s == end || s in copied.slots || s in later.slots;
    }
  }

  lemma {:induction false} LeadsToPeer(a: Slot, f: seq<Tree>, b: Slot, g: Picture)
    requires Leads(a, f, b, g) && f != []
    ensures b.PeerOf?
    decreases |f|
  {
    if |f| > 1 { LeadsToPeer(PeerOf(g.slots[a]), f[1..], b, g); }
  }

  /** The end of `apply_macro`: the copy's last peer takes over what followed the call. */
  method Splice(retval: Node?, call: Node, ghost f: seq<Tree>, ghost end: Slot, ghost copied: Picture,
                ghost after: seq<Tree>, ghost later: Picture)
    returns (ghost h: Picture)
    requires f != [] && Leads(Root, f, end, copied) && end !in copied.slots && Inside(end, copied) && Within(copied)
    requires Pictured(retval, copied) && Held(retval, end) == null && !end.Root?
    requires Pictured(call.peer, later) && Within(later) && Closed(Root, after, later)
    requires Apart(copied, later) && call !in copied.labels && call !in later.labels
    modifies copied.labels.Keys`peer, call`peer
    ensures Closed(Root, f + after, h) && Pictured(retval, h) && Within(h)
    ensures h.labels.Keys == copied.labels.Keys + later.labels.Keys
  {
    hide OneTree, Closed, Leads, Joined;
    var rest := call.peer;
    var last := WalkToEnd(retval, f, end, copied);
    h := Joined(copied, end, later);
    JoinedClosed(f, end, copied, after, later);
    assert Root in later.slots by { RootIsSettled(after, later); }
    Relink(retval, call, last, copied, later);
    JoinedPictured(retval, rest, end, copied, later);
  }

  method Relink(retval: Node?, call: Node, last: Node, ghost copied: Picture, ghost later: Picture)
    requires Pictured(retval, copied) && last in copied.labels && PeerOf(last) !in copied.slots
    requires Pictured(call.peer, later) && Apart(copied, later)
    requires call !in copied.labels && call !in later.labels
    modifies last`peer, call`peer
    ensures Pictured(retval, copied) && last.peer == old(call.peer) && Pictured(old(call.peer), later)
  {
    last.peer := call.peer;
    call.peer := null;
  }

  lemma JoinedPictured(retval: Node?, rest: Node?, end: Slot, copied: Picture, later: Picture)
    requires Pictured(retval, copied) && Inside(end, copied) && Within(copied) && !end.Root? && end !in copied.slots
    requires Pictured(rest, later) && Within(later) && Root in later.slots && Apart(copied, later)
    requires Held(retval, end) == rest
    ensures Pictured(retval, Joined(copied, end, later))
    ensures Joined(copied, end, later).labels.Keys == copied.labels.Keys + later.labels.Keys
  {
    var h := Joined(copied, end, later);
    assert Inside(Root, later);
    forall s | s in h.slots && Inside(s, h) ensures Held(retval, s) == h.slots[s] {
      if s == end {
      } else if s in copied.slots {
        assert Inside(s, copied);
      } else {
        assert Inside(s, later);
      }
    }
  }

  lemma RootIsSettled(f: seq<Tree>, g: Picture)
    requires Closed(Root, f, g)
    ensures Root in g.slots
  {
  }

  method WalkToEnd(retval: Node?, ghost f: seq<Tree>, ghost end: Slot, ghost g: Picture) returns (last: Node)
    requires f != [] && Leads(Root, f, end, g) && end !in g.slots && Pictured(retval, g) && Within(g)
    requires Held(retval, end) == null && Inside(end, g)
    ensures end == PeerOf(last)
  {
    last := retval;
    ghost var place, i := Root, 0;
    assert f[0..] == f;
    while last.peer != null
      invariant 0 <= i < |f| && Leads(place, f[i..], end, g) && last == g.slots[place] && last in g.labels
      decreases |f| - i
    {
      assert f[i..][1..] == f[i + 1..];
      place, last, i := PeerOf(last), last.peer, i + 1;
    }
    assert f[i..][1..] == f[i + 1..];
  }
}
