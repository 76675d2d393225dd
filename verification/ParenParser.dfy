/**
 The parser (src/paren-parser/paren-parser.c): one pass over the text with a moving pointer to
 where the next node goes, and a stack of where to go on after each closing parenthesis.
 */
module ParenParser {
  import opened Bytes
  import opened ParenText
  import opened ParenTree

  // ---------------------------------------------------------------------------
  // The tree under construction

  ghost function ListSlot(open: seq<Node>, k: nat): Slot
    requires k <= |open|
  {
    if k == 0 then Root else ChildOf(open[k - 1])
  }

  /** The k-th open list hangs where the trees before it end, and its own peer is still to come. */
  ghost predicate OpenAt(a: Slot, trees: seq<Tree>, hang: Slot, n: Node, set': Slot, g: Picture) {
    && Leads(a, trees, hang, g)
    && hang in g.slots && g.slots[hang] == n
    && n in g.labels && g.labels[n] == None
    && PeerOf(n) !in g.slots && PeerOf(n) != set'
  }

  /**
   Each open list's finished trees lead to the slot that holds the list inside it; the innermost
   ones lead to `set`. The slots still to be written are not settled, and all different.
   */
  ghost predicate Growing(levels: Levels, open: seq<Node>, hangs: seq<Slot>, set': Slot, g: Picture) {
    && |levels| == |open| + 1 && |hangs| == |open|
    && (forall k :: 0 <= k < |open| ==> OpenAt(ListSlot(open, k), levels[k], hangs[k], open[k], set', g))
    && Leads(ListSlot(open, |open|), levels[|open|], set', g)
    && set' !in g.slots
    && (forall j, k :: 0 <= j < k < |open| ==> open[j] != open[k])
  }

  lemma OpenAtGrows(a: Slot, trees: seq<Tree>, hang: Slot, n: Node, set': Slot, g: Picture, set'': Slot, h: Picture)
    requires OpenAt(a, trees, hang, n, set', g) && Grows(g, h)
    requires PeerOf(n) !in h.slots && PeerOf(n) != set''
    ensures OpenAt(a, trees, hang, n, set'', h)
  {
    LeadsGrows(a, trees, hang, g, h);
  }

  /** A new node at `set`: the lists open so far stay open, the innermost one now leads to it. */
  lemma NodeAdded(levels: Levels, open: seq<Node>, hangs: seq<Slot>, set': Slot, g: Picture,
                  n: Node, tag: Option<seq<byte>>, next: Slot)
    requires Growing(levels, open, hangs, set', g) && Absent(n, g) && n !in open
    requires next == PeerOf(n) || next == ChildOf(n)
    ensures var h := Picture(g.slots[set' := n], g.labels[n := tag]);
      && Grows(g, h)
      && (forall k :: 0 <= k < |open| ==> OpenAt(ListSlot(open, k), levels[k], hangs[k], open[k], next, h))
      && Leads(ListSlot(open, |open|), levels[|open|], set', h)
  {
    var h := Picture(g.slots[set' := n], g.labels[n := tag]);
    hide Leads;
    forall k | 0 <= k < |open| ensures OpenAt(ListSlot(open, k), levels[k], hangs[k], open[k], next, h) {
      OpenAtGrows(ListSlot(open, k), levels[k], hangs[k], open[k], set', g, next, h);
    }
    LeadsGrows(ListSlot(open, |open|), levels[|open|], set', g, h);
  }

  lemma GrowWord(levels: Levels, open: seq<Node>, hangs: seq<Slot>, set': Slot, g: Picture, n: Node, w: seq<byte>)
    requires Growing(levels, open, hangs, set', g) && Absent(n, g) && n !in open
    requires set'.Root? || set'.node != n
    ensures Growing(Push(levels, Word(w)), open, hangs, PeerOf(n), Picture(g.slots[set' := n], g.labels[n := Some(w)]))
  {
    hide Leads, OpenAt;
    var h := Picture(g.slots[set' := n], g.labels[n := Some(w)]);
    NodeAdded(levels, open, hangs, set', g, n, Some(w), PeerOf(n));
    LeadsOneMore(ListSlot(open, |open|), levels[|open|], set', Word(w), h);
  }

  lemma GrowOpen(levels: Levels, open: seq<Node>, hangs: seq<Slot>, set': Slot, g: Picture, n: Node)
    requires Growing(levels, open, hangs, set', g) && Absent(n, g) && n !in open
    requires set'.Root? || set'.node != n
    ensures Growing(levels + [[]], open + [n], hangs + [set'], ChildOf(n),
                    Picture(g.slots[set' := n], g.labels[n := None]))
  {
    var h := Picture(g.slots[set' := n], g.labels[n := None]);
    NodeAdded(levels, open, hangs, set', g, n, None, ChildOf(n));
    assert Leads(ChildOf(n), [], ChildOf(n), h);
    hide Leads;
    assert OpenAt(ListSlot(open, |open|), levels[|open|], set', n, ChildOf(n), h);
    hide OpenAt;
    AllOpen(levels, open, hangs, set', n, ChildOf(n), h);
    Different(open, n);
  }

  lemma Different(open: seq<Node>, n: Node)
    requires n !in open && forall j, k :: 0 <= j < k < |open| ==> open[j] != open[k]
    ensures forall j, k :: 0 <= j < k < |open + [n]| ==> (open + [n])[j] != (open + [n])[k]
  {
  }

  lemma AllOpen(levels: Levels, open: seq<Node>, hangs: seq<Slot>, hang: Slot, n: Node, set': Slot, h: Picture)
    requires |levels| == |open| + 1 && |hangs| == |open|
    requires forall k :: 0 <= k < |open| ==> OpenAt(ListSlot(open, k), levels[k], hangs[k], open[k], set', h)
    requires OpenAt(ListSlot(open, |open|), levels[|open|], hang, n, set', h)
    ensures forall k :: 0 <= k < |open + [n]| ==>
              OpenAt(ListSlot(open + [n], k), (levels + [[]])[k], (hangs + [hang])[k], (open + [n])[k], set', h)
  {
    hide OpenAt;
    forall k | 0 <= k < |open + [n]|
      ensures OpenAt(ListSlot(open + [n], k), (levels + [[]])[k], (hangs + [hang])[k], (open + [n])[k], set', h)
    {
      assert ListSlot(open + [n], k) == ListSlot(open, k);
    }
  }

  /** The closed list, complete, is the next tree of the list around it. */
  lemma InnerEnds(a: Slot, trees: seq<Tree>, hang: Slot, n: Node, inner: seq<Tree>, set': Slot, g: Picture, h: Picture)
    requires OpenAt(a, trees, hang, n, set', g) && Leads(ChildOf(n), inner, set', g) && set' !in g.slots
    requires h == Picture(g.slots[set' := null], g.labels)
    ensures Grows(g, h) && Leads(a, trees + [List(inner)], PeerOf(n), h)
  {
    hide Leads;
    LeadsGrows(a, trees, hang, g, h);
    LeadsGrows(ChildOf(n), inner, set', g, h);
    LeadsThenEnds(ChildOf(n), inner, set', h);
    LeadsOneMore(a, trees, hang, List(inner), h);
  }

  lemma GrowClose(levels: Levels, open: seq<Node>, hangs: seq<Slot>, set': Slot, g: Picture)
    requires Growing(levels, open, hangs, set', g) && open != []
    ensures var m := |open| - 1;
      Growing(Shut(levels), open[..m], hangs[..m], PeerOf(open[m]), Picture(g.slots[set' := null], g.labels))
  {
    hide Leads;
    var m := |open| - 1;
    var h := Picture(g.slots[set' := null], g.labels);
    assert OpenAt(ListSlot(open, m), levels[m], hangs[m], open[m], set', g);
    InnerEnds(ListSlot(open, m), levels[m], hangs[m], open[m], levels[m + 1], set', g, h);
    OuterKept(levels, open, hangs, set', g, h);
    assert PeerOf(open[m]) !in h.slots;
    hide OpenAt, Grows;
    ShutLevels(levels);
    assert ListSlot(open[..m], m) == ListSlot(open, m);
  }

  lemma ShutLevels(levels: Levels)
    requires |levels| >= 2
    ensures var m := |levels| - 2;
      && |Shut(levels)| == m + 1
      && Shut(levels)[m] == levels[m] + [List(levels[m + 1])]
      && forall k :: 0 <= k < m ==> Shut(levels)[k] == levels[k]
  {
  }

  /** The lists outside the one being closed. */
  lemma OuterKept(levels: Levels, open: seq<Node>, hangs: seq<Slot>, set': Slot, g: Picture, h: Picture)
    requires Growing(levels, open, hangs, set', g) && open != []
    requires h == Picture(g.slots[set' := null], g.labels)
    ensures var m := |open| - 1;
      forall k :: 0 <= k < m ==> OpenAt(ListSlot(open[..m], k), levels[k], hangs[k], open[k], PeerOf(open[m]), h)
  {
    var m := |open| - 1;
    hide Leads;
    forall k | 0 <= k < m ensures OpenAt(ListSlot(open[..m], k), levels[k], hangs[k], open[k], PeerOf(open[m]), h) {
      OpenAtGrows(ListSlot(open, k), levels[k], hangs[k], open[k], set', g, PeerOf(open[m]), h);
    }
  }

  lemma GrowDone(levels: Levels, set': Slot, g: Picture)
    requires Growing(levels, [], [], set', g)
    ensures Closed(Root, levels[0], Picture(g.slots[set' := null], g.labels))
  {
    var h := Picture(g.slots[set' := null], g.labels);
    LeadsGrows(Root, levels[0], set', g, h);
    LeadsThenEnds(Root, levels[0], set', h);
  }

  // ---------------------------------------------------------------------------
  // The code

  /** `skip_space`. */
  method SkipSpace(text: seq<byte>, from: nat) returns (iter: nat)
    requires from <= |text|
    ensures iter == from + SpaceLength(text[from..])
  {
    iter := from;
    while iter < |text| && IsSpace(text[iter])
      invariant from <= iter <= |text|
      invariant from + SpaceLength(text[from..]) == iter + SpaceLength(text[iter..])
    {
      assert text[iter..][1..] == text[iter + 1..];
      iter := iter + 1;
    }
  }

  /** `skip_word`. */
  method SkipWord(text: seq<byte>, from: nat) returns (iter: nat)
    requires from <= |text|
    ensures iter == from + WordLength(text[from..])
  {
    iter := from;
    while iter < |text| && text[iter] != 0 && !IsSpace(text[iter]) && text[iter] != OPEN && text[iter] != CLOSE
      invariant from <= iter <= |text|
      invariant from + WordLength(text[from..]) == iter + WordLength(text[iter..])
    {
      assert text[iter..][1..] == text[iter + 1..];
      iter := iter + 1;
    }
  }

  /** The nodes a text makes: one for every word and every opening parenthesis. */
  function Made(tokens: seq<Token>): nat {
    if tokens == [] then 0 else (if tokens[0].Close? then 0 else 1) + Made(tokens[1..])
  }

  lemma TokensStep(text: seq<byte>)
    requires 0 !in text
    ensures var t := text[SpaceLength(text)..];
      && 0 !in t
      && (t == [] ==> Tokens(text) == [])
      && (t != [] ==> !IsSpace(t[0]) && t[0] != 0)
      && (t != [] ==> 0 !in t[FirstToken(t).1..])
      && (t != [] ==> Tokens(text) == [FirstToken(t).0] + Tokens(t[FirstToken(t).1..]))
  {
  }

  /** The stack of places to go on at: behind each open list. */
  ghost predicate Marks(paths: seq<Slot>, open: seq<Node>) {
    |paths| == |open| && forall k :: 0 <= k < |open| ==> paths[k] == PeerOf(open[k])
  }

  lemma MarksPushed(paths: seq<Slot>, open: seq<Node>, n: Node)
    requires Marks(paths, open)
    ensures Marks(paths + [PeerOf(n)], open + [n])
  {
  }

  lemma MarksPopped(paths: seq<Slot>, open: seq<Node>)
    requires Marks(paths, open) && open != []
    ensures paths[|paths| - 1] == PeerOf(open[|open| - 1]) && Marks(paths[..|paths| - 1], open[..|open| - 1])
  {
  }

  /** All that describes the growing tree. */
  datatype Growth = Growth(levels: Levels, open: seq<Node>, hangs: seq<Slot>, g: Picture)

  class Reader {
    /** The variable `retval`. */
    var root: Node?

    constructor ()
      ensures root == null
    {
      root := null;
    }

    /** `*set = new_node(...)`, with the fields the caller then fills in. */
    method AddNode(set': Slot, tag: Option<seq<byte>>, ghost g: Picture, ghost others: set<Node>) returns (n: Node)
      requires Pictured(root, g) && Within(g) && set' !in g.slots && Inside(set', g)
      requires forall x :: x in others ==> PeerOf(x) != set'
      modifies this`root, if set'.Root? then {} else {set'.node}
      ensures fresh(n) && n.child == null && n.peer == null
      ensures var h := Picture(g.slots[set' := n], g.labels[n := tag]);
        Pictured(root, h) && Within(h)
      ensures forall x :: x in others ==> x.peer == old(x.peer)
    {
      n := new Node();
      n.isText := tag.Some?;
      if tag.Some? { n.text := tag.value; }
      Put(set', n, g, others);
    }

    /** `*set = node`: no other slot changes. */
    method Put(set': Slot, n: Node, ghost g: Picture, ghost others: set<Node>)
      requires Pictured(root, g) && Inside(set', g) && set' !in g.slots && n !in g.labels
      requires forall x :: x in others ==> PeerOf(x) != set'
      modifies this`root, if set'.Root? then {} else {set'.node}
      ensures Held(root, set') == n && Pictured(root, g)
      ensures !set'.Root? ==> n != set'.node
      ensures !set'.Root? ==> set'.node.isText == old(set'.node.isText) && set'.node.text == old(set'.node.text)
      ensures forall x :: x in others ==> x.peer == old(x.peer)
    {
      match set' {
        case Root => root := n;
        case ChildOf(x) => x.child := n;
        case PeerOf(x) => x.peer := n;
      }
    }

    /** The state of the pass: the heap is the growing tree, and what is still unset is null. */
    ghost predicate Reading(levels: Levels, open: seq<Node>, hangs: seq<Slot>, set': Slot, g: Picture)
      reads this`root, g.labels.Keys
    {
      && Growing(levels, open, hangs, set', g)
      && Pictured(root, g) && Within(g) && Inside(set', g)
      && Held(root, set') == null
      && (forall n :: n in open ==> n in g.labels && n.peer == null)
    }

    /** A word. */
    method ReadWord(set': Slot, w: seq<byte>, ghost levels: Levels, ghost open: seq<Node>,
                    ghost hangs: seq<Slot>, ghost g: Picture)
      returns (n: Node)
      requires Reading(levels, open, hangs, set', g)
      modifies this`root, if set'.Root? then {} else {set'.node}
      ensures fresh(n) && n !in g.labels
      ensures Reading(Push(levels, Word(w)), open, hangs, PeerOf(n),
                      Picture(g.slots[set' := n], g.labels[n := Some(w)]))
    {
      hide Leads, Pictured;
      OpenElsewhere(levels, open, hangs, set', g);
      n := AddNode(set', Some(w), g, Elements(open));
      GrowWord(levels, open, hangs, set', g, n, w);
    }

    /** An opening parenthesis. */
    method ReadOpen(set': Slot, ghost levels: Levels, ghost open: seq<Node>, ghost hangs: seq<Slot>, ghost g: Picture)
      returns (n: Node)
      requires Reading(levels, open, hangs, set', g)
      modifies this`root, if set'.Root? then {} else {set'.node}
      ensures fresh(n) && n !in g.labels
      ensures Reading(levels + [[]], open + [n], hangs + [set'], ChildOf(n),
                      Picture(g.slots[set' := n], g.labels[n := None]))
    {
      hide Leads, Pictured;
      OpenElsewhere(levels, open, hangs, set', g);
      n := AddNode(set', None, g, Elements(open));
      GrowOpen(levels, open, hangs, set', g, n);
    }

    /** A closing parenthesis only moves the pointer. */
    lemma ReadClose(levels: Levels, open: seq<Node>, hangs: seq<Slot>, set': Slot, g: Picture)
      requires Reading(levels, open, hangs, set', g) && open != []
      ensures var m := |open| - 1;
        Reading(Shut(levels), open[..m], hangs[..m], PeerOf(open[m]), Picture(g.slots[set' := null], g.labels))
    {
      hide Leads, OpenAt;
      GrowClose(levels, open, hangs, set', g);
    }

    // The other variables of `paren_parse`: where the next node goes, and the stack of places to
    // go on at; with them, what has been read so far.

    var set': Slot
    var paths: seq<Slot>
    ghost var now: Growth

    ghost function Footprint(): set<object>
      reads this
    {
      {this} + if set'.Root? then {} else {set'.node}
    }

    ghost predicate Good()
      reads this, now.g.labels.Keys
    {
      && Reading(now.levels, now.open, now.hangs, set', now.g)
      && |paths| == |now.open| == |now.hangs| == |now.levels| - 1
      && Marks(paths, now.open)
    }

    method OpenList()
      requires Good()
      modifies Footprint()
      ensures Good() && now.levels == old(now.levels) + [[]]
      ensures fresh(now.g.labels.Keys - old(now.g.labels.Keys)) && |now.g.labels.Keys| == old(|now.g.labels.Keys|) + 1
    {
      hide Reading, Marks;
      ghost var was, at := now, set';
      var n := ReadOpen(set', was.levels, was.open, was.hangs, was.g);
      MarksPushed(paths, was.open, n);
      ghost var pic := Picture(was.g.slots[at := n], was.g.labels[n := None]);
      OneMore(was.g.labels.Keys, n, pic.labels.Keys);
      now := Growth(was.levels + [[]], was.open + [n], was.hangs + [at], pic);
      paths := paths + [PeerOf(n)];
      set' := ChildOf(n);
    }

    method CloseList() returns (ok: bool)
      requires Good()
      modifies this
      ensures ok == Take(old(now.levels), Close).Some?
      ensures ok ==> Good() && Take(old(now.levels), Close) == Some(now.levels) && now.g.labels == old(now.g.labels)
    {
      hide Reading, Marks;
      if |paths| == 0 { return false; }
      MarksPopped(paths, now.open);
      ReadClose(now.levels, now.open, now.hangs, set', now.g);
      ghost var m := |now.open| - 1;
      now := Growth(Shut(now.levels), now.open[..m], now.hangs[..m], Picture(now.g.slots[set' := null], now.g.labels));
      set' := paths[|paths| - 1];
      paths := paths[..|paths| - 1];
      return true;
    }

    method AddWord(w: seq<byte>)
      requires Good()
      modifies Footprint()
      ensures Good() && now.levels == Push(old(now.levels), Word(w))
      ensures fresh(now.g.labels.Keys - old(now.g.labels.Keys)) && |now.g.labels.Keys| == old(|now.g.labels.Keys|) + 1
    {
      hide Reading, Marks, Push, Held, Inside;
      ghost var was, at := now, set';
      ghost var marks := paths;
      assert Marks(marks, was.open);
      PushSize(was.levels, Word(w));
      var n := ReadWord(set', w, was.levels, was.open, was.hangs, was.g);
      assert paths == marks;
      ghost var pic := Picture(was.g.slots[at := n], was.g.labels[n := Some(w)]);
      OneMore(was.g.labels.Keys, n, pic.labels.Keys);
      now := Growth(Push(was.levels, Word(w)), was.open, was.hangs, pic);
      set' := PeerOf(n);
    }

    lemma BlankReading()
      requires root == null && set' == Root && paths == [] && now.g == Picture(map[], map[])
      requires now.levels == [[]] && now.open == [] && now.hangs == []
      ensures Good()
    {
      NothingGrown(now.g);
    }

    /** With no list open, the end of the text ends the outermost list. */
    lemma Finished() returns (picture: Picture)
      requires Good() && paths == []
      ensures Pictured(root, picture) && Within(picture) && Closed(Root, now.levels[0], picture)
      ensures picture.labels == now.g.labels
    {
      hide Leads;
      GrowDone(now.levels, set', now.g);
      picture := Picture(now.g.slots[set' := null], now.g.labels);
    }

    /** One token at the front of the rest of the text; false is an unexpected parenthesis. */
    method ReadToken(text: seq<byte>, at: nat) returns (ok: bool, iter: nat)
      requires Good() && at < |text| && !IsSpace(text[at]) && text[at] != 0
      modifies Footprint()
      ensures var (token, n) := FirstToken(text[at..]);
        var next := Take(old(now.levels), token);
        && iter == at + n <= |text|
        && ok == next.Some?
        && (ok ==> && Good() && now.levels == next.value
                   && fresh(now.g.labels.Keys - old(now.g.labels.Keys))
                   && |now.g.labels.Keys| == old(|now.g.labels.Keys|) + Made([token]))
    {
      hide Growing, Shut, Push;
      assert [FirstToken(text[at..]).0][1..] == [];
      var c := text[at];
      if c == OPEN {
        OpenList();
        return true, at + 1;
      } else if c == CLOSE {
        ok := CloseList();
        return ok, at + 1;
      } else {
        iter := SkipWord(text, at);
        assert text[at..][..iter - at] == text[at..iter];
        AddWord(text[at..iter]);
        return true, iter;
      }
    }

    method Reset()
      modifies this
      ensures Good() && now.levels == [[]] && now.g == Picture(map[], map[])
    {
      root, set', paths := null, Root, [];
      now := Growth([[]], [], [], Picture(map[], map[]));
      BlankReading();
    }

    /** One pass through the loop: space, then a token or the end of the text. */
    method ReadNext(text: seq<byte>, at: nat) returns (ok: bool, iter: nat)
      requires 0 !in text && at < |text| && Good()
      modifies Footprint()
      ensures at < iter <= |text|
      ensures !ok ==> Build(Tokens(text[at..]), old(now.levels)) == None
      ensures ok ==> Good() && Build(Tokens(text[iter..]), now.levels) == Build(Tokens(text[at..]), old(now.levels))
      ensures ok ==> fresh(now.g.labels.Keys - old(now.g.labels.Keys))
      ensures ok ==>
                |now.g.labels.Keys| + Made(Tokens(text[iter..])) == old(|now.g.labels.Keys|) + Made(Tokens(text[at..]))
    {
      hide Take, FirstToken, Growing, Build, Tokens, Made;
      TokensStep(text[at..]);
      BuildStep(Tokens(text[at..]), now.levels);
      BuildStep([], now.levels);
      var start := SkipSpace(text, at);
      assert text[at..][start - at..] == text[start..];
      if start == |text| {
        iter := start;
        assert text[iter..] == [];
        NoTokens();
        return true, iter;
      }
      assert text[start] == text[start..][0];
      ghost var (token, n) := FirstToken(text[start..]);
      assert text[start..][n..] == text[start + n..];
      MadeOne(token);
      ok, iter := ReadToken(text, start);
    }

    /**
     `paren_parse` on a text in memory: the returned pointer, over new nodes only, stands for the
     forest the text means; it is null when the text is refused, and also when it is blank.
     */
    method ParenParse(text: seq<byte>) returns (retval: Node?, ghost picture: Picture)
      requires 0 !in text
      modifies this
      ensures match Parse(text)
        case None => retval == null
        case Some(trees) =>
          && Pictured(retval, picture) && Within(picture) && Closed(Root, trees, picture)
          && fresh(picture.labels.Keys) && |picture.labels.Keys| == Made(Tokens(text))
    {
      hide Growing, Build, Tokens, Made;
      Reset();
      picture := now.g;
      var iter := 0;
      assert text[0..] == text;
      while iter < |text|
        invariant iter <= |text| && Good()
        invariant Parse(text) == Build(Tokens(text[iter..]), now.levels)
        invariant fresh(now.g.labels.Keys) && |now.g.labels.Keys| + Made(Tokens(text[iter..])) == Made(Tokens(text))
        decreases |text| - iter
      {
        var ok;
        ok, iter := ReadNext(text, iter);
        if !ok { return null, picture; }
      }
      assert text[iter..] == [];
      NoTokens();
      BuildStep([], now.levels);
      hide Pictured, Within, Closed;
      if |paths| != 0 { return null, picture; }
      picture := Finished();
      retval := root;
    }
  }

  lemma NoTokens()
    ensures Tokens([]) == []
  {
  }

  ghost function Elements(open: seq<Node>): set<Node> {
    set n | n in open
  }

  lemma OpenElsewhere(levels: Levels, open: seq<Node>, hangs: seq<Slot>, set': Slot, g: Picture)
    requires Growing(levels, open, hangs, set', g)
    ensures forall n :: n in open ==> PeerOf(n) != set' && n in g.labels
  {
    hide Leads;
    forall k | 0 <= k < |open| ensures PeerOf(open[k]) != set' && open[k] in g.labels {
      assert OpenAt(ListSlot(open, k), levels[k], hangs[k], open[k], set', g);
    }
  }

  lemma NothingGrown(g: Picture)
    requires g == Picture(map[], map[])
    ensures Growing([[]], [], [], Root, g)
  {
  }

  lemma OneMore(before: set<Node>, n: Node, after: set<Node>)
    requires n !in before && after == before + {n}
    ensures |after| == |before| + 1 && after - before == {n}
  {
  }

  lemma PushSize(levels: Levels, tree: Tree)
    requires levels != []
    ensures |Push(levels, tree)| == |levels|
  {
  }

  lemma MadeOne(token: Token)
    ensures Made([token]) == if token.Close? then 0 else 1
  {
    assert [token][1..] == [];
  }

  lemma BuildStep(tokens: seq<Token>, levels: Levels)
    requires levels != []
    ensures tokens == [] ==> Build(tokens, levels) == if |levels| == 1 then Some(levels[0]) else None
    ensures tokens == [] ==> Made(tokens) == 0
    ensures tokens != [] ==>
              var next := Take(levels, tokens[0]);
              Build(tokens, levels) == if next.None? then None else Build(tokens[1..], next.value)
    ensures tokens != [] ==> Made(tokens) == (if tokens[0].Close? then 0 else 1) + Made(tokens[1..])
  {
  }
}
