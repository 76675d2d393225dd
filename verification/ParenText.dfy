/**
 The text format of src/paren-parser: words and parentheses. What a text means as a forest, and
 that meaning against printing, in both directions.
 */
module ParenText {
  import opened Bytes

  const OPEN: byte := 40
  const CLOSE: byte := 41

  datatype Tree = Word(text: seq<byte>) | List(children: seq<Tree>)

  datatype Token = Open | Close | Text(text: seq<byte>)

  /** `isspace` in the C locale: tab to carriage return, and space. */
  predicate IsSpace(b: byte) {
    9 <= b <= 13 || b == 32
  }

  predicate InWord(b: byte) {
    b != 0 && !IsSpace(b) && b != OPEN && b != CLOSE
  }

  predicate IsWord(w: seq<byte>) {
    w != [] && forall i :: 0 <= i < |w| ==> InWord(w[i])
  }

  predicate AllSpace(s: seq<byte>) {
    forall i :: 0 <= i < |s| ==> IsSpace(s[i])
  }

  // ---------------------------------------------------------------------------
  // Tokens

  function SpaceLength(s: seq<byte>): (n: nat)
    ensures n <= |s| && AllSpace(s[..n]) && (n < |s| ==> !IsSpace(s[n]))
  {
    if s == [] || !IsSpace(s[0]) then 0 else 1 + SpaceLength(s[1..])
  }

  function WordLength(s: seq<byte>): (n: nat)
    ensures n <= |s| && (forall i :: 0 <= i < n ==> InWord(s[i])) && (n < |s| ==> !InWord(s[n]))
  {
    if s == [] || !InWord(s[0]) then 0 else 1 + WordLength(s[1..])
  }

  /** The token at the front of a text that starts with no space, and its length. */
  function FirstToken(s: seq<byte>): (r: (Token, nat))
    requires s != [] && s[0] != 0 && !IsSpace(s[0])
    ensures 1 <= r.1 <= |s|
  {
    if s[0] == OPEN then (Open, 1)
    else if s[0] == CLOSE then (Close, 1)
    else (Text(s[..WordLength(s)]), WordLength(s))
  }

  function Tokens(s: seq<byte>): seq<Token>
    requires 0 !in s
    decreases |s|
  {
    var t := s[SpaceLength(s)..];
    if t == [] then []
    else
      var (token, n) := FirstToken(t);
      [token] + Tokens(t[n..])
  }

  // ---------------------------------------------------------------------------
  // Forests

  /** The lists still open, outermost first, each with what it holds so far. */
  type Levels = seq<seq<Tree>>

  function Push(levels: Levels, tree: Tree): Levels
    requires levels != []
  {
    var n := |levels| - 1;
    levels[n := levels[n] + [tree]]
  }

  function Shut(levels: Levels): Levels
    requires |levels| >= 2
  {
    var n := |levels| - 1;
    Push(levels[..n], List(levels[n]))
  }

  /** One token; None is a closing parenthesis without an opening one. */
  function Take(levels: Levels, token: Token): (r: Option<Levels>)
    requires levels != []
    ensures r.Some? ==> r.value != []
  {
    match token
    case Open => Some(levels + [[]])
    case Close => if |levels| == 1 then None else Some(Shut(levels))
    case Text(w) => Some(Push(levels, Word(w)))
  }

  /** The forest of a token sequence that starts with some lists open. */
  function Build(tokens: seq<Token>, levels: Levels): Option<seq<Tree>>
    requires levels != []
    decreases |tokens|
  {
    if tokens == [] then (if |levels| == 1 then Some(levels[0]) else None)
    else
      match Take(levels, tokens[0])
      case None => None
      case Some(next) => Build(tokens[1..], next)
  }

  /** What a text means; None for an unbalanced one. */
  function Parse(s: seq<byte>): Option<seq<Tree>>
    requires 0 !in s
  {
    Build(Tokens(s), [[]])
  }

  // ---------------------------------------------------------------------------
  // Printing

  function Print(tree: Tree): seq<Token>
    decreases tree, 1
  {
    match tree
    case Word(w) => [Text(w)]
    case List(children) => [Open] + PrintAll(children) + [Close]
  }

  function PrintAll(trees: seq<Tree>): seq<Token>
    decreases trees, 0
  {
    if trees == [] then [] else Print(trees[0]) + PrintAll(trees[1..])
  }

  /** What has been printed while some lists are still open. */
  function PrintLevels(levels: Levels): seq<Token>
    requires levels != []
    decreases |levels|
  {
    var n := |levels| - 1;
    if n == 0 then PrintAll(levels[0])
    else PrintLevels(levels[..n]) + [Open] + PrintAll(levels[n])
  }

  lemma {:induction false} PrintAllConcat(a: seq<Tree>, b: seq<Tree>)
    ensures PrintAll(a + b) == PrintAll(a) + PrintAll(b)
    decreases |a|
  {
    hide Print;
    if a == [] {
      assert a + b == b;
    } else {
      assert (a + b)[1..] == a[1..] + b;
      PrintAllConcat(a[1..], b);
      Associative(Print(a[0]), PrintAll(a[1..]), PrintAll(b));
    }
  }

  lemma PrintOne(tree: Tree)
    ensures PrintAll([tree]) == Print(tree)
  {
    hide Print;
    assert [tree][1..] == [];
  }

  /** Adding a tree to the innermost list prints it last. */
  lemma PrintPush(levels: Levels, tree: Tree)
    requires levels != []
    ensures PrintLevels(Push(levels, tree)) == PrintLevels(levels) + Print(tree)
  {
    hide Print, PrintAll;
    var n := |levels| - 1;
    PrintAllConcat(levels[n], [tree]);
    PrintOne(tree);
    assert Push(levels, tree)[..n] == levels[..n];
    if n > 0 {
      Associative(PrintLevels(levels[..n]) + [Open], PrintAll(levels[n]), Print(tree));
    }
  }

  lemma PrintList(children: seq<Tree>)
    ensures Print(List(children)) == [Open] + PrintAll(children) + [Close]
  {
    hide PrintAll;
  }

  lemma PrintInner(levels: Levels)
    requires |levels| >= 2
    ensures var n := |levels| - 1;
      PrintLevels(levels) == PrintLevels(levels[..n]) + [Open] + PrintAll(levels[n])
  {
    hide PrintAll;
  }

  lemma PrintShut(levels: Levels)
    requires |levels| >= 2
    ensures PrintLevels(Shut(levels)) == PrintLevels(levels) + [Close]
  {
    var n := |levels| - 1;
    var p, q := PrintLevels(levels[..n]), PrintAll(levels[n]);
    hide PrintAll, Print, PrintLevels, Push;
    PrintList(levels[n]);
    PrintInner(levels);
    PrintPush(levels[..n], List(levels[n]));
    Regroup(p, [Open], q, [Close]);
  }

  /** Every token taken is one more token printed. */
  lemma TakePrints(levels: Levels, token: Token)
    requires levels != [] && Take(levels, token).Some?
    ensures PrintLevels(Take(levels, token).value) == PrintLevels(levels) + [token]
  {
    hide PrintAll;
    match token
    case Open =>
      assert (levels + [[]])[..|levels|] == levels;
      assert PrintAll([]) == [] by { PrintNothing(); }
    case Close => PrintShut(levels);
    case Text(w) => PrintPush(levels, Word(w));
  }

  lemma PrintNothing()
    ensures PrintAll([]) == []
  {
  }

  /** A forest that is built prints back to the tokens it was built from. */
  lemma {:induction false} BuildThenPrint(tokens: seq<Token>, levels: Levels)
    requires levels != [] && Build(tokens, levels).Some?
    ensures PrintAll(Build(tokens, levels).value) == PrintLevels(levels) + tokens
    decreases |tokens|
  {
    hide PrintAll, Take;
    if tokens == [] {
      assert PrintLevels(levels) + [] == PrintLevels(levels);
    } else {
      var next := Take(levels, tokens[0]).value;
      TakePrints(levels, tokens[0]);
      BuildThenPrint(tokens[1..], next);
      assert (PrintLevels(levels) + [tokens[0]]) + tokens[1..] == PrintLevels(levels) + tokens;
    }
  }

  function Extend(levels: Levels, trees: seq<Tree>): Levels
    requires levels != []
  {
    var n := |levels| - 1;
    levels[n := levels[n] + trees]
  }

  /** Printed trees are built back, wherever they stand. */
  lemma {:induction false} PrintThenBuild(trees: seq<Tree>, levels: Levels, rest: seq<Token>)
    requires levels != []
    ensures Build(PrintAll(trees) + rest, levels) == Build(rest, Extend(levels, trees))
    decreases trees, 0
  {
    hide Print, Build;
    if trees == [] {
      assert levels[|levels| - 1] + [] == levels[|levels| - 1];
      assert Extend(levels, []) == levels;
      assert [] + rest == rest;
    } else {
      var n := |levels| - 1;
      Associative(Print(trees[0]), PrintAll(trees[1..]), rest);
      PrintTreeThenBuild(trees[0], levels, PrintAll(trees[1..]) + rest);
      PrintThenBuild(trees[1..], Extend(levels, [trees[0]]), rest);
      assert levels[n] + [trees[0]] + trees[1..] == levels[n] + trees;
      assert Extend(Extend(levels, [trees[0]]), trees[1..]) == Extend(levels, trees);
    }
  }

  lemma {:induction false} PrintTreeThenBuild(tree: Tree, levels: Levels, rest: seq<Token>)
    requires levels != []
    ensures Build(Print(tree) + rest, levels) == Build(rest, Extend(levels, [tree]))
    decreases tree, 1
  {
    match tree
    case Word(w) =>
      assert ([Text(w)] + rest)[1..] == rest;
    case List(children) =>
      hide PrintAll;
      var inner := PrintAll(children);
      var tokens := Print(tree) + rest;
      assert tokens[0] == Open && tokens[1..] == inner + ([Close] + rest);
      PrintThenBuild(children, levels + [[]], [Close] + rest);
      var full := Extend(levels + [[]], children);
      assert full == levels + [children] by { assert [] + children == children; }
      assert ([Close] + rest)[1..] == rest;
      assert full[..|levels|] == levels;
  }

  /** Building and printing are inverse to each other. */
  lemma BuildInvertsPrint(tokens: seq<Token>, trees: seq<Tree>)
    ensures Build(tokens, [[]]) == Some(trees) <==> tokens == PrintAll(trees)
  {
    if tokens == PrintAll(trees) {
      PrintThenBuild(trees, [[]], []);
      assert PrintAll(trees) + [] == PrintAll(trees);
      assert [] + trees == trees;
    }
    if Build(tokens, [[]]) == Some(trees) {
      BuildThenPrint(tokens, [[]]);
      PrintNothing();
      assert [] + tokens == tokens;
    }
  }

  // ---------------------------------------------------------------------------
  // Balance

  function Opens(tokens: seq<Token>): nat {
    if tokens == [] then 0 else (if tokens[0] == Open then 1 else 0) + Opens(tokens[1..])
  }

  function Closes(tokens: seq<Token>): nat {
    if tokens == [] then 0 else (if tokens[0] == Close then 1 else 0) + Closes(tokens[1..])
  }

  predicate ClosesEnough(tokens: seq<Token>, depth: nat, k: nat)
    requires k <= |tokens|
  {
    Closes(tokens[..k]) <= Opens(tokens[..k]) + depth
  }

  /** With `depth` lists open: no prefix closes too many, and all are closed at the end. */
  predicate Balanced(tokens: seq<Token>, depth: nat) {
    && (forall k :: 0 <= k <= |tokens| ==> ClosesEnough(tokens, depth, k))
    && Closes(tokens) == Opens(tokens) + depth
  }

  lemma BalancedStep(tokens: seq<Token>, depth: nat)
    requires tokens != []
    ensures var rest := tokens[1..];
      Balanced(tokens, depth) <==>
      match tokens[0]
      case Open => Balanced(rest, depth + 1)
      case Close => depth > 0 && Balanced(rest, depth - 1)
      case Text(_) => Balanced(rest, depth)
  {
    hide ClosesEnough, Closes, Opens;
    var rest := tokens[1..];
    TotalStep(tokens);
    PrefixStep(tokens, depth, 0);
    assert ClosesEnough(tokens, depth, 0) by { EmptyPrefix(tokens, depth); }
    if tokens[0].Close? && depth == 0 {
      EmptyPrefix(rest, 0);
    } else {
      var inner := if tokens[0].Open? then depth + 1 else if tokens[0].Close? then depth - 1 else depth;
      forall k | 0 <= k <= |rest| ensures ClosesEnough(tokens, depth, k + 1) == ClosesEnough(rest, inner, k) {
        PrefixStep(tokens, depth, k);
      }
      forall k | 1 <= k <= |tokens| ensures ClosesEnough(tokens, depth, k) == ClosesEnough(rest, inner, k - 1) {
        PrefixStep(tokens, depth, k - 1);
      }
    }
  }

  lemma TotalStep(tokens: seq<Token>)
    requires tokens != []
    ensures Closes(tokens) == (if tokens[0].Close? then 1 else 0) + Closes(tokens[1..])
    ensures Opens(tokens) == (if tokens[0].Open? then 1 else 0) + Opens(tokens[1..])
  {
  }

  lemma EmptyPrefix(tokens: seq<Token>, depth: nat)
    ensures ClosesEnough(tokens, depth, 0)
  {
  }

  /** A prefix one longer is the same prefix of the rest, at the depth after the first token. */
  lemma PrefixStep(tokens: seq<Token>, depth: nat, k: nat)
    requires k < |tokens|
    ensures match tokens[0]
      case Open => ClosesEnough(tokens, depth, k + 1) == ClosesEnough(tokens[1..], depth + 1, k)
      case Close =>
        if depth > 0 then ClosesEnough(tokens, depth, k + 1) == ClosesEnough(tokens[1..], depth - 1, k)
        else k == 0 ==> !ClosesEnough(tokens, depth, k + 1)
      case Text(_) => ClosesEnough(tokens, depth, k + 1) == ClosesEnough(tokens[1..], depth, k)
  {
    assert tokens[..k + 1][0] == tokens[0] && tokens[..k + 1][1..] == tokens[1..][..k];
  }

  /** Exactly the unbalanced token sequences are rejected. */
  lemma {:induction false} BuildsIffBalanced(tokens: seq<Token>, levels: Levels)
    requires levels != []
    ensures Build(tokens, levels).Some? <==> Balanced(tokens, |levels| - 1)
    decreases |tokens|
  {
    if tokens == [] {
      assert tokens[..0] == [];
    } else {
      hide Balanced;
      BalancedStep(tokens, |levels| - 1);
      var r := Take(levels, tokens[0]);
      if r.Some? { BuildsIffBalanced(tokens[1..], r.value); }
    }
  }

  // ---------------------------------------------------------------------------
  // Spelling

  function Spelling(token: Token): seq<byte> {
    match token
    case Open => [OPEN]
    case Close => [CLOSE]
    case Text(w) => w
  }

  predicate Spellable(token: Token) {
    token.Text? ==> IsWord(token.text)
  }

  predicate AllSpellable(tokens: seq<Token>) {
    forall i :: 0 <= i < |tokens| ==> Spellable(tokens[i])
  }

  /** A text: a gap, then each token and the gap after it. */
  function Render(tokens: seq<Token>, gaps: seq<seq<byte>>): seq<byte>
    requires |gaps| == |tokens| + 1
    decreases |tokens|
  {
    if tokens == [] then gaps[0]
    else gaps[0] + Spelling(tokens[0]) + Render(tokens[1..], gaps[1..])
  }

  /** Gaps are white, and there is one wherever two words meet. */
  predicate Spaced(tokens: seq<Token>, gaps: seq<seq<byte>>) {
    && |gaps| == |tokens| + 1
    && (forall i :: 0 <= i < |gaps| ==> AllSpace(gaps[i]))
    && (forall i :: 0 < i < |tokens| && tokens[i - 1].Text? && tokens[i].Text? ==> gaps[i] != [])
  }

  lemma SpacedTail(tokens: seq<Token>, gaps: seq<seq<byte>>)
    requires Spaced(tokens, gaps) && tokens != []
    ensures Spaced(tokens[1..], gaps[1..])
  {
    var t, g := tokens[1..], gaps[1..];
    assert forall i :: 0 < i < |t| ==> t[i - 1] == tokens[i] && t[i] == tokens[i + 1] && g[i] == gaps[i + 1];
  }

  lemma {:induction false} SpaceLengthOf(gap: seq<byte>, rest: seq<byte>)
    requires AllSpace(gap) && (rest != [] ==> !IsSpace(rest[0]))
    ensures SpaceLength(gap + rest) == |gap|
  {
    if gap == [] {
      assert gap + rest == rest;
    } else {
      SpaceLengthOf(gap[1..], rest);
      assert (gap + rest)[1..] == gap[1..] + rest;
    }
  }

  lemma {:induction false} WordLengthOf(w: seq<byte>, rest: seq<byte>)
    requires (forall i :: 0 <= i < |w| ==> InWord(w[i])) && (rest != [] ==> !InWord(rest[0]))
    ensures WordLength(w + rest) == |w|
  {
    if w == [] {
      assert w + rest == rest;
    } else {
      WordLengthOf(w[1..], rest);
      assert (w + rest)[1..] == w[1..] + rest;
    }
  }

  /** Past its first gap, a rendering goes on with the first spelling. */
  lemma FirstTokenOf(token: Token, rest: seq<byte>)
    requires Spellable(token) && (token.Text? && rest != [] ==> !InWord(rest[0]))
    ensures var s := Spelling(token) + rest;
      && s != [] && s[0] != 0 && !IsSpace(s[0])
      && FirstToken(s) == (token, |Spelling(token)|)
  {
    var s := Spelling(token) + rest;
    if token.Text? {
      assert s[0] == token.text[0];
      WordLengthOf(token.text, rest);
      assert s[..|token.text|] == token.text;
    }
  }

  /** Nothing in front of a rendering lets a word run on into it. */
  lemma RenderingEndsWord(tokens: seq<Token>, gaps: seq<seq<byte>>)
    requires Spaced(tokens, gaps) && AllSpellable(tokens)
    requires tokens != [] && tokens[0].Text? ==> gaps[0] != []
    ensures var s := Render(tokens, gaps); s != [] ==> !InWord(s[0])
  {
    var s := Render(tokens, gaps);
    if s != [] && gaps[0] != [] {
      assert s[0] == gaps[0][0];
    }
  }

  lemma {:induction false} RenderingHasNoNul(tokens: seq<Token>, gaps: seq<seq<byte>>)
    requires Spaced(tokens, gaps) && AllSpellable(tokens)
    ensures 0 !in Render(tokens, gaps)
    decreases |tokens|
  {
    if tokens != [] {
      SpacedTail(tokens, gaps);
      RenderingHasNoNul(tokens[1..], gaps[1..]);
    }
  }

  /** Reading a rendering gives the tokens back, whatever the white space. */
  lemma {:induction false} TokensOfRendering(tokens: seq<Token>, gaps: seq<seq<byte>>)
    requires Spaced(tokens, gaps) && AllSpellable(tokens)
    ensures 0 !in Render(tokens, gaps) && Tokens(Render(tokens, gaps)) == tokens
    decreases |tokens|
  {
    RenderingHasNoNul(tokens, gaps);
    var s := Render(tokens, gaps);
    if tokens == [] {
      SpaceLengthOf(gaps[0], []);
      assert gaps[0] + [] == gaps[0];
    } else {
      SpacedTail(tokens, gaps);
      var rest := Render(tokens[1..], gaps[1..]);
      RenderingEndsWordAfter(tokens, gaps);
      FirstTokenOf(tokens[0], rest);
      Associative(gaps[0], Spelling(tokens[0]), rest);
      SpaceLengthOf(gaps[0], Spelling(tokens[0]) + rest);
      TokensOfRendering(tokens[1..], gaps[1..]);
      var t := Spelling(tokens[0]) + rest;
      assert s[|gaps[0]|..] == t;
      assert t[|Spelling(tokens[0])|..] == rest;
    }
  }

  lemma RenderingEndsWordAfter(tokens: seq<Token>, gaps: seq<seq<byte>>)
    requires Spaced(tokens, gaps) && AllSpellable(tokens) && tokens != []
    ensures var rest := Render(tokens[1..], gaps[1..]);
      tokens[0].Text? && rest != [] ==> !InWord(rest[0])
  {
    SpacedTail(tokens, gaps);
    if tokens[0].Text? {
      assert |tokens| > 1 && tokens[1].Text? ==> gaps[1] != [];
      RenderingEndsWord(tokens[1..], gaps[1..]);
    }
  }

  /** A rendering that begins with a word and no gap begins with a word's byte. */
  lemma RenderingBegins(tokens: seq<Token>, gaps: seq<seq<byte>>)
    requires Spaced(tokens, gaps) && AllSpellable(tokens)
    requires tokens != [] && tokens[0].Text? && gaps[0] == []
    ensures Render(tokens, gaps) != [] && InWord(Render(tokens, gaps)[0])
  {
    assert InWord(tokens[0].text[0]);
    assert Render(tokens, gaps)[0] == tokens[0].text[0];
  }

  /** A token in front of a rendering that does not run into it. */
  lemma RenderingPrepended(gap: seq<byte>, token: Token, tokens: seq<Token>, gaps: seq<seq<byte>>)
    requires AllSpace(gap) && Spellable(token) && Spaced(tokens, gaps) && AllSpellable(tokens)
    requires var rest := Render(tokens, gaps); token.Text? && rest != [] ==> !InWord(rest[0])
    ensures AllSpellable([token] + tokens) && Spaced([token] + tokens, [gap] + gaps)
    ensures Render([token] + tokens, [gap] + gaps) == gap + Spelling(token) + Render(tokens, gaps)
  {
    var all, wide := [token] + tokens, [gap] + gaps;
    assert all[1..] == tokens && wide[1..] == gaps;
    if token.Text? && tokens != [] && tokens[0].Text? && gaps[0] == [] {
      RenderingBegins(tokens, gaps);
    }
    forall i | 0 < i < |all| && all[i - 1].Text? && all[i].Text? ensures wide[i] != [] {
      if i > 1 { assert tokens[i - 2].Text? && tokens[i - 1].Text?; }
    }
  }

  /** Every text is a rendering of its tokens. */
  lemma {:induction false} TextIsRendering(s: seq<byte>) returns (gaps: seq<seq<byte>>)
    requires 0 !in s
    ensures AllSpellable(Tokens(s)) && Spaced(Tokens(s), gaps) && Render(Tokens(s), gaps) == s
    decreases |s|
  {
    hide Spaced, Render, AllSpellable, Spelling, FirstToken;
    var k := SpaceLength(s);
    var t := s[k..];
    if t == [] {
      gaps := [s];
      assert s[..k] == s;
      BlankRendering(s);
    } else {
      var (token, n) := FirstToken(t);
      var more := TextIsRendering(t[n..]);
      FirstTokenSpells(t);
      RenderingPrepended(s[..k], token, Tokens(t[n..]), more);
      gaps := [s[..k]] + more;
      ThreeParts(s, k, n);
    }
  }

  lemma BlankRendering(s: seq<byte>)
    requires AllSpace(s)
    ensures AllSpellable([]) && Spaced([], [s]) && Render([], [s]) == s
  {
  }

  lemma FirstTokenSpells(t: seq<byte>)
    requires t != [] && t[0] != 0 && !IsSpace(t[0])
    ensures var (token, n) := FirstToken(t);
      && Spellable(token) && Spelling(token) == t[..n]
      && (token.Text? && t[n..] != [] ==> !InWord(t[n..][0]))
  {
  }

  /** Every word of the forest can be written. */
  predicate Writable(trees: seq<Tree>) {
    AllSpellable(PrintAll(trees))
  }

  /**
   The parser's meaning is the inverse of printing: a text parses to a forest exactly when it is
   the forest printed with some sufficient white space.
   */
  lemma ParseInvertsPrinting(s: seq<byte>, trees: seq<Tree>)
    requires 0 !in s
    ensures Parse(s) == Some(trees) <==>
            Writable(trees) && exists gaps :: Spaced(PrintAll(trees), gaps) && Render(PrintAll(trees), gaps) == s
  {
    BuildInvertsPrint(Tokens(s), trees);
    if Parse(s) == Some(trees) {
      var gaps := TextIsRendering(s);
    }
    if gaps :| Writable(trees) && Spaced(PrintAll(trees), gaps) && Render(PrintAll(trees), gaps) == s {
      TokensOfRendering(PrintAll(trees), gaps);
    }
  }

  /** A text is rejected exactly when its parentheses do not balance. */
  lemma RejectsExactlyUnbalanced(s: seq<byte>)
    requires 0 !in s
    ensures Parse(s).None? <==> !Balanced(Tokens(s), 0)
  {
    BuildsIffBalanced(Tokens(s), [[]]);
  }
}
