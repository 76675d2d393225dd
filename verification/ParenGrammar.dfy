/**
 The text format once more, byte by byte and without tokens: which texts write which forest. The
 parser's meaning of a text is exactly this.
 */
module ParenGrammar {
  import opened Bytes
  import opened ParenText

  /** Tab, newline, vertical tab, form feed, carriage return, space. */
  predicate White(s: seq<byte>) {
    forall i :: 0 <= i < |s| ==> s[i] in {9, 10, 11, 12, 13, 32}
  }

  /** Anything but those, the two parentheses, and NUL. */
  predicate WordByte(b: byte) {
    b !in {0, 9, 10, 11, 12, 13, 32, 40, 41}
  }

  /** White space, then a word that ends where no word can go on. */
  predicate WordAt(s: seq<byte>, i: int, j: int, w: seq<byte>) {
    && 0 <= i < j <= |s| && White(s[..i]) && s[i..j] == w
    && (forall k :: i <= k < j ==> WordByte(s[k]))
    && (j < |s| ==> !WordByte(s[j]))
  }

  /** White space, then a pair of parentheses. */
  predicate ListAt(s: seq<byte>, i: int, j: int) {
    0 <= i < j < |s| && White(s[..i]) && s[i] == 40 && s[j] == 41
  }

  /** The text writes the forest, from left to right. */
  ghost predicate Writes(s: seq<byte>, trees: seq<Tree>)
    decreases trees
  {
    if trees == [] then White(s)
    else
      match trees[0]
      case Word(w) => exists i, j :: WordAt(s, i, j, w) && Writes(s[j..], trees[1..])
      case List(children) =>
        exists i, j :: ListAt(s, i, j) && Writes(s[i + 1..j], children) && Writes(s[j + 1..], trees[1..])
  }

  lemma WhiteIsSpace(s: seq<byte>)
    ensures White(s) == AllSpace(s)
  {
    assert forall b: byte :: IsSpace(b) == (b in {9, 10, 11, 12, 13, 32});
  }

  lemma SameWordBytes()
    ensures forall b: byte :: WordByte(b) == InWord(b)
  {
  }

  /** A rendering taken apart at one of its tokens. */
  lemma {:induction false} RenderingAt(a: seq<Token>, token: Token, b: seq<Token>, gaps: seq<seq<byte>>)
    requires |gaps| == |a| + 2 + |b|
    ensures Render(a + [token] + b, gaps)
         == Render(a, gaps[..|a| + 1]) + Spelling(token) + Render(b, gaps[|a| + 1..])
    decreases |a|
  {
    hide Spelling;
    var all := a + [token] + b;
    if a == [] {
      assert all[1..] == b;
    } else {
      assert all[1..] == a[1..] + [token] + b;
      RenderingAt(a[1..], token, b, gaps[1..]);
      var n := |a| + 1;
      assert gaps[1..][..n - 1] == gaps[..n][1..] && gaps[1..][n - 1..] == gaps[n..];
      ThreeSums(gaps[0] + Spelling(a[0]), Render(a[1..], gaps[..n][1..]), Spelling(token), Render(b, gaps[n..]));
    }
  }

  lemma ThreeSums(p: seq<byte>, q: seq<byte>, r: seq<byte>, t: seq<byte>)
    ensures p + (q + r + t) == (p + q) + r + t
  {
  }

  lemma SpacedParts(a: seq<Token>, token: Token, b: seq<Token>, gaps: seq<seq<byte>>)
    requires |gaps| == |a| + 2 + |b| && !token.Text?
    ensures Spaced(a + [token] + b, gaps) <==> Spaced(a, gaps[..|a| + 1]) && Spaced(b, gaps[|a| + 1..])
  {
    var all, n := a + [token] + b, |a| + 1;
    var g, h := gaps[..n], gaps[n..];
    if Spaced(a, g) && Spaced(b, h) {
      forall i | 0 <= i < |gaps| ensures AllSpace(gaps[i]) {
        assert gaps[i] == if i < n then g[i] else h[i - n];
      }
      forall i | 0 < i < |all| && all[i - 1].Text? && all[i].Text? ensures gaps[i] != [] {
        assert i != n && i != |a|;
        if i < |a| {
          assert all[i - 1] == a[i - 1] && all[i] == a[i] && gaps[i] == g[i];
        } else {
          assert all[i - 1] == b[i - n - 1] && all[i] == b[i - n] && gaps[i] == h[i - n];
        }
      }
    }
    if Spaced(all, gaps) {
      forall i | 0 < i < |a| && a[i - 1].Text? && a[i].Text? ensures g[i] != [] {
        assert all[i - 1] == a[i - 1] && all[i] == a[i];
      }
      forall i | 0 < i < |b| && b[i - 1].Text? && b[i].Text? ensures h[i] != [] {
        assert all[n + i - 1] == b[i - 1] && all[n + i] == b[i];
      }
    }
  }

  lemma SpellableParts(a: seq<Token>, token: Token, b: seq<Token>)
    ensures AllSpellable(a + [token] + b) <==> AllSpellable(a) && Spellable(token) && AllSpellable(b)
  {
    var all, n := a + [token] + b, |a| + 1;
    forall i | 0 <= i < |all|
      ensures all[i] == if i < |a| then a[i] else if i == |a| then token else b[i - n]
    {
    }
    if AllSpellable(all) {
      assert all[|a|] == token;
      assert forall i :: 0 <= i < |a| ==> a[i] == all[i];
      assert forall i :: 0 <= i < |b| ==> b[i] == all[n + i];
    }
  }

  /** What is printed for a forest that begins with a list. */
  lemma PrintedList(trees: seq<Tree>)
    requires trees != [] && trees[0].List?
    ensures PrintAll(trees)
         == [] + [Open] + (PrintAll(trees[0].children) + [Close] + PrintAll(trees[1..]))
  {
    hide PrintAll;
    assert PrintAll(trees) == Print(trees[0]) + PrintAll(trees[1..]) by { PrintedFirst(trees); }
    PrintList(trees[0].children);
    var inner, rest := PrintAll(trees[0].children), PrintAll(trees[1..]);
    assert ([Open] + inner + [Close]) + rest == [] + [Open] + (inner + [Close] + rest);
  }

  lemma PrintedFirst(trees: seq<Tree>)
    requires trees != []
    ensures PrintAll(trees) == Print(trees[0]) + PrintAll(trees[1..])
    ensures trees[0].Word? ==> PrintAll(trees) == [Text(trees[0].text)] + PrintAll(trees[1..])
  {
  }

  /** Every rendering of a forest writes it. */
  lemma {:induction false} RenderingWrites(trees: seq<Tree>, gaps: seq<seq<byte>>)
    requires AllSpellable(PrintAll(trees)) && Spaced(PrintAll(trees), gaps)
    ensures Writes(Render(PrintAll(trees), gaps), trees)
    decreases trees
  {
    hide PrintAll, Print, Render, Spaced, AllSpellable, Writes, WordAt, ListAt;
    SpacedLength(PrintAll(trees), gaps);
    var s := Render(PrintAll(trees), gaps);
    if trees == [] {
      RenderedNothing(gaps);
    } else if trees[0].Word? {
      RenderedWord(trees, gaps);
      var w := trees[0].text;
      var j := |gaps[0]| + |w|;
      SpacedLength(PrintAll(trees[1..]), gaps[1..]);
      var rest := Render(PrintAll(trees[1..]), gaps[1..]);
      RenderingWrites(trees[1..], gaps[1..]);
      assert s[j..] == rest;
      WritesWord(s, trees, |gaps[0]|, j);
    } else {
      var inner, rest := PrintAll(trees[0].children), PrintAll(trees[1..]);
      var n, g := |inner| + 1, gaps[1..];
      PrintedList(trees);
      RenderedList(inner, rest, gaps);
      RenderingWrites(trees[0].children, g[..n]);
      RenderingWrites(trees[1..], g[n..]);
      ListInText(gaps[0], Render(inner, g[..n]), Render(rest, g[n..]), s);
      WritesList(s, trees, |gaps[0]|, |gaps[0]| + 1 + |Render(inner, g[..n])|);
    }
  }

  lemma SpacedLength(tokens: seq<Token>, gaps: seq<seq<byte>>)
    requires Spaced(tokens, gaps)
    ensures |gaps| == |tokens| + 1
  {
  }

  lemma RenderedNothing(gaps: seq<seq<byte>>)
    requires Spaced(PrintAll([]), gaps)
    ensures Writes(Render(PrintAll([]), gaps), [])
  {
    WhiteIsSpace(gaps[0]);
  }

  lemma WritesWord(s: seq<byte>, trees: seq<Tree>, i: int, j: int)
    requires trees != [] && trees[0].Word? && WordAt(s, i, j, trees[0].text) && Writes(s[j..], trees[1..])
    ensures Writes(s, trees)
  {
  }

  lemma WritesList(s: seq<byte>, trees: seq<Tree>, i: int, j: int)
    requires trees != [] && trees[0].List? && ListAt(s, i, j)
    requires Writes(s[i + 1..j], trees[0].children) && Writes(s[j + 1..], trees[1..])
    ensures Writes(s, trees)
  {
  }

  lemma RenderedWord(trees: seq<Tree>, gaps: seq<seq<byte>>)
    requires trees != [] && trees[0].Word?
    requires AllSpellable(PrintAll(trees)) && Spaced(PrintAll(trees), gaps)
    ensures AllSpellable(PrintAll(trees[1..])) && Spaced(PrintAll(trees[1..]), gaps[1..])
    ensures var s, w := Render(PrintAll(trees), gaps), trees[0].text;
      && s == gaps[0] + w + Render(PrintAll(trees[1..]), gaps[1..])
      && WordAt(s, |gaps[0]|, |gaps[0]| + |w|, w)
  {
    hide PrintAll, Print;
    var tokens, w := PrintAll(trees), trees[0].text;
    PrintedFirst(trees);
    assert tokens[0] == Text(w) && tokens[1..] == PrintAll(trees[1..]);
    SpacedTail(tokens, gaps);
    SpellableParts([], tokens[0], tokens[1..]);
    assert [] + [tokens[0]] + tokens[1..] == tokens;
    RenderingEndsWordAfter(tokens, gaps);
    WhiteIsSpace(gaps[0]);
    SameWordBytes();
    WordInText(gaps[0], w, Render(tokens[1..], gaps[1..]));
  }

  lemma WordInText(gap: seq<byte>, w: seq<byte>, rest: seq<byte>)
    requires White(gap) && w != [] && (forall i :: 0 <= i < |w| ==> WordByte(w[i]))
    requires rest != [] ==> !WordByte(rest[0])
    ensures WordAt(gap + w + rest, |gap|, |gap| + |w|, w)
  {
    var s := gap + w + rest;
    assert s[..|gap|] == gap && s[|gap|..|gap| + |w|] == w;
    assert forall k :: |gap| <= k < |gap| + |w| ==> s[k] == w[k - |gap|];
  }

  lemma RenderedList(inner: seq<Token>, rest: seq<Token>, gaps: seq<seq<byte>>)
    requires |gaps| == |inner| + |rest| + 3
    ensures var n, g, all := |inner| + 1, gaps[1..], [] + [Open] + (inner + [Close] + rest);
      && (Spaced(all, gaps) <==> AllSpace(gaps[0]) && Spaced(inner, g[..n]) && Spaced(rest, g[n..]))
      && (AllSpellable(all) <==> AllSpellable(inner) && AllSpellable(rest))
      && Render(all, gaps) == gaps[0] + [40] + (Render(inner, g[..n]) + [41] + Render(rest, g[n..]))
  {
    hide Spaced, AllSpellable, Render, Spelling;
    SpacedList(inner, rest, gaps);
    RenderedPieces(inner, rest, gaps);
    SpellableParts([], Open, inner + [Close] + rest);
    SpellableParts(inner, Close, rest);
    assert AllSpellable([]) by { BlankRendering([]); }
  }

  lemma SpacedList(inner: seq<Token>, rest: seq<Token>, gaps: seq<seq<byte>>)
    requires |gaps| == |inner| + |rest| + 3
    ensures var n, g, all := |inner| + 1, gaps[1..], [] + [Open] + (inner + [Close] + rest);
      Spaced(all, gaps) <==> AllSpace(gaps[0]) && Spaced(inner, g[..n]) && Spaced(rest, g[n..])
  {
    hide Spaced;
    assert gaps[..1] == [gaps[0]];
    SpacedParts([], Open, inner + [Close] + rest, gaps);
    SpacedParts(inner, Close, rest, gaps[1..]);
    SpacedNothing(gaps[0]);
  }

  lemma RenderedPieces(inner: seq<Token>, rest: seq<Token>, gaps: seq<seq<byte>>)
    requires |gaps| == |inner| + |rest| + 3
    ensures var n, g, all := |inner| + 1, gaps[1..], [] + [Open] + (inner + [Close] + rest);
      Render(all, gaps) == gaps[0] + [40] + (Render(inner, g[..n]) + [41] + Render(rest, g[n..]))
  {
    assert gaps[..1] == [gaps[0]] && Render([], [gaps[0]]) == gaps[0];
    hide Render;
    RenderingAt([], Open, inner + [Close] + rest, gaps);
    RenderingAt(inner, Close, rest, gaps[1..]);
  }

  lemma SpacedNothing(gap: seq<byte>)
    ensures Spaced([], [gap]) <==> AllSpace(gap)
  {
    if AllSpace(gap) { assert [gap][0] == gap; }
    if Spaced([], [gap]) { assert AllSpace([gap][0]); }
  }

  lemma ListInText(gap: seq<byte>, x: seq<byte>, y: seq<byte>, s: seq<byte>)
    requires AllSpace(gap) && s == gap + [40] + (x + [41] + y)
    ensures var i := |gap|; var j := i + 1 + |x|;
      ListAt(s, i, j) && s[i + 1..j] == x && s[j + 1..] == y
  {
    WhiteIsSpace(gap);
    var i := |gap|;
    assert s[..i] == gap;
    assert s[i + 1..] == x + [41] + y;
    assert s[i + 1..i + 1 + |x|] == x;
  }

  /** Every text that writes a forest is a rendering of it. */
  lemma {:induction false} WritesIsRendering(s: seq<byte>, trees: seq<Tree>) returns (gaps: seq<seq<byte>>)
    requires Writes(s, trees)
    ensures AllSpellable(PrintAll(trees)) && Spaced(PrintAll(trees), gaps) && Render(PrintAll(trees), gaps) == s
    decreases trees
  {
    hide PrintAll, Print;
    if trees == [] {
      PrintNothing();
      WhiteIsSpace(s);
      BlankRendering(s);
      gaps := [s];
    } else if trees[0].Word? {
      var w := trees[0].text;
      var i, j :| WordAt(s, i, j, w) && Writes(s[j..], trees[1..]);
      var more := WritesIsRendering(s[j..], trees[1..]);
      WhiteIsSpace(s[..i]);
      SameWordBytes();
      WordSpells(s, i, j, w);
      RenderingPrepended(s[..i], Text(w), PrintAll(trees[1..]), more);
      PrintedFirst(trees);
      gaps := [s[..i]] + more;
    } else {
      var children := trees[0].children;
      var i, j :| ListAt(s, i, j) && Writes(s[i + 1..j], children) && Writes(s[j + 1..], trees[1..]);
      var g := WritesIsRendering(s[i + 1..j], children);
      var h := WritesIsRendering(s[j + 1..], trees[1..]);
      gaps := [s[..i]] + (g + h);
      var inner, rest := PrintAll(children), PrintAll(trees[1..]);
      assert gaps[1..] == g + h && (g + h)[..|inner| + 1] == g && (g + h)[|inner| + 1..] == h;
      WhiteIsSpace(s[..i]);
      RenderedList(inner, rest, gaps);
      PrintedList(trees);
      ListPieces(s, i, j);
    }
  }

  lemma WordSpells(s: seq<byte>, i: int, j: int, w: seq<byte>)
    requires WordAt(s, i, j, w)
    ensures IsWord(w) && s == s[..i] + w + s[j..]
    ensures s[j..] != [] ==> !InWord(s[j..][0])
  {
    SameWordBytes();
    assert forall k :: 0 <= k < |w| ==> w[k] == s[i + k];
  }

  lemma ListPieces(s: seq<byte>, i: int, j: int)
    requires ListAt(s, i, j)
    ensures s == s[..i] + [40] + (s[i + 1..j] + [41] + s[j + 1..])
  {
  }

  /**
   The parser's meaning, for every text and forest: a text parses to exactly the forest it writes,
   and is refused exactly if it writes none.
   */
  lemma ParseIffWrites(s: seq<byte>, trees: seq<Tree>)
    requires 0 !in s
    ensures Parse(s) == Some(trees) <==> Writes(s, trees)
  {
    hide Parse, PrintAll, Render, AllSpellable;
    ParseInvertsPrinting(s, trees);
    if Writes(s, trees) {
      var gaps := WritesIsRendering(s, trees);
    }
    if gaps :| Writable(trees) && Spaced(PrintAll(trees), gaps) && Render(PrintAll(trees), gaps) == s {
      RenderingWrites(trees, gaps);
    }
  }
}
