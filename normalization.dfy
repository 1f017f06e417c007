/**
  Whitespace normalisation of extracted text: the expression
  `' '.join(text.split())` used by both extraction endpoints.

  Python's no-argument `str.split()` cuts a string at every run of
  whitespace characters and drops empty pieces; `' '.join` glues the pieces
  back with one ASCII space. The whitespace table of `str.split()` is kept
  abstract: every function takes the predicate `ws` that says which
  characters count as whitespace.
 */
module Normalization {

  /** Every character of `s` is whitespace (this includes the empty string). */
  predicate AllWs(s: string, ws: char -> bool) {
    forall i :: 0 <= i < |s| ==> ws(s[i])
  }

  /** No character of `s` is whitespace. */
  predicate NoWs(s: string, ws: char -> bool) {
    forall i :: 0 <= i < |s| ==> !ws(s[i])
  }

  /** A piece produced by `str.split()`: non-empty and free of whitespace. */
  predicate IsWord(w: string, ws: char -> bool) {
    |w| > 0 && NoWs(w, ws)
  }

  /** `s` neither starts nor ends with whitespace. */
  predicate Trimmed(s: string, ws: char -> bool) {
    s == [] || (!ws(s[0]) && !ws(s[|s| - 1]))
  }

  /** The only whitespace in `s` is the ASCII space, and never two whitespace
      characters in a row. */
  predicate SingleSpaced(s: string, ws: char -> bool) {
    && (forall i :: 0 <= i < |s| && ws(s[i]) ==> s[i] == ' ')
    && (forall i :: 0 <= i < |s| - 1 ==> !ws(s[i]) || !ws(s[i + 1]))
  }

  /** The shape of every normalised text. */
  predicate IsNormal(s: string, ws: char -> bool) {
    Trimmed(s, ws) && SingleSpaced(s, ws)
  }

  /** Length of the maximal run of non-whitespace characters at the head of `s`. */
  function TokenEnd(s: string, ws: char -> bool): (n: nat)
    ensures n <= |s|
    ensures NoWs(s[..n], ws)
    ensures n < |s| ==> ws(s[n])
  {
    if s == [] || ws(s[0]) then 0
    else
      var n := 1 + TokenEnd(s[1..], ws);
      assert s[..n] == [s[0]] + s[1..][..n - 1];
      n
  }

  /** `s.split()`: the maximal runs of non-whitespace characters, in order. */
  function Split(s: string, ws: char -> bool): (words: seq<string>)
    ensures forall k :: 0 <= k < |words| ==> IsWord(words[k], ws)
    ensures words == [] <==> AllWs(s, ws)
    decreases |s|
  {
    if s == [] then []
    else if ws(s[0]) then
      var rest := Split(s[1..], ws);
      assert AllWs(s, ws) <==> AllWs(s[1..], ws) by {
        if AllWs(s[1..], ws) {
          forall i | 0 < i < |s| ensures ws(s[i]) { assert s[i] == s[1..][i - 1]; }
        }
      }
      rest
    else
      var n := TokenEnd(s, ws);
      [s[..n]] + Split(s[n..], ws)
  }

  /** `' '.join(words)`: the words in order, one space between neighbours. */
  function Join(words: seq<string>): string
  {
    if words == [] then []
    else if |words| == 1 then words[0]
    else words[0] + " " + Join(words[1..])
  }

  /** `' '.join(s.split())`: the normalisation applied to every extracted text. */
  function Normalize(s: string, ws: char -> bool): (r: string)
    ensures IsNormal(r, ws)
    ensures r == [] <==> AllWs(s, ws)
  {
    JoinIsNormal(Split(s, ws), ws);
    Join(Split(s, ws))
  }

  /** The non-whitespace characters of `s`, in their original order. */
  function NonWs(s: string, ws: char -> bool): string {
    if s == [] then []
    else (if ws(s[0]) then [] else [s[0]]) + NonWs(s[1..], ws)
  }

  /** The concatenation of `words` with no separator. */
  function Concat(words: seq<string>): string {
    if words == [] then [] else words[0] + Concat(words[1..])
  }

  // ---------------------------------------------------------------------
  // Sequence helpers

  /** A text is what comes before a position, the character there, and what
      comes after it. */
  lemma CutAt(r: string, n: nat)
    requires n < |r|
    ensures r == r[..n] + [r[n]] + r[n + 1..]
  {
  }

  /** Concatenation regroups freely. */
  lemma AppendAssoc(x: string, y: string, z: string)
    ensures x + y + z == x + (y + z)
  {
  }

  // ---------------------------------------------------------------------
  // Join of words

  /** `' '.join(words)` is empty for no words; otherwise it starts with the first
      word and is as long as all the words plus one space between neighbours. */
  lemma {:induction false} JoinLayout(words: seq<string>)
    ensures words == [] ==> Join(words) == []
    ensures words != [] ==> |Join(words)| == |Concat(words)| + |words| - 1
    ensures words != [] ==> Join(words)[..|words[0]|] == words[0]
  {
    if |words| > 1 {
      JoinLayout(words[1..]);
    }
  }

  /** Joining a word in front of at least one more word inserts one space. */
  lemma JoinPrepend(w: string, rest: seq<string>)
    requires rest != []
    ensures Join([w] + rest) == w + " " + Join(rest)
  {
    assert ([w] + rest)[1..] == rest;
  }

  /** Gluing a word in front of a non-empty normal text with one space gives a normal text. */
  lemma PrependWordIsNormal(w: string, t: string, ws: char -> bool)
    requires IsWord(w, ws) && IsNormal(t, ws) && t != []
    ensures IsNormal(w + " " + t, ws)
  {
  }

  /** Joining whitespace-free, non-empty words gives a normal text, which is empty
      only when there are no words. */
  lemma {:induction false} JoinIsNormal(words: seq<string>, ws: char -> bool)
    requires forall k :: 0 <= k < |words| ==> IsWord(words[k], ws)
    ensures IsNormal(Join(words), ws)
    ensures Join(words) == [] <==> words == []
  {
    if |words| > 1 {
      JoinIsNormal(words[1..], ws);
      PrependWordIsNormal(words[0], Join(words[1..]), ws);
    }
  }

  // ---------------------------------------------------------------------
  // Split of joined words

  /** A leading whitespace character does not change the split. */
  lemma SplitSkipsWs(c: char, t: string, ws: char -> bool)
    requires ws(c)
    ensures Split([c] + t, ws) == Split(t, ws)
  {
  }

  /** The head run of a word followed by whitespace (or by nothing) is the word. */
  lemma {:induction false} TokenEndOfWord(w: string, rest: string, ws: char -> bool)
    requires IsWord(w, ws)
    requires rest == [] || ws(rest[0])
    ensures TokenEnd(w + rest, ws) == |w|
  {
    assert (w + rest)[0] == w[0] && (w + rest)[1..] == w[1..] + rest;
    if |w| == 1 {
      assert w[1..] + rest == rest;
    } else {
      TokenEndOfWord(w[1..], rest, ws);
    }
  }

  /** A word followed by whitespace (or by nothing) is split off as one piece. */
  lemma SplitTakesWord(w: string, rest: string, ws: char -> bool)
    requires IsWord(w, ws)
    requires rest == [] || ws(rest[0])
    ensures Split(w + rest, ws) == [w] + Split(rest, ws)
  {
    var s := w + rest;
    TokenEndOfWord(w, rest, ws);
    assert s[..|w|] == w && s[|w|..] == rest;
  }

  /** Round trip: splitting the join of words gives the words back, when the
      separator is itself whitespace. */
  lemma {:induction false} SplitJoin(words: seq<string>, ws: char -> bool)
    requires ws(' ')
    requires forall k :: 0 <= k < |words| ==> IsWord(words[k], ws)
    ensures Split(Join(words), ws) == words
  {
    if words == [] {
    } else if |words| == 1 {
      SplitTakesWord(words[0], [], ws);
      assert words[0] + [] == words[0];
    } else {
      var t := Join(words[1..]);
      SplitJoin(words[1..], ws);
      SplitTakesWord(words[0], " " + t, ws);
      SplitSkipsWs(' ', t, ws);
      assert words[0] + " " + t == words[0] + (" " + t);
      assert [words[0]] + words[1..] == words;
    }
  }

  // ---------------------------------------------------------------------
  // Properties of Normalize

  /** What follows a space of a normal text, starting at a non-whitespace
      character, is itself normal. */
  lemma NormalSuffix(r: string, m: nat, ws: char -> bool)
    requires IsNormal(r, ws)
    requires m < |r| && !ws(r[m])
    ensures IsNormal(r[m..], ws)
  {
    var tail := r[m..];
    forall i | 0 <= i < |tail| && ws(tail[i]) ensures tail[i] == ' ' {
      assert tail[i] == r[m + i];
    }
    forall i | 0 <= i < |tail| - 1 ensures !ws(tail[i]) || !ws(tail[i + 1]) {
      assert tail[i] == r[m + i] && tail[i + 1] == r[m + 1 + i];
    }
    assert tail[|tail| - 1] == r[|r| - 1];
  }

  /** In a normal text the head word is non-empty and, unless it is the whole
      text, is followed by one space and then by a non-whitespace character. */
  lemma NormalHeadWord(r: string, ws: char -> bool)
    requires IsNormal(r, ws) && r != []
    ensures 0 < TokenEnd(r, ws)
    ensures TokenEnd(r, ws) < |r| ==>
      r[TokenEnd(r, ws)] == ' ' && TokenEnd(r, ws) + 1 < |r| && !ws(r[TokenEnd(r, ws) + 1])
  {
  }

  /** A normal text that is more than one word is its head word, one space,
      and a normal rest that starts with a non-whitespace character. */
  lemma NormalBreak(r: string, ws: char -> bool)
    requires IsNormal(r, ws) && r != [] && TokenEnd(r, ws) < |r|
    ensures var n := TokenEnd(r, ws);
      IsWord(r[..n], ws) && ws(' ') && r[n + 1..] != [] && !ws(r[n + 1..][0])
      && IsNormal(r[n + 1..], ws) && r == r[..n] + " " + r[n + 1..]
  {
    NormalHeadWord(r, ws);
    var n := TokenEnd(r, ws);
    NormalSuffix(r, n + 1, ws);
    CutAt(r, n);
  }

  /** A word, one space, and a text rebuilt by its own split are rebuilt too. */
  lemma JoinSplitStep(w: string, tail: string, ws: char -> bool)
    requires IsWord(w, ws) && ws(' ') && tail != [] && !ws(tail[0])
    requires Join(Split(tail, ws)) == tail
    ensures Join(Split(w + " " + tail, ws)) == w + " " + tail
  {
    assert w + " " + tail == w + ([' '] + tail);
    SplitTakesWord(w, [' '] + tail, ws);
    SplitSkipsWs(' ', tail, ws);
    JoinPrepend(w, Split(tail, ws));
  }

  /** A single word is rebuilt by joining its own split. */
  lemma WordIsJoinOfSplit(w: string, ws: char -> bool)
    requires IsWord(w, ws)
    ensures Join(Split(w, ws)) == w
  {
    SplitTakesWord(w, [], ws);
    assert w + [] == w;
  }

  /** A normal text is the join of its own split. */
  lemma {:induction false} NormalIsJoinOfSplit(r: string, ws: char -> bool)
    requires IsNormal(r, ws)
    ensures Join(Split(r, ws)) == r
    decreases |r|
  {
    if r != [] {
      NormalHeadWord(r, ws);
      var n := TokenEnd(r, ws);
      if n == |r| {
        assert r[..n] == r;
        WordIsJoinOfSplit(r, ws);
      } else {
        NormalBreak(r, ws);
        NormalIsJoinOfSplit(r[n + 1..], ws);
        JoinSplitStep(r[..n], r[n + 1..], ws);
      }
    }
  }

  /** The fixed points of Normalize are exactly the normal texts. */
  lemma NormalizeFixpoints(r: string, ws: char -> bool)
    ensures Normalize(r, ws) == r <==> IsNormal(r, ws)
  {
    if IsNormal(r, ws) {
      NormalIsJoinOfSplit(r, ws);
    }
  }

  /** Normalisation is idempotent. */
  lemma NormalizeIdempotent(s: string, ws: char -> bool)
    ensures Normalize(Normalize(s, ws), ws) == Normalize(s, ws)
  {
    NormalizeFixpoints(Normalize(s, ws), ws);
  }

  /** Normalisation keeps the words: splitting the normalised text gives the
      words of the input. */
  lemma NormalizeKeepsWords(s: string, ws: char -> bool)
    requires ws(' ')
    ensures Split(Normalize(s, ws), ws) == Split(s, ws)
  {
    SplitJoin(Split(s, ws), ws);
  }

  lemma {:induction false} NonWsAppend(a: string, b: string, ws: char -> bool)
    ensures NonWs(a + b, ws) == NonWs(a, ws) + NonWs(b, ws)
  {
    if a != [] {
      assert (a + b)[1..] == a[1..] + b;
      NonWsAppend(a[1..], b, ws);
    } else {
      assert a + b == b;
    }
  }

  lemma {:induction false} NonWsOfNoWs(w: string, ws: char -> bool)
    requires NoWs(w, ws)
    ensures NonWs(w, ws) == w
  {
    if w != [] {
      assert !ws(w[0]);
      NonWsOfNoWs(w[1..], ws);
    }
  }

  /** Dropping the whitespace of a text leaves the concatenation of its words. */
  lemma {:induction false} NonWsIsConcatOfSplit(s: string, ws: char -> bool)
    ensures NonWs(s, ws) == Concat(Split(s, ws))
    decreases |s|
  {
    if s == [] {
    } else if ws(s[0]) {
      NonWsIsConcatOfSplit(s[1..], ws);
    } else {
      var n := TokenEnd(s, ws);
      assert s == s[..n] + s[n..];
      NonWsAppend(s[..n], s[n..], ws);
      NonWsOfNoWs(s[..n], ws);
      NonWsIsConcatOfSplit(s[n..], ws);
      assert ([s[..n]] + Split(s[n..], ws))[1..] == Split(s[n..], ws);
    }
  }

  /** Normalisation keeps every non-whitespace character, in order, and adds none. */
  lemma NormalizeKeepsNonWs(s: string, ws: char -> bool)
    requires ws(' ')
    ensures NonWs(Normalize(s, ws), ws) == NonWs(s, ws)
  {
    NonWsIsConcatOfSplit(Normalize(s, ws), ws);
    NormalizeKeepsWords(s, ws);
    NonWsIsConcatOfSplit(s, ws);
  }

  /** Any run of whitespace is skipped by the split. */
  lemma {:induction false} SplitSkipsGap(gap: string, t: string, ws: char -> bool)
    requires AllWs(gap, ws)
    ensures Split(gap + t, ws) == Split(t, ws)
  {
    if gap != [] {
      assert gap + t == [gap[0]] + (gap[1..] + t);
      SplitSkipsWs(gap[0], gap[1..] + t, ws);
      SplitSkipsGap(gap[1..], t, ws);
    } else {
      assert gap + t == t;
    }
  }

  /** A run of whitespace between a word and more text, of whatever length and
      made of whatever whitespace characters, becomes exactly one space. */
  lemma NormalizeCollapsesGap(w: string, gap: string, t: string, ws: char -> bool)
    requires IsWord(w, ws) && gap != [] && AllWs(gap, ws) && !AllWs(t, ws)
    ensures Normalize(w + gap + t, ws) == w + " " + Normalize(t, ws)
  {
    assert w + gap + t == w + (gap + t);
    SplitTakesWord(w, gap + t, ws);
    SplitSkipsGap(gap, t, ws);
    var rest := Split(t, ws);
    assert ([w] + rest)[1..] == rest;
  }

  /** A single word is left unchanged. */
  lemma NormalizeWord(w: string, ws: char -> bool)
    requires IsWord(w, ws)
    ensures Normalize(w, ws) == w
  {
    WordIsJoinOfSplit(w, ws);
  }

  /** One whitespace gap between two words becomes one space. */
  lemma NormalizeOneGap(b: string, g: string, c: string, ws: char -> bool)
    requires IsWord(b, ws) && IsWord(c, ws) && g != [] && AllWs(g, ws)
    ensures Normalize(b + g + c, ws) == b + " " + c
  {
    NormalizeWord(c, ws);
    assert !ws(c[0]);
    NormalizeCollapsesGap(b, g, c, ws);
  }

  /** Two whitespace gaps between three words each become one space. */
  lemma NormalizeTwoGaps(s: string, a: string, g1: string, b: string, g2: string, c: string, ws: char -> bool)
    requires s == a + g1 + b + g2 + c
    requires IsWord(a, ws) && IsWord(b, ws) && IsWord(c, ws)
    requires g1 != [] && AllWs(g1, ws) && g2 != [] && AllWs(g2, ws)
    ensures Normalize(s, ws) == a + " " + b + " " + c
  {
    var t := b + g2 + c;
    NormalizeOneGap(b, g2, c, ws);
    assert t[0] == b[0];
    NormalizeCollapsesGap(a, g1, t, ws);
    AppendAssoc(a + g1, b, g2);
    AppendAssoc(a + g1, b + g2, c);
    AppendAssoc(a + " ", b, " ");
    AppendAssoc(a + " ", b + " ", c);
  }

  /** The text of the worked case below, cut at its whitespace gaps. */
  lemma ExampleTextPieces()
    ensures "Hello" + "\n\n" + "World" + "   " + "!" == "Hello\n\nWorld   !"
    ensures "Hello" + " " + "World" + " " + "!" == "Hello World !"
  {
    assert "Hello" + "\n\n" == "Hello\n\n";
    assert "Hello\n\n" + "World" == "Hello\n\nWorld";
    assert "Hello\n\nWorld" + "   " == "Hello\n\nWorld   ";
  }

  /** The pieces of the worked case below are words and gaps under its table. */
  lemma ExamplePiecesClassified(ws: char -> bool)
    requires ws(' ') && ws('\n')
    requires !ws('H') && !ws('e') && !ws('l') && !ws('o')
    requires !ws('W') && !ws('r') && !ws('d') && !ws('!')
    ensures IsWord("Hello", ws) && IsWord("World", ws) && IsWord("!", ws)
    ensures AllWs("\n\n", ws) && AllWs("   ", ws)
  {
  }

  /** A worked case: a blank line and a run of spaces each become one space,
      for any whitespace table in which space and line feed are whitespace and
      the letters and `!` of the text are not. */
  lemma NormalizeExample(text: string, ws: char -> bool)
    requires text == "Hello\n\nWorld   !"
    requires ws(' ') && ws('\n')
    requires !ws('H') && !ws('e') && !ws('l') && !ws('o')
    requires !ws('W') && !ws('r') && !ws('d') && !ws('!')
    ensures Normalize(text, ws) == "Hello World !"
  {
    ExampleTextPieces();
    ExamplePiecesClassified(ws);
    NormalizeTwoGaps(text, "Hello", "\n\n", "World", "   ", "!", ws);
  }
}
