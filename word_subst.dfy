/** Whole-word substitution of variable values into the expression text, as
    `expression.replaceAll("\\b" + name + "\\b", value.toString())` performs
    it for one single-letter name.

    `replaceAll` finds every match in the ORIGINAL string and copies the
    unmatched characters through, so whether the character at some position
    is replaced depends only on that character and its two neighbours in the
    input. `ReplaceFrom` walks the input left to right and carries whether
    the previous input character was a word character, which is what `\b`
    before a one-letter name asks. */
module WordSubst {
  import opened JavaText

  /** The one-letter occurrence at `i` stands between two `\b` boundaries:
      each neighbour is missing or is not a word character. */
  predicate WholeWordAt(s: string, i: nat)
    requires i < |s|
  {
    (i == 0 || !IsWordChar(s[i - 1])) && (i + 1 == |s| || !IsWordChar(s[i + 1]))
  }

  /** What `replaceAll` puts in place of the input character at `i`: the
      value's decimal text when the character is a bound name standing as a
      whole word, the character itself otherwise. */
  function Piece(s: string, i: nat, m: map<char, int>): string
    requires i < |s|
  {
    if s[i] in m && WholeWordAt(s, i) then IntToString(m[s[i]]) else [s[i]]
  }

  /** The pieces of the positions `i` to `|s| - 1`, in input order. */
  function PiecesFrom(s: string, i: nat, m: map<char, int>): string
    requires i <= |s|
    decreases |s| - i
  {
    if i == |s| then [] else Piece(s, i, m) + PiecesFrom(s, i + 1, m)
  }

  /** Replaces, in `s`, every whole-word occurrence of each name bound in
      `m` by the decimal text of its value. `prevIsWord` says whether the
      input character before `s` was a word character. With nothing bound
      the text is copied unchanged. */
  function ReplaceFrom(prevIsWord: bool, s: string, m: map<char, int>): (r: string)
    ensures m == map[] ==> r == s
    decreases |s|
  {
    if s == [] then []
    else
      var piece :=
        if s[0] in m && !prevIsWord && (|s| == 1 || !IsWordChar(s[1]))
        then IntToString(m[s[0]])
        else [s[0]];
      assert s == [s[0]] + s[1..];
      piece + ReplaceFrom(IsWordChar(s[0]), s[1..], m)
  }

  /** All bound names substituted at once: the result is the input's
      pieces, position by position. */
  function ReplaceWholeWords(s: string, m: map<char, int>): (r: string)
    ensures r == PiecesFrom(s, 0, m)
  {
    ReplaceFromAt(s, 0, m);
    assert s[0..] == s;
    ReplaceFrom(false, s, m)
  }

  /** One `replaceAll` call of the servlet: the name `c` by the value `v`.
      Each whole-word occurrence of `c` becomes the value's text and every
      other character is copied; a text with no such occurrence comes back
      unchanged. */
  function Substitute(s: string, c: char, v: int): (r: string)
    ensures r == PiecesFrom(s, 0, map[c := v])
    ensures (forall i :: 0 <= i < |s| ==> !(s[i] == c && WholeWordAt(s, i))) ==> r == s
  {
    PiecesCopied(s, 0, map[c := v]);
    assert s[0..] == s;
    ReplaceWholeWords(s, map[c := v])
  }

  /** The left-to-right walk produces the pieces of the positions it has
      not passed yet. */
  lemma {:induction false} ReplaceFromAt(s: string, i: nat, m: map<char, int>)
    requires i <= |s|
    ensures ReplaceFrom(i > 0 && IsWordChar(s[i - 1]), s[i..], m) == PiecesFrom(s, i, m)
    decreases |s| - i
  {
    if i < |s| {
      var t := s[i..];
      assert t[0] == s[i] && t[1..] == s[i + 1..];
      assert |t| == 1 <==> i + 1 == |s|;
      assert |t| > 1 ==> t[1] == s[i + 1];
      ReplaceFromAt(s, i + 1, m);
    }
  }

  /** Where no position from `i` on holds a whole-word bound name, the
      pieces are the input characters themselves. */
  lemma {:induction false} PiecesCopied(s: string, i: nat, m: map<char, int>)
    requires i <= |s|
    ensures (forall j :: i <= j < |s| ==> !(s[j] in m && WholeWordAt(s, j)))
        ==> PiecesFrom(s, i, m) == s[i..]
    decreases |s| - i
  {
    if i < |s| && forall j :: i <= j < |s| ==> !(s[j] in m && WholeWordAt(s, j)) {
      PiecesCopied(s, i + 1, m);
      assert s[i..] == [s[i]] + s[i + 1..];
    }
  }

  /** Keys that can be variable names: word characters. */
  predicate WordKeys(m: map<char, int>) {
    forall c :: c in m ==> IsWordChar(c)
  }

  /** A prefix that does not contain `c` passes through a substitution of
      `c` unchanged; the walk then resumes after its last character. */
  lemma {:induction false} ReplacePassesOver(prevIsWord: bool, w: string, r: string, c: char, v: int)
    requires w != []
    requires forall k :: 0 <= k < |w| ==> w[k] != c
    ensures ReplaceFrom(prevIsWord, w + r, map[c := v])
         == w + ReplaceFrom(IsWordChar(w[|w| - 1]), r, map[c := v])
    decreases |w|
  {
    var m := map[c := v];
    assert (w + r)[0] == w[0] && (w + r)[1..] == w[1..] + r;
    if |w| > 1 {
      ReplacePassesOver(IsWordChar(w[0]), w[1..], r, c, v);
      assert [w[0]] + w[1..] == w;
    }
  }

  /** When the previous character is a word character, the first character
      of `t` cannot be a whole word and is copied. */
  lemma FirstCharKept(t: string, m: map<char, int>)
    requires t != []
    ensures ReplaceFrom(true, t, m) != [] && ReplaceFrom(true, t, m)[0] == t[0]
  {
  }

  /** Substituting one more name `c` into a text where the names of `m`
      were already substituted gives the same text as substituting all of
      them at once. The replacement texts hold no letter and end in a digit,
      so they neither create nor hide a whole-word occurrence of `c`, and an
      occurrence of `c` next to a replaced name cannot be a whole word. */
  lemma {:induction false} ReplaceOneMore(prevIsWord: bool, s: string, m: map<char, int>, c: char, v: int)
    requires c !in m && IsAsciiLetter(c)
    requires WordKeys(m)
    ensures ReplaceFrom(prevIsWord, ReplaceFrom(prevIsWord, s, m), map[c := v])
         == ReplaceFrom(prevIsWord, s, m[c := v])
    decreases |s|
  {
    if s != [] {
      var rest := s[1..];
      if s[0] in m && !prevIsWord && (|s| == 1 || !IsWordChar(s[1])) {
        var w := IntToString(m[s[0]]);
        assert forall k :: 0 <= k < |w| ==> w[k] != c;
        ReplacePassesOver(prevIsWord, w, ReplaceFrom(true, rest, m), c, v);
        ReplaceOneMore(true, rest, m, c, v);
      } else {
        var tail := ReplaceFrom(IsWordChar(s[0]), rest, m);
        assert ReplaceFrom(prevIsWord, s, m) == [s[0]] + tail;
        if s[0] == c && rest != [] {
          FirstCharKept(rest, m);
        }
        ReplaceOneMore(IsWordChar(s[0]), rest, m, c, v);
      }
    }
  }

  /** Two `replaceAll` calls for different names can run in either order:
      the session's attribute order does not change the text. */
  lemma SubstitutionsCommute(s: string, c: char, v: int, d: char, w: int)
    requires IsAsciiLetter(c) && IsAsciiLetter(d) && c != d
    ensures Substitute(Substitute(s, c, v), d, w) == Substitute(Substitute(s, d, w), c, v)
  {
    ReplaceOneMore(false, s, map[c := v], d, w);
    ReplaceOneMore(false, s, map[d := w], c, v);
    assert map[c := v][d := w] == map[d := w][c := v];
  }

  /** A character of `s` that remains a letter after substitution: an ASCII
      letter that is not a whole-word occurrence of a bound name. */
  predicate Unresolved(s: string, i: nat, m: map<char, int>)
    requires i < |s|
  {
    IsAsciiLetter(s[i]) && !(s[i] in m && WholeWordAt(s, i))
  }

  lemma {:induction false} UnresolvedFrom(s: string, i: nat, m: map<char, int>)
    requires i <= |s|
    ensures HasLetter(ReplaceFrom(i > 0 && IsWordChar(s[i - 1]), s[i..], m))
        <==> exists j :: i <= j < |s| && Unresolved(s, j, m)
    decreases |s| - i
  {
    var pw := i > 0 && IsWordChar(s[i - 1]);
    var t := s[i..];
    if i == |s| {
      assert t == [];
    } else {
      assert t[0] == s[i] && t[1..] == s[i + 1..];
      assert |t| == 1 <==> i + 1 == |s|;
      assert |t| > 1 ==> t[1] == s[i + 1];
      var piece :=
        if t[0] in m && !pw && (|t| == 1 || !IsWordChar(t[1]))
        then IntToString(m[t[0]])
        else [t[0]];
      var tail := ReplaceFrom(IsWordChar(s[i]), s[i + 1..], m);
      assert ReplaceFrom(pw, t, m) == piece + tail;
      HasLetterAppend(piece, tail);
      UnresolvedFrom(s, i + 1, m);
      assert HasLetter(piece) <==> Unresolved(s, i, m) by {
        if piece == [t[0]] {
          assert HasLetter(piece) <==> IsAsciiLetter(piece[0]);
        }
      }
    }
  }

  /** After substitution a letter is left exactly when the input holds a
      letter that is not a whole-word occurrence of a bound name. */
  lemma UnresolvedIff(s: string, m: map<char, int>)
    ensures HasLetter(ReplaceWholeWords(s, m)) <==> exists j :: 0 <= j < |s| && Unresolved(s, j, m)
  {
    UnresolvedFrom(s, 0, m);
    assert s[0..] == s;
  }

  /** Substitution adds no line terminator, since the replacement texts
      hold none; and when every bound name is a word character it removes
      none either. */
  lemma {:induction false} ReplaceKeepsTerminators(prevIsWord: bool, s: string, m: map<char, int>)
    ensures NoLineTerminator(s) ==> NoLineTerminator(ReplaceFrom(prevIsWord, s, m))
    ensures WordKeys(m) ==> (NoLineTerminator(ReplaceFrom(prevIsWord, s, m)) <==> NoLineTerminator(s))
    decreases |s|
  {
    if s != [] {
      var piece :=
        if s[0] in m && !prevIsWord && (|s| == 1 || !IsWordChar(s[1]))
        then IntToString(m[s[0]])
        else [s[0]];
      var tail := ReplaceFrom(IsWordChar(s[0]), s[1..], m);
      assert ReplaceFrom(prevIsWord, s, m) == piece + tail;
      NoLineTerminatorAppend(piece, tail);
      NoLineTerminatorAppend([s[0]], s[1..]);
      assert s == [s[0]] + s[1..];
      ReplaceKeepsTerminators(IsWordChar(s[0]), s[1..], m);
      if piece != [s[0]] {
        assert NoLineTerminator(piece);
        if WordKeys(m) {
          assert !IsLineTerminator(s[0]);
        }
      }
    }
  }
}
