/** Splitting sentences into words and joining words back into text,
    as the chain does it: `split_whitespace` for training input,
    `split(" ")` for stored keys and seeds, `join(" ")` for keys and output. */
module Text {

  /** Rust's `char::is_whitespace`: the characters with the Unicode
      White_Space property. */
  predicate IsSpace(c: char) {
    || c == ' '
    || ('\t' <= c <= '\r')
    || c == '\U{85}' || c == '\U{A0}' || c == '\U{1680}'
    || ('\U{2000}' <= c <= '\U{200A}')
    || c == '\U{2028}' || c == '\U{2029}' || c == '\U{202F}'
    || c == '\U{205F}' || c == '\U{3000}'
  }

  /** Upper-case letters, restricted to ASCII. */
  predicate IsUpper(c: char) {
    'A' <= c <= 'Z'
  }

  /** A word as `split_whitespace` yields it: non-empty, no white space. */
  ghost predicate IsToken(w: string) {
    |w| > 0 && forall j :: 0 <= j < |w| ==> !IsSpace(w[j])
  }

  /** Length of the leading run of `s` that holds no white space. */
  function WordLen(s: string): (n: nat)
    ensures n <= |s|
    ensures forall j :: 0 <= j < n ==> !IsSpace(s[j])
    ensures n < |s| ==> IsSpace(s[n])
  {
    if s == [] || IsSpace(s[0]) then 0 else 1 + WordLen(s[1..])
  }

  /** `str::split_whitespace`: the maximal runs of non-white-space characters. */
  function SplitWhitespace(s: string): (r: seq<string>)
    ensures forall i :: 0 <= i < |r| ==> IsToken(r[i])
    decreases |s|
  {
    if s == [] then []
    else if IsSpace(s[0]) then SplitWhitespace(s[1..])
    else
      var n := WordLen(s);
      [s[..n]] + SplitWhitespace(s[n..])
  }

  /** Length of the leading run of `s` that holds no `' '`. */
  function PieceLen(s: string): (n: nat)
    ensures n <= |s|
    ensures forall j :: 0 <= j < n ==> s[j] != ' '
    ensures n < |s| ==> s[n] == ' '
  {
    if s == [] || s[0] == ' ' then 0 else 1 + PieceLen(s[1..])
  }

  /** `str::split(" ")`: the pieces between single spaces, empty pieces
      included; there is always at least one piece. */
  function Split(s: string): (r: seq<string>)
    ensures |r| >= 1
    ensures forall i :: 0 <= i < |r| ==> ' ' !in r[i]
    decreases |s|
  {
    var n := PieceLen(s);
    if n == |s| then [s] else [s[..n]] + Split(s[n + 1..])
  }

  /** `join(" ")` on a vector of strings. */
  function Join(ws: seq<string>): string {
    if |ws| == 0 then ""
    else if |ws| == 1 then ws[0]
    else ws[0] + " " + Join(ws[1..])
  }

  /** The words with a full stop appended to the last one, as a terminal
      flush leaves them. */
  function DotLast(ws: seq<string>): (r: seq<string>)
    requires |ws| > 0
    ensures |r| == |ws| && r[..|ws| - 1] == ws[..|ws| - 1]
    ensures r[|ws| - 1] == ws[|ws| - 1] + "."
  {
    ws[..|ws| - 1] + [ws[|ws| - 1] + "."]
  }

  /** The last word is non-empty and ends with a full stop. */
  predicate EndsSentence(ws: seq<string>) {
    |ws| > 0 && |ws[|ws| - 1]| > 0 && ws[|ws| - 1][|ws[|ws| - 1]| - 1] == '.'
  }

  /** A full stop on the last word ends the sentence. */
  lemma DotLastEnds(ws: seq<string>)
    requires |ws| > 0
    ensures EndsSentence(DotLast(ws))
  {
    var w := ws[|ws| - 1];
    assert DotLast(ws)[|ws| - 1] == w + ".";
    assert (w + ".")[|w|] == '.';
  }

  /** A full stop adds no space to a word. */
  lemma NoSpaceDot(w: string)
    requires ' ' !in w
    ensures ' ' !in w + "."
  {
    assert forall p :: 0 <= p < |w| ==> (w + ".")[p] == w[p];
  }

  /** Appending one more word to a non-empty join adds a space and the word,
      which is how the training loop builds a key. */
  lemma {:induction false} JoinSnoc(ws: seq<string>, w: string)
    requires |ws| > 0
    ensures Join(ws + [w]) == Join(ws) + " " + w
    decreases |ws|
  {
    if |ws| == 1 {
      assert (ws + [w])[1..] == [w];
    } else {
      assert (ws + [w])[1..] == ws[1..] + [w];
      JoinSnoc(ws[1..], w);
    }
  }

  /** Splitting a join on `' '` gives back the words, provided none of them
      holds a space. */
  lemma {:induction false} SplitJoin(ws: seq<string>)
    requires |ws| > 0
    requires forall i :: 0 <= i < |ws| ==> ' ' !in ws[i]
    ensures Split(Join(ws)) == ws
    decreases |ws|
  {
    var a := ws[0];
    if |ws| == 1 {
      assert PieceLen(a) == |a|;
    } else {
      var s := Join(ws);
      assert s == a + " " + Join(ws[1..]);
      assert s[|a|] == ' ';
      var n := PieceLen(s);
      assert n == |a|;
      assert s[..n] == a;
      assert s[n + 1..] == Join(ws[1..]);
      SplitJoin(ws[1..]);
    }
  }

  /** Joining a word in front of a non-empty list adds the word and a space. */
  lemma JoinCons(w: string, ws: seq<string>)
    requires |ws| > 0
    ensures Join([w] + ws) == w + " " + Join(ws)
  {
    assert ([w] + ws)[0] == w;
    assert ([w] + ws)[1..] == ws;
  }

  /** A string with a space at `n` is its text before, a space, and its
      text after. */
  lemma SpaceAt(s: string, n: nat)
    requires n < |s| && s[n] == ' '
    ensures s == s[..n] + " " + s[n + 1..]
  {
    assert s == s[..n] + [s[n]] + s[n + 1..];
  }

  /** Joining the pieces of a split restores the string. */
  lemma {:induction false} JoinSplit(s: string)
    ensures Join(Split(s)) == s
    decreases |s|
  {
    var n := PieceLen(s);
    if n < |s| {
      var a, tail := s[..n], s[n + 1..];
      var rest := Split(tail);
      JoinSplit(tail);
      assert Split(s) == [a] + rest;
      JoinCons(a, rest);
      SpaceAt(s, n);
    }
  }

  /** The words of a whitespace split, joined by single spaces, split back
      into the same words. */
  lemma {:induction false} SplitWhitespaceJoin(ws: seq<string>)
    requires forall i :: 0 <= i < |ws| ==> IsToken(ws[i])
    ensures SplitWhitespace(Join(ws)) == ws
    decreases |ws|
  {
    if |ws| > 0 {
      var a := ws[0];
      var s := Join(ws);
      var rest := if |ws| == 1 then "" else " " + Join(ws[1..]);
      assert s == a + rest;
      assert forall j :: 0 <= j < |a| ==> s[j] == a[j] && !IsSpace(s[j]);
      assert |ws| > 1 ==> s[|a|] == ' ';
      var n := WordLen(s);
      assert n == |a|;
      assert s[..n] == a;
      assert s[n..] == rest;
      if |ws| == 1 {
        assert ws == [a];
      } else {
        assert SplitWhitespace(rest) == SplitWhitespace(Join(ws[1..]));
        SplitWhitespaceJoin(ws[1..]);
      }
    }
  }

  /** A full stop appended to the last word is a full stop appended to
      the joined text. */
  lemma {:induction false} JoinDotLast(ws: seq<string>)
    requires |ws| > 0
    ensures Join(DotLast(ws)) == Join(ws) + "."
    decreases |ws|
  {
    if |ws| > 1 {
      assert DotLast(ws) == [ws[0]] + DotLast(ws[1..]);
      assert DotLast(ws)[1..] == DotLast(ws[1..]);
      JoinDotLast(ws[1..]);
    }
  }
}
