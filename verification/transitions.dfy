/** The transition table and what training does to it, as functions of
    the table and the corpus, with the properties training guarantees. */
module Transitions {
  import opened Text

  /** A state key (the state's words joined by single spaces) maps to the
      successors observed after it, duplicates kept in observation order. */
  type Table = map<string, seq<string>>

  /** The successor list of `key`, empty when the key is absent. */
  function Lookup(m: Table, key: string): seq<string> {
    if key in m then m[key] else []
  }

  /** One observed transition: `next` appended to the list of `key`, which
      is created when absent. */
  function Record(m: Table, key: string, next: string): (r: Table)
    ensures r.Keys == m.Keys + {key}
    ensures Lookup(r, key) == Lookup(m, key) + [next]
    ensures forall other :: other != key ==> Lookup(r, other) == Lookup(m, other)
  {
    m[key := Lookup(m, key) + [next]]
  }

  /** After recording, the list of any key is its old list, extended by
      `next` exactly when it is the recorded key. */
  lemma LookupRecord(m: Table, key: string, next: string, other: string)
    ensures Lookup(Record(m, key, next), other)
            == Lookup(m, other) + (if other == key then [next] else [])
  {
    if other != key {
      assert Lookup(m, other) + [] == Lookup(m, other);
    }
  }

  /** Recording is the source's update: extend the existing list or insert
      a one-element list. */
  lemma RecordIsUpdate(m: Table, key: string, next: string)
    ensures Record(m, key, next)
            == if key in m then m[key := m[key] + [next]] else m[key := [next]]
  {
    if key !in m {
      assert Lookup(m, key) + [next] == [next];
    }
  }

  /** Number of windows of `size` words followed by one more word in a
      sentence of `len` words. */
  function Windows(len: nat, size: nat): (n: nat)
    ensures n + size <= len || n == 0
    ensures len <= size ==> n == 0
  {
    if len > size then len - size else 0
  }

  /** The key of the window of `size` words starting at word `i`. */
  function WindowKey(words: seq<string>, size: nat, i: nat): (r: string)
    requires i + size <= |words|
    ensures size == 0 ==> r == ""
  {
    Join(words[i..i + size])
  }

  /** The word that follows the window starting at word `i`. */
  function Successor(words: seq<string>, size: nat, i: nat): string
    requires i + size < |words|
  {
    words[i + size]
  }

  /** The table after the first `n` windows of one sentence. */
  function TrainPrefix(m: Table, words: seq<string>, size: nat, n: nat): Table
    requires n <= Windows(|words|, size)
  {
    if n == 0 then m
    else Record(TrainPrefix(m, words, size, n - 1),
                WindowKey(words, size, n - 1), Successor(words, size, n - 1))
  }

  /** One more window, recorded as the source does it: the successor is
      appended to the key's list when the key is present, and the key is
      inserted with a one-element list otherwise. */
  lemma TrainPrefixNext(m: Table, words: seq<string>, size: nat, n: nat)
    requires n + size < |words|
    ensures n + 1 <= Windows(|words|, size)
    ensures var prev := TrainPrefix(m, words, size, n);
            var key := WindowKey(words, size, n);
            var next := words[n + size];
            TrainPrefix(m, words, size, n + 1)
            == if key in prev then prev[key := prev[key] + [next]] else prev[key := [next]]
  {
    RecordIsUpdate(TrainPrefix(m, words, size, n), WindowKey(words, size, n), words[n + size]);
  }

  /** The table after all windows of one sentence. */
  function TrainSentence(m: Table, words: seq<string>, size: nat): Table {
    TrainPrefix(m, words, size, Windows(|words|, size))
  }

  /** The table after every sentence of `data`, in order. */
  function TrainAll(m: Table, data: seq<string>, size: nat): Table
    decreases |data|
  {
    if |data| == 0 then m
    else TrainSentence(TrainAll(m, data[..|data| - 1], size),
                       SplitWhitespace(data[|data| - 1]), size)
  }

  /** Reference definition: the successors that the first `n` windows of a
      sentence record for `key`, in order. */
  function Observed(words: seq<string>, size: nat, key: string, n: nat): seq<string>
    requires n <= Windows(|words|, size)
  {
    if n == 0 then []
    else Observed(words, size, key, n - 1) + ObservedStep(words, size, key, n - 1)
  }

  /** What window `i` observes for `key`: its successor when its key is `key`. */
  function ObservedStep(words: seq<string>, size: nat, key: string, i: nat): seq<string>
    requires i + size < |words|
  {
    if WindowKey(words, size, i) == key then [Successor(words, size, i)] else []
  }

  /** Sum over the sentences of `data` of their window counts. */
  function TotalWindows(data: seq<string>, size: nat): nat
    decreases |data|
  {
    if |data| == 0 then 0
    else TotalWindows(data[..|data| - 1], size)
         + Windows(|SplitWhitespace(data[|data| - 1])|, size)
  }

  /** Total length of all successor lists. */
  ghost function TotalLen(m: Table): nat
    decreases |m.Keys|
  {
    if m == map[] then 0
    else
      var key :| key in m;
      assert (m - {key}).Keys == m.Keys - {key};
      |m[key]| + TotalLen(m - {key})
  }

  /** The table invariant of a model trained with windows of `size` words:
      every key is non-empty and splits into exactly `size` words, every
      list is non-empty, and every successor is a whitespace-free word. */
  ghost predicate WellFormed(m: Table, size: nat) {
    forall key {:trigger Entry(m, size, key)} :: key in m ==> Entry(m, size, key)
  }

  /** The entry of `key` is well formed: a non-empty key of `size` words
      and a non-empty list of whitespace-free words. */
  ghost predicate Entry(m: Table, size: nat, key: string) {
    && key in m
    && key != ""
    && |Split(key)| == size
    && |m[key]| > 0
    && forall j :: 0 <= j < |m[key]| ==> IsToken(m[key][j])
  }

  /** Keys that may start a sentence: those whose first character is
      upper case. */
  function StartKeys(m: Table): set<string>
  {
    set key | key in m && |key| > 0 && IsUpper(key[0])
  }

  /** A word the table knows: a word of some key, or a successor in some list. */
  ghost predicate Known(m: Table, w: string) {
    || (exists key :: key in m && w in Split(key))
    || (exists key :: key in m && w in m[key])
  }

  /** Every word of a stored key is known and holds no space. */
  lemma KnownPiece(m: Table, key: string, w: string)
    requires key in m && w in Split(key)
    ensures Known(m, w) && ' ' !in w
  {
  }

  /** In a well-formed table every successor is a known word without spaces. */
  lemma SuccessorIsWord(m: Table, size: nat, key: string, w: string)
    requires WellFormed(m, size) && key in m && w in m[key]
    ensures Known(m, w) && ' ' !in w
  {
    assert Entry(m, size, key);
    var j :| 0 <= j < |m[key]| && m[key][j] == w;
    assert IsToken(w);
    assert forall p :: 0 <= p < |w| ==> w[p] != ' ' by {
      forall p | 0 <= p < |w| ensures w[p] != ' ' {
        assert !IsSpace(w[p]);
      }
    }
  }

  /** In a well-formed table no key is empty and no list is empty. */
  lemma WellFormedKeys(m: Table, size: nat)
    requires WellFormed(m, size)
    ensures forall key :: key in m ==> key != "" && |m[key]| > 0
  {
    forall key | key in m ensures key != "" && |m[key]| > 0 {
      assert Entry(m, size, key);
    }
  }

  /** A table well formed for windows of no words is empty. */
  lemma WellFormedZero(m: Table)
    requires WellFormed(m, 0)
    ensures m == map[]
  {
    forall key | key in m ensures |Split(key)| == 0 {
      assert Entry(m, 0, key);
    }
  }

  /** Each window contributes exactly its successor to the list of its key:
      the list of `key` grows by the observed successors, in order, and the
      key is present afterwards exactly when it was before or a window
      produced it. */
  lemma {:induction false} TrainPrefixLookup(m: Table, words: seq<string>, size: nat, n: nat, key: string)
    requires n <= Windows(|words|, size)
    ensures Lookup(TrainPrefix(m, words, size, n), key) == Lookup(m, key) + Observed(words, size, key, n)
  {
    if n > 0 {
      TrainPrefixLookup(m, words, size, n - 1, key);
      TrainPrefixStep(m, words, size, n, key);
      var before, seen := Lookup(m, key), Observed(words, size, key, n - 1);
      ExtendBoth(Lookup(TrainPrefix(m, words, size, n), key), Lookup(TrainPrefix(m, words, size, n - 1), key),
                 before, seen, ObservedStep(words, size, key, n - 1), Observed(words, size, key, n));
    }
  }

  /** A list that was `before + seen` and grows by `extra` is `before`
      followed by `seen + extra`. */
  lemma ExtendBoth(grown: seq<string>, list: seq<string>, before: seq<string>,
                   seen: seq<string>, extra: seq<string>, observed: seq<string>)
    requires list == before + seen && grown == list + extra && observed == seen + extra
    ensures grown == before + observed
  {
    assert (before + seen) + extra == before + (seen + extra);
  }

  /** Window `n - 1` extends the list of `key` by exactly what it observes. */
  lemma TrainPrefixStep(m: Table, words: seq<string>, size: nat, n: nat, key: string)
    requires 0 < n <= Windows(|words|, size)
    ensures Lookup(TrainPrefix(m, words, size, n), key)
            == Lookup(TrainPrefix(m, words, size, n - 1), key) + ObservedStep(words, size, key, n - 1)
  {
    LookupRecord(TrainPrefix(m, words, size, n - 1), WindowKey(words, size, n - 1), Successor(words, size, n - 1), key);
  }

  /** A key is present after training exactly when it was present before
      or some window of the sentence produced it. */
  lemma {:induction false} TrainPrefixKeys(m: Table, words: seq<string>, size: nat, n: nat, key: string)
    requires n <= Windows(|words|, size)
    ensures key in TrainPrefix(m, words, size, n) <==> key in m || |Observed(words, size, key, n)| > 0
  {
    if n > 0 {
      TrainPrefixKeys(m, words, size, n - 1, key);
      var k := WindowKey(words, size, n - 1);
      if key == k {
        assert |Observed(words, size, key, n)| > 0;
      } else {
        assert Observed(words, size, key, n) == Observed(words, size, key, n - 1);
      }
    }
  }

  /** The observed successors of `key` are exactly the words that follow a
      window whose join is `key`. */
  lemma {:induction false} ObservedAt(words: seq<string>, size: nat, key: string, n: nat, w: string)
    requires n <= Windows(|words|, size)
    ensures w in Observed(words, size, key, n)
            <==> exists i :: 0 <= i < n && WindowKey(words, size, i) == key && Successor(words, size, i) == w
  {
    if n > 0 {
      ObservedAt(words, size, key, n - 1, w);
    }
  }

  /** A sentence of at most `size` words records nothing. */
  lemma ShortSentence(m: Table, words: seq<string>, size: nat)
    requires |words| <= size
    ensures TrainSentence(m, words, size) == m
  {
  }

  /** Training only adds: no key disappears and every list of the old table
      is a prefix of its new list. */
  lemma {:induction false} TrainExtends(m: Table, data: seq<string>, size: nat)
    ensures forall key :: key in m ==> key in TrainAll(m, data, size)
                                       && m[key] <= TrainAll(m, data, size)[key]
    decreases |data|
  {
    if |data| > 0 {
      var before := TrainAll(m, data[..|data| - 1], size);
      var words := SplitWhitespace(data[|data| - 1]);
      TrainExtends(m, data[..|data| - 1], size);
      forall key | key in m
        ensures key in TrainAll(m, data, size) && m[key] <= TrainAll(m, data, size)[key]
      {
        TrainPrefixLookup(before, words, size, Windows(|words|, size), key);
        TrainPrefixKeys(before, words, size, Windows(|words|, size), key);
        assert Lookup(before, key) == before[key];
      }
    }
  }

  /** Training never leaves an empty list behind. */
  lemma {:induction false} TrainNonEmpty(m: Table, data: seq<string>, size: nat)
    requires forall key :: key in m ==> |m[key]| > 0
    ensures forall key :: key in TrainAll(m, data, size) ==> |TrainAll(m, data, size)[key]| > 0
    decreases |data|
  {
    if |data| > 0 {
      var before := TrainAll(m, data[..|data| - 1], size);
      var words := SplitWhitespace(data[|data| - 1]);
      TrainNonEmpty(m, data[..|data| - 1], size);
      forall key | key in TrainAll(m, data, size)
        ensures |TrainAll(m, data, size)[key]| > 0
      {
        TrainPrefixLookup(before, words, size, Windows(|words|, size), key);
        TrainPrefixKeys(before, words, size, Windows(|words|, size), key);
        assert Lookup(TrainAll(m, data, size), key) == TrainAll(m, data, size)[key];
      }
    }
  }

  /** Removing one key removes exactly its list from the total, whichever
      key the definition of TotalLen happens to pick first. */
  lemma {:induction false} TotalLenRemove(m: Table, key: string)
    requires key in m
    ensures TotalLen(m) == |m[key]| + TotalLen(m - {key})
    decreases |m.Keys|
  {
    var k :| k in m && TotalLen(m) == |m[k]| + TotalLen(m - {k});
    if k != key {
      assert (m - {k}).Keys == m.Keys - {k};
      assert (m - {key}).Keys == m.Keys - {key};
      TotalLenRemove(m - {k}, key);
      TotalLenRemove(m - {key}, k);
      assert m - {k} - {key} == m - {key} - {k};
    }
  }

  /** Recording one transition adds one to the total length. */
  lemma TotalLenRecord(m: Table, key: string, next: string)
    ensures TotalLen(Record(m, key, next)) == TotalLen(m) + 1
  {
    var r := Record(m, key, next);
    TotalLenRemove(r, key);
    assert r - {key} == m - {key};
    if key in m {
      TotalLenRemove(m, key);
    } else {
      assert m - {key} == m;
    }
  }

  /** The first `n` windows add exactly `n` successors. */
  lemma {:induction false} TrainPrefixTotal(m: Table, words: seq<string>, size: nat, n: nat)
    requires n <= Windows(|words|, size)
    ensures TotalLen(TrainPrefix(m, words, size, n)) == TotalLen(m) + n
  {
    if n > 0 {
      TrainPrefixTotal(m, words, size, n - 1);
      TotalLenRecord(TrainPrefix(m, words, size, n - 1),
                     WindowKey(words, size, n - 1), Successor(words, size, n - 1));
    }
  }

  /** Training adds, over the whole corpus, one successor per window. */
  lemma {:induction false} TrainTotal(m: Table, data: seq<string>, size: nat)
    ensures TotalLen(TrainAll(m, data, size)) == TotalLen(m) + TotalWindows(data, size)
    decreases |data|
  {
    if |data| > 0 {
      var words := SplitWhitespace(data[|data| - 1]);
      TrainTotal(m, data[..|data| - 1], size);
      TrainPrefixTotal(TrainAll(m, data[..|data| - 1], size), words, size, Windows(|words|, size));
    }
  }

  /** Training on `a` and then on `b` is training on `a + b`. */
  lemma {:induction false} TrainConcat(m: Table, a: seq<string>, b: seq<string>, size: nat)
    ensures TrainAll(TrainAll(m, a, size), b, size) == TrainAll(m, a + b, size)
    decreases |b|
  {
    if |b| == 0 {
      assert a + b == a;
    } else {
      assert (a + b)[..|a + b| - 1] == a + b[..|b| - 1];
      assert (a + b)[|a + b| - 1] == b[|b| - 1];
      TrainConcat(m, a, b[..|b| - 1], size);
    }
  }

  /** The key of a window of `size >= 1` tokens is non-empty and splits
      back into exactly that window. */
  lemma WindowKeySplits(words: seq<string>, size: nat, i: nat)
    requires size > 0 && i + size <= |words|
    requires forall j :: 0 <= j < |words| ==> IsToken(words[j])
    ensures Split(WindowKey(words, size, i)) == words[i..i + size]
    ensures WindowKey(words, size, i) != ""
  {
    var window := words[i..i + size];
    forall j | 0 <= j < |window| ensures ' ' !in window[j] {
      assert window[j] == words[i + j];
      assert IsToken(window[j]);
    }
    SplitJoin(window);
    assert Split("") == [""];
    assert window[0] != "";
  }

  /** One window of a tokenised sentence keeps the table well formed. */
  lemma RecordWellFormed(m: Table, words: seq<string>, size: nat, i: nat)
    requires size > 0 && i + size < |words|
    requires forall j :: 0 <= j < |words| ==> IsToken(words[j])
    requires WellFormed(m, size)
    ensures WellFormed(Record(m, WindowKey(words, size, i), Successor(words, size, i)), size)
  {
    var key, next := WindowKey(words, size, i), Successor(words, size, i);
    WindowKeySplits(words, size, i);
    assert IsToken(next);
    var r := Record(m, key, next);
    forall k | k in r ensures Entry(r, size, k) {
      if k != key {
        assert Entry(m, size, k);
        assert Lookup(r, k) == Lookup(m, k);
      } else {
        if k in m {
          assert Entry(m, size, k);
        }
        assert r[k] == Lookup(m, k) + [next];
      }
    }
  }

  /** Training a tokenised sentence keeps the table well formed. */
  lemma {:induction false} TrainPrefixWellFormed(m: Table, words: seq<string>, size: nat, n: nat)
    requires size > 0 && n <= Windows(|words|, size)
    requires forall j :: 0 <= j < |words| ==> IsToken(words[j])
    requires WellFormed(m, size)
    ensures WellFormed(TrainPrefix(m, words, size, n), size)
  {
    if n > 0 {
      TrainPrefixWellFormed(m, words, size, n - 1);
      RecordWellFormed(TrainPrefix(m, words, size, n - 1), words, size, n - 1);
    }
  }

  /** Training with windows of `size >= 1` words keeps the table well formed:
      in particular every key splits into exactly `size` words. */
  lemma {:induction false} TrainWellFormed(m: Table, data: seq<string>, size: nat)
    requires size > 0 && WellFormed(m, size)
    ensures WellFormed(TrainAll(m, data, size), size)
    decreases |data|
  {
    if |data| > 0 {
      var words := SplitWhitespace(data[|data| - 1]);
      TrainWellFormed(m, data[..|data| - 1], size);
      TrainPrefixWellFormed(TrainAll(m, data[..|data| - 1], size), words, size, Windows(|words|, size));
    }
  }

  /** With windows of one word, a window's key is that word. */
  lemma OneWordKey(words: seq<string>, i: nat)
    requires i + 1 <= |words|
    ensures WindowKey(words, 1, i) == words[i]
  {
    assert words[i..i + 1] == [words[i]];
  }

  /** Training windows of one word on a three-word sentence records its
      two transitions in order. */
  lemma ThreeWords(m: Table, a: string, b: string, c: string)
    ensures TrainSentence(m, [a, b, c], 1) == Record(Record(m, a, b), b, c)
  {
    var words := [a, b, c];
    OneWordKey(words, 0);
    OneWordKey(words, 1);
    assert TrainPrefix(m, words, 1, 1) == Record(m, a, b);
  }

  /** Three whitespace-free words joined by spaces split back into them. */
  lemma ThreeTokens(ws: seq<string>, s: string)
    requires |ws| == 3 && IsToken(ws[0]) && IsToken(ws[1]) && IsToken(ws[2])
    requires s == ws[0] + " " + ws[1] + " " + ws[2]
    ensures SplitWhitespace(s) == ws
  {
    var a, b, c := ws[0], ws[1], ws[2];
    assert ws[1..][1..] == [c];
    assert Join(ws[1..]) == b + " " + c;
    assert Join(ws) == a + " " + (b + " " + c);
    assert a + " " + (b + " " + c) == a + " " + b + " " + c;
    SplitWhitespaceJoin(ws);
  }

  /** The first example sentence splits into three words. */
  lemma FirstExampleWords()
    ensures SplitWhitespace("The cat sat.") == ["The", "cat", "sat."]
  {
    assert IsToken("The") && IsToken("cat") && IsToken("sat.");
    ThreeTokens(["The", "cat", "sat."], "The cat sat.");
  }

  /** The second example sentence splits into three words. */
  lemma SecondExampleWords()
    ensures SplitWhitespace("The dog ran.") == ["The", "dog", "ran."]
  {
    assert IsToken("The") && IsToken("dog") && IsToken("ran.");
    ThreeTokens(["The", "dog", "ran."], "The dog ran.");
  }

  /** Training windows of one word on "The cat sat." and "The dog ran."
      maps "The" to both successors in order, and only "The" can start
      a sentence. */
  lemma TrainExample()
    ensures TrainAll(map[], ["The cat sat.", "The dog ran."], 1)
            == map["The" := ["cat", "dog"], "cat" := ["sat."], "dog" := ["ran."]]
    ensures StartKeys(TrainAll(map[], ["The cat sat.", "The dog ran."], 1)) == {"The"}
  {
    FirstExampleWords();
    SecondExampleWords();
    var data := ["The cat sat.", "The dog ran."];
    assert data[..1] == ["The cat sat."] && data[..1][..0] == [];
    ThreeWords(map[], "The", "cat", "sat.");
    var r1 := Record(map[], "The", "cat");
    var t1 := Record(r1, "cat", "sat.");
    assert TrainAll(map[], data[..1], 1) == t1;
    ThreeWords(t1, "The", "dog", "ran.");
    var t2 := Record(Record(t1, "The", "dog"), "dog", "ran.");
    assert TrainAll(map[], data, 1) == t2;
    ExampleTable();
    ExampleStarts();
  }

  /** In the example table only "The" starts with an upper-case letter. */
  lemma ExampleStarts()
    ensures StartKeys(map["The" := ["cat", "dog"], "cat" := ["sat."], "dog" := ["ran."]]) == {"The"}
  {
    var m := map["The" := ["cat", "dog"], "cat" := ["sat."], "dog" := ["ran."]];
    assert m.Keys == {"The", "cat", "dog"};
    assert "The"[0] == 'T' && "cat"[0] == 'c' && "dog"[0] == 'd';
    forall key | key in StartKeys(m) ensures key == "The" {
      assert key in m.Keys;
    }
    assert "The" in StartKeys(m);
  }

  /** The four transitions of the example, recorded one after another. */
  lemma ExampleTable()
    ensures Record(Record(Record(Record(map[], "The", "cat"), "cat", "sat."), "The", "dog"), "dog", "ran.")
            == map["The" := ["cat", "dog"], "cat" := ["sat."], "dog" := ["ran."]]
  {
    var r1 := Record(map[], "The", "cat");
    assert Lookup(map[], "The") + ["cat"] == ["cat"];
    assert r1 == map["The" := ["cat"]];
    var t1 := Record(r1, "cat", "sat.");
    assert "cat" != "The";
    assert Lookup(r1, "cat") + ["sat."] == ["sat."];
    assert t1 == map["The" := ["cat"], "cat" := ["sat."]];
    var r2 := Record(t1, "The", "dog");
    assert Lookup(t1, "The") + ["dog"] == ["cat", "dog"];
    assert r2 == map["The" := ["cat", "dog"], "cat" := ["sat."]];
    assert "dog" != "The" && "dog" != "cat";
    assert Lookup(r2, "dog") + ["ran."] == ["ran."];
  }
}
