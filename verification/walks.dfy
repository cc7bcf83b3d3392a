/** What generation and completion produce, stated as walks of the table:
    a walk starts from a window and steps to a successor the table lists
    for its last `size` words; a terminal flush ends a walk at a window the
    table has no key for, leaves some of its words in the sentence and puts
    a full stop on the last word. */
module Walks {
  import opened Text
  import opened Transitions

  /** How many window words a terminal flush pushes onto a sentence of `len`
      words: the first `size` of them, but only while the sentence holds
      fewer than `cap` words. */
  function FlushCount(len: nat, size: nat, cap: nat): (n: nat)
    ensures n <= size && (len < cap ==> len + n <= cap)
    ensures len < cap && size > 0 ==> n > 0
    ensures n < size ==> cap <= len + n
  {
    if len >= cap then 0 else if cap - len < size then cap - len else size
  }

  /** Word `p` of `path` is one of the successors the table lists for the
      `size` words before it. */
  ghost predicate StepAt(m: Table, size: nat, path: seq<string>, p: int) {
    size <= p < |path| && Join(path[p - size..p]) in m && path[p] in m[Join(path[p - size..p])]
  }

  /** `path` is a walk of the table from its first `size` words: every later
      word is a successor the table lists for the `size` words before it. */
  ghost predicate Walk(m: Table, size: nat, path: seq<string>) {
    size <= |path| && forall p :: size <= p < |path| ==> StepAt(m, size, path, p)
  }

  /** The walk starts at a start state: its first `size` words join to a
      key whose first character is upper case. */
  ghost predicate FromStart(m: Table, size: nat, path: seq<string>) {
    size <= |path| && Join(path[..size]) in StartKeys(m)
  }

  /** The walk ended at a window whose key the table does not hold. */
  ghost predicate Stuck(m: Table, size: nat, path: seq<string>) {
    size <= |path| && Join(path[|path| - size..]) !in m
  }

  /** The sentence after `front` and a run of terminal flushes: each flush
      pushes its segment and puts a full stop on the last word so far. */
  ghost function Closed(front: seq<string>, segs: seq<seq<string>>): seq<string>
    decreases |segs|
  {
    if |segs| == 0 then front
    else
      var before := Closed(front, segs[..|segs| - 1]) + segs[|segs| - 1];
      if |before| == 0 then before else DotLast(before)
  }

  /** Walk `i` is a walk of the table from a start state. */
  ghost predicate StartWalkAt(m: Table, size: nat, walks: seq<seq<string>>, i: int) {
    0 <= i < |walks| && Walk(m, size, walks[i]) && FromStart(m, size, walks[i])
  }

  /** Every walk from index `from` on is a walk from a start state. */
  ghost predicate Starts(m: Table, size: nat, walks: seq<seq<string>>, from: nat) {
    forall i :: from <= i < |walks| ==> StartWalkAt(m, size, walks, i)
  }

  /** Walk `i` ended at a window the table has no key for, and its flush
      left the first `|segs[i]|` of its words: every word it emitted and at
      most the whole final window. */
  ghost predicate FlushedAt(m: Table, size: nat, walks: seq<seq<string>>, segs: seq<seq<string>>, i: int) {
    && 0 <= i < |segs| && i < |walks|
    && Stuck(m, size, walks[i])
    && |walks[i]| - size <= |segs[i]| <= |walks[i]|
    && segs[i] == walks[i][..|segs[i]|]
  }

  /** Every segment was left by the flush of its walk. */
  ghost predicate Flushes(m: Table, size: nat, walks: seq<seq<string>>, segs: seq<seq<string>>) {
    forall i :: 0 <= i < |segs| ==> FlushedAt(m, size, walks, segs, i)
  }

  /** The flush of walk `i` left all of its words. */
  ghost predicate WholeAt(walks: seq<seq<string>>, segs: seq<seq<string>>, i: int) {
    0 <= i < |segs| && i < |walks| && segs[i] == walks[i]
  }

  /** The flushes of the first `k` walks left all of their words. */
  ghost predicate Wholes(walks: seq<seq<string>>, segs: seq<seq<string>>, k: int) {
    forall i :: 0 <= i < k ==> WholeAt(walks, segs, i)
  }

  /** The words a walk in progress has emitted: all but its current window. */
  function Emitted(path: seq<string>, size: nat): seq<string> {
    if size <= |path| then path[..|path| - size] else []
  }

  /** The word vector of a generation: the empty string, then the segment of
      every flushed walk with a full stop on its last word, then the words
      the walk in progress (the last of `walks`) has emitted. Every walk
      starts at a start state. Every flushed walk ended at a window with no
      key and left all of its words, except a last flush cut short by the
      requested length, after which no word was emitted; even that flush
      pushed at least one window word. */
  ghost predicate Generation(m: Table, size: nat, words: seq<string>,
                             walks: seq<seq<string>>, segs: seq<seq<string>>) {
    && |walks| == |segs| + 1
    && Starts(m, size, walks, 0)
    && Flushes(m, size, walks, segs)
    && Wholes(walks, segs, |segs| - 1)
    && (|segs| > 0 && size < |walks[|segs|]| ==> WholeAt(walks, segs, |segs| - 1))
    && (|segs| > 0 ==> |walks[|segs| - 1]| - size < |segs[|segs| - 1]|)
    && words == Closed([""], segs) + Emitted(walks[|segs|], size)
  }

  /** The flush of walk `i` in a completion pushed exactly the window words
      the 100-word cap left room for: it found the sentence closed by the
      earlier flushes followed by the words the walk emitted. */
  ghost predicate CappedAt(size: nat, head: seq<string>, walks: seq<seq<string>>, segs: seq<seq<string>>, i: int) {
    && 0 <= i < |segs| && i < |walks| && size <= |walks[i]|
    && |segs[i]| == |walks[i]| - size + FlushCount(|Closed(head, segs[..i])| + |walks[i]| - size, size, 100)
  }

  /** Every flush of a completion pushed what the 100-word cap allowed. */
  ghost predicate Capped(size: nat, head: seq<string>, walks: seq<seq<string>>, segs: seq<seq<string>>) {
    forall i :: 0 <= i < |segs| ==> CappedAt(size, head, walks, segs, i)
  }

  /** The flush that closed segment `i` left fewer than `minLen` words. */
  ghost predicate ShortAt(head: seq<string>, segs: seq<seq<string>>, minLen: nat, i: int) {
    0 <= i < |segs| && |Closed(head, segs[..i + 1])| < minLen
  }

  /** Every flush so far left fewer than `minLen` words, so none of them
      could stop a completion. */
  ghost predicate Short(head: seq<string>, segs: seq<seq<string>>, minLen: nat) {
    forall i :: 0 <= i < |segs| ==> ShortAt(head, segs, minLen, i)
  }

  /** The first walk of a completion starts from the seed's window. */
  ghost predicate SeedWalk(m: Table, size: nat, seedWindow: seq<string>, walks: seq<seq<string>>) {
    && |walks| > 0 && size <= |walks[0]|
    && Walk(m, size, walks[0])
    && walks[0][..size] == seedWindow
  }

  /** A completion in progress: the seed's head, then the segment of every
      flushed walk with a full stop on its last word, then the words the walk
      in progress (the last of `walks`) has emitted. The first walk starts
      from the seed's window and every later one at a start state. Every
      flushed walk ended at a window with no key, and its flush pushed the
      window words the 100-word cap left room for. */
  ghost predicate Completing(m: Table, size: nat, head: seq<string>, seedWindow: seq<string>,
                             words: seq<string>, walks: seq<seq<string>>, segs: seq<seq<string>>) {
    && |walks| == |segs| + 1
    && SeedWalk(m, size, seedWindow, walks)
    && Starts(m, size, walks, 1)
    && Flushes(m, size, walks, segs)
    && Capped(size, head, walks, segs)
    && words == Closed(head, segs) + Emitted(walks[|segs|], size)
  }

  /** A finished completion: the seed's head, then the segment of every
      walk with a full stop on its last word. Every walk was ended by a
      terminal flush at a window with no key; the first started from the
      seed's window and every later one at a start state. Every flush
      pushed the window words the 100-word cap left room for. */
  ghost predicate Completion(m: Table, size: nat, head: seq<string>, seedWindow: seq<string>,
                             words: seq<string>, walks: seq<seq<string>>, segs: seq<seq<string>>) {
    && |walks| == |segs| > 0
    && SeedWalk(m, size, seedWindow, walks)
    && Starts(m, size, walks, 1)
    && Flushes(m, size, walks, segs)
    && Capped(size, head, walks, segs)
    && words == Closed(head, segs)
  }

  /** A step of a path stays a step when the path grows. */
  lemma AppendStep(m: Table, size: nat, path: seq<string>, word: string, p: nat)
    requires StepAt(m, size, path, p)
    ensures StepAt(m, size, path + [word], p)
  {
    assert (path + [word])[p - size..p] == path[p - size..p];
  }

  /** A walk extended by a successor of its last `size` words is a walk. */
  lemma WalkExtend(m: Table, size: nat, path: seq<string>, word: string)
    requires Walk(m, size, path)
    requires Join(path[|path| - size..]) in m && word in m[Join(path[|path| - size..])]
    ensures Walk(m, size, path + [word])
    ensures (path + [word])[..size] == path[..size]
  {
    var k := |path|;
    forall p | size <= p < k + 1 ensures StepAt(m, size, path + [word], p) {
      if p < k {
        AppendStep(m, size, path, word, p);
      } else {
        assert (path + [word])[k - size..k] == path[k - size..];
      }
    }
  }

  /** A fresh walk: the words of a start key, a window of `size` words. */
  ghost predicate StartPath(m: Table, size: nat, path: seq<string>) {
    |path| == size && Walk(m, size, path) && FromStart(m, size, path)
  }

  /** The words of a start key form a fresh walk. */
  lemma StartWalk(m: Table, size: nat, start: string)
    requires WellFormed(m, size) && start in StartKeys(m)
    ensures StartPath(m, size, Split(start))
  {
    assert Entry(m, size, start);
    JoinSplit(start);
    assert Split(start)[..size] == Split(start);
  }

  /** The walk in progress is replaced by a longer one. */
  lemma StartsSwap(m: Table, size: nat, done: seq<seq<string>>, path: seq<string>, path': seq<string>, from: nat)
    requires Starts(m, size, done + [path], from)
    requires from <= |done| ==> Walk(m, size, path') && FromStart(m, size, path')
    ensures Starts(m, size, done + [path'], from)
  {
    forall i | from <= i < |done| + 1 ensures StartWalkAt(m, size, done + [path'], i) {
      if i < |done| {
        assert StartWalkAt(m, size, done + [path], i);
      }
    }
  }

  /** A new walk from a start state joins the list. */
  lemma StartsSnoc(m: Table, size: nat, walks: seq<seq<string>>, path: seq<string>, from: nat)
    requires Starts(m, size, walks, from)
    requires Walk(m, size, path) && FromStart(m, size, path)
    ensures Starts(m, size, walks + [path], from)
  {
    forall i | from <= i < |walks| + 1 ensures StartWalkAt(m, size, walks + [path], i) {
      if i < |walks| {
        assert StartWalkAt(m, size, walks, i);
      }
    }
  }

  /** Flushed walks are unaffected by the walk in progress. */
  lemma FlushesSwap(m: Table, size: nat, done: seq<seq<string>>, path: seq<string>, path': seq<string>,
                    segs: seq<seq<string>>)
    requires Flushes(m, size, done + [path], segs) && |segs| <= |done|
    ensures Flushes(m, size, done + [path'], segs)
  {
    forall i | 0 <= i < |segs| ensures FlushedAt(m, size, done + [path'], segs, i) {
      assert FlushedAt(m, size, done + [path], segs, i);
    }
  }

  /** Flushed walks are unaffected by a new walk. */
  lemma FlushesGrow(m: Table, size: nat, walks: seq<seq<string>>, segs: seq<seq<string>>, path: seq<string>)
    requires Flushes(m, size, walks, segs)
    ensures Flushes(m, size, walks + [path], segs)
  {
    forall i | 0 <= i < |segs| ensures FlushedAt(m, size, walks + [path], segs, i) {
      assert FlushedAt(m, size, walks, segs, i);
    }
  }

  /** A flush at a window with no key ends the walk in progress; its segment
      is the emitted words and the first `n` window words. */
  lemma FlushesClose(m: Table, size: nat, done: seq<seq<string>>, path: seq<string>,
                     segs: seq<seq<string>>, n: nat)
    requires Flushes(m, size, done + [path], segs) && |segs| == |done|
    requires Stuck(m, size, path) && n <= size
    ensures Flushes(m, size, done + [path], segs + [path[..|path| - size + n]])
  {
    var walks, segs' := done + [path], segs + [path[..|path| - size + n]];
    forall i | 0 <= i < |segs'| ensures FlushedAt(m, size, walks, segs', i) {
      if i < |segs| {
        assert FlushedAt(m, size, walks, segs, i);
      }
    }
  }

  /** Whole flushes are unaffected by the walk in progress. */
  lemma WholesSwap(done: seq<seq<string>>, path: seq<string>, path': seq<string>,
                   segs: seq<seq<string>>, k: int)
    requires Wholes(done + [path], segs, k) && k <= |done|
    ensures Wholes(done + [path'], segs, k)
  {
    forall i | 0 <= i < k ensures WholeAt(done + [path'], segs, i) {
      assert WholeAt(done + [path], segs, i);
    }
  }

  /** Whole flushes are unaffected by a new walk. */
  lemma WholesGrow(walks: seq<seq<string>>, segs: seq<seq<string>>, path: seq<string>, k: int)
    requires Wholes(walks, segs, k)
    ensures Wholes(walks + [path], segs, k)
  {
    forall i | 0 <= i < k ensures WholeAt(walks + [path], segs, i) {
      assert WholeAt(walks, segs, i);
    }
  }

  /** A new segment keeps the earlier whole flushes, and adds itself when it
      holds its whole walk. */
  lemma WholesClose(walks: seq<seq<string>>, segs: seq<seq<string>>, seg: seq<string>, k: int)
    requires Wholes(walks, segs, k) && k <= |segs| < |walks|
    ensures Wholes(walks, segs + [seg], k)
    ensures k == |segs| && seg == walks[|segs|] ==> Wholes(walks, segs + [seg], k + 1)
  {
    forall i | 0 <= i < k ensures WholeAt(walks, segs + [seg], i) {
      assert WholeAt(walks, segs, i);
    }
  }

  /** Capped flushes are unaffected by the walk in progress. */
  lemma CappedSwap(size: nat, head: seq<string>, done: seq<seq<string>>, path: seq<string>,
                   path': seq<string>, segs: seq<seq<string>>)
    requires Capped(size, head, done + [path], segs) && |segs| <= |done|
    ensures Capped(size, head, done + [path'], segs)
  {
    forall i | 0 <= i < |segs| ensures CappedAt(size, head, done + [path'], segs, i) {
      assert CappedAt(size, head, done + [path], segs, i);
    }
  }

  /** Capped flushes are unaffected by a new walk. */
  lemma CappedGrow(size: nat, head: seq<string>, walks: seq<seq<string>>, segs: seq<seq<string>>, path: seq<string>)
    requires Capped(size, head, walks, segs)
    ensures Capped(size, head, walks + [path], segs)
  {
    forall i | 0 <= i < |segs| ensures CappedAt(size, head, walks + [path], segs, i) {
      assert CappedAt(size, head, walks, segs, i);
    }
  }

  /** A flush that pushes what the cap allows, given the sentence it finds,
      adds a capped segment. */
  lemma CappedClose(size: nat, head: seq<string>, walks: seq<seq<string>>, segs: seq<seq<string>>, seg: seq<string>)
    requires Capped(size, head, walks, segs) && |segs| < |walks|
    requires size <= |walks[|segs|]|
    requires |seg| == |walks[|segs|]| - size + FlushCount(|Closed(head, segs)| + |walks[|segs|]| - size, size, 100)
    ensures Capped(size, head, walks, segs + [seg])
  {
    var segs' := segs + [seg];
    forall i | 0 <= i < |segs'| ensures CappedAt(size, head, walks, segs', i) {
      assert segs'[..i] == segs[..i];
      if i < |segs| {
        assert CappedAt(size, head, walks, segs, i);
      }
    }
  }

  /** A flush that leaves fewer than `minLen` words keeps every flush short. */
  lemma ShortSnoc(head: seq<string>, segs: seq<seq<string>>, seg: seq<string>, minLen: nat)
    requires Short(head, segs, minLen) && |Closed(head, segs + [seg])| < minLen
    ensures Short(head, segs + [seg], minLen)
  {
    var segs' := segs + [seg];
    forall i | 0 <= i < |segs'| ensures ShortAt(head, segs', minLen, i) {
      if i < |segs| {
        assert ShortAt(head, segs, minLen, i);
        assert segs'[..i + 1] == segs[..i + 1];
      } else {
        assert segs'[..i + 1] == segs';
      }
    }
  }

  /** When the first `k` flushes were short, so was the first one. */
  lemma ShortFirst(head: seq<string>, segs: seq<seq<string>>, k: nat, minLen: nat)
    requires 0 < k <= |segs| && Short(head, segs[..k], minLen)
    ensures |Closed(head, segs[..1])| < minLen
  {
    assert ShortAt(head, segs[..k], minLen, 0);
    assert segs[..k][..1] == segs[..1];
  }

  /** Emitting the oldest window word extends the emitted words. */
  lemma EmitWords(front: seq<string>, path: seq<string>, size: nat, word: string)
    requires size < |path| + 1 && size > 0
    ensures front + Emitted(path, size) + [path[|path| - size]] == front + Emitted(path + [word], size)
    ensures path[|path| - size..][1..] + [word] == (path + [word])[|path| + 1 - size..]
  {
    var k := |path| - size;
    assert (path + [word])[..k + 1] == path[..k] + [path[k]];
  }

  /** A flush pushes the first `n` window words after the emitted ones. */
  lemma FlushWords(front: seq<string>, path: seq<string>, size: nat, n: nat)
    requires size <= |path| && n <= size
    ensures front + Emitted(path, size) + path[|path| - size..][..n] == front + path[..|path| - size + n]
  {
    var k := |path| - size;
    assert path[..k] + path[k..][..n] == path[..k + n];
  }

  /** The words before the last run of flushes stay in front of it: the
      front's words in order, its last word possibly followed by full stops. */
  lemma {:induction false} ClosedFront(front: seq<string>, segs: seq<seq<string>>)
    requires |front| > 0
    ensures |Closed(front, segs)| >= |front|
    ensures SeedPrefix(Closed(front, segs), front)
    decreases |segs|
  {
    if |segs| == 0 {
      DotExtendsSelf(front[|front| - 1]);
    } else {
      var k := |segs| - 1;
      ClosedFront(front, segs[..k]);
      var before := Closed(front, segs[..k]) + segs[k];
      SeedPrefixAppend(Closed(front, segs[..k]), front, segs[k]);
      SeedPrefixDotLast(before, front);
    }
  }

  /** One more flush: the sentence so far and the new segment, with a full
      stop on the last word. */
  lemma ClosedSnoc(front: seq<string>, segs: seq<seq<string>>, seg: seq<string>)
    requires |Closed(front, segs) + seg| > 0
    ensures Closed(front, segs + [seg]) == DotLast(Closed(front, segs) + seg)
  {
    assert (segs + [seg])[..|segs|] == segs;
  }

  /** A flush that kept at least as many words as its walk has kept all of them. */
  lemma FlushedWhole(m: Table, size: nat, walks: seq<seq<string>>, segs: seq<seq<string>>, i: nat)
    requires Flushes(m, size, walks, segs) && i < |segs| && i < |walks|
    requires |segs[i]| >= |walks[i]|
    ensures WholeAt(walks, segs, i)
  {
    assert FlushedAt(m, size, walks, segs, i);
  }

  /** The generation before the first step: the empty string and a fresh
      walk from a start state. */
  lemma GenerationStart(m: Table, size: nat, restart: seq<string>)
    requires StartPath(m, size, restart)
    ensures Generation(m, size, [""], [restart], [])
  {
    StartsSnoc(m, size, [], restart, 0);
    assert [] + [restart] == [restart];
  }

  /** Emitting the oldest window word and sliding past a successor the table
      lists for the window keeps the generation, as long as the last flush
      left all of its words. */
  lemma GenerationEmit(m: Table, size: nat, words: seq<string>, done: seq<seq<string>>,
                       path: seq<string>, segs: seq<seq<string>>, window: seq<string>, word: string)
    requires Generation(m, size, words, done + [path], segs) && |done| == |segs| && size > 0
    requires size <= |path| && window == path[|path| - size..]
    requires Join(window) in m && word in m[Join(window)]
    requires |segs| > 0 ==> WholeAt(done + [path], segs, |segs| - 1)
    ensures Generation(m, size, words + [window[0]], done + [path + [word]], segs)
    ensures window[1..] + [word] == (path + [word])[|path| + 1 - size..]
  {
    var path' := path + [word];
    assert StartWalkAt(m, size, done + [path], |segs|);
    WalkExtend(m, size, path, word);
    StartsSwap(m, size, done, path, path', 0);
    FlushesSwap(m, size, done, path, path', segs);
    WholesSwap(done, path, path', segs, |segs|);
    EmitWords(Closed([""], segs), path, size, word);
  }

  /** A terminal flush on a window with no key ends the walk in progress:
      its emitted words and the first FlushCount window words become its
      segment, with a full stop on the last word, and a fresh walk starts
      from a start state. The segment holds the whole walk unless the flush
      reached the requested length (FlushCount is then below `size`). */
  lemma GenerationFlush(m: Table, size: nat, words: seq<string>, done: seq<seq<string>>,
                        path: seq<string>, segs: seq<seq<string>>, window: seq<string>,
                        length: nat, restart: seq<string>, flushed: seq<string>)
    returns (walks': seq<seq<string>>, segs': seq<seq<string>>)
    requires Generation(m, size, words, done + [path], segs) && |done| == |segs| && size > 0
    requires size <= |path| && window == path[|path| - size..] && Join(window) !in m
    requires 0 < |words| < length
    requires |segs| > 0 ==> WholeAt(done + [path], segs, |segs| - 1)
    requires StartPath(m, size, restart)
    requires flushed == DotLast(words + window[..FlushCount(|words|, size, length)])
    ensures walks' == done + [path] + [restart]
    ensures segs' == segs + [path[..|path| - size + FlushCount(|words|, size, length)]]
    ensures Generation(m, size, flushed, walks', segs')
  {
    var n := FlushCount(|words|, size, length);
    var seg := path[..|path| - size + n];
    var walks := done + [path];
    walks', segs' := walks + [restart], segs + [seg];
    assert Starts(m, size, walks', 0) by {
      StartsSnoc(m, size, walks, restart, 0);
    }
    assert Flushes(m, size, walks', segs') by {
      FlushesClose(m, size, done, path, segs, n);
      FlushesGrow(m, size, walks, segs', restart);
    }
    assert Wholes(walks', segs', |segs'| - 1) by {
      WholesClose(walks, segs, seg, |segs|);
      WholesGrow(walks, segs', restart, |segs|);
    }
    assert DotLast(words + window[..n]) == Closed([""], segs') by {
      FlushWords(Closed([""], segs), path, size, n);
      ClosedSnoc([""], segs, seg);
    }
    assert |walks'[|segs|]| - size < |segs'[|segs|]| by {
      assert n > 0;
    }
    assert walks'[|segs'|] == restart && Emitted(restart, size) == [];
  }

  /** A completion before the first step: the head in front and the seed's
      window as the first walk. */
  lemma CompletingStart(m: Table, head: seq<string>, seedWindow: seq<string>)
    ensures Completing(m, |seedWindow|, head, seedWindow, head, [seedWindow], [])
  {
    assert seedWindow[..0] == [];
    assert seedWindow[..|seedWindow|] == seedWindow;
  }

  /** Emitting the oldest window word and sliding past a successor the table
      lists for the window keeps the completion in progress. */
  lemma CompletingEmit(m: Table, size: nat, head: seq<string>, seedWindow: seq<string>,
                       words: seq<string>, done: seq<seq<string>>, path: seq<string>,
                       segs: seq<seq<string>>, window: seq<string>, word: string)
    requires Completing(m, size, head, seedWindow, words, done + [path], segs) && |done| == |segs|
    requires size <= |path| && window == path[|path| - size..] && size > 0
    requires Join(window) in m && word in m[Join(window)]
    ensures Completing(m, size, head, seedWindow, words + [window[0]], done + [path + [word]], segs)
    ensures window[1..] + [word] == (path + [word])[|path| + 1 - size..]
  {
    var path' := path + [word];
    if |segs| > 0 {
      assert StartWalkAt(m, size, done + [path], |segs|);
    } else {
      assert (done + [path])[0] == path;
    }
    WalkExtend(m, size, path, word);
    StartsSwap(m, size, done, path, path', 1);
    FlushesSwap(m, size, done, path, path', segs);
    CappedSwap(size, head, done, path, path', segs);
    EmitWords(Closed(head, segs), path, size, word);
    assert (done + [path'])[0] == if |segs| == 0 then path' else (done + [path])[0];
  }

  /** A terminal flush, capped at 100 words, on a window with no key
      finishes the walk in progress: its emitted words and the first
      FlushCount window words become its segment, with a full stop on the
      last word. */
  lemma CompletingFlush(m: Table, size: nat, head: seq<string>, seedWindow: seq<string>,
                        words: seq<string>, done: seq<seq<string>>, path: seq<string>,
                        segs: seq<seq<string>>, window: seq<string>, flushed: seq<string>)
    returns (segs': seq<seq<string>>)
    requires Completing(m, size, head, seedWindow, words, done + [path], segs) && |done| == |segs|
    requires size <= |path| && window == path[|path| - size..] && Join(window) !in m
    requires |words| > 0 || size > 0
    requires flushed == DotLast(words + window[..FlushCount(|words|, size, 100)])
    ensures segs' == segs + [path[..|path| - size + FlushCount(|words|, size, 100)]]
    ensures Completion(m, size, head, seedWindow, flushed, done + [path], segs')
  {
    var n := FlushCount(|words|, size, 100);
    var seg := path[..|path| - size + n];
    var walks := done + [path];
    segs' := segs + [seg];
    assert Flushes(m, size, walks, segs') by {
      FlushesClose(m, size, done, path, segs, n);
    }
    assert Capped(size, head, walks, segs') by {
      assert |words| == |Closed(head, segs)| + |path| - size;
      CappedClose(size, head, walks, segs, seg);
    }
    assert flushed == Closed(head, segs') by {
      FlushWords(Closed(head, segs), path, size, n);
      ClosedSnoc(head, segs, seg);
    }
  }

  /** After a flush that leaves the sentence short, a fresh walk starts from
      a start state. */
  lemma CompletionRestart(m: Table, size: nat, head: seq<string>, seedWindow: seq<string>,
                          words: seq<string>, walks: seq<seq<string>>, segs: seq<seq<string>>,
                          restart: seq<string>)
    requires Completion(m, size, head, seedWindow, words, walks, segs)
    requires StartPath(m, size, restart)
    ensures Completing(m, size, head, seedWindow, words, walks + [restart], segs)
  {
    StartsSnoc(m, size, walks, restart, 1);
    FlushesGrow(m, size, walks, segs, restart);
    CappedGrow(size, head, walks, segs, restart);
    assert (walks + [restart])[0] == walks[0];
  }

  /** A flush that finds room under the 100-word cap for its whole window
      leaves all of its walk's words. */
  lemma FlushWhole(m: Table, size: nat, head: seq<string>, seedWindow: seq<string>,
                   words: seq<string>, walks: seq<seq<string>>, segs: seq<seq<string>>, i: nat)
    requires Completion(m, size, head, seedWindow, words, walks, segs) && i < |segs|
    requires |Closed(head, segs[..i])| + |walks[i]| <= 100
    ensures WholeAt(walks, segs, i)
  {
    assert CappedAt(size, head, walks, segs, i);
    assert FlushedAt(m, size, walks, segs, i);
  }

  /** A completion of fewer than 100 words never met the cap: every flush
      left all of its walk's words. */
  lemma CompletionWhole(m: Table, size: nat, head: seq<string>, seedWindow: seq<string>,
                        words: seq<string>, walks: seq<seq<string>>, segs: seq<seq<string>>)
    requires Completion(m, size, head, seedWindow, words, walks, segs) && |words| < 100
    ensures Wholes(walks, segs, |segs|)
  {
    forall i | 0 <= i < |segs| ensures WholeAt(walks, segs, i) {
      assert CappedAt(size, head, walks, segs, i);
      assert FlushedAt(m, size, walks, segs, i);
      ClosedSnocLength(head, segs, i);
      ClosedPrefixLength(head, segs, i + 1);
    }
  }

  /** Window word `j` is known to the table and free of spaces. */
  ghost predicate KnownAt(m: Table, ws: seq<string>, j: int) {
    0 <= j < |ws| && Known(m, ws[j]) && ' ' !in ws[j]
  }

  /** Window words: known to the table and free of spaces. */
  ghost predicate KnownWords(m: Table, ws: seq<string>) {
    forall j :: 0 <= j < |ws| ==> KnownAt(m, ws, j)
  }

  /** The words of a start key are known. */
  lemma StartKnown(m: Table, start: string)
    requires start in m
    ensures KnownWords(m, Split(start))
  {
    forall j | 0 <= j < |Split(start)| ensures KnownAt(m, Split(start), j) {
      KnownPiece(m, start, Split(start)[j]);
    }
  }

  /** Sliding the window past a known successor keeps its words known. */
  lemma SlideKnown(m: Table, window: seq<string>, word: string)
    requires KnownWords(m, window) && |window| > 0
    requires Known(m, word) && ' ' !in word
    ensures KnownWords(m, window[1..] + [word])
  {
    var w := window[1..] + [word];
    forall j | 0 <= j < |w| ensures KnownAt(m, w, j) {
      if j < |w| - 1 {
        assert KnownAt(m, window, j + 1) && w[j] == window[j + 1];
      }
    }
  }

  /** Word `i` holds no space. */
  ghost predicate SpaceFreeAt(ws: seq<string>, i: int) {
    0 <= i < |ws| && ' ' !in ws[i]
  }

  /** No word holds a space. */
  ghost predicate SpaceFree(ws: seq<string>) {
    forall i :: 0 <= i < |ws| ==> SpaceFreeAt(ws, i)
  }

  /** Emitting a known window word adds no space. */
  lemma SpaceFreeEmit(m: Table, s: seq<string>, window: seq<string>)
    requires SpaceFree(s) && KnownWords(m, window) && |window| > 0
    ensures SpaceFree(s + [window[0]])
  {
    assert KnownAt(m, window, 0);
    forall i | 0 <= i < |s| + 1 ensures SpaceFreeAt(s + [window[0]], i) {
      if i < |s| {
        assert SpaceFreeAt(s, i);
      }
    }
  }

  /** A terminal flush of known window words adds no space. */
  lemma SpaceFreeFlush(m: Table, s: seq<string>, window: seq<string>, n: nat)
    requires SpaceFree(s) && KnownWords(m, window) && n <= |window| && |s| + n > 0
    ensures SpaceFree(DotLast(s + window[..n]))
  {
    var t := s + window[..n];
    var r := DotLast(t);
    forall i | 0 <= i < |r| ensures SpaceFreeAt(r, i) {
      var w := if i < |s| then s[i] else window[i - |s|];
      if i < |s| {
        assert SpaceFreeAt(s, i);
      } else {
        assert KnownAt(m, window, i - |s|);
      }
      assert t[i] == w;
      if i == |r| - 1 {
        NoSpaceDot(w);
      } else {
        assert r[i] == r[..|t| - 1][i];
      }
    }
  }

  /** Every character of `s` is a full stop. */
  ghost predicate AllDots(s: string) {
    forall j :: 0 <= j < |s| ==> s[j] == '.'
  }

  /** `w` is `base` followed by zero or more full stops. */
  ghost predicate DotExtends(w: string, base: string) {
    |base| <= |w| && w[..|base|] == base && AllDots(w[|base|..])
  }

  /** One more full stop keeps a word an extension of its base. */
  lemma DotExtendsMore(w: string, base: string)
    requires DotExtends(w, base)
    ensures DotExtends(w + ".", base)
  {
    assert (w + ".")[..|base|] == w[..|base|];
    assert (w + ".")[|base|..] == w[|base|..] + ".";
  }

  /** Every word extends itself by no full stops. */
  lemma DotExtendsSelf(w: string)
    ensures DotExtends(w, w)
  {
    assert w[..|w|] == w;
  }

  /** `words` begins with the seed: the seed's words in order, the last of
      them possibly followed by full stops. */
  ghost predicate SeedPrefix(words: seq<string>, seed: seq<string>) {
    && 0 < |seed| <= |words|
    && (forall i :: 0 <= i < |seed| - 1 ==> words[i] == seed[i])
    && DotExtends(words[|seed| - 1], seed[|seed| - 1])
  }

  /** Part way through emitting the seed's window: its first `e` words follow
      the head, and the remaining ones lead the current window. */
  ghost predicate SeedPending(head: seq<string>, seedWindow: seq<string>,
                              words: seq<string>, window: seq<string>, e: nat) {
    && e < |seedWindow| == |window|
    && words == head + seedWindow[..e]
    && (forall j :: e <= j < |seedWindow| ==> window[j - e] == seedWindow[j])
  }

  /** The seed survives a completion: its window is still being emitted, or
      the words begin with the whole seed whenever it fits the 100-word cap. */
  ghost predicate SeedKept(head: seq<string>, seedWindow: seq<string>,
                           words: seq<string>, window: seq<string>, e: nat) {
    || SeedPending(head, seedWindow, words, window, e)
    || (|head| + |seedWindow| <= 100 ==> SeedPrefix(words, head + seedWindow))
  }

  /** Longer words keep the seed in front. */
  lemma SeedPrefixAppend(words: seq<string>, seed: seq<string>, extra: seq<string>)
    requires SeedPrefix(words, seed)
    ensures SeedPrefix(words + extra, seed)
  {
    var r := words + extra;
    assert r[|seed| - 1] == words[|seed| - 1];
    forall i | 0 <= i < |seed| - 1 ensures r[i] == seed[i] {
      assert r[i] == words[i];
    }
  }

  /** A full stop on the last word keeps the seed in front. */
  lemma SeedPrefixDotLast(words: seq<string>, seed: seq<string>)
    requires SeedPrefix(words, seed)
    ensures SeedPrefix(DotLast(words), seed)
  {
    var r := DotLast(words);
    var k := |seed| - 1;
    if k < |words| - 1 {
      assert r[k] == r[..|words| - 1][k];
    } else {
      DotExtendsMore(words[k], seed[k]);
    }
    forall i | 0 <= i < k ensures r[i] == seed[i] {
      assert r[i] == r[..|words| - 1][i];
    }
  }

  /** A completion starts with the seed's head and window. */
  lemma SeedStart(head: seq<string>, seedWindow: seq<string>)
    requires |head| > 0 || |seedWindow| > 0
    ensures SeedKept(head, seedWindow, head, seedWindow, 0)
  {
    if |seedWindow| == 0 {
      assert head + seedWindow == head;
      DotExtendsSelf(head[|head| - 1]);
    } else {
      assert head + seedWindow[..0] == head;
    }
  }

  /** Emitting the oldest window word keeps the seed; `e'` counts the seed's
      window words emitted so far. */
  lemma SeedEmit(head: seq<string>, seedWindow: seq<string>, words: seq<string>,
                 window: seq<string>, e: nat, word: string) returns (e': nat)
    requires SeedKept(head, seedWindow, words, window, e) && |window| > 0
    ensures SeedKept(head, seedWindow, words + [window[0]], window[1..] + [word], e')
  {
    var seed := head + seedWindow;
    if SeedPending(head, seedWindow, words, window, e) {
      var r := words + [window[0]];
      assert window[0] == seedWindow[e];
      assert r == head + seedWindow[..e + 1];
      if e + 1 == |seedWindow| {
        assert r == seed;
        DotExtendsSelf(seed[|seed| - 1]);
        e' := |seedWindow|;
      } else {
        var w := window[1..] + [word];
        forall j | e + 1 <= j < |seedWindow| ensures w[j - (e + 1)] == seedWindow[j] {
          assert w[j - (e + 1)] == window[j - e];
        }
        e' := e + 1;
      }
    } else {
      if |seed| <= 100 {
        SeedPrefixAppend(words, seed, [window[0]]);
      }
      e' := e;
    }
  }

  /** A terminal flush capped at 100 words keeps the seed in front when the
      seed fits the cap: while the seed's window is being emitted, the flush
      pushes at least the rest of it. */
  lemma SeedFlush(head: seq<string>, seedWindow: seq<string>, words: seq<string>,
                  window: seq<string>, e: nat, size: nat)
    requires SeedKept(head, seedWindow, words, window, e) && |window| == size
    requires |words| > 0 || size > 0
    ensures |head| + |seedWindow| <= 100 ==>
      SeedPrefix(DotLast(words + window[..FlushCount(|words|, size, 100)]), head + seedWindow)
  {
    var seed := head + seedWindow;
    var pushed := words + window[..FlushCount(|words|, size, 100)];
    if |seed| <= 100 {
      if SeedPending(head, seedWindow, words, window, e) {
        var k := |seed| - 1;
        assert |pushed| >= |seed|;
        forall i | 0 <= i < |seed| ensures pushed[i] == seed[i] {
          if i >= |words| {
            assert pushed[i] == window[i - |words|] == window[(i - |head|) - e];
          }
        }
        DotExtendsSelf(seed[k]);
      } else {
        SeedPrefixAppend(words, seed, window[..FlushCount(|words|, size, 100)]);
      }
      SeedPrefixDotLast(pushed, seed);
    }
  }

  /** The state of the generation loop: a non-empty word vector without
      spaces, a window of `size` known words closing the walk in progress,
      and the generation so far; a last flush cut short means the requested
      length has been reached. */
  ghost predicate Generating(m: Table, size: nat, length: nat, sentence: seq<string>,
                             current: seq<string>, done: seq<seq<string>>, path: seq<string>,
                             segs: seq<seq<string>>) {
    && 0 < |sentence|
    && |current| == size <= |path| && current == path[|path| - size..]
    && KnownWords(m, current) && SpaceFree(sentence)
    && |done| == |segs| && Generation(m, size, sentence, done + [path], segs)
    && (|segs| > 0 && |segs[|segs| - 1]| < |done[|segs| - 1]| ==> length <= |sentence|)
  }

  /** The generation loop starts with the empty string and a fresh walk. */
  lemma GeneratingStart(m: Table, size: nat, length: nat, restart: seq<string>)
    requires StartPath(m, size, restart) && KnownWords(m, restart)
    ensures Generating(m, size, length, [""], restart, [], restart, [])
  {
    GenerationStart(m, size, restart);
    assert [] + [restart] == [restart];
    assert restart[|restart| - size..] == restart;
  }

  /** A step of the generation loop past a successor of the window. */
  lemma GeneratingEmit(m: Table, size: nat, length: nat, sentence: seq<string>,
                       current: seq<string>, done: seq<seq<string>>, path: seq<string>,
                       segs: seq<seq<string>>, word: string)
    requires Generating(m, size, length, sentence, current, done, path, segs) && size > 0
    requires |sentence| < length && Join(current) in m && word in m[Join(current)]
    requires Known(m, word) && ' ' !in word
    ensures Generating(m, size, length, sentence + [current[0]], current[1..] + [word],
                       done, path + [word], segs)
  {
    if |segs| > 0 {
      assert (done + [path])[|segs| - 1] == done[|segs| - 1];
      FlushedWhole(m, size, done + [path], segs, |segs| - 1);
    }
    GenerationEmit(m, size, sentence, done, path, segs, current, word);
    SpaceFreeEmit(m, sentence, current);
    SlideKnown(m, current, word);
  }

  /** A step of the generation loop that flushes a window with no key and
      starts a fresh walk. */
  lemma GeneratingFlush(m: Table, size: nat, length: nat, sentence: seq<string>,
                        current: seq<string>, done: seq<seq<string>>, path: seq<string>,
                        segs: seq<seq<string>>, restart: seq<string>, flushed: seq<string>)
    returns (done': seq<seq<string>>, segs': seq<seq<string>>)
    requires Generating(m, size, length, sentence, current, done, path, segs) && size > 0
    requires |sentence| < length && Join(current) !in m
    requires StartPath(m, size, restart) && KnownWords(m, restart)
    requires flushed == DotLast(sentence + current[..FlushCount(|sentence|, size, length)])
    ensures done' == done + [path]
    ensures segs' == segs + [path[..|path| - size + FlushCount(|sentence|, size, length)]]
    ensures Generating(m, size, length, flushed, restart, done', restart, segs')
  {
    var n := FlushCount(|sentence|, size, length);
    if |segs| > 0 {
      assert (done + [path])[|segs| - 1] == done[|segs| - 1];
      FlushedWhole(m, size, done + [path], segs, |segs| - 1);
    }
    var walks';
    walks', segs' := GenerationFlush(m, size, sentence, done, path, segs, current, length, restart, flushed);
    done' := done + [path];
    SpaceFreeFlush(m, sentence, current, n);
    assert restart[|restart| - size..] == restart;
  }

  /** The state of the completion loop: a window of `size` words closing the
      walk in progress, the completion so far, and the seed still in front
      of the sentence or in the window. */
  ghost predicate Continuing(m: Table, size: nat, head: seq<string>, seedWindow: seq<string>,
                             words: seq<string>, window: seq<string>, finished: seq<seq<string>>,
                             path: seq<string>, segs: seq<seq<string>>, e: nat) {
    && |window| == size <= |path| && window == path[|path| - size..]
    && |finished| == |segs|
    && Completing(m, size, head, seedWindow, words, finished + [path], segs)
    && SeedKept(head, seedWindow, words, window, e)
    && (|words| > 0 || size > 0)
  }

  /** The completion loop starts with the head in front and the seed's window. */
  lemma ContinuingStart(m: Table, head: seq<string>, seedWindow: seq<string>)
    requires |head| > 0 || |seedWindow| > 0
    ensures Continuing(m, |seedWindow|, head, seedWindow, head, seedWindow, [], seedWindow, [], 0)
  {
    SeedStart(head, seedWindow);
    CompletingStart(m, head, seedWindow);
    assert [] + [seedWindow] == [seedWindow];
    assert seedWindow[|seedWindow| - |seedWindow|..] == seedWindow;
  }

  /** A step of the completion loop past a successor of the window. */
  lemma ContinuingEmit(m: Table, size: nat, head: seq<string>, seedWindow: seq<string>,
                       words: seq<string>, window: seq<string>, finished: seq<seq<string>>,
                       path: seq<string>, segs: seq<seq<string>>, e: nat, word: string)
    returns (e': nat)
    requires Continuing(m, size, head, seedWindow, words, window, finished, path, segs, e) && size > 0
    requires Join(window) in m && word in m[Join(window)]
    ensures Continuing(m, size, head, seedWindow, words + [window[0]], window[1..] + [word],
                       finished, path + [word], segs, e')
  {
    CompletingEmit(m, size, head, seedWindow, words, finished, path, segs, window, word);
    e' := SeedEmit(head, seedWindow, words, window, e, word);
  }

  /** A flush of a window with no key finishes the completion, with the seed
      still in front when it fits in 100 words. */
  lemma ContinuingFlush(m: Table, size: nat, head: seq<string>, seedWindow: seq<string>,
                        words: seq<string>, window: seq<string>, finished: seq<seq<string>>,
                        path: seq<string>, segs: seq<seq<string>>, e: nat, flushed: seq<string>)
    returns (walks: seq<seq<string>>, segs': seq<seq<string>>)
    requires Continuing(m, size, head, seedWindow, words, window, finished, path, segs, e)
    requires Join(window) !in m
    requires flushed == DotLast(words + window[..FlushCount(|words|, size, 100)])
    ensures walks == finished + [path]
    ensures segs' == segs + [path[..|path| - size + FlushCount(|words|, size, 100)]]
    ensures Completion(m, size, head, seedWindow, flushed, walks, segs')
    ensures |head| + |seedWindow| <= 100 ==> SeedPrefix(flushed, head + seedWindow)
  {
    walks := finished + [path];
    SeedFlush(head, seedWindow, words, window, e, size);
    segs' := CompletingFlush(m, size, head, seedWindow, words, finished, path, segs, window, flushed);
  }

  /** A finished completion that is still short goes on with a fresh walk. */
  lemma ContinuingRestart(m: Table, size: nat, head: seq<string>, seedWindow: seq<string>,
                          words: seq<string>, walks: seq<seq<string>>, segs: seq<seq<string>>,
                          restart: seq<string>)
    requires Completion(m, size, head, seedWindow, words, walks, segs) && |words| > 0
    requires |head| + |seedWindow| <= 100 ==> SeedPrefix(words, head + seedWindow)
    requires StartPath(m, size, restart)
    ensures Continuing(m, size, head, seedWindow, words, restart, walks, restart, segs, |seedWindow|)
  {
    CompletionRestart(m, size, head, seedWindow, words, walks, segs, restart);
    assert restart[|restart| - size..] == restart;
  }
  /** Every flush pushes its whole segment: the closed sentence is at least
      as long as its front and any one segment together. */
  lemma {:induction false} ClosedLength(front: seq<string>, segs: seq<seq<string>>, i: nat)
    requires i < |segs|
    ensures |Closed(front, segs) | >= |front| + |segs[i]|
    decreases |segs|
  {
    var k := |segs| - 1;
    var prev := segs[..k];
    if i < k {
      assert prev[i] == segs[i];
      ClosedLength(front, prev, i);
    } else if k > 0 {
      ClosedLength(front, prev, 0);
    }
  }

  /** One more flush adds exactly its segment's words: the full stop
      changes no count. */
  lemma ClosedSnocLength(front: seq<string>, segs: seq<seq<string>>, k: nat)
    requires k < |segs|
    ensures |Closed(front, segs[..k + 1])| == |Closed(front, segs[..k])| + |segs[k]|
  {
    assert segs[..k + 1][..k] == segs[..k];
  }

  /** The sentence only grows with more flushes. */
  lemma {:induction false} ClosedPrefixLength(front: seq<string>, segs: seq<seq<string>>, k: nat)
    requires k <= |segs|
    ensures |Closed(front, segs[..k])| <= |Closed(front, segs)|
    decreases |segs| - k
  {
    if k < |segs| {
      ClosedSnocLength(front, segs, k);
      ClosedPrefixLength(front, segs, k + 1);
    } else {
      assert segs[..k] == segs;
    }
  }

  /** The table trained on "The cat sat." and "The dog ran." with windows
      of one word. */
  const Example: Table := map["The" := ["cat", "dog"], "cat" := ["sat."], "dog" := ["ran."]]

  /** In a walk of the example table every word but the last has a key. */
  lemma ExampleStep(path: seq<string>, p: nat)
    requires Walk(Example, 1, path) && 1 <= p < |path|
    ensures path[p - 1] in Example && path[p] in Example[path[p - 1]]
  {
    assert StepAt(Example, 1, path, p);
    assert Join(path[p - 1..p]) == path[p - 1];
  }

  /** In the example table a walk from "The" that ends at a window with no
      key has three words: "The", "cat" or "dog", then "sat." or "ran.". */
  lemma ExampleStuckWalk(path: seq<string>)
    requires Walk(Example, 1, path) && Stuck(Example, 1, path) && path[0] == "The"
    ensures |path| == 3
  {
    assert Join(path[|path| - 1..]) == path[|path| - 1];
    if |path| >= 2 {
      ExampleStep(path, 1);
    }
    if |path| >= 3 {
      ExampleStep(path, 2);
    }
    if |path| >= 4 {
      ExampleStep(path, 3);
    }
  }

  /** A walk of the example table from a start state begins with "The". */
  lemma ExampleStart(path: seq<string>)
    requires FromStart(Example, 1, path)
    ensures path[0] == "The"
  {
    ExampleStarts();
    assert Join(path[..1]) == path[0];
  }

  /** A generation on the example table with at most three entries has not
      flushed: every flush leaves a whole stuck walk of three words, or a
      cut-short one that pushed its last window word. */
  lemma ExampleGenerationShort(words: seq<string>, walks: seq<seq<string>>, segs: seq<seq<string>>)
    requires Generation(Example, 1, words, walks, segs) && |words| <= 3
    ensures |segs| == 0
  {
    if |segs| > 0 {
      var k := |segs| - 1;
      assert FlushedAt(Example, 1, walks, segs, k);
      assert StartWalkAt(Example, 1, walks, k);
      assert segs[k] == walks[k];
      ExampleStart(walks[k]);
      ExampleStuckWalk(walks[k]);
      ClosedLength([""], segs, k);
    }
  }

  /** The generations of three entries on the example table are exactly
      the two walks "The cat" and "The dog": no flush fits in them, and only
      "cat" and "dog" follow "The". */
  lemma ExampleGeneration(words: seq<string>, walks: seq<seq<string>>, segs: seq<seq<string>>)
    requires Generation(Example, 1, words, walks, segs) && |words| == 3
    ensures words == ["", "The", "cat"] || words == ["", "The", "dog"]
  {
    ExampleGenerationShort(words, walks, segs);
    assert StartWalkAt(Example, 1, walks, 0);
    var path := walks[0];
    ExampleStart(path);
    assert Closed([""], segs) == [""];
    assert Emitted(path, 1) == words[1..];
    assert StepAt(Example, 1, path, 1);
    assert Join(path[0..1]) == "The";
  }

  /** A completion of "The" on the example table holds at least three
      words: it stops only at a flush, which leaves a whole walk of three
      words while the sentence is below 100 words. */
  lemma ExampleCompletion(words: seq<string>, walks: seq<seq<string>>, segs: seq<seq<string>>)
    requires Completion(Example, 1, [], ["The"], words, walks, segs) && |words| < 100
    ensures |words| >= 3
  {
    CompletionWhole(Example, 1, [], ["The"], words, walks, segs);
    assert FlushedAt(Example, 1, walks, segs, 0);
    assert WholeAt(walks, segs, 0);
    assert walks[0][0] == walks[0][..1][0] == "The";
    ExampleStuckWalk(walks[0]);
    ClosedLength([], segs, 0);
  }

  /** A completion of "The" on the example table that stops at the first
      flush leaving `minLen` words, for `minLen` at most 3, is one whole
      walk with a full stop added: "The cat sat.." or "The dog ran..". */
  lemma ExampleCompletesOnce(words: seq<string>, walks: seq<seq<string>>, segs: seq<seq<string>>, minLen: nat)
    requires Completion(Example, 1, [], ["The"], words, walks, segs)
    requires Short([], segs[..|segs| - 1], minLen) && minLen <= 3
    ensures words == ["The", "cat", "sat.."] || words == ["The", "dog", "ran.."]
  {
    var w := walks[0];
    assert FlushedAt(Example, 1, walks, segs, 0);
    assert w[0] == w[..1][0] == "The";
    ExampleStuckWalk(w);
    ExampleStep(w, 1);
    ExampleStep(w, 2);
    assert CappedAt(1, [], walks, segs, 0);
    assert segs[..0] == [];
    assert segs[0] == w;
    assert segs[..1] == [w];
    if |segs| >= 2 {
      ShortFirst([], segs, |segs| - 1, minLen);
    }
    assert segs == [w];
    assert [] + w == w && Closed([], segs[..0]) == [];
    assert words == DotLast(w);
    assert w == ["The", w[1], w[2]];
    assert words == ["The", w[1], w[2] + "."];
    if w[1] == "cat" {
      assert w[2] == "sat." && "sat." + "." == "sat..";
    } else {
      assert w[1] == "dog" && w[2] == "ran." && "ran." + "." == "ran..";
    }
  }
}
