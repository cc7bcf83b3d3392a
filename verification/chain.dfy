/** The Markov chain: its table and window size, training, and the random
    walks that generate and complete sentences. A random draw is a
    nondeterministic choice of a valid index. */
module Markov {
  import opened Text
  import opened Transitions
  import opened Walks

  datatype Option<T> = None | Some(value: T)

  /** The terminal flush shared by generation (capped by the requested length)
      and completion (capped at 100 words): push window words while both
      bounds allow, then put a full stop on the last word of the sentence. */
  method FlushWindow(sentence: seq<string>, window: seq<string>, size: nat, cap: nat)
    returns (r: seq<string>)
    requires size <= |window|
    requires |sentence| > 0 || (size > 0 && cap > 0)
    ensures |r| == |sentence| + FlushCount(|sentence|, size, cap) > 0
    ensures r == DotLast(sentence + window[..FlushCount(|sentence|, size, cap)])
    ensures EndsSentence(r)
  {
    r := sentence;
    var i := 0;
    while i < size && |r| < cap
      invariant i <= FlushCount(|sentence|, size, cap)
      invariant r == sentence + window[..i]
    {
      r := r + [window[i]];
      i := i + 1;
    }
    DotLastEnds(r);
    var last := r[|r| - 1];
    r := r[..|r| - 1] + [last + "."];
  }

  /** Builds the key of the window of `size` words at `index`, word by word. */
  method StateKey(words: seq<string>, index: nat, size: nat) returns (state: string)
    requires index + size <= |words|
    ensures state == WindowKey(words, size, index)
  {
    state := "";
    for i := 0 to size
      invariant state == Join(words[index..index + i])
    {
      if i == 0 {
        assert words[index..index + 1] == [words[index]];
        state := state + words[index];
      } else {
        assert words[index..index + i + 1] == words[index..index + i] + [words[index + i]];
        JoinSnoc(words[index..index + i], words[index + i]);
        state := state + " " + words[index + i];
      }
    }
  }

  /** Records every window of one tokenised sentence: the key of the
      `size` words at each index, followed by the word after them. The walk
      stops at the first index with no word after its window. */
  method TrainWords(table: Table, words: seq<string>, size: nat) returns (r: Table)
    ensures r == TrainSentence(table, words, size)
  {
    r := table;
    var index := 0;
    while index < |words|
      invariant index <= Windows(|words|, size)
      invariant r == TrainPrefix(table, words, size, index)
    {
      if index + size >= |words| {
        break;
      }
      var next := words[index + size];
      var state := StateKey(words, index, size);
      TrainPrefixNext(table, words, size, index);
      if state in r {
        var transitions := r[state] + [next];
        r := r[state := transitions];
      } else {
        r := r[state := [next]];
      }
      index := index + 1;
    }
  }

  /** Pops the last `size` pieces of a split seed off into the window; the
      pieces before them stay in front. */
  method SplitSeed(pieces: seq<string>, size: nat) returns (head: seq<string>, window: seq<string>)
    requires size <= |pieces|
    ensures head + window == pieces && |window| == size
    ensures head == pieces[..|pieces| - size] && window == pieces[|pieces| - size..]
  {
    window := pieces[|pieces| - size..];
    head := pieces;
    for i := 0 to size
      invariant head == pieces[..|pieces| - i]
    {
      head := head[..|head| - 1];
    }
  }

  class MarkovChain {
    /** Each state key mapped to its observed successors. */
    var stateMap: Table
    /** The number of words in a state; 0 until the first training. */
    var stateSize: nat

    constructor ()
      ensures stateMap == map[] && stateSize == 0
    {
      stateMap := map[];
      stateSize := 0;
    }

    /** Records every window of every sentence; `size` replaces the window
        size whatever it was before. */
    method Train(data: seq<string>, size: nat)
      modifies this
      ensures stateSize == size
      ensures stateMap == TrainAll(old(stateMap), data, size)
    {
      stateSize := size;
      var table := stateMap;
      var s := 0;
      while s < |data|
        invariant s <= |data|
        invariant stateSize == size && stateMap == old(stateMap)
        invariant table == TrainAll(old(stateMap), data[..s], size)
      {
        var words := SplitWhitespace(data[s]);
        table := TrainWords(table, words, size);
        assert data[..s + 1][..s] == data[..s];
        s := s + 1;
      }
      assert data[..s] == data;
      stateMap := table;
    }

    /** Picks a key that starts with an upper-case letter. */
    method GetSentenceStartState() returns (state: string)
      requires forall key :: key in stateMap ==> key != ""
      requires StartKeys(stateMap) != {}
      ensures state in StartKeys(stateMap)
      ensures state in stateMap && IsUpper(state[0])
    {
      var starts := StartKeys(stateMap);
      state :| state in starts;
    }

    /** Looks up the state's key and picks one of its successors. */
    method GetNextState(state: seq<string>) returns (next: Option<string>)
      requires Join(state) in stateMap ==> |stateMap[Join(state)]| > 0
      ensures next.None? <==> Join(state) !in stateMap
      ensures next.Some? ==> next.value in stateMap[Join(state)]
    {
      var key := Join(state);
      if key in stateMap {
        var transitions := stateMap[key];
        var i :| 0 <= i < |transitions|;
        next := Some(transitions[i]);
      } else {
        next := None;
      }
    }

    /** A random walk from a start state until the word vector, which begins
        with one empty string, holds `length` entries; `words` is that vector
        and `text` its join. `walks` are the walks taken, the last of them
        still in progress, and `segs` the segments their flushes left. */
    method Generate(length: nat)
      returns (text: string, words: seq<string>, ghost walks: seq<seq<string>>, ghost segs: seq<seq<string>>)
      requires stateSize > 0 ==> WellFormed(stateMap, stateSize) && StartKeys(stateMap) != {}
      ensures stateSize == 0 ==> text == "" && words == []
      ensures stateSize > 0 ==>
        && |words| == (if length < 1 then 1 else length)
        && Generation(stateMap, stateSize, words, walks, segs)
        && text == Join(words)
        && Split(text) == words
    {
      walks, segs := [], [];
      if stateSize == 0 {
        return "", [], walks, segs;
      }
      WellFormedKeys(stateMap, stateSize);
      var sentence := [""];
      var start := GetSentenceStartState();
      var current := Split(start);
      ghost var done: seq<seq<string>> := [];
      ghost var path := current;
      StartWalk(stateMap, stateSize, start);
      StartKnown(stateMap, start);
      GeneratingStart(stateMap, stateSize, length, current);
      while |sentence| < length
        invariant |sentence| <= (if length < 1 then 1 else length)
        invariant Generating(stateMap, stateSize, length, sentence, current, done, path, segs)
        decreases length - |sentence|
      {
        var next := GetNextState(current);
        match next {
          case Some(word) =>
            SuccessorIsWord(stateMap, stateSize, Join(current), word);
            GeneratingEmit(stateMap, stateSize, length, sentence, current, done, path, segs, word);
            sentence := sentence + [current[0]];
            current := current[1..] + [word];
            path := path + [word];
          case None =>
            var flushed := FlushWindow(sentence, current, stateSize, length);
            start := GetSentenceStartState();
            StartWalk(stateMap, stateSize, start);
            StartKnown(stateMap, start);
            done, segs := GeneratingFlush(stateMap, stateSize, length, sentence, current, done, path, segs,
                                          Split(start), flushed);
            sentence := flushed;
            current := Split(start);
            path := current;
        }
      }
      words, walks := sentence, done + [path];
      text := Join(sentence);
      assert forall i :: 0 <= i < |sentence| ==> ' ' !in sentence[i] by {
        forall i | 0 <= i < |sentence| ensures ' ' !in sentence[i] {
          assert SpaceFreeAt(sentence, i);
        }
      }
      SplitJoin(sentence);
    }

    /** Continues `seed`: the seed's last `stateSize` space-separated pieces
        become the window, the pieces before them stay in front, and the walk
        ends at the first terminal flush that leaves at least `minLen` words.
        At most `fuel` steps are taken; `None` means they ran out. `walks`
        are the walks taken, the first from the seed's window, and `segs`
        the segments their flushes left. */
    method Complete(seed: string, minLen: nat, fuel: nat)
      returns (text: Option<string>, words: seq<string>, ghost walks: seq<seq<string>>, ghost segs: seq<seq<string>>)
      requires WellFormed(stateMap, stateSize)
      requires stateSize > 0 ==> StartKeys(stateMap) != {}
      requires stateSize == 0 ==> minLen <= |Split(seed)|
      ensures stateSize > |Split(seed)| ==> text == Some("") && words == []
      ensures text.None? ==> stateSize <= |Split(seed)|
      ensures stateSize == 0 && fuel > 0 ==> text == Some(seed + ".")
      ensures var pieces := Split(seed);
        stateSize <= |pieces| && text.Some? ==>
          && text.value == Join(words)
          && minLen <= |words|
          && EndsSentence(words)
          && Completion(stateMap, stateSize, pieces[..|pieces| - stateSize], pieces[|pieces| - stateSize..],
                        words, walks, segs)
          && Short(pieces[..|pieces| - stateSize], segs[..|segs| - 1], minLen)
          && (stateSize < |pieces| ==> SeedPrefix(words, pieces[..|pieces| - stateSize]))
          && (|pieces| <= 100 ==> SeedPrefix(words, pieces))
    {
      walks, segs := [], [];
      var pieces := Split(seed);
      if stateSize > |pieces| {
        return Some(""), [], walks, segs;
      }
      var head, current := SplitSeed(pieces, stateSize);
      if stateSize == 0 {
        WellFormedZero(stateMap);
      }
      var done;
      done, words, walks, segs := CompleteWalk(head, current, minLen, fuel);
      if done {
        assert head == pieces[..|pieces| - stateSize] && current == pieces[|pieces| - stateSize..];
        assert Completion(stateMap, stateSize, pieces[..|pieces| - stateSize], pieces[|pieces| - stateSize..],
                          words, walks, segs);
        if stateSize == 0 && fuel > 0 {
          assert head == pieces;
          JoinDotLast(pieces);
          JoinSplit(seed);
        }
        if stateSize < |pieces| {
          ClosedFront(head, segs);
        }
        text := Some(Join(words));
      } else {
        text := None;
      }
    }

    /** The walk of a completion: `sentence` holds the words in front and
        `current` the window. Each step emits the window's oldest word; a
        window without successors is flushed (at most 100 words) and the walk
        stops when the sentence then holds `minLen` words, or else restarts
        from a start state. `done` is false when `fuel` steps ran out. */
    method CompleteWalk(sentence: seq<string>, current: seq<string>, minLen: nat, fuel: nat)
      returns (done: bool, words: seq<string>, ghost walks: seq<seq<string>>, ghost segs: seq<seq<string>>)
      requires WellFormed(stateMap, stateSize)
      requires stateSize > 0 ==> StartKeys(stateMap) != {}
      requires |current| == stateSize
      requires |sentence| > 0 || stateSize > 0
      requires stateSize == 0 ==> stateMap == map[] && minLen <= |sentence|
      ensures done ==> minLen <= |words| && EndsSentence(words)
                       && Completion(stateMap, stateSize, sentence, current, words, walks, segs)
                       && Short(sentence, segs[..|segs| - 1], minLen)
      ensures done && |sentence| + |current| <= 100 ==> SeedPrefix(words, sentence + current)
      ensures stateSize == 0 && fuel > 0 ==> done && words == DotLast(sentence)
    {
      words := sentence;
      var window := current;
      var steps := 0;
      ghost var e: nat := 0;
      ghost var finished: seq<seq<string>> := [];
      ghost var path := current;
      segs := [];
      WellFormedKeys(stateMap, stateSize);
      ContinuingStart(stateMap, sentence, current);
      while steps < fuel
        invariant Continuing(stateMap, stateSize, sentence, current, words, window, finished, path, segs, e)
        invariant stateSize == 0 ==> steps == 0 && words == sentence
        invariant Short(sentence, segs, minLen)
      {
        var next := GetNextState(window);
        match next {
          case Some(word) =>
            e := ContinuingEmit(stateMap, stateSize, sentence, current, words, window, finished, path, segs, e, word);
            words := words + [window[0]];
            window := window[1..] + [word];
            path := path + [word];
          case None =>
            var flushed := FlushWindow(words, window, stateSize, 100);
            ghost var prior := segs;
            finished, segs := ContinuingFlush(stateMap, stateSize, sentence, current, words, window,
                                              finished, path, segs, e, flushed);
            words := flushed;
            if |words| >= minLen {
              assert segs[..|segs| - 1] == prior;
              if stateSize == 0 {
                assert sentence + window[..0] == sentence;
              }
              return true, words, finished, segs;
            }
            ShortSnoc(sentence, prior, segs[|segs| - 1], minLen);
            var start := GetSentenceStartState();
            StartWalk(stateMap, stateSize, start);
            ContinuingRestart(stateMap, stateSize, sentence, current, words, finished, segs, Split(start));
            window := Split(start);
            path := window;
            e := |current|;
        }
        steps := steps + 1;
      }
      done, walks := false, finished + [path];
    }
  }
}
