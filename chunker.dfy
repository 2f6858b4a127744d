/**
 * `chunk_text` (vectorstorage.py): the text's words, taken in order, are
 * buffered and flushed as one space-joined chunk whenever the buffer holds
 * `max_tokens` words; a non-empty remainder becomes the last chunk.
 */
module Chunker {
  import opened PyStr

  /** The default of `max_tokens`, which `build_faiss_index` relies on. */
  const DefaultMaxTokens := 300

  /**
   * The buffer size at which a flush happens. The test is
   * `len(chunk) >= max_tokens` right after an append, so any
   * `max_tokens <= 1` flushes after every word.
   */
  function Width(maxTokens: int): nat {
    if maxTokens < 1 then 1 else maxTokens
  }

  /** Consecutive runs of `w` elements, the last one possibly shorter. */
  function Group<T>(xs: seq<T>, w: nat): (gs: seq<seq<T>>)
    requires w >= 1
    decreases |xs|
  {
    if xs == [] then []
    else if |xs| <= w then [xs]
    else [xs[..w]] + Group(xs[w..], w)
  }

  /** The concatenation of all the sequences in `xss`, in order. */
  function Flatten<T>(xss: seq<seq<T>>): (xs: seq<T>) {
    if xss == [] then [] else xss[0] + Flatten(xss[1..])
  }

  /** `" ".join(g)` for every group `g`. */
  function JoinEach(gs: seq<seq<string>>): seq<string> {
    seq(|gs|, i requires 0 <= i < |gs| => Join(" ", gs[i]))
  }

  /** `w.split()` for every string `w`. */
  function WordsEach(cs: seq<string>): seq<seq<string>> {
    seq(|cs|, i requires 0 <= i < |cs| => Words(cs[i]))
  }

  /**
   * What `chunk_text(text, maxTokens)` returns: no chunk exactly when the
   * text has no words, and never more chunks than words.
   */
  function Chunks(text: string, maxTokens: int): (r: seq<string>)
    ensures r == [] <==> Words(text) == []
    ensures |r| <= |Words(text)|
  {
    GroupCount(Words(text), Width(maxTokens));
    GroupNoLonger(Words(text), Width(maxTokens));
    JoinEach(Group(Words(text), Width(maxTokens)))
  }

  /** `chunk_text`: the loop with its buffer, proved to return `Chunks`. */
  method ChunkText(text: string, maxTokens: int) returns (chunks: seq<string>)
    ensures chunks == Chunks(text, maxTokens)
  {
    var words := Words(text);
    ghost var w := Width(maxTokens);
    ghost var flushed: seq<seq<string>> := [];
    ghost var start := 0;
    var chunk: seq<string> := [];
    chunks := [];
    for i := 0 to |words|
      invariant start <= i && chunk == words[start..i] && |chunk| < w
      invariant chunks == JoinEach(flushed)
      invariant flushed + Group(words[start..], w) == Group(words, w)
    {
      chunk := chunk + [words[i]];
      assert chunk == words[start..i + 1];
      if |chunk| >= maxTokens {
        FlushKeepsGroups(words, flushed, start, i + 1, w);
        JoinEachAppend(flushed, chunk);
        chunks := chunks + [Join(" ", chunk)];
        flushed := flushed + [chunk];
        chunk := [];
        start := i + 1;
      }
    }
    LastGroup(words, flushed, start, w);
    assert chunk == words[start..];
    if chunk != [] {
      JoinEachAppend(flushed, chunk);
      chunks := chunks + [Join(" ", chunk)];
      flushed := flushed + [chunk];
    }
    assert flushed == Group(words, w);
  }

  /** Flushing a full buffer `xs[start..end]` moves it from the pending groups to the emitted ones. */
  lemma FlushKeepsGroups<T>(xs: seq<T>, done: seq<seq<T>>, start: nat, end: nat, w: nat)
    requires w >= 1 && start + w == end <= |xs|
    requires done + Group(xs[start..], w) == Group(xs, w)
    ensures (done + [xs[start..end]]) + Group(xs[end..], w) == Group(xs, w)
  {
    GroupFirst(xs, start, end, w);
  }

  /** After the last word, a buffer shorter than `w` is the one remaining group, if it is not empty. */
  lemma LastGroup<T>(xs: seq<T>, done: seq<seq<T>>, start: nat, w: nat)
    requires w >= 1 && start <= |xs| && |xs| - start < w
    requires done + Group(xs[start..], w) == Group(xs, w)
    ensures Group(xs, w) == if start == |xs| then done else done + [xs[start..]]
  {
    if start == |xs| {
      assert done + [] == done;
    }
  }

  /** A full buffer `xs[start..end]` is exactly the first group of `xs[start..]`. */
  lemma GroupFirst<T>(xs: seq<T>, start: nat, end: nat, w: nat)
    requires w >= 1 && start + w == end <= |xs|
    ensures Group(xs[start..], w) == [xs[start..end]] + Group(xs[end..], w)
  {
    var remaining := xs[start..];
    if |remaining| == w {
      assert remaining == xs[start..end] && xs[end..] == [];
    } else {
      assert remaining[..w] == xs[start..end] && remaining[w..] == xs[end..];
    }
  }

  lemma JoinEachAppend(gs: seq<seq<string>>, g: seq<string>)
    ensures JoinEach(gs + [g]) == JoinEach(gs) + [Join(" ", g)]
  {
  }

  // ---------------------------------------------------------------------
  // The grouping

  /** Grouping loses, duplicates and reorders nothing. */
  lemma {:induction false} GroupFlatten<T>(xs: seq<T>, w: nat)
    requires w >= 1
    ensures Flatten(Group(xs, w)) == xs
    decreases |xs|
  {
    if xs != [] && |xs| > w {
      GroupFlatten(xs[w..], w);
      assert ([xs[..w]] + Group(xs[w..], w))[1..] == Group(xs[w..], w);
      assert xs == xs[..w] + xs[w..];
    } else if xs != [] {
      assert Flatten([xs]) == xs + Flatten([]);
    }
  }

  /** Every group is non-empty with at most `w` elements, and every group but the last has exactly `w`. */
  lemma {:induction false} GroupSizes<T>(xs: seq<T>, w: nat)
    requires w >= 1
    ensures forall i :: 0 <= i < |Group(xs, w)| ==> 1 <= |Group(xs, w)[i]| <= w
    ensures forall i :: 0 <= i < |Group(xs, w)| - 1 ==> |Group(xs, w)[i]| == w
    decreases |xs|
  {
    if xs != [] && |xs| > w {
      GroupSizes(xs[w..], w);
      var gs := Group(xs, w);
      assert gs == [xs[..w]] + Group(xs[w..], w);
      forall i | 1 <= i < |gs| ensures gs[i] == Group(xs[w..], w)[i - 1] { }
    }
  }

  /** There are ⌈n / w⌉ groups of n > 0 elements, that is the least count whose `w`-fold covers n, and none of no elements. */
  lemma {:induction false} GroupCount<T>(xs: seq<T>, w: nat)
    requires w >= 1
    ensures xs == [] <==> Group(xs, w) == []
    ensures xs != [] ==> (|Group(xs, w)| - 1) * w < |xs| <= |Group(xs, w)| * w
    decreases |xs|
  {
    if |xs| > w {
      var k := |Group(xs[w..], w)|;
      GroupCount(xs[w..], w);
      assert |Group(xs, w)| == k + 1;
      assert (k + 1) * w == k * w + w;
    }
  }

  // ---------------------------------------------------------------------
  // Properties of chunk_text

  /** Every group of words handed to `" ".join` consists of words. */
  lemma GroupedWords(text: string, w: nat, i: nat)
    requires w >= 1 && i < |Group(Words(text), w)|
    ensures forall j :: 0 <= j < |Group(Words(text), w)[i]| ==> IsWord(Group(Words(text), w)[i][j])
  {
    var g := Group(Words(text), w)[i];
    WordsAreWords(text);
    GroupMembers(Words(text), w, i);
    forall j | 0 <= j < |g| ensures IsWord(g[j]) {
      assert g[j] in Words(text);
      var k :| 0 <= k < |Words(text)| && Words(text)[k] == g[j];
    }
  }

  /** Every group holds at least one element, so there are no more groups than elements. */
  lemma {:induction false} GroupNoLonger<T>(xs: seq<T>, w: nat)
    requires w >= 1
    ensures |Group(xs, w)| <= |xs|
    decreases |xs|
  {
    if |xs| > w {
      GroupNoLonger(xs[w..], w);
    }
  }

  /** Every element of a group is an element of the grouped sequence. */
  lemma {:induction false} GroupMembers<T>(xs: seq<T>, w: nat, i: nat)
    requires w >= 1 && i < |Group(xs, w)|
    ensures forall x :: x in Group(xs, w)[i] ==> x in xs
    decreases |xs|
  {
    if |xs| > w && i > 0 {
      GroupMembers(xs[w..], w, i - 1);
      assert Group(xs, w)[i] == Group(xs[w..], w)[i - 1];
    }
  }

  /** Re-splitting every chunk and concatenating the word lists gives exactly `text.split()`. */
  lemma ChunksPreserveWords(text: string, maxTokens: int)
    ensures Flatten(WordsEach(Chunks(text, maxTokens))) == Words(text)
  {
    var w := Width(maxTokens);
    var gs := Group(Words(text), w);
    forall i | 0 <= i < |gs| ensures Words(Join(" ", gs[i])) == gs[i] {
      GroupedWords(text, w, i);
      WordsOfSpaceJoin(gs[i]);
    }
    assert WordsEach(Chunks(text, maxTokens)) == gs;
    GroupFlatten(Words(text), w);
  }

  /** Each chunk holds between one and `max(maxTokens, 1)` words, and all but the last exactly that many. */
  lemma ChunkSizes(text: string, maxTokens: int)
    ensures forall i :: 0 <= i < |Chunks(text, maxTokens)| ==>
      1 <= |Words(Chunks(text, maxTokens)[i])| <= Width(maxTokens)
    ensures forall i :: 0 <= i < |Chunks(text, maxTokens)| - 1 ==>
      |Words(Chunks(text, maxTokens)[i])| == Width(maxTokens)
  {
    var w := Width(maxTokens);
    var gs := Group(Words(text), w);
    GroupSizes(Words(text), w);
    forall i | 0 <= i < |gs| ensures Words(Chunks(text, maxTokens)[i]) == gs[i] {
      GroupedWords(text, w, i);
      WordsOfSpaceJoin(gs[i]);
    }
  }

  /**
   * For n > 0 words there are c = ⌈n / max(maxTokens, 1)⌉ chunks, the least c
   * with n <= c * max(maxTokens, 1); blank text gives none.
   */
  lemma ChunkCount(text: string, maxTokens: int)
    ensures var n, c, w := |Words(text)|, |Chunks(text, maxTokens)|, Width(maxTokens);
      n > 0 ==> (c - 1) * w < n <= c * w
    ensures AllSpace(text) <==> Chunks(text, maxTokens) == []
  {
    GroupCount(Words(text), Width(maxTokens));
    WordsEmptyIff(text);
  }

  /** A chunk is never empty and holds no whitespace but single spaces, so no newline at all. */
  lemma ChunkCharacters(text: string, maxTokens: int)
    ensures forall i :: 0 <= i < |Chunks(text, maxTokens)| ==>
      Chunks(text, maxTokens)[i] != [] && '\n' !in Chunks(text, maxTokens)[i]
  {
    var w := Width(maxTokens);
    var gs := Group(Words(text), w);
    GroupSizes(Words(text), w);
    forall i | 0 <= i < |gs| ensures Join(" ", gs[i]) != [] && '\n' !in Join(" ", gs[i]) {
      GroupedWords(text, w, i);
      forall j | 0 <= j < |gs[i]| ensures '\n' !in gs[i][j] {
        assert IsWord(gs[i][j]) && IsSpace('\n');
      }
      JoinAvoids(" ", gs[i], '\n');
      assert Join(" ", gs[i]) != [] by {
        assert IsWord(gs[i][0]);
        if |gs[i]| > 1 { JoinPeel(" ", gs[i]); }
      }
    }
  }
}
