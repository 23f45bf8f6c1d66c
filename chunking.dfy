/** The greedy sentence packer that app.py writes out twice, as
    `chunk_text_by_sentences` (bound 3000, lines 87-98) and `chunk_text_for_gtts`
    (bound `MAX_TTS_LENGTH` = 4000, lines 133-144). Both are `ChunkText` here. */
module Chunking {
  import opened Text
  import opened SentenceSplit

  const DefaultChunkLength: int := 3000
  const MaxTtsLength: int := 4000

  /** The loop state: the finished `chunks` and the `current` buffer. */
  datatype Packing = Packing(chunks: seq<string>, current: string)

  /** One turn of the loop: append the sentence to the buffer while the buffer and the
      sentence together stay below the bound, else close the buffer (stripped) and
      start a new one with the sentence. */
  function Step(p: Packing, sentence: string, maxLen: int): Packing {
    if |p.current| + |sentence| < maxLen then Packing(p.chunks, p.current + " " + sentence)
    else Packing(p.chunks + [Strip(p.current)], sentence)
  }

  /** The loop state once every sentence has had its turn. */
  function Packed(sentences: seq<string>, maxLen: int): Packing
    decreases |sentences|
  {
    if sentences == [] then Packing([], "")
    else Step(Packed(sentences[..|sentences| - 1], maxLen), sentences[|sentences| - 1], maxLen)
  }

  /** What the packer returns: the closed chunks, then the buffer unless it is empty. */
  function Chunks(sentences: seq<string>, maxLen: int): seq<string> {
    var p := Packed(sentences, maxLen);
    if p.current != "" then p.chunks + [Strip(p.current)] else p.chunks
  }

  /** The packing loop over already split sentences. */
  method PackSentences(sentences: seq<string>, maxLen: int) returns (chunks: seq<string>)
    ensures chunks == Chunks(sentences, maxLen)
  {
    chunks := [];
    var current := "";
    for i := 0 to |sentences|
      invariant Packed(sentences[..i], maxLen) == Packing(chunks, current)
    {
      var sentence := sentences[i];
      if |current| + |sentence| < maxLen {
        current := current + " " + sentence;
      } else {
        chunks := chunks + [Strip(current)];
        current := sentence;
      }
      assert sentences[..i + 1][..i] == sentences[..i];
    }
    assert sentences[..|sentences|] == sentences;
    if current != "" {
      chunks := chunks + [Strip(current)];
    }
  }

  /** Split the stripped text into sentences and pack them under `maxLen`. */
  method ChunkText(text: string, maxLen: int) returns (chunks: seq<string>)
    ensures chunks == Chunks(Sentences(text), maxLen)
  {
    var sentences := Split(Strip(text));
    chunks := PackSentences(sentences, maxLen);
  }

  /** `chunk_text_by_sentences`: the packer with default bound 3000. */
  method ChunkTextBySentences(text: string, maxChunkLength: int := DefaultChunkLength)
    returns (chunks: seq<string>)
    ensures chunks == Chunks(Sentences(text), maxChunkLength)
  {
    chunks := ChunkText(text, maxChunkLength);
  }

  /** `chunk_text_for_gtts`: the same packer with default bound `MAX_TTS_LENGTH`. */
  method ChunkTextForGtts(text: string, maxLength: int := MaxTtsLength) returns (chunks: seq<string>)
    ensures chunks == Chunks(Sentences(text), maxLength)
  {
    chunks := ChunkText(text, maxLength);
  }

  // ---------------------------------------------------------------------------
  // The greedy partition the packer computes
  // ---------------------------------------------------------------------------

  /** Concatenation of the groups, in order. */
  function Flatten(gs: seq<seq<string>>): seq<string>
    decreases |gs|
  {
    if gs == [] then [] else Flatten(gs[..|gs| - 1]) + gs[|gs| - 1]
  }

  /** The buffer the packer holds once it has taken in group `g`: the first group grows
      from `""`, so its buffer starts with a space; a later group starts with its
      first sentence. */
  function Buffer(g: seq<string>, first: bool): string {
    if first then (if g == [] then "" else " " + Join(g)) else Join(g)
  }

  /** `gs` cuts `sentences` into consecutive groups; only the first may be empty. */
  ghost predicate IsGrouping(sentences: seq<string>, gs: seq<seq<string>>) {
    |gs| >= 1 && Flatten(gs) == sentences && forall k :: 0 < k < |gs| ==> gs[k] != []
  }

  /** Every sentence that joined a group fitted: the buffer before it plus the sentence
      stayed below the bound. (The first sentence of a later group opened it.) */
  ghost predicate Fits(gs: seq<seq<string>>, maxLen: int) {
    forall k, j :: 0 <= k < |gs| && (if k == 0 then 0 else 1) <= j < |gs[k]| ==>
      |Buffer(gs[k][..j], k == 0)| + |gs[k][j]| < maxLen
  }

  /** Every group but the last was closed because the next sentence did not fit. */
  ghost predicate Closed(gs: seq<seq<string>>, maxLen: int) {
    forall k :: 0 < k < |gs| && gs[k] != [] ==> |Buffer(gs[k - 1], k - 1 == 0)| + |gs[k][0]| >= maxLen
  }

  ghost predicate GreedyPartition(sentences: seq<string>, maxLen: int, gs: seq<seq<string>>) {
    IsGrouping(sentences, gs) && Fits(gs, maxLen) && Closed(gs, maxLen)
  }

  /** One sentence `x` joins the last group when it fits, else opens a new group. */
  function Extend(hs: seq<seq<string>>, x: string, maxLen: int): seq<seq<string>>
    requires hs != []
  {
    var n := |hs|;
    if |Buffer(hs[n - 1], n == 1)| + |x| < maxLen then hs[..n - 1] + [hs[n - 1] + [x]]
    else hs + [[x]]
  }

  /** The groups the packer forms, one sentence at a time. */
  function Groups(sentences: seq<string>, maxLen: int): (gs: seq<seq<string>>)
    ensures |gs| >= 1
    decreases |sentences|
  {
    if sentences == [] then [[]]
    else Extend(Groups(sentences[..|sentences| - 1], maxLen), sentences[|sentences| - 1], maxLen)
  }

  /** Joining one more part adds a space and the part. */
  lemma JoinSnoc(g: seq<string>, x: string)
    requires g != []
    ensures Join(g + [x]) == Join(g) + " " + x
  {
    var h := g + [x];
    assert h[..|h| - 1] == g && h[|h| - 1] == x;
  }

  lemma BufferAppend(g: seq<string>, first: bool, x: string)
    requires first || g != []
    ensures Buffer(g + [x], first) == Buffer(g, first) + " " + x
  {
    if g == [] {
      assert g + [x] == [x];
    } else {
      JoinSnoc(g, x);
      if first {
        assert " " + (Join(g) + " " + x) == (" " + Join(g)) + " " + x;
      }
    }
  }

  lemma FlattenSnoc(gs: seq<seq<string>>, g: seq<string>)
    ensures Flatten(gs + [g]) == Flatten(gs) + g
  {
    assert (gs + [g])[..|gs|] == gs;
  }

  lemma ExtendGrouping(init: seq<string>, hs: seq<seq<string>>, x: string, maxLen: int)
    requires IsGrouping(init, hs)
    ensures IsGrouping(init + [x], Extend(hs, x, maxLen))
  {
    var n := |hs|;
    var last := hs[n - 1];
    var gs := Extend(hs, x, maxLen);
    FlattenSnoc(hs[..n - 1], last);
    assert hs[..n - 1] + [last] == hs;
    if |Buffer(last, n == 1)| + |x| < maxLen {
      FlattenSnoc(hs[..n - 1], last + [x]);
      forall k | 0 < k < |gs| ensures gs[k] != [] {
        if k < n - 1 { assert gs[k] == hs[k]; }
      }
    } else {
      FlattenSnoc(hs, [x]);
      forall k | 0 < k < |gs| ensures gs[k] != [] {
        if k < n { assert gs[k] == hs[k]; }
      }
    }
  }

  lemma ExtendFits(hs: seq<seq<string>>, x: string, maxLen: int)
    requires hs != [] && Fits(hs, maxLen)
    ensures Fits(Extend(hs, x, maxLen), maxLen)
  {
    var n := |hs|;
    var last := hs[n - 1];
    var gs := Extend(hs, x, maxLen);
    if |Buffer(last, n == 1)| + |x| < maxLen {
      forall k, j | 0 <= k < |gs| && (if k == 0 then 0 else 1) <= j < |gs[k]|
        ensures |Buffer(gs[k][..j], k == 0)| + |gs[k][j]| < maxLen
      {
        if k == n - 1 {
          if j < |last| {
            assert gs[k][..j] == last[..j] && gs[k][j] == last[j];
          } else {
            assert gs[k][..j] == last;
          }
        } else {
          assert gs[k] == hs[k];
        }
      }
    } else {
      forall k, j | 0 <= k < |gs| && (if k == 0 then 0 else 1) <= j < |gs[k]|
        ensures |Buffer(gs[k][..j], k == 0)| + |gs[k][j]| < maxLen
      {
        assert gs[k] == hs[k];
      }
    }
  }

  lemma ExtendClosed(hs: seq<seq<string>>, x: string, maxLen: int)
    requires hs != [] && Closed(hs, maxLen)
    requires forall k :: 0 < k < |hs| ==> hs[k] != []
    ensures Closed(Extend(hs, x, maxLen), maxLen)
  {
    var n := |hs|;
    if |Buffer(hs[n - 1], n == 1)| + |x| < maxLen {
      JoinLastClosed(hs, x, maxLen);
    } else {
      OpenGroupClosed(hs, x, maxLen);
    }
  }

  /** Adding a sentence to the last group keeps every earlier cut closed. */
  lemma JoinLastClosed(hs: seq<seq<string>>, x: string, maxLen: int)
    requires hs != [] && Closed(hs, maxLen)
    requires forall k :: 0 < k < |hs| ==> hs[k] != []
    ensures Closed(hs[..|hs| - 1] + [hs[|hs| - 1] + [x]], maxLen)
  {
    var n := |hs|;
    var last := hs[n - 1];
    var gs := hs[..n - 1] + [last + [x]];
    forall k | 0 < k < |gs| && gs[k] != []
      ensures |Buffer(gs[k - 1], k - 1 == 0)| + |gs[k][0]| >= maxLen
    {
      assert gs[k - 1] == hs[k - 1];
      if k == n - 1 {
        assert gs[k][0] == last[0];
      } else {
        assert gs[k] == hs[k];
      }
    }
  }

  /** Opening a new group because `x` does not fit closes the last group. */
  lemma OpenGroupClosed(hs: seq<seq<string>>, x: string, maxLen: int)
    requires hs != [] && Closed(hs, maxLen)
    requires |Buffer(hs[|hs| - 1], |hs| == 1)| + |x| >= maxLen
    ensures Closed(hs + [[x]], maxLen)
  {
    var n := |hs|;
    var gs := hs + [[x]];
    forall k | 0 < k < |gs| && gs[k] != []
      ensures |Buffer(gs[k - 1], k - 1 == 0)| + |gs[k][0]| >= maxLen
    {
      assert gs[k - 1] == hs[k - 1];
      if k < n {
        assert gs[k] == hs[k];
      } else {
        assert (k - 1 == 0) == (n == 1) && gs[k][0] == x;
      }
    }
  }

  /** `Groups` is the greedy partition of the sentences. */
  lemma {:induction false} GroupsAreGreedy(sentences: seq<string>, maxLen: int)
    ensures GreedyPartition(sentences, maxLen, Groups(sentences, maxLen))
    decreases |sentences|
  {
    if sentences != [] {
      var init := sentences[..|sentences| - 1];
      var x := sentences[|sentences| - 1];
      assert sentences == init + [x];
      GroupsAreGreedy(init, maxLen);
      var hs := Groups(init, maxLen);
      assert Groups(sentences, maxLen) == Extend(hs, x, maxLen);
      ExtendGrouping(init, hs, x, maxLen);
      ExtendFits(hs, x, maxLen);
      ExtendClosed(hs, x, maxLen);
    }
  }

  /** The loop state `p` matches the groups `gs`: one closed chunk per group but the
      last, each the stripped buffer of its group, and the buffer of the last group. */
  ghost predicate Mirrors(p: Packing, gs: seq<seq<string>>) {
    && |gs| >= 1
    && |p.chunks| == |gs| - 1
    && (forall k :: 0 <= k < |gs| - 1 ==> p.chunks[k] == Strip(Buffer(gs[k], k == 0)))
    && p.current == Buffer(gs[|gs| - 1], |gs| == 1)
  }

  lemma StepMirrorsExtend(p: Packing, hs: seq<seq<string>>, x: string, maxLen: int)
    requires Mirrors(p, hs)
    requires forall k :: 0 < k < |hs| ==> hs[k] != []
    ensures Mirrors(Step(p, x, maxLen), Extend(hs, x, maxLen))
  {
    var n := |hs|;
    if |Buffer(hs[n - 1], n == 1)| + |x| < maxLen {
      assert Extend(hs, x, maxLen) == hs[..n - 1] + [hs[n - 1] + [x]];
      assert Step(p, x, maxLen) == Packing(p.chunks, p.current + " " + x);
      AppendMirrors(p, hs, x);
    } else {
      assert Extend(hs, x, maxLen) == hs + [[x]];
      assert Step(p, x, maxLen) == Packing(p.chunks + [Strip(p.current)], x);
      CloseMirrors(p, hs, x);
    }
  }

  /** Appending `x` to the buffer mirrors appending it to the last group. */
  lemma AppendMirrors(p: Packing, hs: seq<seq<string>>, x: string)
    requires Mirrors(p, hs)
    requires forall k :: 0 < k < |hs| ==> hs[k] != []
    ensures Mirrors(Packing(p.chunks, p.current + " " + x), hs[..|hs| - 1] + [hs[|hs| - 1] + [x]])
  {
    var n := |hs|;
    var gs := hs[..n - 1] + [hs[n - 1] + [x]];
    assert |gs| == n && gs[n - 1] == hs[n - 1] + [x];
    BufferAppend(hs[n - 1], n == 1, x);
    forall k | 0 <= k < |gs| - 1 ensures p.chunks[k] == Strip(Buffer(gs[k], k == 0)) {
      assert gs[k] == hs[k];
    }
  }

  /** Closing the buffer and restarting it with `x` mirrors opening a new group. */
  lemma CloseMirrors(p: Packing, hs: seq<seq<string>>, x: string)
    requires Mirrors(p, hs)
    ensures Mirrors(Packing(p.chunks + [Strip(p.current)], x), hs + [[x]])
  {
    var n := |hs|;
    var gs := hs + [[x]];
    var chunks := p.chunks + [Strip(p.current)];
    forall k | 0 <= k < |gs| - 1 ensures chunks[k] == Strip(Buffer(gs[k], k == 0)) {
      assert gs[k] == hs[k];
      if k < n - 1 {
        assert chunks[k] == p.chunks[k];
      } else {
        assert chunks[k] == Strip(p.current);
        assert (k == 0) == (n == 1);
        assert p.current == Buffer(gs[k], k == 0);
      }
    }
    assert Buffer([x], false) == x;
  }

  /** The loop state follows the groups, sentence by sentence. */
  lemma {:induction false} PackedFollowsGroups(sentences: seq<string>, maxLen: int)
    ensures Mirrors(Packed(sentences, maxLen), Groups(sentences, maxLen))
    decreases |sentences|
  {
    if sentences != [] {
      var init := sentences[..|sentences| - 1];
      var x := sentences[|sentences| - 1];
      PackedFollowsGroups(init, maxLen);
      GroupsAreGreedy(init, maxLen);
      StepMirrorsExtend(Packed(init, maxLen), Groups(init, maxLen), x, maxLen);
    }
  }

  lemma StripBuffer(g: seq<string>, first: bool)
    ensures Strip(Buffer(g, first)) == Strip(Join(g))
  {
    if first && g != [] {
      StripLeadingSpace(Join(g));
    }
  }

  lemma {:induction false} FlattenEmpty(gs: seq<seq<string>>)
    ensures Flatten(gs) == [] <==> forall k :: 0 <= k < |gs| ==> gs[k] == []
    decreases |gs|
  {
    if gs != [] {
      FlattenEmpty(gs[..|gs| - 1]);
    }
  }

  lemma {:induction false} FlattenStartsWithFirst(gs: seq<seq<string>>)
    requires gs != []
    ensures gs[0] <= Flatten(gs)
    decreases |gs|
  {
    if |gs| > 1 {
      FlattenStartsWithFirst(gs[..|gs| - 1]);
    }
  }

  /** The final `if current_chunk:` (line 96) always fires on real sentences: after
      at least one non-empty sentence the buffer is never empty. */
  lemma BufferNeverEmpty(sentences: seq<string>, maxLen: int)
    requires sentences != [] && forall i :: 0 <= i < |sentences| ==> sentences[i] != []
    ensures Packed(sentences, maxLen).current != ""
  {
  }

  /** Order and coverage: on non-empty sentences the chunks are, one for one and in
      order, the greedy groups of sentences joined with `" "` and stripped. */
  lemma ChunksFollowGroups(sentences: seq<string>, maxLen: int)
    requires sentences != [] && forall i :: 0 <= i < |sentences| ==> sentences[i] != []
    ensures var gs := Groups(sentences, maxLen); var chunks := Chunks(sentences, maxLen);
      && GreedyPartition(sentences, maxLen, gs)
      && |chunks| == |gs|
      && forall k :: 0 <= k < |gs| ==> chunks[k] == Strip(Join(gs[k]))
  {
    var gs := Groups(sentences, maxLen);
    var p := Packed(sentences, maxLen);
    GroupsAreGreedy(sentences, maxLen);
    PackedFollowsGroups(sentences, maxLen);
    BufferNeverEmpty(sentences, maxLen);
    var chunks := Chunks(sentences, maxLen);
    assert chunks == p.chunks + [Strip(p.current)];
    forall k | 0 <= k < |gs| ensures chunks[k] == Strip(Join(gs[k])) {
      StripBuffer(gs[k], k == 0);
    }
  }

  /** A group whose last sentence fitted has a buffer within the bound. */
  lemma BufferWithinBound(g: seq<string>, first: bool, maxLen: int)
    requires g != [] && (first || |g| >= 2)
    requires |Buffer(g[..|g| - 1], first)| + |g[|g| - 1]| < maxLen
    ensures |Strip(Buffer(g, first))| <= maxLen
  {
    var j := |g| - 1;
    assert g[..j] + [g[j]] == g;
    BufferAppend(g[..j], first, g[j]);
  }

  /** A group every later sentence of which fitted: if its chunk is over the bound, it
      is a single sentence that opened a group after the first. */
  lemma GroupChunkBound(g: seq<string>, first: bool, maxLen: int)
    requires maxLen >= 0
    requires forall j :: (if first then 0 else 1) <= j < |g| ==> |Buffer(g[..j], first)| + |g[j]| < maxLen
    ensures |Strip(Join(g))| > maxLen ==> !first && |g| == 1 && Strip(Join(g)) == Strip(g[0])
  {
    if g != [] && (first || |g| >= 2) {
      assert |Strip(Join(g))| <= maxLen by {
        var j := |g| - 1;
        assert |Buffer(g[..j], first)| + |g[j]| < maxLen;
        BufferWithinBound(g, first, maxLen);
        StripBuffer(g, first);
      }
    } else if g != [] {
      assert Join(g) == g[0];
    } else {
      assert Join(g) == "";
    }
  }

  lemma GreedyChunkBound(chunks: seq<string>, gs: seq<seq<string>>, maxLen: int)
    requires Fits(gs, maxLen) && maxLen >= 0
    requires |chunks| == |gs| && forall k :: 0 <= k < |gs| ==> chunks[k] == Strip(Join(gs[k]))
    ensures forall k :: 0 <= k < |chunks| && |chunks[k]| > maxLen ==>
      k > 0 && |gs[k]| == 1 && chunks[k] == Strip(gs[k][0])
  {
    forall k | 0 <= k < |chunks| && |chunks[k]| > maxLen
      ensures k > 0 && |gs[k]| == 1 && chunks[k] == Strip(gs[k][0])
    {
      GroupChunkBound(gs[k], k == 0, maxLen);
    }
  }

  /** Chunk bound: a chunk longer than the bound is never the first chunk and is a
      single stripped sentence; so every chunk built from two or more sentences, and
      the first chunk, are within the bound. */
  lemma ChunkBound(sentences: seq<string>, maxLen: int)
    requires sentences != [] && forall i :: 0 <= i < |sentences| ==> sentences[i] != []
    requires maxLen >= 0
    ensures var gs := Groups(sentences, maxLen); var chunks := Chunks(sentences, maxLen);
      && |chunks| == |gs|
      && forall k :: 0 <= k < |chunks| && |chunks[k]| > maxLen ==>
        k > 0 && |gs[k]| == 1 && chunks[k] == Strip(gs[k][0])
  {
    ChunksFollowGroups(sentences, maxLen);
    GreedyChunkBound(Chunks(sentences, maxLen), Groups(sentences, maxLen), maxLen);
  }

  /** Empty or whitespace-only text gives exactly `[""]`, whatever the bound. */
  lemma {:induction false} BlankTextChunks(text: string, maxLen: int)
    requires AllSpace(text)
    ensures Chunks(Sentences(text), maxLen) == [""]
  {
    BlankSentences(text);
    assert Strip(" ") == "";
    assert [""][..0] == [];
  }

  /** A first sentence at or over the bound makes the first chunk `""`: the buffer
      starts as `""` and is closed before the sentence goes in. */
  lemma OversizedFirstSentence(sentences: seq<string>, maxLen: int)
    requires sentences != [] && forall i :: 0 <= i < |sentences| ==> sentences[i] != []
    requires |sentences[0]| >= maxLen
    ensures |Chunks(sentences, maxLen)| >= 2 && Chunks(sentences, maxLen)[0] == ""
  {
    var gs := Groups(sentences, maxLen);
    ChunksFollowGroups(sentences, maxLen);
    FlattenStartsWithFirst(gs);
    FlattenEmpty(gs);
  }

  // ---------------------------------------------------------------------------
  // Rejoining the chunks
  // ---------------------------------------------------------------------------

  /** The non-empty strings of `cs`, in order. */
  function NonEmpty(cs: seq<string>): seq<string>
    decreases |cs|
  {
    if cs == [] then []
    else NonEmpty(cs[..|cs| - 1]) + (if cs[|cs| - 1] != [] then [cs[|cs| - 1]] else [])
  }

  lemma {:induction false} JoinAppend(a: seq<string>, b: seq<string>)
    requires a != [] && b != []
    ensures Join(a + b) == Join(a) + " " + Join(b)
    decreases |b|
  {
    var bl := b[|b| - 1];
    if |b| == 1 {
      assert b == [bl];
      JoinSnoc(a, bl);
    } else {
      var b' := b[..|b| - 1];
      JoinAppend(a, b');
      assert Join(a + b) == Join(a + b') + " " + bl by {
        assert a + b == (a + b') + [bl];
        JoinSnoc(a + b', bl);
      }
      assert Join(b) == Join(b') + " " + bl by {
        assert b == b' + [bl];
        JoinSnoc(b', bl);
      }
      Assoc(Join(a) + " ", Join(b') + " ", bl);
      Assoc(Join(a) + " ", Join(b'), " ");
    }
  }

  /** Joining tight strings with single spaces gives a tight string. */
  lemma {:induction false} JoinTight(g: seq<string>)
    requires g != [] && forall i :: 0 <= i < |g| ==> Tight(g[i])
    ensures Tight(Join(g))
    decreases |g|
  {
    if |g| > 1 {
      var init := g[..|g| - 1];
      JoinTight(init);
      assert Join(g) == Join(init) + " " + g[|g| - 1];
      assert Join(g)[0] == Join(init)[0];
    }
  }

  lemma {:induction false} FlattenMembers(gs: seq<seq<string>>)
    ensures forall k, j :: 0 <= k < |gs| && 0 <= j < |gs[k]| ==> gs[k][j] in Flatten(gs)
    decreases |gs|
  {
    if gs != [] {
      var init := gs[..|gs| - 1];
      FlattenMembers(init);
      forall k, j | 0 <= k < |gs| && 0 <= j < |gs[k]| ensures gs[k][j] in Flatten(gs) {
        if k < |gs| - 1 {
          assert gs[k] == init[k];
          assert gs[k][j] in Flatten(init);
        } else {
          assert Flatten(gs)[|Flatten(init)| + j] == gs[k][j];
        }
      }
    }
  }

  /** When each string of `cs` is its group joined, or empty for an empty group,
      joining the non-empty strings is joining all the grouped items. */
  lemma {:induction false} JoinGroups(cs: seq<string>, gs: seq<seq<string>>)
    requires |cs| == |gs|
    requires forall k :: 0 <= k < |gs| ==> cs[k] == (if gs[k] == [] then "" else Join(gs[k]))
    requires forall k :: 0 <= k < |gs| && gs[k] != [] ==> Join(gs[k]) != []
    ensures NonEmpty(cs) == [] <==> Flatten(gs) == []
    ensures Join(NonEmpty(cs)) == Join(Flatten(gs))
    decreases |gs|
  {
    if gs != [] {
      var n := |gs|;
      var cinit := cs[..n - 1];
      var ginit := gs[..n - 1];
      JoinGroups(cinit, ginit);
      var g := gs[n - 1];
      assert Flatten(gs) == Flatten(ginit) + g;
      if g != [] {
        assert NonEmpty(cs) == NonEmpty(cinit) + [Join(g)];
        if Flatten(ginit) != [] {
          JoinAppend(NonEmpty(cinit), [Join(g)]);
          JoinAppend(Flatten(ginit), g);
        } else {
          assert Flatten(gs) == g;
        }
      } else {
        assert NonEmpty(cs) == NonEmpty(cinit);
        assert Flatten(gs) == Flatten(ginit);
      }
    }
  }

  /** Any grouping of tight sentences, each group joined and stripped, rejoins to the
      sentences joined. */
  lemma RejoinGrouped(sentences: seq<string>, gs: seq<seq<string>>, chunks: seq<string>)
    requires Flatten(gs) == sentences
    requires forall i :: 0 <= i < |sentences| ==> Tight(sentences[i])
    requires |chunks| == |gs| && forall k :: 0 <= k < |gs| ==> chunks[k] == Strip(Join(gs[k]))
    ensures Join(NonEmpty(chunks)) == Join(sentences)
  {
    FlattenMembers(gs);
    forall k | 0 <= k < |gs|
      ensures chunks[k] == (if gs[k] == [] then "" else Join(gs[k]))
      ensures gs[k] != [] ==> Join(gs[k]) != []
    {
      if gs[k] != [] {
        forall j | 0 <= j < |gs[k]| ensures Tight(gs[k][j]) {
          assert gs[k][j] in sentences;
        }
        JoinTight(gs[k]);
      }
    }
    JoinGroups(chunks, gs);
  }

  /** Order and coverage: when the sentences carry no leading or trailing whitespace,
      joining the non-empty chunks with `" "` equals joining the sentences with `" "`;
      nothing is dropped, duplicated or reordered. */
  lemma RejoinChunks(sentences: seq<string>, maxLen: int)
    requires sentences != [] && forall i :: 0 <= i < |sentences| ==> Tight(sentences[i])
    ensures Join(NonEmpty(Chunks(sentences, maxLen))) == Join(sentences)
  {
    ChunksFollowGroups(sentences, maxLen);
    RejoinGrouped(sentences, Groups(sentences, maxLen), Chunks(sentences, maxLen));
  }
}
