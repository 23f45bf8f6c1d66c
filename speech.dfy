/** `convert_text_to_speech_gtts` of app.py: the text is cleaned and chunked, each
    chunk (decorated in storyteller mode) is synthesised to its own audio file, and
    the files that were produced are concatenated, each followed by a pause. */
module Speech {
  import opened Wrappers
  import opened SentenceSplit
  import opened Chunking
  import opened Cleaning
  import opened Storyteller

  /** The silence after every spoken chunk, in milliseconds. */
  const PauseMs: nat := 700

  /** A piece of the final audio: the speech synthesised for chunk number `chunk`
      from the text `spoken`, lasting `ms`; or a silence. */
  datatype Clip = Speech(chunk: nat, spoken: string, ms: nat) | Pause(ms: nat)

  /** The text handed to the synthesiser for one chunk. */
  function Spoken(chunk: string, storyteller: bool): (spoken: string)
    ensures !storyteller ==> spoken == chunk
    ensures storyteller ==> |spoken| >= |Ellipsis| && spoken[|spoken| - |Ellipsis|..] == Ellipsis
  {
    if storyteller then Decorate(chunk) else chunk
  }

  /** The chunk a spoken text was made from. */
  function Unspoken(spoken: string, storyteller: bool): string {
    if storyteller && |spoken| >= |Ellipsis| then Undecorate(spoken) else spoken
  }

  /** The speech clips saved for `chunks`, in order; `synth(i, t)` is the duration of
      the file saved for chunk number `i` spoken as `t`, `None` when synthesis or
      saving raises. */
  function Saved(chunks: seq<string>, synth: (nat, string) -> Option<nat>, storyteller: bool): (clips: seq<Clip>)
    ensures forall k :: 0 <= k < |clips| ==> clips[k].Speech?
    decreases |chunks|
  {
    if chunks == [] then []
    else
      var n := |chunks|;
      var spoken := Spoken(chunks[n - 1], storyteller);
      Saved(chunks[..n - 1], synth, storyteller)
        + (match synth(n - 1, spoken) case Some(ms) => [Speech(n - 1, spoken, ms)] case None => [])
  }

  /** The chunk numbers (counted from 1) of the error messages shown. */
  function SpeechErrors(chunks: seq<string>, synth: (nat, string) -> Option<nat>, storyteller: bool): seq<nat>
    decreases |chunks|
  {
    if chunks == [] then []
    else
      var n := |chunks|;
      SpeechErrors(chunks[..n - 1], synth, storyteller)
        + (if synth(n - 1, Spoken(chunks[n - 1], storyteller)).None? then [n] else [])
  }

  /** The final audio: every saved clip followed by a pause. */
  function Timeline(clips: seq<Clip>): seq<Clip>
    decreases |clips|
  {
    if clips == [] then []
    else Timeline(clips[..|clips| - 1]) + [clips[|clips| - 1], Pause(PauseMs)]
  }

  /** The total duration of a sequence of clips, in milliseconds. */
  function TotalMs(clips: seq<Clip>): nat
    decreases |clips|
  {
    if clips == [] then 0 else TotalMs(clips[..|clips| - 1]) + clips[|clips| - 1].ms
  }

  /** The saved clips and errors after chunk `i` extend those after the chunks before
      it by the outcome of chunk `i`. */
  lemma SpeechStep(chunks: seq<string>, synth: (nat, string) -> Option<nat>, storyteller: bool, i: nat)
    requires i < |chunks|
    ensures var c, b := chunks[..i + 1], chunks[..i];
      var spoken := Spoken(chunks[i], storyteller); var o := synth(i, spoken);
      && Saved(c, synth, storyteller) == Saved(b, synth, storyteller)
        + (if o.Some? then [Speech(i, spoken, o.value)] else [])
      && SpeechErrors(c, synth, storyteller) == SpeechErrors(b, synth, storyteller)
        + (if o.None? then [i + 1] else [])
  {
    var c := chunks[..i + 1];
    assert c[..i] == chunks[..i] && c[i] == chunks[i];
  }

  /** The timeline of one more clip adds that clip and a pause. */
  lemma TimelineStep(clips: seq<Clip>, k: nat)
    requires k < |clips|
    ensures Timeline(clips[..k + 1]) == Timeline(clips[..k]) + [clips[k], Pause(PauseMs)]
  {
    var c := clips[..k + 1];
    assert c[..k] == clips[..k] && c[k] == clips[k];
  }

  /** The synthesis loop and the assembly loop of `convert_text_to_speech_gtts` over
      its chunks. `None` is the "No audio generated." outcome. */
  method ConvertChunksToSpeech(chunks: seq<string>, synth: (nat, string) -> Option<nat>, storyteller: bool)
    returns (audio: Option<seq<Clip>>, errors: seq<nat>)
    ensures errors == SpeechErrors(chunks, synth, storyteller)
    ensures audio.None? <==> Saved(chunks, synth, storyteller) == []
    ensures audio.Some? ==> audio.value == Timeline(Saved(chunks, synth, storyteller))
  {
    var mp3Chunks: seq<Clip> := [];
    errors := [];
    for i := 0 to |chunks|
      invariant mp3Chunks == Saved(chunks[..i], synth, storyteller)
      invariant errors == SpeechErrors(chunks[..i], synth, storyteller)
    {
      SpeechStep(chunks, synth, storyteller, i);
      var chunk := chunks[i];
      if storyteller {
        chunk := Decorate(chunk);
      }
      match synth(i, chunk)
      case Some(ms) =>
        mp3Chunks := mp3Chunks + [Speech(i, chunk, ms)];
      case None =>
        errors := errors + [i + 1];
    }
    assert chunks[..|chunks|] == chunks;
    if mp3Chunks == [] {
      return None, errors;
    }
    var finalAudio: seq<Clip> := [];
    for k := 0 to |mp3Chunks|
      invariant finalAudio == Timeline(mp3Chunks[..k])
    {
      TimelineStep(mp3Chunks, k);
      finalAudio := finalAudio + [mp3Chunks[k], Pause(PauseMs)];
    }
    assert mp3Chunks[..|mp3Chunks|] == mp3Chunks;
    audio := Some(finalAudio);
  }

  /** `convert_text_to_speech_gtts(text, language, storyteller)`: cleaned text, chunks
      of at most 4000 characters (apart from a sentence that is longer on its own). */
  method ConvertTextToSpeechGtts(text: string, synth: (nat, string) -> Option<nat>, storyteller: bool := true)
    returns (audio: Option<seq<Clip>>, errors: seq<nat>)
    ensures var chunks := Chunks(Sentences(CleanTextForTts(text)), MaxTtsLength);
      && errors == SpeechErrors(chunks, synth, storyteller)
      && (audio.None? <==> Saved(chunks, synth, storyteller) == [])
      && (audio.Some? ==> audio.value == Timeline(Saved(chunks, synth, storyteller)))
  {
    var cleaned := CleanTextForTts(text);
    var chunks := ChunkTextForGtts(cleaned);
    audio, errors := ConvertChunksToSpeech(chunks, synth, storyteller);
  }

  /** Each spoken text gives its chunk back. */
  lemma SpokenRoundTrip(chunk: string, storyteller: bool)
    ensures Unspoken(Spoken(chunk, storyteller), storyteller) == chunk
  {
    if storyteller {
      DecorateRoundTrip(chunk);
    }
  }

  /** `clip` is the speech saved for chunk `clip.chunk`. */
  ghost predicate SpeechOf(chunks: seq<string>, synth: (nat, string) -> Option<nat>, storyteller: bool, clip: Clip) {
    && clip.Speech?
    && clip.chunk < |chunks|
    && clip.spoken == Spoken(chunks[clip.chunk], storyteller)
    && synth(clip.chunk, clip.spoken) == Some(clip.ms)
  }

  /** The saved clips after the last chunk extend those after the chunks before it. */
  lemma SavedLast(chunks: seq<string>, synth: (nat, string) -> Option<nat>, storyteller: bool)
    requires chunks != []
    ensures var n := |chunks|; var spoken := Spoken(chunks[n - 1], storyteller); var o := synth(n - 1, spoken);
      Saved(chunks, synth, storyteller) == Saved(chunks[..n - 1], synth, storyteller)
        + (if o.Some? then [Speech(n - 1, spoken, o.value)] else [])
  {
  }

  /** The speech of one of the chunks before the last is speech of all the chunks. */
  lemma SpeechOfExtend(chunks: seq<string>, synth: (nat, string) -> Option<nat>, storyteller: bool, clip: Clip)
    requires chunks != [] && SpeechOf(chunks[..|chunks| - 1], synth, storyteller, clip)
    ensures SpeechOf(chunks, synth, storyteller, clip)
  {
    assert chunks[..|chunks| - 1][clip.chunk] == chunks[clip.chunk];
  }

  /** Every saved clip is the speech of its chunk. */
  lemma {:induction false} SavedAreSpeech(chunks: seq<string>, synth: (nat, string) -> Option<nat>, storyteller: bool)
    ensures forall k :: 0 <= k < |Saved(chunks, synth, storyteller)| ==>
      SpeechOf(chunks, synth, storyteller, Saved(chunks, synth, storyteller)[k])
    decreases |chunks|
  {
    if chunks != [] {
      var n := |chunks|;
      var init := chunks[..n - 1];
      SavedAreSpeech(init, synth, storyteller);
      SavedLast(chunks, synth, storyteller);
      var q, s := Saved(init, synth, storyteller), Saved(chunks, synth, storyteller);
      forall k | 0 <= k < |s| ensures SpeechOf(chunks, synth, storyteller, s[k]) {
        if k < |q| {
          assert s[k] == q[k];
          SpeechOfExtend(chunks, synth, storyteller, q[k]);
        }
      }
    }
  }

  /** The saved clips are in chunk order, each chunk at most once. */
  lemma {:induction false} SavedInOrder(chunks: seq<string>, synth: (nat, string) -> Option<nat>, storyteller: bool)
    ensures forall a, b :: 0 <= a < b < |Saved(chunks, synth, storyteller)| ==>
      Saved(chunks, synth, storyteller)[a].chunk < Saved(chunks, synth, storyteller)[b].chunk
    decreases |chunks|
  {
    if chunks != [] {
      var n := |chunks|;
      var init := chunks[..n - 1];
      SavedInOrder(init, synth, storyteller);
      SavedAreSpeech(init, synth, storyteller);
      SavedLast(chunks, synth, storyteller);
      var q, s := Saved(init, synth, storyteller), Saved(chunks, synth, storyteller);
      if synth(n - 1, Spoken(chunks[n - 1], storyteller)).Some? {
        forall a, b | 0 <= a < b < |s| ensures s[a].chunk < s[b].chunk {
          assert s[a] == q[a];
          if b < |q| {
            assert s[b] == q[b];
          } else {
            assert SpeechOf(init, synth, storyteller, q[a]);
          }
        }
      } else {
        assert s == q;
      }
    }
  }

  /** Every chunk whose synthesis succeeded is saved. */
  lemma {:induction false} SavedComplete(chunks: seq<string>, synth: (nat, string) -> Option<nat>, storyteller: bool)
    ensures forall i :: 0 <= i < |chunks| && synth(i, Spoken(chunks[i], storyteller)).Some? ==>
      exists k :: 0 <= k < |Saved(chunks, synth, storyteller)| && Saved(chunks, synth, storyteller)[k].chunk == i
    decreases |chunks|
  {
    if chunks != [] {
      var n := |chunks|;
      var init := chunks[..n - 1];
      SavedComplete(init, synth, storyteller);
      SavedLast(chunks, synth, storyteller);
      var q, s := Saved(init, synth, storyteller), Saved(chunks, synth, storyteller);
      forall i | 0 <= i < n && synth(i, Spoken(chunks[i], storyteller)).Some?
        ensures exists k :: 0 <= k < |s| && s[k].chunk == i
      {
        if i < n - 1 {
          assert init[i] == chunks[i];
          var k :| 0 <= k < |q| && q[k].chunk == i;
          assert s[k] == q[k];
        } else {
          assert s[|q|].chunk == n - 1;
        }
      }
    }
  }

  /** The saved clips are the speech of the chunks whose synthesis succeeded, each
      once, in chunk order. */
  lemma SavedClips(chunks: seq<string>, synth: (nat, string) -> Option<nat>, storyteller: bool)
    ensures forall k :: 0 <= k < |Saved(chunks, synth, storyteller)| ==>
      SpeechOf(chunks, synth, storyteller, Saved(chunks, synth, storyteller)[k])
    ensures forall a, b :: 0 <= a < b < |Saved(chunks, synth, storyteller)| ==>
      Saved(chunks, synth, storyteller)[a].chunk < Saved(chunks, synth, storyteller)[b].chunk
    ensures forall i :: 0 <= i < |chunks| && synth(i, Spoken(chunks[i], storyteller)).Some? ==>
      exists k :: 0 <= k < |Saved(chunks, synth, storyteller)| && Saved(chunks, synth, storyteller)[k].chunk == i
  {
    SavedAreSpeech(chunks, synth, storyteller);
    SavedInOrder(chunks, synth, storyteller);
    SavedComplete(chunks, synth, storyteller);
  }

  /** Every chunk is accounted for exactly once: it is saved or reported as an error;
      the error numbers are exactly the failed chunks. */
  lemma {:induction false} SpeechErrorReports(chunks: seq<string>, synth: (nat, string) -> Option<nat>, storyteller: bool)
    ensures |Saved(chunks, synth, storyteller)| + |SpeechErrors(chunks, synth, storyteller)| == |chunks|
    ensures forall k :: k in SpeechErrors(chunks, synth, storyteller) <==>
      1 <= k <= |chunks| && synth(k - 1, Spoken(chunks[k - 1], storyteller)).None?
    decreases |chunks|
  {
    if chunks != [] {
      var n := |chunks|;
      var init := chunks[..n - 1];
      SpeechErrorReports(init, synth, storyteller);
      forall i | 0 <= i < n - 1 ensures chunks[i] == init[i] { }
    }
  }

  /** No audio is produced exactly when every synthesis failed. */
  lemma NoAudio(chunks: seq<string>, synth: (nat, string) -> Option<nat>, storyteller: bool)
    ensures Saved(chunks, synth, storyteller) == [] <==>
      forall i :: 0 <= i < |chunks| ==> synth(i, Spoken(chunks[i], storyteller)).None?
  {
    if Saved(chunks, synth, storyteller) == [] {
      SavedComplete(chunks, synth, storyteller);
    } else {
      SavedAreSpeech(chunks, synth, storyteller);
      var c := Saved(chunks, synth, storyteller)[0];
      assert SpeechOf(chunks, synth, storyteller, c);
    }
  }

  /** The final audio alternates the saved clips with pauses. */
  lemma {:induction false} TimelineShape(clips: seq<Clip>)
    ensures |Timeline(clips)| == 2 * |clips|
    ensures forall k :: 0 <= k < |clips| ==>
      Timeline(clips)[2 * k] == clips[k] && Timeline(clips)[2 * k + 1] == Pause(PauseMs)
    decreases |clips|
  {
    if clips != [] {
      var init := clips[..|clips| - 1];
      TimelineShape(init);
      forall k | 0 <= k < |clips|
        ensures Timeline(clips)[2 * k] == clips[k] && Timeline(clips)[2 * k + 1] == Pause(PauseMs)
      {
        if k < |init| {
          assert Timeline(clips)[2 * k] == Timeline(init)[2 * k];
          assert Timeline(clips)[2 * k + 1] == Timeline(init)[2 * k + 1];
        }
      }
    }
  }

  /** The final audio lasts as long as the saved speech plus 700 ms per clip. */
  lemma {:induction false} TimelineDuration(clips: seq<Clip>)
    ensures TotalMs(Timeline(clips)) == TotalMs(clips) + PauseMs * |clips|
    decreases |clips|
  {
    if clips != [] {
      var init := clips[..|clips| - 1];
      var last := clips[|clips| - 1];
      TimelineDuration(init);
      var t := Timeline(init);
      var tail := [last, Pause(PauseMs)];
      TotalMsAppend(t, tail);
      assert tail[..1] == [last] && [last][..0] == [];
      assert TotalMs(tail) == TotalMs([last]) + PauseMs;
      assert TotalMs(clips) == TotalMs(init) + last.ms;
    }
  }

  lemma {:induction false} TotalMsAppend(a: seq<Clip>, b: seq<Clip>)
    ensures TotalMs(a + b) == TotalMs(a) + TotalMs(b)
    decreases |b|
  {
    if b != [] {
      var init := b[..|b| - 1];
      assert (a + b)[..|a + b| - 1] == a + init;
      assert (a + b)[|a + b| - 1] == b[|b| - 1];
      TotalMsAppend(a, init);
      assert TotalMs(a + b) == TotalMs(a + init) + b[|b| - 1].ms;
    } else {
      assert a + b == a;
    }
  }

  /** The chunk texts heard in a run of speech clips, with the decoration undone. */
  function Heard(clips: seq<Clip>, storyteller: bool): (texts: seq<string>)
    requires forall k :: 0 <= k < |clips| ==> clips[k].Speech?
    ensures |texts| == |clips|
    ensures forall k :: 0 <= k < |clips| ==> texts[k] == Unspoken(clips[k].spoken, storyteller)
  {
    seq(|clips|, k requires 0 <= k < |clips| => Unspoken(clips[k].spoken, storyteller))
  }

  /** When every synthesis succeeds, every chunk is saved, in order. */
  lemma {:induction false} AllSaved(chunks: seq<string>, synth: (nat, string) -> Option<nat>, storyteller: bool)
    requires forall i :: 0 <= i < |chunks| ==> synth(i, Spoken(chunks[i], storyteller)).Some?
    ensures |Saved(chunks, synth, storyteller)| == |chunks|
    ensures forall k :: 0 <= k < |chunks| ==> Saved(chunks, synth, storyteller)[k].chunk == k
    decreases |chunks|
  {
    if chunks != [] {
      var n := |chunks|;
      var init := chunks[..n - 1];
      forall i | 0 <= i < n - 1 ensures synth(i, Spoken(init[i], storyteller)).Some? {
        assert init[i] == chunks[i];
      }
      AllSaved(init, synth, storyteller);
    }
  }

  /** When every synthesis succeeds, the narration covers the text: the chunks heard,
      with the decoration undone and the empty ones skipped, joined with `" "`, are
      exactly the cleaned text. */
  lemma NarrationCoversText(text: string, synth: (nat, string) -> Option<nat>, storyteller: bool)
    requires var chunks := Chunks(Sentences(CleanTextForTts(text)), MaxTtsLength);
      forall i :: 0 <= i < |chunks| ==> synth(i, Spoken(chunks[i], storyteller)).Some?
    ensures var clips := Saved(Chunks(Sentences(CleanTextForTts(text)), MaxTtsLength), synth, storyteller);
      Join(NonEmpty(Heard(clips, storyteller))) == CleanTextForTts(text)
  {
    var chunks := Chunks(Sentences(CleanTextForTts(text)), MaxTtsLength);
    HeardAllSaved(chunks, synth, storyteller);
    CleanedChunksRejoin(text, MaxTtsLength);
  }

  /** When every synthesis succeeds, undoing the decoration of the saved clips gives
      the chunks back, one for one and in order. */
  lemma HeardAllSaved(chunks: seq<string>, synth: (nat, string) -> Option<nat>, storyteller: bool)
    requires forall i :: 0 <= i < |chunks| ==> synth(i, Spoken(chunks[i], storyteller)).Some?
    ensures Heard(Saved(chunks, synth, storyteller), storyteller) == chunks
  {
    var clips := Saved(chunks, synth, storyteller);
    AllSaved(chunks, synth, storyteller);
    SavedAreSpeech(chunks, synth, storyteller);
    forall k | 0 <= k < |chunks| ensures Heard(clips, storyteller)[k] == chunks[k] {
      assert SpeechOf(chunks, synth, storyteller, clips[k]);
      SpokenRoundTrip(chunks[k], storyteller);
    }
  }
}
