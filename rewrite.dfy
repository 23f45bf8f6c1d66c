/** `rewrite_with_groq` of app.py: each chunk is sent to a chat-completion service;
    the stripped replies are accumulated, each followed by one space; a failed call
    is reported and skipped; the progress bar advances after each success. */
module Rewrite {
  import opened Wrappers
  import opened Text
  import opened SentenceSplit
  import opened Chunking

  /** What one call contributes to the rewritten text. */
  function Contribution(outcome: Option<string>): string {
    match outcome
    case Some(content) => Strip(content) + " "
    case None => ""
  }

  /** The rewritten text after the calls for `chunks`; `reply(i, c)` is the content
      the service returns for chunk number `i` with text `c`, `None` when the call
      raises. */
  function Rewritten(chunks: seq<string>, reply: (nat, string) -> Option<string>): string
    decreases |chunks|
  {
    if chunks == [] then ""
    else
      var n := |chunks|;
      Rewritten(chunks[..n - 1], reply) + Contribution(reply(n - 1, chunks[n - 1]))
  }

  /** The progress values set on the bar, in units of one chunk: 0 at the start,
      then `i + 1` after chunk `i` succeeded. */
  function Progress(chunks: seq<string>, reply: (nat, string) -> Option<string>): (p: seq<nat>)
    ensures |p| >= 1
    decreases |chunks|
  {
    if chunks == [] then [0]
    else
      var n := |chunks|;
      Progress(chunks[..n - 1], reply) + (if reply(n - 1, chunks[n - 1]).Some? then [n] else [])
  }

  /** The chunk numbers (counted from 1) of the error messages shown. */
  function Errors(chunks: seq<string>, reply: (nat, string) -> Option<string>): seq<nat>
    decreases |chunks|
  {
    if chunks == [] then []
    else
      var n := |chunks|;
      Errors(chunks[..n - 1], reply) + (if reply(n - 1, chunks[n - 1]).None? then [n] else [])
  }

  /** The stripped replies of the successful calls, in chunk order. */
  function Replies(chunks: seq<string>, reply: (nat, string) -> Option<string>): seq<string>
    decreases |chunks|
  {
    if chunks == [] then []
    else
      var n := |chunks|;
      Replies(chunks[..n - 1], reply)
        + (match reply(n - 1, chunks[n - 1]) case Some(c) => [Strip(c)] case None => [])
  }

  /** The four accounts after chunk `i` extend those after the chunks before it by
      what the outcome of chunk `i` contributes. */
  lemma RewriteStep(chunks: seq<string>, reply: (nat, string) -> Option<string>, i: nat)
    requires i < |chunks|
    ensures var c, b, o := chunks[..i + 1], chunks[..i], reply(i, chunks[i]);
      && Rewritten(c, reply) == Rewritten(b, reply) + Contribution(o)
      && Progress(c, reply) == Progress(b, reply) + (if o.Some? then [i + 1] else [])
      && Errors(c, reply) == Errors(b, reply) + (if o.None? then [i + 1] else [])
      && Replies(c, reply) == Replies(b, reply) + (if o.Some? then [Strip(o.value)] else [])
  {
    var c := chunks[..i + 1];
    assert c[..i] == chunks[..i] && c[i] == chunks[i];
  }

  /** The progress after the last chunk extends that after the chunks before it. */
  lemma ProgressLast(chunks: seq<string>, reply: (nat, string) -> Option<string>)
    requires chunks != []
    ensures var n := |chunks|;
      Progress(chunks, reply) == Progress(chunks[..n - 1], reply)
        + (if reply(n - 1, chunks[n - 1]).Some? then [n] else [])
  {
  }

  /** The errors after the last chunk extend those after the chunks before it. */
  lemma ErrorsLast(chunks: seq<string>, reply: (nat, string) -> Option<string>)
    requires chunks != []
    ensures var n := |chunks|;
      Errors(chunks, reply) == Errors(chunks[..n - 1], reply)
        + (if reply(n - 1, chunks[n - 1]).None? then [n] else [])
  {
  }

  /** The replies after the last chunk extend those after the chunks before it. */
  lemma RepliesLast(chunks: seq<string>, reply: (nat, string) -> Option<string>)
    requires chunks != []
    ensures var n := |chunks|; var o := reply(n - 1, chunks[n - 1]);
      Replies(chunks, reply) == Replies(chunks[..n - 1], reply) + (if o.Some? then [Strip(o.value)] else [])
  {
  }

  /** The loop of `rewrite_with_groq` over its chunks. */
  method RewriteChunks(chunks: seq<string>, reply: (nat, string) -> Option<string>)
    returns (rewritten: string, progress: seq<nat>, errors: seq<nat>)
    ensures rewritten == Rewritten(chunks, reply)
    ensures progress == Progress(chunks, reply)
    ensures errors == Errors(chunks, reply)
  {
    rewritten := "";
    progress := [0];
    errors := [];
    for i := 0 to |chunks|
      invariant rewritten == Rewritten(chunks[..i], reply)
      invariant progress == Progress(chunks[..i], reply)
      invariant errors == Errors(chunks[..i], reply)
    {
      RewriteStep(chunks, reply, i);
      match reply(i, chunks[i])
      case Some(content) =>
        rewritten := rewritten + (Strip(content) + " ");
        progress := progress + [i + 1];
      case None =>
        errors := errors + [i + 1];
    }
    assert chunks[..|chunks|] == chunks;
  }

  /** `rewrite_with_groq(text, ...)`: chunks of at most 3000 characters (apart from a
      sentence that is longer on its own), each rewritten by the service. */
  method RewriteWithGroq(text: string, reply: (nat, string) -> Option<string>)
    returns (rewritten: string, progress: seq<nat>, errors: seq<nat>)
    ensures var chunks := Chunks(Sentences(text), DefaultChunkLength);
      && rewritten == Rewritten(chunks, reply)
      && progress == Progress(chunks, reply)
      && errors == Errors(chunks, reply)
  {
    var chunks := ChunkTextBySentences(text);
    rewritten, progress, errors := RewriteChunks(chunks, reply);
  }

  /** The rewritten text is the stripped replies joined with single spaces, plus one
      trailing space; it is empty exactly when no reply came back. */
  lemma {:induction false} RewrittenJoinsReplies(chunks: seq<string>, reply: (nat, string) -> Option<string>)
    ensures Rewritten(chunks, reply) ==
      (if Replies(chunks, reply) == [] then "" else Join(Replies(chunks, reply)) + " ")
    decreases |chunks|
  {
    if chunks != [] {
      var n := |chunks|;
      var init := chunks[..n - 1];
      RewrittenJoinsReplies(init, reply);
      RepliesLast(chunks, reply);
      var o := reply(n - 1, chunks[n - 1]);
      if o.Some? {
        assert Contribution(o) == Strip(o.value) + " ";
        ReplyJoined(Rewritten(init, reply), Replies(init, reply), Strip(o.value));
      } else {
        assert Contribution(o) == "";
        assert Replies(chunks, reply) == Replies(init, reply);
        assert Rewritten(chunks, reply) == Rewritten(init, reply);
      }
    }
  }

  /** One more reply `x` extends the joined text by `x` and a space. */
  lemma ReplyJoined(text: string, rs: seq<string>, x: string)
    requires text == (if rs == [] then "" else Join(rs) + " ")
    ensures text + (x + " ") == Join(rs + [x]) + " "
  {
    if rs == [] {
      assert rs + [x] == [x];
    } else {
      JoinSnoc(rs, x);
    }
  }

  /** `text` is the stripped reply to chunk `i`. */
  ghost predicate Answers(chunks: seq<string>, reply: (nat, string) -> Option<string>, i: int, text: string) {
    0 <= i < |chunks| && reply(i, chunks[i]).Some? && text == Strip(reply(i, chunks[i]).value)
  }

  /** An answer about one of the chunks before the last is an answer about all. */
  lemma AnswersExtend(chunks: seq<string>, reply: (nat, string) -> Option<string>, i: int, text: string)
    requires chunks != [] && Answers(chunks[..|chunks| - 1], reply, i, text)
    ensures Answers(chunks, reply, i, text)
  {
    assert chunks[..|chunks| - 1][i] == chunks[i];
  }

  /** Reply `k` of `rs` answers the chunk counted by report `k + 1` of `ps`. */
  ghost predicate Follows(chunks: seq<string>, reply: (nat, string) -> Option<string>, ps: seq<nat>, rs: seq<string>) {
    |ps| == |rs| + 1 && forall k :: 0 <= k < |rs| ==> Answers(chunks, reply, ps[k + 1] as int - 1, rs[k])
  }

  /** The last chunk's outcome extends the replies in step with the reports. */
  lemma FollowsLast(chunks: seq<string>, reply: (nat, string) -> Option<string>, ps: seq<nat>, rs: seq<string>)
    requires chunks != [] && Follows(chunks[..|chunks| - 1], reply, ps, rs)
    ensures var n := |chunks|; var o := reply(n - 1, chunks[n - 1]);
      Follows(chunks, reply, ps + (if o.Some? then [n] else []), rs + (if o.Some? then [Strip(o.value)] else []))
  {
    var n := |chunks|;
    var o := reply(n - 1, chunks[n - 1]);
    FollowsKeep(chunks, reply, ps, rs);
    if o.Some? {
      FollowsAnswer(chunks, reply, ps, rs, Strip(o.value));
    } else {
      assert ps + [] == ps && rs + [] == rs;
    }
  }

  /** Replies that follow the reports on the chunks before the last still do. */
  lemma FollowsKeep(chunks: seq<string>, reply: (nat, string) -> Option<string>, ps: seq<nat>, rs: seq<string>)
    requires chunks != [] && Follows(chunks[..|chunks| - 1], reply, ps, rs)
    ensures Follows(chunks, reply, ps, rs)
  {
    forall k | 0 <= k < |rs| ensures Answers(chunks, reply, ps[k + 1] as int - 1, rs[k]) {
      AnswersExtend(chunks, reply, ps[k + 1] as int - 1, rs[k]);
    }
  }

  /** An answer `x` to the last chunk, reported as `|chunks|`, extends both in step. */
  lemma FollowsAnswer(chunks: seq<string>, reply: (nat, string) -> Option<string>, ps: seq<nat>, rs: seq<string>, x: string)
    requires chunks != [] && Follows(chunks, reply, ps, rs) && Answers(chunks, reply, |chunks| - 1, x)
    ensures Follows(chunks, reply, ps + [|chunks|], rs + [x])
  {
    SnocAt(ps, |chunks|);
    SnocAt(rs, x);
    forall k | 0 <= k < |rs + [x]|
      ensures Answers(chunks, reply, (ps + [|chunks|])[k + 1] as int - 1, (rs + [x])[k])
    {
      if k < |rs| {
        assert (ps + [|chunks|])[k + 1] == ps[k + 1];
      }
    }
  }

  lemma {:induction false} RepliesFollow(chunks: seq<string>, reply: (nat, string) -> Option<string>)
    ensures Follows(chunks, reply, Progress(chunks, reply), Replies(chunks, reply))
    decreases |chunks|
  {
    if chunks != [] {
      var init := chunks[..|chunks| - 1];
      RepliesFollow(init, reply);
      ProgressLast(chunks, reply);
      RepliesLast(chunks, reply);
      FollowsLast(chunks, reply, Progress(init, reply), Replies(init, reply));
    }
  }

  /** One reply per successful call, in chunk order: reply `k` answers the chunk whose
      progress report is the `k + 1`-th. */
  lemma RepliesFollowProgress(chunks: seq<string>, reply: (nat, string) -> Option<string>)
    ensures |Progress(chunks, reply)| == |Replies(chunks, reply)| + 1
    ensures forall k :: 0 <= k < |Replies(chunks, reply)| ==>
      Answers(chunks, reply, Progress(chunks, reply)[k + 1] as int - 1, Replies(chunks, reply)[k])
  {
    RepliesFollow(chunks, reply);
  }

  /** Every element of `xs` lies between `lo` and `hi`. */
  ghost predicate Within(xs: seq<nat>, lo: nat, hi: nat) {
    forall a :: 0 <= a < |xs| ==> lo <= xs[a] <= hi
  }

  /** `xs` increases strictly. */
  ghost predicate Increasing(xs: seq<nat>) {
    forall a, b :: 0 <= a < b < |xs| ==> xs[a] < xs[b]
  }

  /** Appending a value above the bound keeps a sequence increasing, under the new value. */
  lemma IncreasingSnoc(xs: seq<nat>, lo: nat, hi: nat, x: nat)
    requires Increasing(xs) && Within(xs, lo, hi) && hi < x && lo <= x
    ensures Increasing(xs + [x]) && Within(xs + [x], lo, x)
  {
  }

  /** A value above the bound is not an element. */
  lemma AboveNotIn(xs: seq<nat>, lo: nat, hi: nat, x: nat)
    requires Within(xs, lo, hi) && hi < x
    ensures x !in xs
  {
  }

  /** The progress values start at 0, increase strictly and do not exceed the chunk
      count. */
  lemma {:induction false} ProgressRises(chunks: seq<string>, reply: (nat, string) -> Option<string>)
    ensures Progress(chunks, reply)[0] == 0
    ensures Increasing(Progress(chunks, reply)) && Within(Progress(chunks, reply), 0, |chunks|)
    decreases |chunks|
  {
    if chunks != [] {
      var n := |chunks|;
      var init := chunks[..n - 1];
      ProgressRises(init, reply);
      ProgressLast(chunks, reply);
      var q := Progress(init, reply);
      if reply(n - 1, chunks[n - 1]).Some? {
        assert Progress(chunks, reply) == q + [n];
        IncreasingSnoc(q, 0, n - 1, n);
      } else {
        assert Progress(chunks, reply) == q;
      }
    }
  }

  /** Value `k >= 1` is a progress report exactly when chunk `k - 1` succeeded. */
  lemma {:induction false} ProgressMembers(chunks: seq<string>, reply: (nat, string) -> Option<string>)
    ensures forall k :: 1 <= k <= |chunks| ==>
      (k in Progress(chunks, reply) <==> reply(k - 1, chunks[k - 1]).Some?)
    decreases |chunks|
  {
    if chunks != [] {
      var n := |chunks|;
      var init := chunks[..n - 1];
      ProgressMembers(init, reply);
      ProgressRises(init, reply);
      ProgressLast(chunks, reply);
      var q := Progress(init, reply);
      var o := reply(n - 1, chunks[n - 1]);
      AboveNotIn(q, 0, n - 1, n);
      if o.Some? {
        assert Progress(chunks, reply) == q + [n];
      } else {
        assert Progress(chunks, reply) == q;
      }
      forall k | 1 <= k <= n ensures k in Progress(chunks, reply) <==> reply(k - 1, chunks[k - 1]).Some? {
        if k < n {
          assert chunks[k - 1] == init[k - 1];
        }
      }
    }
  }

  /** The progress reports: 0 first, then strictly increasing; value `k >= 1` is
      reported exactly when chunk `k - 1` succeeded. */
  lemma ProgressReports(chunks: seq<string>, reply: (nat, string) -> Option<string>)
    ensures Progress(chunks, reply)[0] == 0
    ensures forall a, b :: 0 <= a < b < |Progress(chunks, reply)| ==>
      Progress(chunks, reply)[a] < Progress(chunks, reply)[b]
    ensures forall x :: x in Progress(chunks, reply) ==> x <= |chunks|
    ensures forall k :: 1 <= k <= |chunks| ==>
      (k in Progress(chunks, reply) <==> reply(k - 1, chunks[k - 1]).Some?)
  {
    ProgressRises(chunks, reply);
    ProgressMembers(chunks, reply);
  }

  /** The bar ends full exactly when the last chunk succeeded; a failure on the last
      chunk leaves it short even if every other chunk succeeded. */
  lemma ProgressEndsFull(chunks: seq<string>, reply: (nat, string) -> Option<string>)
    requires chunks != []
    ensures var p := Progress(chunks, reply);
      p[|p| - 1] == |chunks| <==> reply(|chunks| - 1, chunks[|chunks| - 1]).Some?
  {
    var n := |chunks|;
    var init := chunks[..n - 1];
    ProgressRises(init, reply);
    ProgressLast(chunks, reply);
    var q := Progress(init, reply);
    assert q[|q| - 1] <= n - 1;
    if reply(n - 1, chunks[n - 1]).None? {
      assert Progress(chunks, reply) == q;
    }
  }

  /** Successes plus failures make up the chunk count. */
  lemma {:induction false} ErrorCount(chunks: seq<string>, reply: (nat, string) -> Option<string>)
    ensures |Progress(chunks, reply)| - 1 + |Errors(chunks, reply)| == |chunks|
    decreases |chunks|
  {
    if chunks != [] {
      ErrorCount(chunks[..|chunks| - 1], reply);
      ProgressLast(chunks, reply);
      ErrorsLast(chunks, reply);
    }
  }

  /** The error numbers increase strictly and lie between 1 and the chunk count. */
  lemma {:induction false} ErrorsRise(chunks: seq<string>, reply: (nat, string) -> Option<string>)
    ensures Increasing(Errors(chunks, reply)) && Within(Errors(chunks, reply), 1, |chunks|)
    decreases |chunks|
  {
    if chunks != [] {
      var n := |chunks|;
      var init := chunks[..n - 1];
      ErrorsRise(init, reply);
      ErrorsLast(chunks, reply);
      var e := Errors(init, reply);
      if reply(n - 1, chunks[n - 1]).None? {
        assert Errors(chunks, reply) == e + [n];
        IncreasingSnoc(e, 1, n - 1, n);
      } else {
        assert Errors(chunks, reply) == e;
      }
    }
  }

  /** Value `k` is an error number exactly when chunk `k - 1` failed. */
  lemma {:induction false} ErrorMembers(chunks: seq<string>, reply: (nat, string) -> Option<string>)
    ensures forall k :: k in Errors(chunks, reply) <==>
      1 <= k <= |chunks| && reply(k - 1, chunks[k - 1]).None?
    decreases |chunks|
  {
    if chunks != [] {
      var n := |chunks|;
      var init := chunks[..n - 1];
      ErrorMembers(init, reply);
      ErrorsRise(init, reply);
      ErrorsLast(chunks, reply);
      var e := Errors(init, reply);
      AboveNotIn(e, 1, n - 1, n);
      if reply(n - 1, chunks[n - 1]).None? {
        assert Errors(chunks, reply) == e + [n];
      } else {
        assert Errors(chunks, reply) == e;
      }
      forall k ensures k in Errors(chunks, reply) <==> 1 <= k <= n && reply(k - 1, chunks[k - 1]).None? {
        if 1 <= k < n {
          assert chunks[k - 1] == init[k - 1];
        }
      }
    }
  }

  /** Every chunk is accounted for exactly once: it either advances the bar or is
      reported as an error, and the error numbers are exactly the failed chunks. */
  lemma ErrorReports(chunks: seq<string>, reply: (nat, string) -> Option<string>)
    ensures |Progress(chunks, reply)| - 1 + |Errors(chunks, reply)| == |chunks|
    ensures forall a, b :: 0 <= a < b < |Errors(chunks, reply)| ==>
      Errors(chunks, reply)[a] < Errors(chunks, reply)[b]
    ensures forall k :: k in Errors(chunks, reply) <==>
      1 <= k <= |chunks| && reply(k - 1, chunks[k - 1]).None?
  {
    ErrorCount(chunks, reply);
    ErrorsRise(chunks, reply);
    ErrorMembers(chunks, reply);
  }
}
