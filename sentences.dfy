/** The sentence split `re.split(r'(?<=[.!?]) +', text.strip())` of app.py. */
module SentenceSplit {
  import opened Text

  /** Position `j` of `s` is where the pattern `(?<=[.!?]) +` starts a match: a
      space right after sentence-ending punctuation. */
  predicate IsBreak(s: string, j: int) {
    1 <= j < |s| && s[j] == ' ' && IsStop(s[j - 1])
  }

  /** Two spaces in a row at position `i`. */
  predicate DoubleSpaceAt(s: string, i: int) {
    0 <= i < |s| - 1 && s[i] == ' ' && s[i + 1] == ' '
  }

  /** The leftmost break at or after `from`, or `|s|` when there is none. */
  function FindBreak(s: string, from: nat): (k: nat)
    requires from <= |s|
    ensures from <= k <= |s|
    ensures k < |s| ==> IsBreak(s, k)
    decreases |s| - from
  {
    if from == |s| || IsBreak(s, from) then from else FindBreak(s, from + 1)
  }

  /** `FindBreak` finds the leftmost break: there is none before it. */
  lemma {:induction false} FindBreakIsFirst(s: string, from: nat)
    requires from <= |s|
    ensures forall j :: from <= j < FindBreak(s, from) ==> !IsBreak(s, j)
    decreases |s| - from
  {
    if from < |s| && !IsBreak(s, from) {
      FindBreakIsFirst(s, from + 1);
    }
  }

  /** The end of the run of spaces starting at `from` (the greedy ` +`). */
  function RunEnd(s: string, from: nat): (e: nat)
    requires from <= |s|
    ensures from <= e <= |s|
    ensures e < |s| ==> s[e] != ' '
    decreases |s| - from
  {
    if from < |s| && s[from] == ' ' then RunEnd(s, from + 1) else from
  }

  /** The run `RunEnd` skips is all spaces. */
  lemma {:induction false} RunEndIsSpaces(s: string, from: nat)
    requires from <= |s|
    ensures forall j :: from <= j < RunEnd(s, from) ==> s[j] == ' '
    decreases |s| - from
  {
    if from < |s| && s[from] == ' ' {
      RunEndIsSpaces(s, from + 1);
    }
  }

  /** `re.split(r'(?<=[.!?]) +', s)`: cut `s` at every maximal run of spaces that
      directly follows `.`, `!` or `?`, dropping the run. */
  function Split(s: string): (pieces: seq<string>)
    ensures |pieces| >= 1
    decreases |s|
  {
    var k := FindBreak(s, 0);
    if k == |s| then [s]
    else
      var e := RunEnd(s, k);
      [s[..k]] + Split(s[e..])
  }

  /** The sentences app.py works on (lines 88 and 134). */
  function Sentences(text: string): (sentences: seq<string>)
    ensures |sentences| >= 1
  {
    Split(Strip(text))
  }

  /** `" ".join(parts)`. */
  function Join(parts: seq<string>): string
    decreases |parts|
  {
    if parts == [] then ""
    else if |parts| == 1 then parts[0]
    else Join(parts[..|parts| - 1]) + " " + parts[|parts| - 1]
  }

  /** `pieces[0] + gaps[0] + pieces[1] + ... + pieces[|gaps|]`. */
  function Weave(pieces: seq<string>, gaps: seq<string>): string
    requires |pieces| == |gaps| + 1
    decreases |gaps|
  {
    if gaps == [] then pieces[0] else pieces[0] + gaps[0] + Weave(pieces[1..], gaps[1..])
  }

  ghost predicate IsSpaceRun(g: string) {
    g != [] && forall i :: 0 <= i < |g| ==> g[i] == ' '
  }

  /** Every piece but the last is non-empty and ends in sentence punctuation. */
  lemma {:induction false} SplitPiecesEndInStop(s: string)
    ensures var p := Split(s);
      forall i :: 0 <= i < |p| - 1 ==> p[i] != [] && IsStop(p[i][|p[i]| - 1])
    decreases |s|
  {
    var k := FindBreak(s, 0);
    if k < |s| {
      var rest := s[RunEnd(s, k)..];
      SplitPiecesEndInStop(rest);
      assert Split(s) == [s[..k]] + Split(rest);
    }
  }

  /** No piece holds a break of its own: the cuts are at every break. */
  lemma {:induction false} SplitPiecesHaveNoBreak(s: string)
    ensures var p := Split(s);
      forall i, j :: 0 <= i < |p| ==> !IsBreak(p[i], j)
    decreases |s|
  {
    var k := FindBreak(s, 0);
    FindBreakIsFirst(s, 0);
    if k < |s| {
      var rest := s[RunEnd(s, k)..];
      SplitPiecesHaveNoBreak(rest);
      var p := Split(s);
      assert p == [s[..k]] + Split(rest);
      forall i, j | 0 <= i < |p| ensures !IsBreak(p[i], j) {
        if i == 0 && 1 <= j < k {
          assert !IsBreak(s, j);
        } else if i > 0 {
          assert p[i] == Split(rest)[i - 1];
        }
      }
    }
  }

  /** The first piece is a prefix of `s`. */
  lemma {:induction false} SplitFirstIsPrefix(s: string)
    ensures |Split(s)[0]| <= |s| && Split(s)[0] == s[..|Split(s)[0]|]
  {
  }

  /** One step of `Split`: the text up to the first break, then the split of what
      follows the run of spaces there. */
  lemma SplitCons(s: string)
    requires FindBreak(s, 0) < |s|
    ensures Split(s) == [s[..FindBreak(s, 0)]] + Split(s[RunEnd(s, FindBreak(s, 0))..])
  {
  }

  /** `x` is a suffix of `s`. */
  ghost predicate IsSuffix(x: string, s: string) {
    |x| <= |s| && x == s[|s| - |x|..]
  }

  /** A suffix of a suffix of `s` is a suffix of `s`. */
  lemma SuffixOfDrop(s: string, e: nat, x: string)
    requires e <= |s| && IsSuffix(x, s[e..])
    ensures IsSuffix(x, s)
  {
    assert s[e..][|s| - e - |x|..] == s[|s| - |x|..];
  }

  /** The last piece is a suffix of `s`. */
  lemma {:induction false} SplitLastIsSuffix(s: string)
    ensures IsSuffix(Split(s)[|Split(s)| - 1], s)
    decreases |s|
  {
    var k := FindBreak(s, 0);
    if k < |s| {
      var e := RunEnd(s, k);
      var rest := s[e..];
      SplitLastIsSuffix(rest);
      var last := Split(rest)[|Split(rest)| - 1];
      assert Split(s)[|Split(s)| - 1] == last by {
        SplitCons(s);
      }
      SuffixOfDrop(s, e, last);
    } else {
      assert Split(s) == [s];
      assert s[0..] == s;
    }
  }

  /** The last piece is empty only when `s` is empty or ends in a space. */
  lemma {:induction false} SplitLastEmpty(s: string)
    ensures Split(s)[|Split(s)| - 1] == [] ==> s == [] || s[|s| - 1] == ' '
    decreases |s|
  {
    var k := FindBreak(s, 0);
    if k < |s| {
      var e := RunEnd(s, k);
      var rest := s[e..];
      SplitLastEmpty(rest);
      var last := Split(rest)[|Split(rest)| - 1];
      assert Split(s)[|Split(s)| - 1] == last by {
        SplitCons(s);
      }
      if last == [] {
        if rest == [] {
          RunEndIsSpaces(s, k);
          assert s[|s| - 1] == ' ';
        } else {
          assert s[|s| - 1] == rest[|rest| - 1];
        }
      }
    } else {
      assert Split(s) == [s];
    }
  }

  /** Every character of a piece is a character of `s`. */
  lemma {:induction false} SplitPiecesComeFromText(s: string)
    ensures forall i, j :: 0 <= i < |Split(s)| && 0 <= j < |Split(s)[i]| ==> Split(s)[i][j] in s
    decreases |s|
  {
    var k := FindBreak(s, 0);
    if k < |s| {
      var e := RunEnd(s, k);
      var rest := s[e..];
      SplitPiecesComeFromText(rest);
      var p := Split(s);
      var q := Split(rest);
      assert p == [s[..k]] + q;
      forall i, j | 0 <= i < |p| && 0 <= j < |p[i]| ensures p[i][j] in s {
        if i == 0 {
          assert p[i][j] == s[j];
        } else {
          assert p[i][j] == q[i - 1][j] && q[i - 1][j] in rest;
          var m :| 0 <= m < |rest| && rest[m] == p[i][j];
          assert s[e + m] == rest[m];
        }
      }
    }
  }

  /** No piece after the first starts with a space: each cut drops the whole run. */
  lemma {:induction false} SplitPiecesStartAfterRun(s: string)
    ensures var p := Split(s);
      forall i :: 0 < i < |p| && p[i] != [] ==> p[i][0] != ' '
    decreases |s|
  {
    var k := FindBreak(s, 0);
    if k < |s| {
      var e := RunEnd(s, k);
      var rest := s[e..];
      SplitPiecesStartAfterRun(rest);
      SplitFirstIsPrefix(rest);
      var p := Split(s);
      var q := Split(rest);
      assert p == [s[..k]] + q;
      forall i | 0 < i < |p| && p[i] != [] ensures p[i][0] != ' ' {
        assert p[i] == q[i - 1];
        if i == 1 {
          assert q[0][0] == rest[0] == s[e];
        }
      }
    }
  }

  /** The runs of spaces that `Split` drops, in order. */
  function Gaps(s: string): seq<string>
    decreases |s|
  {
    var k := FindBreak(s, 0);
    if k == |s| then []
    else
      var e := RunEnd(s, k);
      [s[k..e]] + Gaps(s[e..])
  }

  lemma WeaveCons(x: string, g: string, pieces: seq<string>, gaps: seq<string>)
    requires |pieces| == |gaps| + 1
    ensures Weave([x] + pieces, [g] + gaps) == x + g + Weave(pieces, gaps)
  {
    assert ([x] + pieces)[1..] == pieces && ([g] + gaps)[1..] == gaps;
  }

  /** Putting the dropped runs of spaces back between the pieces gives `s` back. */
  lemma {:induction false} SplitRoundTrip(s: string)
    ensures |Gaps(s)| + 1 == |Split(s)|
    ensures forall g :: g in Gaps(s) ==> IsSpaceRun(g)
    ensures Weave(Split(s), Gaps(s)) == s
    decreases |s|
  {
    var k := FindBreak(s, 0);
    if k < |s| {
      var e := RunEnd(s, k);
      var rest := s[e..];
      SplitRoundTrip(rest);
      RunEndIsSpaces(s, k);
      assert Split(s) == [s[..k]] + Split(rest);
      assert Gaps(s) == [s[k..e]] + Gaps(rest);
      WeaveCons(s[..k], s[k..e], Split(rest), Gaps(rest));
      ThreeParts(s, k, e);
    }
  }

  lemma {:induction false} JoinCons(x: string, parts: seq<string>)
    requires parts != []
    ensures Join([x] + parts) == x + " " + Join(parts)
    decreases |parts|
  {
    var xs := [x] + parts;
    if |parts| > 1 {
      var init, last := parts[..|parts| - 1], parts[|parts| - 1];
      assert xs[..|xs| - 1] == [x] + init && xs[|xs| - 1] == last;
      JoinCons(x, init);
      assert Join(parts) == Join(init) + " " + last;
      calc {
        Join(xs);
        Join([x] + init) + " " + last;
        (x + " " + Join(init)) + " " + last;
        x + " " + (Join(init) + " " + last);
      }
    } else {
      assert xs[..1] == [x] && xs[1] == parts[0];
    }
  }

  /** What follows a cut keeps the text's single spacing. */
  lemma NoDoubleSpaceAfter(s: string, e: nat)
    requires e <= |s| && forall i :: !DoubleSpaceAt(s, i)
    ensures forall i :: !DoubleSpaceAt(s[e..], i)
  {
    forall i | 0 <= i < |s| - e - 1 ensures !DoubleSpaceAt(s[e..], i) {
      assert !DoubleSpaceAt(s, i + e);
    }
  }

  /** On text with single spaces only, joining the sentences with `" "` gives the
      text back: each dropped run was exactly one space. */
  lemma {:induction false} SplitJoin(s: string)
    requires forall i :: !DoubleSpaceAt(s, i)
    ensures Join(Split(s)) == s
    decreases |s|
  {
    var k := FindBreak(s, 0);
    if k < |s| {
      var e := RunEnd(s, k);
      assert e == k + 1 by {
        RunEndIsSpaces(s, k);
        if e > k + 1 {
          assert DoubleSpaceAt(s, k);
        }
      }
      var rest := s[e..];
      NoDoubleSpaceAfter(s, e);
      SplitJoin(rest);
      assert Join(Split(s)) == s[..k] + " " + Join(Split(rest)) by {
        SplitCons(s);
        JoinCons(s[..k], Split(rest));
      }
      assert s == s[..k] + " " + rest by {
        assert s[k] == ' ';
        ThreeParts(s, k, e);
        assert s[k..e] == " ";
      }
    } else {
      assert Split(s) == [s];
    }
  }

  /** Pieces that are all non-empty, where the first starts and the last ends with
      a non-whitespace character. */
  ghost predicate TightPieces(p: seq<string>) {
    p != [] && (forall i :: 0 <= i < |p| ==> p[i] != [])
    && !IsSpace(p[0][0]) && !IsSpace(p[|p| - 1][|p[|p| - 1]| - 1])
  }

  /** A tight string splits into tight pieces. */
  lemma {:induction false} SplitTight(s: string)
    requires Tight(s)
    ensures TightPieces(Split(s))
  {
    SplitPiecesEndInStop(s);
    SplitFirstIsPrefix(s);
    SplitLastIsSuffix(s);
    SplitLastEmpty(s);
    var p := Split(s);
    var last := p[|p| - 1];
    assert last[|last| - 1] == s[|s| - 1];
    assert p[0][0] == s[0];
  }

  /** Sentences of a text that is not all whitespace are all non-empty; the first
      starts and the last ends with a non-whitespace character. */
  lemma {:induction false} NonBlankSentences(text: string)
    requires !AllSpace(text)
    ensures TightPieces(Sentences(text))
  {
    StripNonBlank(text);
    SplitTight(Strip(text));
  }

  /** Whitespace-only input gives the single sentence `""`. */
  lemma {:induction false} BlankSentences(text: string)
    requires AllSpace(text)
    ensures Sentences(text) == [""]
  {
  }
}
