/** `clean_text_for_tts` of app.py: drop unsupported characters, collapse whitespace,
    strip. */
module Cleaning {
  import opened Text
  import opened SentenceSplit
  import opened Chunking

  /** The word characters of `\w`, restricted to ASCII. */
  predicate IsWord(c: char) {
    ('a' <= c <= 'z') || ('A' <= c <= 'Z') || ('0' <= c <= '9') || c == '_'
  }

  /** The punctuation the cleaner keeps: `.,!?;:()"'`. */
  predicate IsKeptPunctuation(c: char) {
    c == '.' || c == ',' || c == '!' || c == '?' || c == ';' || c == ':'
    || c == '(' || c == ')' || c == '"' || c == '\''
  }

  /** The class `[\w\s.,!?;:()"\']`. */
  predicate IsKept(c: char) {
    IsWord(c) || IsSpace(c) || IsKeptPunctuation(c)
  }

  /** `re.sub(r'[^\w\s.,!?;:()"\']', '', s)`: the characters outside the class are
      removed; the text never grows. */
  function DropDisallowed(s: string): (r: string)
    ensures |r| <= |s|
    decreases |s|
  {
    if s == [] then []
    else (if IsKept(s[0]) then [s[0]] else []) + DropDisallowed(s[1..])
  }

  /** Only kept characters remain. */
  lemma {:induction false} DroppedKept(s: string)
    ensures forall i :: 0 <= i < |DropDisallowed(s)| ==> IsKept(DropDisallowed(s)[i])
    decreases |s|
  {
    if s != [] {
      DroppedKept(s[1..]);
      var x := if IsKept(s[0]) then [s[0]] else [];
      var r := DropDisallowed(s[1..]);
      assert DropDisallowed(s) == x + r;
      forall i | 0 <= i < |x + r| ensures IsKept((x + r)[i]) {
        if i >= |x| {
          assert (x + r)[i] == r[i - |x|];
        }
      }
    }
  }

  /** Every kept character remains as often as it occurred. */
  lemma {:induction false} DroppedCounts(s: string)
    ensures forall c :: IsKept(c) ==> multiset(DropDisallowed(s))[c] == multiset(s)[c]
    decreases |s|
  {
    if s != [] {
      DroppedCounts(s[1..]);
      var x := if IsKept(s[0]) then [s[0]] else [];
      assert DropDisallowed(s) == x + DropDisallowed(s[1..]);
      assert multiset(s) == multiset([s[0]]) + multiset(s[1..]) by {
        assert s == [s[0]] + s[1..];
      }
      assert multiset(DropDisallowed(s)) == multiset(x) + multiset(DropDisallowed(s[1..]));
    }
  }

  /** `re.sub(r'\s+', ' ', s)`: every maximal run of whitespace becomes one space. It
      never lengthens the text; the first character is kept or, if whitespace,
      becomes `' '`. */
  function CollapseSpaces(s: string): (r: string)
    ensures |r| <= |s|
    ensures s != [] ==> r != [] && r[0] == (if IsSpace(s[0]) then ' ' else s[0])
    decreases |s|
  {
    if s == [] then []
    else if IsSpace(s[0]) then
      var t := TrimLeft(s);
      assert t != s;
      " " + CollapseSpaces(t)
    else
      [s[0]] + CollapseSpaces(s[1..])
  }

  /** `DropDisallowed` works character by character: a single character stays exactly
      when it is kept. */
  lemma DropChar(c: char)
    ensures DropDisallowed([c]) == (if IsKept(c) then [c] else [])
  {
    assert [c][1..] == [];
  }

  /** `DropDisallowed` distributes over concatenation, so the kept characters stay in
      their order. */
  lemma {:induction false} DropAppend(a: string, b: string)
    ensures DropDisallowed(a + b) == DropDisallowed(a) + DropDisallowed(b)
    decreases |a|
  {
    if a == [] {
      assert a + b == b;
    } else {
      DropAppend(a[1..], b);
      var x := if IsKept(a[0]) then [a[0]] else [];
      TailAppend(a, b);
      assert DropDisallowed(a + b) == x + (DropDisallowed(a[1..]) + DropDisallowed(b));
      assert DropDisallowed(a) == x + DropDisallowed(a[1..]);
    }
  }

  /** A whitespace run is trimmed up to the first character after it. */
  lemma {:induction false} TrimLeftRun(w: string, b: string)
    requires AllSpace(w) && (b == [] || !IsSpace(b[0]))
    ensures TrimLeft(w + b) == b
    decreases |w|
  {
    if w == [] {
      assert w + b == b;
    } else {
      TailAppend(w, b);
      assert AllSpace(w[1..]) by {
        forall i | 0 <= i < |w| - 1 ensures IsSpace(w[1..][i]) {
          assert w[1..][i] == w[i + 1];
        }
      }
      TrimLeftRun(w[1..], b);
    }
  }

  /** Trimming text that ends in a non-whitespace character never reaches past it. */
  lemma {:induction false} TrimLeftKeeps(a: string, b: string)
    requires a != [] && !IsSpace(a[|a| - 1])
    ensures TrimLeft(a + b) == TrimLeft(a) + b
    ensures TrimLeft(a) != [] && TrimLeft(a)[|TrimLeft(a)| - 1] == a[|a| - 1]
    decreases |a|
  {
    assert (a + b)[0] == a[0];
    if IsSpace(a[0]) {
      var r := a[1..];
      assert r != [] && r[|r| - 1] == a[|a| - 1];
      TailAppend(a, b);
      TrimLeftKeeps(r, b);
    }
  }

  /** `CollapseSpaces` distributes over a cut just after a non-whitespace character. */
  lemma {:induction false} CollapseAppend(a: string, b: string)
    requires a != [] && !IsSpace(a[|a| - 1])
    ensures CollapseSpaces(a + b) == CollapseSpaces(a) + CollapseSpaces(b)
    decreases |a|
  {
    if IsSpace(a[0]) {
      var t := TrimLeft(a);
      TrimLeftKeeps(a, b);
      assert |t| < |a| by {
        assert t == a[|a| - |t|..];
      }
      CollapseAppend(t, b);
      SpaceHeadAppend(a, b, t);
    } else {
      var r := a[1..];
      if r != [] {
        assert r[|r| - 1] == a[|a| - 1];
        CollapseAppend(r, b);
        WordHeadAppend(a, b, r);
      } else {
        assert a == [a[0]];
        WordAloneAppend(a[0], b);
      }
    }
  }

  /** The step of `CollapseAppend` for text that starts with whitespace. */
  lemma SpaceHeadAppend(a: string, b: string, t: string)
    requires a != [] && IsSpace(a[0]) && t == TrimLeft(a) && TrimLeft(a + b) == t + b
    requires CollapseSpaces(t + b) == CollapseSpaces(t) + CollapseSpaces(b)
    ensures CollapseSpaces(a + b) == CollapseSpaces(a) + CollapseSpaces(b)
  {
    assert (a + b)[0] == a[0];
    CollapseSpaceHead(a + b);
    CollapseSpaceHead(a);
    Assoc(" ", CollapseSpaces(t), CollapseSpaces(b));
  }

  /** The step of `CollapseAppend` for text that starts with another character. */
  lemma WordHeadAppend(a: string, b: string, r: string)
    requires a != [] && !IsSpace(a[0]) && r == a[1..]
    requires CollapseSpaces(r + b) == CollapseSpaces(r) + CollapseSpaces(b)
    ensures CollapseSpaces(a + b) == CollapseSpaces(a) + CollapseSpaces(b)
  {
    TailAppend(a, b);
    CollapseWordHead(a + b);
    CollapseWordHead(a);
    Assoc([a[0]], CollapseSpaces(r), CollapseSpaces(b));
  }

  /** The step of `CollapseAppend` for a single non-whitespace character. */
  lemma WordAloneAppend(c: char, b: string)
    requires !IsSpace(c)
    ensures CollapseSpaces([c] + b) == CollapseSpaces([c]) + CollapseSpaces(b)
  {
    TailAppend([c], b);
    assert [c][1..] == [];
    CollapseWordHead([c] + b);
    CollapseWordHead([c]);
  }

  lemma CollapseSpaceHead(s: string)
    requires s != [] && IsSpace(s[0])
    ensures CollapseSpaces(s) == " " + CollapseSpaces(TrimLeft(s))
  {
  }

  lemma CollapseWordHead(s: string)
    requires s != [] && !IsSpace(s[0])
    ensures CollapseSpaces(s) == [s[0]] + CollapseSpaces(s[1..])
  {
  }

  /** A whole whitespace run, however long and of whatever whitespace characters,
      becomes one `' '`. */
  lemma CollapseRun(w: string, b: string)
    requires w != [] && AllSpace(w) && (b == [] || !IsSpace(b[0]))
    ensures CollapseSpaces(w + b) == " " + CollapseSpaces(b)
  {
    assert (w + b)[0] == w[0];
    TrimLeftRun(w, b);
  }

  /** Whitespace appears as single `' '`s only. */
  ghost predicate SingleSpaced(s: string) {
    && (forall i :: 0 <= i < |s| && IsSpace(s[i]) ==> s[i] == ' ')
    && (forall i :: !DoubleSpaceAt(s, i))
  }

  /** After collapsing, the only whitespace is `' '`, never twice in a row. */
  lemma {:induction false} CollapsedSpaces(s: string)
    ensures SingleSpaced(CollapseSpaces(s))
    decreases |s|
  {
    if s != [] {
      if IsSpace(s[0]) {
        var t := TrimLeft(s);
        CollapsedSpaces(t);
        assert CollapseSpaces(s) == [' '] + CollapseSpaces(t);
        ConsSingleSpaced(' ', CollapseSpaces(t));
      } else {
        CollapsedSpaces(s[1..]);
        assert CollapseSpaces(s) == [s[0]] + CollapseSpaces(s[1..]);
        ConsSingleSpaced(s[0], CollapseSpaces(s[1..]));
      }
    }
  }

  lemma ConsSingleSpaced(head: char, c: string)
    requires SingleSpaced(c)
    requires IsSpace(head) ==> head == ' ' && (c == [] || c[0] != ' ')
    ensures SingleSpaced([head] + c)
  {
    var r := [head] + c;
    forall i | 0 <= i < |r| && IsSpace(r[i]) ensures r[i] == ' ' {
      if i > 0 {
        assert r[i] == c[i - 1];
      }
    }
    forall i ensures !DoubleSpaceAt(r, i) {
      if 0 < i < |r| - 1 {
        assert r[i] == c[i - 1] && r[i + 1] == c[i];
        assert !DoubleSpaceAt(c, i - 1);
      }
    }
  }

  /** Collapsing keeps the count of every character that is not whitespace. */
  lemma {:induction false} CollapsedCounts(s: string)
    ensures forall c :: !IsSpace(c) ==> multiset(CollapseSpaces(s))[c] == multiset(s)[c]
    decreases |s|
  {
    if s != [] {
      if IsSpace(s[0]) {
        var t := TrimLeft(s);
        var k := |s| - |t|;
        CollapsedCounts(t);
        assert multiset(s) == multiset(s[..k]) + multiset(t) by {
          assert s == s[..k] + t;
        }
        assert AllSpace(s[..k]) by {
          TrimLeftCut(s);
          SpaceSlice(s, 0, k);
          assert s[0..k] == s[..k];
        }
        AllSpaceCount(s[..k]);
        AllSpaceCount(" ");
        assert multiset(CollapseSpaces(s)) == multiset(" ") + multiset(CollapseSpaces(t));
      } else {
        CollapsedCounts(s[1..]);
        assert multiset(s) == multiset([s[0]]) + multiset(s[1..]) by {
          assert s == [s[0]] + s[1..];
        }
        assert multiset(CollapseSpaces(s)) == multiset([s[0]]) + multiset(CollapseSpaces(s[1..]));
      }
    }
  }

  /** A whitespace-only string holds no other character. */
  lemma SpaceCount(s: string, c: char)
    requires AllSpace(s) && !IsSpace(c)
    ensures multiset(s)[c] == 0
  {
    assert forall i :: 0 <= i < |s| ==> s[i] != c;
  }

  lemma AllSpaceCount(s: string)
    requires AllSpace(s)
    ensures forall c :: !IsSpace(c) ==> multiset(s)[c] == 0
  {
    forall c | !IsSpace(c) ensures multiset(s)[c] == 0 {
      SpaceCount(s, c);
    }
  }

  /** Whitespace around a string adds to no other character's count. */
  lemma PaddedCounts(left: string, r: string, right: string)
    requires AllSpace(left) && AllSpace(right)
    ensures forall c :: !IsSpace(c) ==> multiset(left + r + right)[c] == multiset(r)[c]
  {
    AllSpaceCount(left);
    AllSpaceCount(right);
    assert multiset(left + r + right) == multiset(left) + multiset(r) + multiset(right);
  }

  /** `clean_text_for_tts`. */
  function CleanTextForTts(text: string): (cleaned: string)
    ensures |cleaned| <= |text|
  {
    Strip(CollapseSpaces(DropDisallowed(text)))
  }

  /** What cleaned text looks like: kept characters only, `' '` as the only
      whitespace, never two spaces in a row, no leading or trailing space. */
  ghost predicate CleanForm(s: string) {
    && (forall i :: 0 <= i < |s| ==> IsKept(s[i]))
    && SingleSpaced(s)
    && (s == [] || Tight(s))
  }

  /** Stripping keeps only characters of its input. */
  lemma StripKeepsChars(t: string)
    ensures forall i :: 0 <= i < |Strip(t)| ==> Strip(t)[i] in t
  {
    var r := Strip(t);
    var a := StripCut(t);
    forall i | 0 <= i < |r| ensures r[i] in t {
      assert r[i] == t[a + i];
    }
  }

  /** Stripping text without double spaces leaves none. */
  lemma StripKeepsSingleSpaces(t: string)
    requires forall i :: !DoubleSpaceAt(t, i)
    ensures forall i :: !DoubleSpaceAt(Strip(t), i)
  {
    var r := Strip(t);
    var a := StripCut(t);
    forall i | 0 <= i < |r| - 1 ensures !DoubleSpaceAt(r, i) {
      assert r[i] == t[a + i] && r[i + 1] == t[a + i + 1];
      assert !DoubleSpaceAt(t, a + i);
    }
  }

  /** Stripping keeps the count of every non-whitespace character. */
  lemma StripKeepsCounts(t: string)
    ensures forall c :: !IsSpace(c) ==> multiset(Strip(t))[c] == multiset(t)[c]
  {
    var r := Strip(t);
    var a := StripCut(t);
    var b := a + |r|;
    var left, right := t[..a], t[b..];
    assert t == left + r + right by {
      ThreeParts(t, a, b);
    }
    assert AllSpace(left) && AllSpace(right) by {
      SpaceSlice(t, 0, a);
      SpaceSlice(t, b, |t|);
      assert t[0..a] == left && t[b..|t|] == right;
    }
    PaddedCounts(left, r, right);
  }

  /** A character of the cleaned text is kept, and `' '` if it is whitespace. */
  lemma CleanedChar(text: string, x: char)
    requires x in CleanTextForTts(text)
    ensures IsKept(x) && (IsSpace(x) ==> x == ' ')
  {
    var d := DropDisallowed(text);
    assert x in CollapseSpaces(d) by {
      StripKeepsChars(CollapseSpaces(d));
    }
    DroppedKept(text);
    CollapsedChar(d, x);
  }

  /** A character of collapsed kept text is kept, and `' '` if it is whitespace. */
  lemma CollapsedChar(d: string, x: char)
    requires x in CollapseSpaces(d) && forall i :: 0 <= i < |d| ==> IsKept(d[i])
    ensures IsKept(x) && (IsSpace(x) ==> x == ' ')
  {
    var t := CollapseSpaces(d);
    if IsSpace(x) {
      CollapsedSpaces(d);
      var m :| 0 <= m < |t| && t[m] == x;
    } else {
      assert x in d by {
        CollapsedCounts(d);
        assert multiset(t)[x] == multiset(d)[x];
      }
      var m :| 0 <= m < |d| && d[m] == x;
    }
  }

  /** The cleaned text has the clean form. */
  lemma CleanedForm(text: string)
    ensures CleanForm(CleanTextForTts(text))
  {
    var r := CleanTextForTts(text);
    CollapsedSpaces(DropDisallowed(text));
    StripKeepsSingleSpaces(CollapseSpaces(DropDisallowed(text)));
    forall i | 0 <= i < |r| ensures IsKept(r[i]) && (IsSpace(r[i]) ==> r[i] == ' ') {
      CleanedChar(text, r[i]);
    }
  }

  /** Every kept non-whitespace character of the input is in the cleaned text as often
      as it occurred. */
  lemma CleanedCounts(text: string)
    ensures forall c :: IsKept(c) && !IsSpace(c) ==>
      multiset(CleanTextForTts(text))[c] == multiset(text)[c]
  {
    DroppedCounts(text);
    CollapsedCounts(DropDisallowed(text));
    StripKeepsCounts(CollapseSpaces(DropDisallowed(text)));
  }

  /** Cleaned text is left as it is by `DropDisallowed`. */
  lemma {:induction false} DropKeepsKept(s: string)
    requires forall i :: 0 <= i < |s| ==> IsKept(s[i])
    ensures DropDisallowed(s) == s
    decreases |s|
  {
    if s != [] {
      DropKeepsKept(s[1..]);
    }
  }

  /** Text whose only whitespace is single `' '`s is left as it is by `CollapseSpaces`. */
  lemma {:induction false} CollapseKeepsSingleSpaces(s: string)
    requires SingleSpaced(s)
    ensures CollapseSpaces(s) == s
    decreases |s|
  {
    if s != [] {
      var rest := s[1..];
      TailSingleSpaced(s);
      CollapseKeepsSingleSpaces(rest);
      assert s == [s[0]] + rest;
      if IsSpace(s[0]) {
        assert rest == [] || !IsSpace(rest[0]) by {
          assert !DoubleSpaceAt(s, 0);
        }
        assert TrimLeft(s) == rest;
        assert CollapseSpaces(s) == " " + CollapseSpaces(rest);
      } else {
        assert CollapseSpaces(s) == [s[0]] + CollapseSpaces(rest);
      }
    }
  }

  lemma TailSingleSpaced(s: string)
    requires SingleSpaced(s) && s != []
    ensures SingleSpaced(s[1..])
  {
    var rest := s[1..];
    forall i | 0 <= i < |rest| && IsSpace(rest[i]) ensures rest[i] == ' ' {
      assert rest[i] == s[i + 1];
    }
    forall i ensures !DoubleSpaceAt(rest, i) {
      if 0 <= i < |rest| - 1 {
        assert rest[i] == s[i + 1] && rest[i + 1] == s[i + 2];
        assert !DoubleSpaceAt(s, i + 1);
      }
    }
  }

  /** Text in clean form is a fixed point of the cleaner. */
  lemma CleanFormIsFixed(s: string)
    requires CleanForm(s)
    ensures CleanTextForTts(s) == s
  {
    DropKeepsKept(s);
    CollapseKeepsSingleSpaces(s);
  }

  /** Cleaning is idempotent. */
  lemma CleanIdempotent(text: string)
    ensures CleanTextForTts(CleanTextForTts(text)) == CleanTextForTts(text)
  {
    CleanedForm(text);
    CleanFormIsFixed(CleanTextForTts(text));
  }

  /** The sentences of text in clean form carry no leading or trailing whitespace. */
  lemma CleanSentencesAreTight(s: string)
    requires CleanForm(s) && s != []
    ensures Sentences(s) == Split(s)
    ensures forall i :: 0 <= i < |Split(s)| ==> Tight(Split(s)[i])
  {
    StripTight(s);
    forall i | 0 <= i < |Split(s)| ensures Tight(Split(s)[i]) {
      CleanPieceTight(s, i);
    }
  }

  lemma CleanPieceTight(s: string, i: nat)
    requires CleanForm(s) && s != [] && i < |Split(s)|
    ensures Tight(Split(s)[i])
  {
    var p := Split(s);
    SplitTight(s);
    var x := p[i];
    assert x != [];
    if i > 0 {
      assert x[0] != ' ' by {
        SplitPiecesStartAfterRun(s);
      }
      CleanPieceChar(s, i, 0);
    }
    if i < |p| - 1 {
      SplitPiecesEndInStop(s);
      StopIsNotSpace(x[|x| - 1]);
    }
  }

  /** Characters of a sentence of clean text are `' '` if they are whitespace. */
  lemma CleanPieceChar(s: string, i: nat, j: nat)
    requires CleanForm(s) && i < |Split(s)| && j < |Split(s)[i]|
    ensures IsSpace(Split(s)[i][j]) ==> Split(s)[i][j] == ' '
  {
    var x := Split(s)[i][j];
    assert x in s by {
      SplitPiecesComeFromText(s);
    }
    var m :| 0 <= m < |s| && s[m] == x;
  }

  /** Blank text rejoins to nothing. */
  lemma RejoinBlankText(text: string, maxLen: int)
    requires AllSpace(text)
    ensures Join(NonEmpty(Chunks(Sentences(text), maxLen))) == ""
  {
    BlankTextChunks(text, maxLen);
    assert NonEmpty([""]) == [] by {
      var e: seq<string> := [""];
      assert e[..0] == [];
    }
  }

  /** Chunking cleaned text loses nothing but the separators: joining the non-empty
      chunks with `" "` gives the cleaned text back, whatever the bound. */
  lemma RejoinCleanText(s: string, maxLen: int)
    requires CleanForm(s)
    ensures Join(NonEmpty(Chunks(Sentences(s), maxLen))) == s
  {
    if s == [] {
      RejoinBlankText(s, maxLen);
    } else {
      CleanSentencesAreTight(s);
      RejoinChunks(Split(s), maxLen);
      SplitJoin(s);
    }
  }

  /** For any input text, the audio chunks rejoin to the cleaned text. */
  lemma CleanedChunksRejoin(text: string, maxLen: int)
    ensures Join(NonEmpty(Chunks(Sentences(CleanTextForTts(text)), maxLen))) == CleanTextForTts(text)
  {
    CleanedForm(text);
    RejoinCleanText(CleanTextForTts(text), maxLen);
  }
}
