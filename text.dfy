/** Character classes and Python's `str.strip()` as used throughout app.py. */
module Text {

  /** Python's whitespace: the characters `str.isspace()`, `str.strip()` and the
      regular-expression class `\s` (on `str` patterns) all agree on. */
  predicate IsSpace(c: char) {
    ('\t' <= c <= '\r') || ('\U{1C}' <= c <= '\U{1F}') || c == ' '
    || c == '\U{85}' || c == '\U{A0}' || c == '\U{1680}'
    || ('\U{2000}' <= c <= '\U{200A}')
    || c == '\U{2028}' || c == '\U{2029}' || c == '\U{202F}' || c == '\U{205F}' || c == '\U{3000}'
  }

  /** Sentence-ending punctuation, the class `[.!?]` of app.py's regular expressions. */
  predicate IsStop(c: char) {
    c == '.' || c == '!' || c == '?'
  }

  /** Sentence-ending punctuation is not whitespace. */
  lemma StopIsNotSpace(c: char)
    requires IsStop(c)
    ensures !IsSpace(c)
  {
  }

  ghost predicate AllSpace(s: string) {
    forall i :: 0 <= i < |s| ==> IsSpace(s[i])
  }

  /** No leading and no trailing whitespace (and not empty). */
  ghost predicate Tight(s: string) {
    s != [] && !IsSpace(s[0]) && !IsSpace(s[|s| - 1])
  }

  /** Removes leading whitespace. */
  function TrimLeft(s: string): (r: string)
    ensures |r| <= |s| && r == s[|s| - |r|..]
    ensures r != [] ==> !IsSpace(r[0])
    decreases |s|
  {
    if s != [] && IsSpace(s[0]) then TrimLeft(s[1..]) else s
  }

  /** What `TrimLeft` removes is whitespace. */
  lemma {:induction false} TrimLeftCut(s: string)
    ensures forall i :: 0 <= i < |s| - |TrimLeft(s)| ==> IsSpace(s[i])
    decreases |s|
  {
    if s != [] && IsSpace(s[0]) {
      TrimLeftCut(s[1..]);
      forall i | 1 <= i < |s| - |TrimLeft(s)| ensures IsSpace(s[i]) {
        assert s[i] == s[1..][i - 1];
      }
    }
  }

  /** Removes trailing whitespace. */
  function TrimRight(s: string): (r: string)
    ensures |r| <= |s| && r == s[..|r|]
    ensures r != [] ==> !IsSpace(r[|r| - 1])
    decreases |s|
  {
    if s != [] && IsSpace(s[|s| - 1]) then TrimRight(s[..|s| - 1]) else s
  }

  /** What `TrimRight` removes is whitespace. */
  lemma {:induction false} TrimRightCut(s: string)
    ensures forall i :: |TrimRight(s)| <= i < |s| ==> IsSpace(s[i])
    decreases |s|
  {
    if s != [] && IsSpace(s[|s| - 1]) {
      var p := s[..|s| - 1];
      TrimRightCut(p);
      forall i | |TrimRight(s)| <= i < |s| - 1 ensures IsSpace(s[i]) {
        assert s[i] == p[i];
      }
    }
  }

  /** Python's `s.strip()`: `s` without its leading and trailing whitespace. */
  function Strip(s: string): (r: string)
    ensures |r| <= |s|
    ensures r != [] ==> !IsSpace(r[0]) && !IsSpace(r[|r| - 1])
  {
    TrimRight(TrimLeft(s))
  }

  /** `Strip(s)` is empty exactly when `s` is all whitespace. */
  lemma StripEmpty(s: string)
    ensures Strip(s) == [] <==> AllSpace(s)
  {
    var l := TrimLeft(s);
    var a := |s| - |l|;
    TrimLeftCut(s);
    if TrimRight(l) == [] {
      TrimRightCut(l);
      assert a == |s|;
    } else {
      assert l[0] == s[a];
    }
  }

  /** Text without leading or trailing whitespace is its own strip. */
  lemma StripTight(s: string)
    requires s == [] || Tight(s)
    ensures Strip(s) == s
  {
  }

  /** Where `Strip` cuts: `Strip(s)` is `s[a..a + |Strip(s)|]` for the `a` below, and
      everything cut off is whitespace. */
  lemma StripCut(s: string) returns (a: nat)
    ensures a + |Strip(s)| <= |s| && Strip(s) == s[a..a + |Strip(s)|]
    ensures forall i :: 0 <= i < a ==> IsSpace(s[i])
    ensures forall i :: a + |Strip(s)| <= i < |s| ==> IsSpace(s[i])
  {
    a := |s| - |TrimLeft(s)|;
    StripSlice(s, a);
    StripCutSpaces(s, a);
  }

  lemma StripSlice(s: string, a: nat)
    requires a == |s| - |TrimLeft(s)|
    ensures a + |Strip(s)| <= |s| && Strip(s) == s[a..a + |Strip(s)|]
  {
    var l := TrimLeft(s);
    var r := TrimRight(l);
    assert Strip(s) == r;
    DropTake(s, a, |r|);
  }

  /** Taking from a suffix is a slice. */
  lemma DropTake<T>(s: seq<T>, a: nat, n: nat)
    requires a + n <= |s|
    ensures s[a..][..n] == s[a..a + n]
  {
  }

  /** Position `j` of the suffix from `a` is position `a + j` of `s`. */
  lemma SuffixAt<T>(s: seq<T>, a: nat)
    requires a <= |s|
    ensures forall j :: 0 <= j < |s| - a ==> s[a..][j] == s[a + j]
  {
  }

  /** Appending `y` keeps every position of `xs` and puts `y` after them. */
  lemma SnocAt<T>(xs: seq<T>, y: T)
    ensures forall k :: 0 <= k < |xs| ==> (xs + [y])[k] == xs[k]
    ensures (xs + [y])[|xs|] == y
  {
  }

  /** The head and tail of a concatenation with a non-empty first part. */
  lemma TailAppend<T>(a: seq<T>, b: seq<T>)
    requires a != []
    ensures (a + b)[0] == a[0] && (a + b)[1..] == a[1..] + b
  {
  }

  /** Concatenation is associative. */
  lemma Assoc<T>(x: seq<T>, y: seq<T>, z: seq<T>)
    ensures x + (y + z) == (x + y) + z
  {
  }

  /** Cutting `s` at `k` and `e` and putting the parts together gives `s` back. */
  lemma ThreeParts<T>(s: seq<T>, k: nat, e: nat)
    requires k <= e <= |s|
    ensures s[..k] + s[k..e] + s[e..] == s
  {
    assert s[..k] + s[k..e] == s[..e];
    assert s[..e] + s[e..] == s;
  }

  lemma StripCutSpaces(s: string, a: nat)
    requires a == |s| - |TrimLeft(s)|
    ensures forall i :: 0 <= i < a ==> IsSpace(s[i])
    ensures forall i :: a + |Strip(s)| <= i < |s| ==> IsSpace(s[i])
  {
    TrimLeftCut(s);
    StripCutRight(s, a);
  }

  lemma StripCutRight(s: string, a: nat)
    requires a == |s| - |TrimLeft(s)|
    ensures forall i :: a + |Strip(s)| <= i < |s| ==> IsSpace(s[i])
  {
    var l := TrimLeft(s);
    assert l == s[a..];
    SuffixAt(s, a);
    var m := |TrimRight(l)|;
    assert forall j :: m <= j < |l| ==> IsSpace(l[j]) by {
      TrimRightCut(l);
    }
    forall i | a + m <= i < |s| ensures IsSpace(s[i]) {
      assert IsSpace(l[i - a]);
    }
  }

  /** A slice of whitespace positions is whitespace. */
  lemma SpaceSlice(s: string, a: nat, b: nat)
    requires a <= b <= |s|
    requires forall i :: a <= i < b ==> IsSpace(s[i])
    ensures AllSpace(s[a..b])
  {
    forall i | 0 <= i < b - a ensures IsSpace(s[a..b][i]) {
      assert s[a..b][i] == s[a + i];
    }
  }

  /** Text that is not all whitespace strips to a tight string. */
  lemma StripNonBlank(s: string)
    requires !AllSpace(s)
    ensures Tight(Strip(s))
  {
    StripEmpty(s);
  }

  lemma StripLeadingSpace(s: string)
    ensures Strip(" " + s) == Strip(s)
  {
    assert (" " + s)[1..] == s;
  }
}
