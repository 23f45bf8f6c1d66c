/** The storyteller decoration app.py applies to each chunk before speech synthesis:
    an extra stop after every sentence end, a space after every comma, and a
    trailing `" ..."`. */
module Storyteller {
  import opened Text
  import opened SentenceSplit

  /** The number of positions of `s` where a space follows `.`, `!` or `?`. */
  function Breaks(s: string): nat
    decreases |s|
  {
    if s == [] then 0 else Breaks(s[..|s| - 1]) + (if IsBreak(s, |s| - 1) then 1 else 0)
  }

  /** `re.sub(r'(?<=[.!?]) ', '. ', s)`: every space that follows `.`, `!` or `?` in
      `s` becomes `". "`. Each such space adds one character; the last character is
      unchanged. */
  function AddStops(s: string): (r: string)
    ensures |r| == |s| + Breaks(s)
    ensures s != [] ==> r != [] && r[|r| - 1] == s[|s| - 1]
    decreases |s|
  {
    if s == [] then []
    else
      var p := s[..|s| - 1];
      assert s == p + [s[|s| - 1]];
      AddStops(p) + (if IsBreak(s, |s| - 1) then ". " else [s[|s| - 1]])
  }

  /** The number of commas in `s`. */
  function Commas(s: string): nat
    decreases |s|
  {
    if s == [] then 0 else Commas(s[..|s| - 1]) + (if s[|s| - 1] == ',' then 1 else 0)
  }

  /** Commas count additively over concatenation. */
  lemma {:induction false} CommasAppend(a: string, b: string)
    ensures Commas(a + b) == Commas(a) + Commas(b)
    decreases |b|
  {
    if b != [] {
      var b' := b[..|b| - 1];
      assert (a + b)[..|a + b| - 1] == a + b';
      CommasAppend(a, b');
    } else {
      assert a + b == a;
    }
  }

  /** `s.replace(',', ', ')`: a space after every comma. The result never ends in a
      comma. */
  function SpaceCommas(s: string): (r: string)
    ensures |r| == |s| + Commas(s)
    ensures r != [] ==> r[|r| - 1] != ','
    decreases |s|
  {
    if s == [] then []
    else
      var p := s[..|s| - 1];
      assert s == p + [s[|s| - 1]];
      SpaceCommas(p) + (if s[|s| - 1] == ',' then ", " else [s[|s| - 1]])
  }

  /** The narration marker appended to every decorated chunk. */
  const Ellipsis: string := " ..."

  /** The storyteller decoration of one chunk (app.py lines 160-163). */
  function Decorate(chunk: string): (r: string)
    ensures |r| == |chunk| + Breaks(chunk) + Commas(chunk) + |Ellipsis|
    ensures |r| >= |Ellipsis| && r[|r| - |Ellipsis|..] == Ellipsis
  {
    AddStopsKeepsCommas(chunk);
    SpaceCommas(AddStops(chunk)) + Ellipsis
  }

  /** Adding the stops leaves the commas as they are. */
  lemma {:induction false} AddStopsKeepsCommas(s: string)
    ensures Commas(AddStops(s)) == Commas(s)
    decreases |s|
  {
    if s != [] {
      var n := |s|;
      var p, c := s[..n - 1], s[n - 1];
      AddStopsKeepsCommas(p);
      assert Commas(s) == Commas(p) + (if c == ',' then 1 else 0);
      if IsBreak(s, n - 1) {
        assert AddStops(s) == AddStops(p) + ". ";
        CommasAppend(AddStops(p), ". ");
        assert Commas(". ") == 0 by {
          assert ". "[..1] == ".";
          assert "."[..0] == "";
        }
      } else {
        assert AddStops(s) == AddStops(p) + [c];
        CommasAppend(AddStops(p), [c]);
        assert Commas([c]) == (if c == ',' then 1 else 0) by {
          assert [c][..0] == [];
        }
      }
    }
  }

  /** Undoes `AddStops`: drops the `.` of every `.` and space that follow a stop. */
  function RemoveStops(t: string): string
    decreases |t|
  {
    if t == [] then []
    else if |t| >= 3 && t[|t| - 1] == ' ' && t[|t| - 2] == '.' && IsStop(t[|t| - 3]) then
      RemoveStops(t[..|t| - 2]) + " "
    else RemoveStops(t[..|t| - 1]) + [t[|t| - 1]]
  }

  /** Undoes `SpaceCommas`: drops the space after every comma. */
  function RemoveCommaSpaces(t: string): string
    decreases |t|
  {
    if t == [] then []
    else if |t| >= 2 && t[|t| - 2] == ',' && t[|t| - 1] == ' ' then
      RemoveCommaSpaces(t[..|t| - 2]) + ","
    else RemoveCommaSpaces(t[..|t| - 1]) + [t[|t| - 1]]
  }

  /** Undoes `Decorate` on a string that ends in the ellipsis. */
  function Undecorate(t: string): string
    requires |t| >= |Ellipsis|
  {
    RemoveStops(RemoveCommaSpaces(t[..|t| - |Ellipsis|]))
  }

  lemma RemoveStopsAfterStop(a: string)
    requires a != [] && IsStop(a[|a| - 1])
    ensures RemoveStops(a + ". ") == RemoveStops(a) + " "
  {
    var t := a + ". ";
    assert |t| == |a| + 2 && t[|t| - 1] == ' ' && t[|t| - 2] == '.' && t[|t| - 3] == a[|a| - 1];
    assert t[..|t| - 2] == a;
    RemoveStopsBreak(t);
  }

  lemma RemoveStopsBreak(t: string)
    requires |t| >= 3 && t[|t| - 1] == ' ' && t[|t| - 2] == '.' && IsStop(t[|t| - 3])
    ensures RemoveStops(t) == RemoveStops(t[..|t| - 2]) + " "
  {
  }

  lemma RemoveStopsPlain(a: string, c: char)
    requires c != ' ' || a == [] || a[|a| - 1] != '.'
    ensures RemoveStops(a + [c]) == RemoveStops(a) + [c]
  {
    var t := a + [c];
    assert |t| == |a| + 1 && t[|t| - 1] == c;
    if a != [] {
      assert t[|t| - 2] == a[|a| - 1];
    }
    assert t[..|t| - 1] == a;
    RemoveStopsLast(t);
  }

  lemma RemoveStopsLast(t: string)
    requires t != [] && !(|t| >= 2 && t[|t| - 1] == ' ' && t[|t| - 2] == '.')
    ensures RemoveStops(t) == RemoveStops(t[..|t| - 1]) + [t[|t| - 1]]
  {
  }

  lemma RemoveCommaSpacesAfterComma(a: string)
    ensures RemoveCommaSpaces(a + ", ") == RemoveCommaSpaces(a) + ","
  {
    var t := a + ", ";
    assert |t| == |a| + 2 && t[|t| - 1] == ' ' && t[|t| - 2] == ',';
    assert t[..|t| - 2] == a;
  }

  lemma RemoveCommaSpacesPlain(a: string, c: char)
    requires c != ' ' || a == [] || a[|a| - 1] != ','
    ensures RemoveCommaSpaces(a + [c]) == RemoveCommaSpaces(a) + [c]
  {
    var t := a + [c];
    assert |t| == |a| + 1 && t[|t| - 1] == c;
    if a != [] {
      assert t[|t| - 2] == a[|a| - 1];
    }
    assert !(|t| >= 2 && t[|t| - 2] == ',' && t[|t| - 1] == ' ');
    assert t[..|t| - 1] == a;
  }

  /** No information is lost by adding the stops. */
  lemma {:induction false} AddStopsRoundTrip(s: string)
    ensures RemoveStops(AddStops(s)) == s
    decreases |s|
  {
    if s != [] {
      var n := |s|;
      var p := s[..n - 1];
      assert s == p + [s[n - 1]];
      var a := AddStops(p);
      AddStopsRoundTrip(p);
      if IsBreak(s, n - 1) {
        assert AddStops(s) == a + ". ";
        assert a[|a| - 1] == s[n - 2];
        RemoveStopsAfterStop(a);
      } else {
        assert AddStops(s) == a + [s[n - 1]];
        assert a != [] ==> a[|a| - 1] == s[n - 2];
        RemoveStopsPlain(a, s[n - 1]);
      }
    }
  }

  /** No information is lost by spacing the commas. */
  lemma {:induction false} SpaceCommasRoundTrip(s: string)
    ensures RemoveCommaSpaces(SpaceCommas(s)) == s
    decreases |s|
  {
    if s != [] {
      var n := |s|;
      var p := s[..n - 1];
      assert s == p + [s[n - 1]];
      var a := SpaceCommas(p);
      SpaceCommasRoundTrip(p);
      if s[n - 1] == ',' {
        RemoveCommaSpacesAfterComma(a);
      } else {
        RemoveCommaSpacesPlain(a, s[n - 1]);
      }
    }
  }

  /** The decoration only adds: undoing it gives the chunk back. */
  lemma DecorateRoundTrip(chunk: string)
    ensures Undecorate(Decorate(chunk)) == chunk
  {
    var d := Decorate(chunk);
    assert d[..|d| - |Ellipsis|] == SpaceCommas(AddStops(chunk));
    SpaceCommasRoundTrip(AddStops(chunk));
    AddStopsRoundTrip(chunk);
  }

  /** Decoration is injective: distinct chunks are spoken as distinct texts. */
  lemma DecorateInjective(a: string, b: string)
    requires Decorate(a) == Decorate(b)
    ensures a == b
  {
    DecorateRoundTrip(a);
    DecorateRoundTrip(b);
  }

  /** `AddStops` of a prefix is a prefix of `AddStops`. */
  lemma {:induction false} AddStopsPrefix(s: string, m: nat)
    requires m <= |s|
    ensures AddStops(s[..m]) <= AddStops(s)
    decreases |s|
  {
    if m < |s| {
      var p := s[..|s| - 1];
      assert s[..m] == p[..m];
      AddStopsPrefix(p, m);
    } else {
      assert s[..m] == s;
    }
  }

  lemma AddStopsStep(s: string, j: nat)
    requires j < |s|
    ensures AddStops(s[..j + 1]) == AddStops(s[..j]) + (if IsBreak(s, j) then ". " else [s[j]])
  {
    var q := s[..j + 1];
    assert q[..j] == s[..j];
    assert IsBreak(q, j) == IsBreak(s, j);
  }

  /** Character `j` of `s` lands at `j` plus the number of breaks before it: the
      stopped first `j` characters, then `". "` for a space after `.`, `!` or `?` and
      the character itself otherwise, begin the stopped text. */
  lemma AddStopsLands(s: string, j: nat)
    requires j < |s|
    ensures var x := if IsBreak(s, j) then ". " else [s[j]];
      AddStops(s[..j]) + x <= AddStops(s) && |AddStops(s[..j])| == j + Breaks(s[..j])
  {
    AddStopsPrefix(s, j + 1);
    AddStopsStep(s, j);
  }

  /** `SpaceCommas` of a prefix is a prefix of `SpaceCommas`. */
  lemma {:induction false} SpaceCommasPrefix(s: string, m: nat)
    requires m <= |s|
    ensures SpaceCommas(s[..m]) <= SpaceCommas(s)
    decreases |s|
  {
    if m < |s| {
      var p := s[..|s| - 1];
      assert s[..m] == p[..m];
      SpaceCommasPrefix(p, m);
    } else {
      assert s[..m] == s;
    }
  }

  lemma SpaceCommasStep(s: string, j: nat)
    requires j < |s|
    ensures SpaceCommas(s[..j + 1]) == SpaceCommas(s[..j]) + (if s[j] == ',' then ", " else [s[j]])
  {
    var q := s[..j + 1];
    assert q[..j] == s[..j];
  }

  /** Character `j` of `s` lands at `j` plus the number of commas before it: the
      spaced first `j` characters, then `", "` for a comma and the character itself
      otherwise, begin the spaced text. */
  lemma SpaceCommasLands(s: string, j: nat)
    requires j < |s|
    ensures var x := if s[j] == ',' then ", " else [s[j]];
      SpaceCommas(s[..j]) + x <= SpaceCommas(s) && |SpaceCommas(s[..j])| == j + Commas(s[..j])
  {
    SpaceCommasPrefix(s, j + 1);
    SpaceCommasStep(s, j);
  }
}
