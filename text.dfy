/**
 * The string operations of Python's `str` that the monitor relies on:
 * strip, split, join, startswith and splitlines, over `seq<char>`.
 */
module Text {

  /** The characters for which Python's `str.isspace()` holds; `str.strip()` removes these. */
  const Whitespace: set<char> :=
    {'\U{9}', '\U{A}', '\U{B}', '\U{C}', '\U{D}', '\U{1C}', '\U{1D}', '\U{1E}', '\U{1F}',
     '\U{20}', '\U{85}', '\U{A0}', '\U{1680}',
     '\U{2000}', '\U{2001}', '\U{2002}', '\U{2003}', '\U{2004}', '\U{2005}', '\U{2006}',
     '\U{2007}', '\U{2008}', '\U{2009}', '\U{200A}',
     '\U{2028}', '\U{2029}', '\U{202F}', '\U{205F}', '\U{3000}'}

  /** The line boundaries of Python's `str.splitlines()`. */
  const LineBoundaries: set<char> :=
    {'\U{A}', '\U{B}', '\U{C}', '\U{D}', '\U{1C}', '\U{1D}', '\U{1E}', '\U{85}', '\U{2028}', '\U{2029}'}

  /** The line boundaries of iterating over a file opened in text mode (universal newlines). */
  const FileNewlines: set<char> := {'\n', '\r'}

  /** The field separators of the monitor's formats are neither whitespace nor line boundaries. */
  lemma SeparatorsNotSpace()
    ensures ':' !in Whitespace && ',' !in Whitespace && '-' !in Whitespace
    ensures ':' !in LineBoundaries && ':' !in FileNewlines
  {
  }

  /** No character of s is in cs. */
  predicate NoneOf(s: string, cs: set<char>)
  {
    forall i :: 0 <= i < |s| ==> s[i] !in cs
  }

  lemma NoneOfAppend(a: string, b: string, cs: set<char>)
    requires NoneOf(a, cs) && NoneOf(b, cs)
    ensures NoneOf(a + b, cs)
  {
    forall i | 0 <= i < |a + b| ensures (a + b)[i] !in cs {
      if i >= |a| {
        assert (a + b)[i] == b[i - |a|];
      }
    }
  }

  /** Every character of s occurs in t. */
  predicate CharsFrom(s: string, t: string)
  {
    forall c :: c in s ==> c in t
  }

  lemma NoneOfCharsFrom(s: string, t: string, cs: set<char>)
    requires CharsFrom(s, t) && NoneOf(t, cs)
    ensures NoneOf(s, cs)
  {
    forall i | 0 <= i < |s| ensures s[i] !in cs {
      assert s[i] in t;
    }
  }

  /** s neither starts nor ends with a character of cs. */
  predicate Trimmed(s: string, cs: set<char>)
  {
    s == [] || (s[0] !in cs && s[|s| - 1] !in cs)
  }

  /** s with its leading characters from cs removed. */
  function TrimStart(s: string, cs: set<char>): (r: string)
    ensures |r| <= |s| && r == s[|s| - |r|..]
    ensures r == [] || r[0] !in cs
    ensures forall i :: 0 <= i < |s| - |r| ==> s[i] in cs
    decreases |s|
  {
    if s != [] && s[0] in cs then TrimStart(s[1..], cs) else s
  }

  /** s with its trailing characters from cs removed. */
  function TrimEnd(s: string, cs: set<char>): (r: string)
    ensures |r| <= |s| && r == s[..|r|]
    ensures r == [] || r[|r| - 1] !in cs
    ensures forall i :: |r| <= i < |s| ==> s[i] in cs
    decreases |s|
  {
    if s != [] && s[|s| - 1] in cs then TrimEnd(s[..|s| - 1], cs) else s
  }

  /** r is a slice of s, and every character of s before or after that slice is in cs. */
  predicate Unpadded(r: string, s: string, cs: set<char>)
  {
    exists a, b :: 0 <= a <= b <= |s| && r == s[a..b]
      && (forall i :: 0 <= i < a ==> s[i] in cs) && (forall i :: b <= i < |s| ==> s[i] in cs)
  }

  /** Trimming both ends removes a run of cs at each end and nothing else. */
  lemma UnpaddedTrims(s: string, cs: set<char>)
    ensures Unpadded(TrimEnd(TrimStart(s, cs), cs), s, cs)
  {
    var t := TrimStart(s, cs);
    var r := TrimEnd(t, cs);
    var a := |s| - |t|;
    var b := a + |r|;
    assert r == s[a..b] by {
      assert t[..|r|] == s[a..b];
    }
    assert forall i :: 0 <= i < a ==> s[i] in cs;
    assert forall i :: b <= i < |s| ==> s[i] in cs by {
      forall i | b <= i < |s| ensures s[i] in cs {
        assert s[i] == t[i - a];
      }
    }
  }

  /** Python's `s.strip(chars)`: every leading and trailing character from cs removed. */
  function StripChars(s: string, cs: set<char>): (r: string)
    ensures Trimmed(r, cs)
    ensures Unpadded(r, s, cs)
    ensures CharsFrom(r, s)
    ensures r == [] <==> forall i :: 0 <= i < |s| ==> s[i] in cs
    ensures Trimmed(s, cs) ==> r == s
  {
    var t := TrimStart(s, cs);
    var r := TrimEnd(t, cs);
    assert CharsFrom(r, s) by {
      assert forall c :: c in r ==> c in t;
    }
    assert Unpadded(r, s, cs) by {
      UnpaddedTrims(s, cs);
    }
    assert Trimmed(r, cs) && (r == [] <==> forall i :: 0 <= i < |s| ==> s[i] in cs);
    r
  }

  /** Stripping never removes a character outside cs. */
  lemma StripCharsKeeps(s: string, cs: set<char>, c: char)
    requires c in s && c !in cs
    ensures c in StripChars(s, cs)
  {
    var t := TrimStart(s, cs);
    var i :| 0 <= i < |s| && s[i] == c;
    var j := i - (|s| - |t|);
    assert 0 <= j < |t| && t[j] == c;
    var r := TrimEnd(t, cs);
    assert j < |r| && r[j] == c;
  }

  /** One character of cs on each side of a trimmed non-empty text is stripped, and nothing else. */
  lemma StripSurrounded(a: char, s: string, b: char, cs: set<char>)
    requires a in cs && b in cs && s != [] && Trimmed(s, cs)
    ensures StripChars([a] + s + [b], cs) == s
  {
    var t := [a] + s + [b];
    var u := s + [b];
    assert t[1..] == u;
    assert u[0] == s[0];
    assert TrimStart(t, cs) == TrimStart(u, cs) == u;
    assert u[..|s|] == s;
    assert TrimEnd(u, cs) == TrimEnd(s, cs) == s;
  }

  /** Stripping text that starts with p, where p neither starts nor ends with cs, keeps p and cuts only the end. */
  lemma StripKeepsHead(p: string, q: string, cs: set<char>)
    requires p != [] && p[0] !in cs && p[|p| - 1] !in cs
    ensures |p| <= |StripChars(p + q, cs)|
    ensures StripChars(p + q, cs) == p + q[..|StripChars(p + q, cs)| - |p|]
  {
    var x := p + q;
    var r := StripChars(x, cs);
    var a, b :| 0 <= a <= b <= |x| && r == x[a..b]
      && (forall i :: 0 <= i < a ==> x[i] in cs) && (forall i :: b <= i < |x| ==> x[i] in cs);
    assert x[0] == p[0] && x[|p| - 1] == p[|p| - 1];
    assert a == 0;
    assert b >= |p|;
    assert x[..b] == p + q[..b - |p|];
  }

  /** A leading run of cs before a character outside cs is trimmed, and nothing more. */
  lemma {:induction false} TrimStartSkips(pre: string, y: string, cs: set<char>)
    requires y != [] && y[0] !in cs
    requires forall i :: 0 <= i < |pre| ==> pre[i] in cs
    ensures TrimStart(pre + y, cs) == y
  {
    if pre == [] {
      assert pre + y == y;
    } else {
      assert (pre + y)[0] == pre[0];
      assert (pre + y)[1..] == pre[1..] + y;
      TrimStartSkips(pre[1..], y, cs);
    }
  }

  /** A trailing run of cs after a character outside cs is trimmed, and nothing more. */
  lemma {:induction false} TrimEndSkips(y: string, post: string, cs: set<char>)
    requires y != [] && y[|y| - 1] !in cs
    requires forall i :: 0 <= i < |post| ==> post[i] in cs
    ensures TrimEnd(y + post, cs) == y
  {
    if post == [] {
      assert y + post == y;
    } else {
      var x := y + post;
      assert x[|x| - 1] == post[|post| - 1];
      assert x[..|x| - 1] == y + post[..|post| - 1];
      TrimEndSkips(y, post[..|post| - 1], cs);
    }
  }

  /** Stripping a run of cs on each side of a trimmed non-empty text gives that text. */
  lemma StripPadded(pre: string, s: string, post: string, cs: set<char>)
    requires s != [] && Trimmed(s, cs)
    requires forall i :: 0 <= i < |pre| ==> pre[i] in cs
    requires forall i :: 0 <= i < |post| ==> post[i] in cs
    ensures StripChars(pre + s + post, cs) == s
  {
    assert pre + s + post == pre + (s + post);
    assert (s + post)[0] == s[0];
    TrimStartSkips(pre, s + post, cs);
    TrimEndSkips(s, post, cs);
  }

  /** Python's `s.strip()`. */
  function Strip(s: string): (r: string)
    ensures Trimmed(r, Whitespace)
    ensures Unpadded(r, s, Whitespace)
    ensures CharsFrom(r, s)
    ensures r == [] <==> forall i :: 0 <= i < |s| ==> s[i] in Whitespace
    ensures Trimmed(s, Whitespace) ==> r == s
  {
    StripChars(s, Whitespace)
  }

  /** The index of the first character of s that is in cs, or |s| when there is none. */
  function IndexOfAny(s: string, cs: set<char>): (i: nat)
    ensures i <= |s|
    ensures i < |s| ==> s[i] in cs
    ensures NoneOf(s[..i], cs)
  {
    if s == [] || s[0] in cs then 0 else 1 + IndexOfAny(s[1..], cs)
  }

  lemma {:induction false} IndexOfAnyAfter(a: string, c: char, b: string, cs: set<char>)
    requires NoneOf(a, cs) && c in cs
    ensures IndexOfAny(a + [c] + b, cs) == |a|
  {
    if a != [] {
      assert (a + [c] + b)[1..] == a[1..] + [c] + b;
      IndexOfAnyAfter(a[1..], c, b, cs);
    }
  }

  lemma {:induction false} IndexOfAnyNone(s: string, cs: set<char>)
    requires NoneOf(s, cs)
    ensures IndexOfAny(s, cs) == |s|
  {
    if s != [] {
      IndexOfAnyNone(s[1..], cs);
    }
  }

  /** s is the text before position i, the character at i and the text after it. */
  lemma Around(s: string, i: nat)
    requires i < |s|
    ensures s == s[..i] + [s[i]] + s[i + 1..]
  {
  }

  /** Python's `s.split(sep)` for a one-character separator. */
  function Split(s: string, sep: char): (r: seq<string>)
    ensures |r| >= 1
    ensures forall k :: 0 <= k < |r| ==> sep !in r[k]
    ensures forall k :: 0 <= k < |r| ==> CharsFrom(r[k], s)
    ensures |r| == 1 <==> sep !in s
    decreases |s|
  {
    var i := IndexOfAny(s, {sep});
    if i == |s| then
      assert forall j :: 0 <= j < |s| ==> s[j] != sep;
      [s]
    else
      var rest := Split(s[i + 1..], sep);
      Around(s, i);
      assert forall j :: 0 <= j < |s[..i]| ==> s[..i][j] != sep;
      [s[..i]] + rest
  }

  /** The first field of a split ends at the first separator. */
  lemma SplitCons(a: string, sep: char, b: string)
    requires sep !in a
    ensures Split(a + [sep] + b, sep) == [a] + Split(b, sep)
  {
    var s := a + [sep] + b;
    assert NoneOf(a, {sep});
    IndexOfAnyAfter(a, sep, b, {sep});
    assert s[..|a|] == a && s[|a| + 1..] == b;
  }

  /** A field followed by nothing or by a separator is the first field of the split. */
  lemma SplitHead(a: string, sep: char, b: string)
    requires sep !in a && (b == [] || b[0] == sep)
    ensures Split(a + b, sep)[0] == a
  {
    if b == [] {
      assert a + b == a;
    } else {
      assert a + b == a + [sep] + b[1..];
      SplitCons(a, sep, b[1..]);
    }
  }

  /** Python's `s.split(sep, 1)` on a string that contains sep: the text before and after its first occurrence. */
  function SplitOnce(s: string, sep: char): (r: (string, string))
    requires sep in s
    ensures s == r.0 + [sep] + r.1
    ensures sep !in r.0
  {
    var i := IndexOfAny(s, {sep});
    assert i < |s|;
    assert forall j :: 0 <= j < |s[..i]| ==> s[..i][j] != sep;
    Around(s, i);
    (s[..i], s[i + 1..])
  }

  /** The split at the first separator is determined by any decomposition around a first separator. */
  lemma SplitOnceAt(s: string, sep: char, a: string, b: string)
    requires s == a + [sep] + b && sep !in a
    ensures SplitOnce(s, sep) == (a, b)
  {
    assert NoneOf(a, {sep});
    IndexOfAnyAfter(a, sep, b, {sep});
    assert s[..|a|] == a && s[|a| + 1..] == b;
  }

  /** Python's `sep.join(xs)`. */
  function Join(sep: string, xs: seq<string>): string
  {
    if xs == [] then "" else if |xs| == 1 then xs[0] else xs[0] + sep + Join(sep, xs[1..])
  }

  /** Joining a part in front of a non-empty list puts one separator after it. */
  lemma JoinCons(sep: string, x: string, xs: seq<string>)
    requires xs != []
    ensures Join(sep, [x] + xs) == x + sep + Join(sep, xs)
  {
    assert ([x] + xs)[1..] == xs;
  }

  /** Joining two non-empty lists is joining each and putting one separator between them. */
  lemma {:induction false} JoinAppend(sep: string, xs: seq<string>, ys: seq<string>)
    requires xs != [] && ys != []
    ensures Join(sep, xs + ys) == Join(sep, xs) + sep + Join(sep, ys)
  {
    if |xs| > 1 {
      assert (xs + ys)[1..] == xs[1..] + ys;
      JoinAppend(sep, xs[1..], ys);
    } else {
      assert (xs + ys)[1..] == ys;
    }
  }

  /** Splitting a join at its separator gives back the parts, when no part contains the separator. */
  lemma {:induction false} SplitJoin(sep: char, xs: seq<string>)
    requires xs != []
    requires forall k :: 0 <= k < |xs| ==> sep !in xs[k]
    ensures Split(Join([sep], xs), sep) == xs
  {
    if |xs| == 1 {
      assert Join([sep], xs) == xs[0];
    } else {
      var rest := Join([sep], xs[1..]);
      assert Join([sep], xs) == xs[0] + [sep] + rest;
      assert NoneOf(xs[0], {sep});
      IndexOfAnyAfter(xs[0], sep, rest, {sep});
      assert (xs[0] + [sep] + rest)[..|xs[0]|] == xs[0];
      assert (xs[0] + [sep] + rest)[|xs[0]| + 1..] == rest;
      SplitJoin(sep, xs[1..]);
    }
  }

  /** Joining the parts of a split at the separator gives back the string. */
  lemma {:induction false} JoinSplit(s: string, sep: char)
    ensures Join([sep], Split(s, sep)) == s
    decreases |s|
  {
    var i := IndexOfAny(s, {sep});
    if i < |s| {
      var parts := Split(s[i + 1..], sep);
      assert Split(s, sep) == [s[..i]] + parts;
      assert ([s[..i]] + parts)[1..] == parts;
      JoinSplit(s[i + 1..], sep);
      Around(s, i);
    } else {
      assert s[..i] == s;
    }
  }

  /** The lines xs written one after another, each followed by "\n". */
  function Terminated(xs: seq<string>): (r: string)
    ensures r == [] <==> xs == []
    ensures xs != [] ==> r[|r| - 1] == '\n'
  {
    if xs == [] then "" else xs[0] + "\n" + Terminated(xs[1..])
  }

  /** Writing one more line appends exactly that line and its newline. */
  lemma {:induction false} TerminatedSnoc(xs: seq<string>, x: string)
    ensures Terminated(xs + [x]) == Terminated(xs) + x + "\n"
  {
    if xs != [] {
      assert (xs + [x])[1..] == xs[1..] + [x];
      TerminatedSnoc(xs[1..], x);
    } else {
      assert Terminated([x]) == x + "\n" + Terminated([]);
    }
  }

  /**
   * The lines of s, without their boundaries, split at every character of breaks and
   * with "\r\n" counted as one boundary; a final boundary starts no further line.
   * With LineBoundaries this is Python's `s.splitlines()`; with FileNewlines it is the
   * sequence of lines a text-mode file iteration yields, less their "\n".
   */
  function Lines(s: string, breaks: set<char>): (r: seq<string>)
    ensures forall k :: 0 <= k < |r| ==> NoneOf(r[k], breaks)
    decreases |s|
  {
    if s == [] then []
    else
      var i := IndexOfAny(s, breaks);
      if i == |s| then
        assert s[..i] == s;
        [s]
      else
        var next := if s[i] == '\r' && i + 1 < |s| && s[i + 1] == '\n' then i + 2 else i + 1;
        [s[..i]] + Lines(s[next..], breaks)
  }

  /** The lines of a "\n"-join are the joined lines, when none holds a break and the last is not empty. */
  lemma {:induction false} LinesJoin(xs: seq<string>, breaks: set<char>)
    requires '\n' in breaks && xs != [] && xs[|xs| - 1] != []
    requires forall k :: 0 <= k < |xs| ==> NoneOf(xs[k], breaks)
    ensures Lines(Join("\n", xs), breaks) == xs
  {
    if |xs| == 1 {
      IndexOfAnyNone(xs[0], breaks);
      assert xs[0][..|xs[0]|] == xs[0];
    } else {
      var s := Join("\n", xs);
      var rest := Join("\n", xs[1..]);
      assert s == xs[0] + ['\n'] + rest;
      IndexOfAnyAfter(xs[0], '\n', rest, breaks);
      assert s[..|xs[0]|] == xs[0];
      assert s[|xs[0]| + 1..] == rest;
      LinesJoin(xs[1..], breaks);
    }
  }

  /** Reading back lines written with Terminated gives the same lines. */
  lemma {:induction false} LinesTerminated(xs: seq<string>, breaks: set<char>)
    requires '\n' in breaks
    requires forall k :: 0 <= k < |xs| ==> NoneOf(xs[k], breaks)
    ensures Lines(Terminated(xs), breaks) == xs
  {
    if xs != [] {
      var s := Terminated(xs);
      var rest := Terminated(xs[1..]);
      assert s == xs[0] + ['\n'] + rest;
      IndexOfAnyAfter(xs[0], '\n', rest, breaks);
      assert s[..|xs[0]|] == xs[0];
      assert s[|xs[0]| + 1..] == rest;
      LinesTerminated(xs[1..], breaks);
    }
  }

  /** The text of s that Lines does not keep: one final "\n", if s ends with one. */
  function FinalNewline(s: string): string
  {
    if s != [] && s[|s| - 1] == '\n' then "\n" else ""
  }

  /** Joining the lines of a text whose only break is "\n" gives back the text, less a final "\n". */
  lemma {:induction false} LinesRebuild(s: string, breaks: set<char>)
    requires '\n' in breaks
    requires forall i :: 0 <= i < |s| && s[i] in breaks ==> s[i] == '\n'
    ensures Join("\n", Lines(s, breaks)) + FinalNewline(s) == s
    decreases |s|
  {
    if s != [] {
      var i := IndexOfAny(s, breaks);
      if i == |s| {
        assert s[..i] == s;
        assert Lines(s, breaks) == [s];
        assert s[|s| - 1] !in breaks by {
          assert s[..i][|s| - 1] == s[|s| - 1];
        }
      } else {
        var rest := s[i + 1..];
        assert forall j :: 0 <= j < |rest| && rest[j] in breaks ==> rest[j] == '\n' by {
          forall j | 0 <= j < |rest| ensures rest[j] == s[i + 1 + j] {
          }
        }
        LinesRebuild(rest, breaks);
        LinesRebuildStep(s, i, breaks);
      }
    }
  }

  /** One "\n" more in front of a text that rebuilds from its lines. */
  lemma LinesRebuildStep(s: string, i: nat, breaks: set<char>)
    requires i < |s| && IndexOfAny(s, breaks) == i && s[i] == '\n'
    requires Join("\n", Lines(s[i + 1..], breaks)) + FinalNewline(s[i + 1..]) == s[i + 1..]
    ensures Join("\n", Lines(s, breaks)) + FinalNewline(s) == s
  {
    var rest := s[i + 1..];
    var ls := Lines(rest, breaks);
    assert Lines(s, breaks) == [s[..i]] + ls;
    Around(s, i);
    if rest == [] {
      LinesRebuildLast(s, i, ls);
    } else {
      assert ls != [];
      assert FinalNewline(rest) == FinalNewline(s) by {
        assert rest[|rest| - 1] == s[|s| - 1];
      }
      LinesRebuildMore(s, i, ls, FinalNewline(s));
    }
  }

  /** A text ending at its first "\n" is its one line and that "\n". */
  lemma LinesRebuildLast(s: string, i: nat, ls: seq<string>)
    requires i < |s| && s[i] == '\n' && s[i + 1..] == [] && ls == []
    requires s == s[..i] + [s[i]] + s[i + 1..]
    ensures Join("\n", [s[..i]] + ls) + FinalNewline(s) == s
  {
    assert [s[..i]] + ls == [s[..i]];
  }

  /** The first line, "\n", then the rest rebuilt from its lines. */
  lemma LinesRebuildMore(s: string, i: nat, ls: seq<string>, tail: string)
    requires i < |s| && s[i] == '\n' && ls != []
    requires s == s[..i] + [s[i]] + s[i + 1..]
    requires Join("\n", ls) + tail == s[i + 1..]
    ensures Join("\n", [s[..i]] + ls) + tail == s
  {
    JoinCons("\n", s[..i], ls);
    assert s[..i] + "\n" + Join("\n", ls) + tail == s[..i] + [s[i]] + (Join("\n", ls) + tail);
  }
}
