/**
 * The behaviour of the Python `str` operations the scripts rely on:
 * `strip()`, `strip(chars)`, `startswith`, `in`, `split(sep, 1)`,
 * `split(sep)`, `split()`, `int(...)` and `str(n)` for a natural number.
 */
module PyStr {
  import opened Wrappers

  /**
   * `c.isspace()`: the characters Python counts as whitespace; `strip()` and
   * `split()` without arguments use exactly these.
   */
  predicate IsSpace(c: char)
  {
    || '\t' <= c <= '\r'
    || '\U{001C}' <= c <= ' '
    || c == '\U{0085}' || c == '\U{00A0}' || c == '\U{1680}'
    || '\U{2000}' <= c <= '\U{200A}'
    || c == '\U{2028}' || c == '\U{2029}' || c == '\U{202F}' || c == '\U{205F}' || c == '\U{3000}'
  }

  const Whitespace: set<char> := set c: char | '\t' <= c <= '\U{3000}' && IsSpace(c)

  /** Every character of s belongs to cs. */
  predicate AllIn(s: string, cs: set<char>)
  {
    forall i :: 0 <= i < |s| ==> s[i] in cs
  }

  /** No character of s belongs to cs. */
  predicate NoneIn(s: string, cs: set<char>)
  {
    forall i :: 0 <= i < |s| ==> s[i] !in cs
  }

  predicate NoWhitespace(w: string)
  {
    NoneIn(w, Whitespace)
  }

  /** What `split()` can return as one field: a non-empty run of non-whitespace characters. */
  predicate IsField(w: string)
  {
    w != [] && NoWhitespace(w)
  }

  /** `s.startswith(prefix)` */
  predicate StartsWith(s: string, prefix: string)
  {
    prefix <= s
  }

  /** `sub in s` for strings: some slice of s equals sub. */
  predicate Contains(s: string, sub: string)
    decreases |s|
  {
    sub <= s || (s != [] && Contains(s[1..], sub))
  }

  /** A string that contains sub + more also contains sub. */
  lemma {:induction false} ContainsPrefixOf(s: string, sub: string, more: string)
    requires Contains(s, sub + more)
    ensures Contains(s, sub)
    decreases |s|
  {
    if sub + more <= s {
      assert s[..|sub|] == (sub + more)[..|sub|] == sub;
    } else {
      ContainsPrefixOf(s[1..], sub, more);
    }
  }

  /** The number of leading characters of s that belong to cs. */
  function LeadingIn(s: string, cs: set<char>): (n: nat)
    ensures n <= |s|
    ensures n < |s| ==> s[n] !in cs
    decreases |s|
  {
    if s != [] && s[0] in cs then 1 + LeadingIn(s[1..], cs) else 0
  }

  /** The characters LeadingIn counts all belong to cs. */
  lemma {:induction false} LeadingInAllIn(s: string, cs: set<char>)
    ensures AllIn(s[..LeadingIn(s, cs)], cs)
    decreases |s|
  {
    if s != [] && s[0] in cs {
      LeadingInAllIn(s[1..], cs);
      assert s[..LeadingIn(s, cs)] == [s[0]] + s[1..][..LeadingIn(s[1..], cs)];
    }
  }

  /** The number of trailing characters of s that belong to cs. */
  function TrailingIn(s: string, cs: set<char>): (n: nat)
    ensures n <= |s|
    ensures n < |s| ==> s[|s| - n - 1] !in cs
    decreases |s|
  {
    if s != [] && s[|s| - 1] in cs then 1 + TrailingIn(s[..|s| - 1], cs) else 0
  }

  /** The characters TrailingIn counts all belong to cs. */
  lemma {:induction false} TrailingInAllIn(s: string, cs: set<char>)
    ensures AllIn(s[|s| - TrailingIn(s, cs)..], cs)
    decreases |s|
  {
    if s != [] && s[|s| - 1] in cs {
      var init, n := s[..|s| - 1], TrailingIn(s, cs);
      TrailingInAllIn(init, cs);
      var tail, initTail := s[|s| - n..], init[|init| - (n - 1)..];
      forall i | 0 <= i < n ensures tail[i] in cs {
        if i < n - 1 {
          assert tail[i] == initTail[i];
        }
      }
    }
  }

  /** `s.lstrip(chars)` */
  function TrimLeft(s: string, cs: set<char>): string
  {
    s[LeadingIn(s, cs)..]
  }

  /** `s.rstrip(chars)` */
  function TrimRight(s: string, cs: set<char>): string
  {
    s[..|s| - TrailingIn(s, cs)]
  }

  /** `s.strip(chars)`; `s.strip()` is `Strip(s, Whitespace)`. */
  function Strip(s: string, cs: set<char>): string
  {
    TrimRight(TrimLeft(s, cs), cs)
  }

  /**
   * Stripping removes characters of cs from both ends and nothing else: the
   * result neither starts nor ends with one, a string with none is unchanged
   * and a string made only of them becomes empty.
   */
  lemma StripMeaning(s: string, cs: set<char>)
    ensures |Strip(s, cs)| <= |s|
    ensures Strip(s, cs) != [] ==> Strip(s, cs)[0] !in cs && Strip(s, cs)[|Strip(s, cs)| - 1] !in cs
    ensures NoneIn(s, cs) ==> Strip(s, cs) == s
    ensures AllIn(s, cs) ==> Strip(s, cs) == []
    ensures exists l, r :: s == l + Strip(s, cs) + r && AllIn(l, cs) && AllIn(r, cs)
  {
    assert |Strip(s, cs)| <= |s| && (Strip(s, cs) != [] ==> Strip(s, cs)[0] !in cs && Strip(s, cs)[|Strip(s, cs)| - 1] !in cs) by {
      StripEnds(s, cs);
    }
    assert NoneIn(s, cs) ==> Strip(s, cs) == s by {
      if NoneIn(s, cs) {
        StripNoneIn(s, cs);
      }
    }
    assert AllIn(s, cs) ==> Strip(s, cs) == [] by {
      if AllIn(s, cs) {
        StripAllIn(s, cs);
      }
    }
    StripDecomposes(s, cs);
  }

  /** The stripped string is no longer than s and has no cs character at either end. */
  lemma StripEnds(s: string, cs: set<char>)
    ensures |Strip(s, cs)| <= |s|
    ensures Strip(s, cs) != [] ==> Strip(s, cs)[0] !in cs && Strip(s, cs)[|Strip(s, cs)| - 1] !in cs
  {
    var t := TrimLeft(s, cs);
    var m := Strip(s, cs);
    assert m == t[..|t| - TrailingIn(t, cs)];
    assert m != [] ==> m[0] == t[0] && m[|m| - 1] == t[|t| - TrailingIn(t, cs) - 1];
    assert t != [] ==> t[0] == s[LeadingIn(s, cs)];
  }

  /** A string without cs characters is left as it is. */
  lemma StripNoneIn(s: string, cs: set<char>)
    requires NoneIn(s, cs)
    ensures Strip(s, cs) == s
  {
    assert s != [] ==> s[0] !in cs && s[|s| - 1] !in cs;
    StripKeeps(s, cs);
  }

  /** A string made only of cs characters is stripped to nothing. */
  lemma StripAllIn(s: string, cs: set<char>)
    requires AllIn(s, cs)
    ensures Strip(s, cs) == []
  {
    assert LeadingIn(s, cs) == |s|;
  }

  /** The run of cs characters that Strip removes from the front of s. */
  function LeftRun(s: string, cs: set<char>): string
  {
    s[..LeadingIn(s, cs)]
  }

  /** The run of cs characters that Strip removes from the back of s. */
  function RightRun(s: string, cs: set<char>): string
  {
    var t := TrimLeft(s, cs);
    t[|t| - TrailingIn(t, cs)..]
  }

  /** Cutting n characters off the front and then k off the back leaves three pieces that rebuild s. */
  lemma CutBothEnds(s: string, n: nat, k: nat)
    requires n <= |s| && k <= |s[n..]|
    ensures s == s[..n] + s[n..][..|s[n..]| - k] + s[n..][|s[n..]| - k..]
  {
    var t := s[n..];
    assert s == s[..n] + t;
    assert t == t[..|t| - k] + t[|t| - k..];
  }

  /** s is its leading run, the stripped string and its trailing run, in that order. */
  lemma StripSplits(s: string, cs: set<char>)
    ensures s == LeftRun(s, cs) + Strip(s, cs) + RightRun(s, cs)
  {
    CutBothEnds(s, LeadingIn(s, cs), TrailingIn(TrimLeft(s, cs), cs));
  }

  /** Both runs that Strip removes consist of cs characters only. */
  lemma StripRunsIn(s: string, cs: set<char>)
    ensures AllIn(LeftRun(s, cs), cs) && AllIn(RightRun(s, cs), cs)
  {
    LeadingInAllIn(s, cs);
    TrailingInAllIn(TrimLeft(s, cs), cs);
  }

  /** s is a run of cs characters, the stripped string and another run of cs characters. */
  lemma StripDecomposes(s: string, cs: set<char>)
    ensures exists l, r :: s == l + Strip(s, cs) + r && AllIn(l, cs) && AllIn(r, cs)
  {
    var l, r := LeftRun(s, cs), RightRun(s, cs);
    StripSplits(s, cs);
    StripRunsIn(s, cs);
    assert s == l + Strip(s, cs) + r && AllIn(l, cs) && AllIn(r, cs);
  }

  /** A string whose two ends are outside cs is left as it is. */
  lemma StripKeeps(s: string, cs: set<char>)
    requires s == [] || (s[0] !in cs && s[|s| - 1] !in cs)
    ensures Strip(s, cs) == s
  {
    assert TrimLeft(s, cs) == s;
  }

  /** One character of cs on each side of m is removed, and nothing of m. */
  lemma StripSurrounded(m: string, left: char, right: char, cs: set<char>)
    requires left in cs && right in cs
    requires m != [] && m[0] !in cs && m[|m| - 1] !in cs
    ensures Strip([left] + m + [right], cs) == m
  {
    var s := [left] + m + [right];
    assert s[1..] == m + [right];
    assert LeadingIn(s, cs) == 1 by {
      assert LeadingIn(s[1..], cs) == 0;
    }
    var t := TrimLeft(s, cs);
    assert t == m + [right];
    assert t[..|t| - 1] == m;
    assert TrailingIn(t, cs) == 1 by {
      assert TrailingIn(t[..|t| - 1], cs) == 0;
    }
  }

  /** A character of cs after m is removed, and nothing of m. */
  lemma StripTrailing(m: string, right: char, cs: set<char>)
    requires right in cs
    requires m != [] && m[0] !in cs && m[|m| - 1] !in cs
    ensures Strip(m + [right], cs) == m
  {
    var s := m + [right];
    assert TrimLeft(s, cs) == s;
    assert s[..|s| - 1] == m;
    assert TrailingIn(s, cs) == 1 by {
      assert TrailingIn(s[..|s| - 1], cs) == 0;
    }
  }

  /** A run of cs characters in front of x, where x starts outside cs, is exactly what LeadingIn counts. */
  lemma {:induction false} LeadingInAfterRun(l: string, x: string, cs: set<char>)
    requires AllIn(l, cs)
    requires x != [] && x[0] !in cs
    ensures LeadingIn(l + x, cs) == |l|
    decreases |l|
  {
    if l == [] {
      assert l + x == x;
    } else {
      var rest := l[1..];
      assert AllIn(rest, cs) by {
        forall i | 0 <= i < |rest| ensures rest[i] in cs {
          assert rest[i] == l[i + 1];
        }
      }
      LeadingInAfterRun(rest, x, cs);
      assert (l + x)[0] == l[0] && l[0] in cs;
      assert (l + x)[1..] == rest + x;
    }
  }

  /** A run of cs characters after x, where x ends outside cs, is exactly what TrailingIn counts. */
  lemma {:induction false} TrailingInBeforeRun(x: string, r: string, cs: set<char>)
    requires AllIn(r, cs)
    requires x != [] && x[|x| - 1] !in cs
    ensures TrailingIn(x + r, cs) == |r|
    decreases |r|
  {
    if r == [] {
      assert x + r == x;
    } else {
      var init := r[..|r| - 1];
      assert AllIn(init, cs) by {
        forall i | 0 <= i < |init| ensures init[i] in cs {
          assert init[i] == r[i];
        }
      }
      TrailingInBeforeRun(x, init, cs);
      var s := x + r;
      assert s[|s| - 1] == r[|r| - 1] && r[|r| - 1] in cs;
      assert s[..|s| - 1] == x + init;
    }
  }

  /**
   * `strip` is determined by its result: whenever s is a run of cs
   * characters, a string m that starts and ends outside cs, and another run,
   * stripping s gives m.
   */
  lemma StripOf(l: string, m: string, r: string, cs: set<char>)
    requires AllIn(l, cs) && AllIn(r, cs)
    requires m != [] && m[0] !in cs && m[|m| - 1] !in cs
    ensures Strip(l + m + r, cs) == m
  {
    var s := l + m + r;
    assert s == l + (m + r);
    LeadingInAfterRun(l, m + r, cs);
    assert TrimLeft(s, cs) == m + r;
    TrailingInBeforeRun(m, r, cs);
    assert (m + r)[..|m + r| - |r|] == m;
  }

  /** A run of cs characters after a string that starts and ends outside cs is stripped away. */
  lemma StripTrailingRun(m: string, r: string, cs: set<char>)
    requires AllIn(r, cs)
    requires m != [] && m[0] !in cs && m[|m| - 1] !in cs
    ensures Strip(m + r, cs) == m
  {
    StripOf([], m, r, cs);
    assert [] + m + r == m + r;
  }

  /** The position of the first c in s, if any. */
  function IndexOf(s: string, c: char): (r: Option<nat>)
    ensures r.None? <==> c !in s
    ensures r.Some? ==> r.value < |s| && s[r.value] == c
    decreases |s|
  {
    if s == [] then None
    else if s[0] == c then Some(0)
    else match IndexOf(s[1..], c)
      case None => None
      case Some(i) => Some(i + 1)
  }

  /** No c comes before the position IndexOf finds. */
  lemma {:induction false} IndexOfFirst(s: string, c: char)
    requires c in s
    ensures c !in s[..IndexOf(s, c).value]
    decreases |s|
  {
    if s[0] != c {
      assert c in s[1..] by {
        var k :| 0 <= k < |s| && s[k] == c;
        assert s[1..][k - 1] == c;
      }
      IndexOfFirst(s[1..], c);
      var i := IndexOf(s[1..], c).value;
      assert s[..i + 1] == [s[0]] + s[1..][..i];
    }
  }

  /** `s.split(c, 1)` when c occurs in s: the text before the first c and the text after it. */
  function SplitOnce(s: string, c: char): (r: Option<(string, string)>)
    ensures r.None? <==> c !in s
  {
    match IndexOf(s, c)
    case None => None
    case Some(i) => Some((s[..i], s[i + 1..]))
  }

  /** The two parts of a split surround the first c. */
  lemma SplitOnceParts(s: string, c: char)
    requires c in s
    ensures var (before, after) := SplitOnce(s, c).value;
      s == before + [c] + after && c !in before
  {
    IndexOfFirst(s, c);
    var i := IndexOf(s, c).value;
    assert s == s[..i] + [c] + s[i + 1..];
  }

  /** A split at c is determined by the part before c containing no c. */
  lemma SplitOnceUnique(s: string, c: char, before: string, after: string)
    requires s == before + [c] + after && c !in before
    ensures SplitOnce(s, c) == Some((before, after))
  {
    assert s[|before|] == c;
    SplitOnceParts(s, c);
    var r := SplitOnce(s, c).value;
    assert r.0 == before;
    assert r.1 == s[|before| + 1..] == after;
  }

  /** `s.split(c)`: the pieces between the occurrences of c, empty ones included. */
  function Split(s: string, c: char): (r: seq<string>)
    ensures |r| >= 1
    ensures forall i :: 0 <= i < |r| ==> c !in r[i]
    ensures |r| == 1 <==> c !in s
    decreases |s|
  {
    match SplitOnce(s, c)
    case None => [s]
    case Some((before, after)) =>
      SplitOnceParts(s, c);
      [before] + Split(after, c)
  }

  /** Splitting after a first line free of c leaves the split of the rest. */
  lemma SplitAfterFirst(first: string, rest: string, c: char)
    requires c !in first
    ensures Split(first + [c] + rest, c) == [first] + Split(rest, c)
  {
    SplitOnceUnique(first + [c] + rest, c, first, rest);
  }

  /** `c.join(parts)` for a one-character separator. */
  function Join(parts: seq<string>, c: char): string
  {
    if parts == [] then []
    else if |parts| == 1 then parts[0]
    else parts[0] + [c] + Join(parts[1..], c)
  }

  /** Joining the pieces of a split gives back the string. */
  lemma {:induction false} JoinSplit(s: string, c: char)
    ensures Join(Split(s, c), c) == s
    decreases |s|
  {
    match SplitOnce(s, c)
    case None =>
    case Some((before, after)) =>
      SplitOnceParts(s, c);
      JoinSplit(after, c);
  }

  /** Splitting a join of pieces that do not contain the separator gives back the pieces. */
  lemma {:induction false} SplitJoin(parts: seq<string>, c: char)
    requires |parts| >= 1
    requires forall i :: 0 <= i < |parts| ==> c !in parts[i]
    ensures Split(Join(parts, c), c) == parts
  {
    if |parts| > 1 {
      SplitOnceUnique(Join(parts, c), c, parts[0], Join(parts[1..], c));
      SplitJoin(parts[1..], c);
    }
  }

  /** The length of the leading run of non-whitespace characters of s. */
  function TokenLength(s: string): (n: nat)
    ensures n <= |s|
    ensures NoWhitespace(s[..n])
    ensures n < |s| ==> s[n] in Whitespace
    decreases |s|
  {
    if s == [] || s[0] in Whitespace then 0 else 1 + TokenLength(s[1..])
  }

  /**
   * `s.split()`: the maximal runs of non-whitespace characters, in order;
   * leading, trailing and repeated whitespace produce no empty fields.
   */
  function SplitWhitespace(s: string): (r: seq<string>)
    decreases |s|
  {
    var t := TrimLeft(s, Whitespace);
    if t == [] then []
    else
      var n := TokenLength(t);
      assert n > 0;
      [t[..n]] + SplitWhitespace(t[n..])
  }

  /** Every field of a whitespace split is non-empty and free of whitespace. */
  lemma {:induction false} SplitWhitespaceFields(s: string)
    ensures forall i :: 0 <= i < |SplitWhitespace(s)| ==> SplitWhitespace(s)[i] != [] && NoWhitespace(SplitWhitespace(s)[i])
    decreases |s|
  {
    var t := TrimLeft(s, Whitespace);
    if t != [] {
      var n := TokenLength(t);
      var fields, rest := SplitWhitespace(s), SplitWhitespace(t[n..]);
      SplitWhitespaceFields(t[n..]);
      assert fields == [t[..n]] + rest;
      forall i | 0 <= i < |fields|
        ensures fields[i] != [] && NoWhitespace(fields[i])
      {
        if i > 0 {
          assert fields[i] == rest[i - 1];
        }
      }
    }
  }

  /** A non-empty field followed by whitespace, or by nothing, is split off first. */
  lemma SplitWhitespaceLeading(w: string, x: string)
    requires w != [] && NoWhitespace(w)
    requires x == [] || x[0] in Whitespace
    ensures SplitWhitespace(w + x) == [w] + SplitWhitespace(x)
  {
    var s := w + x;
    assert TrimLeft(s, Whitespace) == s;
    var n := TokenLength(s);
    if x != [] {
      assert s[|w|] == x[0];
    }
    assert n == |w|;
    assert s[..n] == w && s[n..] == x;
  }

  /** A field followed by a space is split off, and the space is dropped. */
  lemma SplitWhitespaceField(w: string, x: string)
    requires w != [] && NoWhitespace(w)
    ensures SplitWhitespace(w + ([' '] + x)) == [w] + SplitWhitespace(x)
  {
    SplitWhitespaceLeading(w, [' '] + x);
    assert ([' '] + x)[1..] == x;
    assert TrimLeft([' '] + x, Whitespace) == TrimLeft(x, Whitespace);
  }

  /** Leading whitespace in front of x is all stripped by `lstrip()`. */
  lemma {:induction false} TrimLeftRun(ws: string, x: string)
    requires AllIn(ws, Whitespace)
    ensures TrimLeft(ws + x, Whitespace) == TrimLeft(x, Whitespace)
    decreases |ws|
  {
    if ws == [] {
      assert ws + x == x;
    } else {
      assert ws[0] in Whitespace;
      var rest := ws[1..];
      assert AllIn(rest, Whitespace) by {
        forall i | 0 <= i < |rest| ensures rest[i] in Whitespace {
          assert rest[i] == ws[i + 1];
        }
      }
      TrimLeftRun(rest, x);
      assert (ws + x)[0] == ws[0];
      assert (ws + x)[1..] == rest + x;
    }
  }

  /** A run of whitespace in front of x adds no field. */
  lemma SplitWhitespaceSkipsRun(ws: string, x: string)
    requires AllIn(ws, Whitespace)
    ensures SplitWhitespace(ws + x) == SplitWhitespace(x)
  {
    TrimLeftRun(ws, x);
    TrimLeftRun([], x);
    assert [] + x == x;
  }

  /** A field followed by any non-empty run of whitespace is split off, and the run is dropped. */
  lemma SplitWhitespaceRun(w: string, ws: string, x: string)
    requires IsField(w) && ws != [] && AllIn(ws, Whitespace)
    ensures SplitWhitespace(w + ws + x) == [w] + SplitWhitespace(x)
  {
    var y := ws + x;
    assert w + ws + x == w + y;
    assert y[0] in Whitespace by {
      assert y[0] == ws[0];
    }
    SplitWhitespaceLeading(w, y);
    SplitWhitespaceSkipsRun(ws, x);
  }

  /** Fields separated by the given runs of whitespace, as a column-aligned table prints them. */
  function Padded(fields: seq<string>, seps: seq<string>): string
    requires |fields| >= 1 && |seps| == |fields| - 1
  {
    if |fields| == 1 then fields[0] else fields[0] + seps[0] + Padded(fields[1..], seps[1..])
  }

  /** Fields separated by any non-empty runs of whitespace split back into the same fields. */
  lemma {:induction false} SplitWhitespacePadded(fields: seq<string>, seps: seq<string>)
    requires |fields| >= 1 && |seps| == |fields| - 1
    requires forall i :: 0 <= i < |fields| ==> IsField(fields[i])
    requires forall i :: 0 <= i < |seps| ==> seps[i] != [] && AllIn(seps[i], Whitespace)
    ensures SplitWhitespace(Padded(fields, seps)) == fields
  {
    assert IsField(fields[0]);
    if |fields| == 1 {
      SplitWhitespaceLeading(fields[0], []);
      assert fields[0] + [] == fields[0];
    } else {
      var others, gaps := fields[1..], seps[1..];
      forall i | 0 <= i < |others| ensures IsField(others[i]) {
        assert others[i] == fields[i + 1];
      }
      forall i | 0 <= i < |gaps| ensures gaps[i] != [] && AllIn(gaps[i], Whitespace) {
        assert gaps[i] == seps[i + 1];
      }
      assert seps[0] != [] && AllIn(seps[0], Whitespace);
      SplitWhitespaceRun(fields[0], seps[0], Padded(others, gaps));
      SplitWhitespacePadded(others, gaps);
      assert fields == [fields[0]] + others;
    }
  }

  /** Fields joined by single spaces split back into the same fields. */
  lemma {:induction false} SplitWhitespaceJoin(fields: seq<string>)
    requires forall i :: 0 <= i < |fields| ==> IsField(fields[i])
    ensures SplitWhitespace(Join(fields, ' ')) == fields
  {
    if |fields| == 1 {
      assert IsField(fields[0]);
      SplitWhitespaceLeading(fields[0], []);
      assert fields[0] + [] == fields[0];
    } else if |fields| > 1 {
      var first, others := fields[0], fields[1..];
      assert IsField(first);
      forall i | 0 <= i < |others| ensures IsField(others[i]) {
        assert others[i] == fields[i + 1];
      }
      var rest := Join(others, ' ');
      assert Join(fields, ' ') == first + ([' '] + rest);
      SplitWhitespaceField(first, rest);
      SplitWhitespaceJoin(others);
      assert fields == [first] + others;
    }
  }

  predicate IsDigit(c: char)
  {
    '0' <= c <= '9'
  }

  /**
   * The digit strings `int()` accepts in base 10: ASCII digits, where a single
   * underscore may separate two digits (leading zeros are allowed).
   */
  predicate IsDigitString(s: string)
  {
    && |s| > 0
    && IsDigit(s[0])
    && IsDigit(s[|s| - 1])
    && (forall i :: 0 <= i < |s| ==> IsDigit(s[i]) || s[i] == '_')
    && (forall i, j :: 0 <= i < |s| && 0 <= j < |s| && j == i + 1 ==> s[i] != '_' || s[j] != '_')
  }

  /** The number the digits of s denote, underscores ignored. */
  function DigitsValue(s: string): nat
    requires forall i :: 0 <= i < |s| ==> IsDigit(s[i]) || s[i] == '_'
  {
    if s == [] then 0
    else
      var init := DigitsValue(s[..|s| - 1]);
      var last := s[|s| - 1];
      if last == '_' then init
      else
        assert IsDigit(last);
        10 * init + (last as int - '0' as int)
  }

  /** `int(s)` for a string without surrounding whitespace; None where `int` raises ValueError. */
  function ParseInt(s: string): (r: Option<int>)
    ensures r.Some? <==> IsDigitString(s) || (|s| > 1 && (s[0] == '+' || s[0] == '-') && IsDigitString(s[1..]))
  {
    if |s| > 0 && (s[0] == '+' || s[0] == '-') then
      if IsDigitString(s[1..]) then
        var n: int := DigitsValue(s[1..]);
        Some(if s[0] == '-' then -n else n)
      else None
    else if IsDigitString(s) then Some(DigitsValue(s))
    else None
  }

  function DigitChar(d: nat): (c: char)
    requires d < 10
    ensures IsDigit(c) && c as int - '0' as int == d
  {
    ('0' as int + d) as char
  }

  /** `str(n)` for a natural number: its decimal digits without leading zeros. */
  function NatToString(n: nat): (s: string)
    ensures |s| > 0 && forall i :: 0 <= i < |s| ==> IsDigit(s[i])
    ensures DigitsValue(s) == n
  {
    if n < 10 then [DigitChar(n)]
    else
      var init := NatToString(n / 10);
      var s := init + [DigitChar(n % 10)];
      assert s[..|s| - 1] == init;
      s
  }

  /** `int(str(n)) == n`. */
  lemma ParseNatToString(n: nat)
    ensures ParseInt(NatToString(n)) == Some(n)
  {
    var s := NatToString(n);
    assert IsDigitString(s);
  }

  /** The decimal form of a number is one field: digits are not whitespace. */
  lemma DigitsAreFields(n: nat)
    ensures IsField(NatToString(n))
  {
    var s := NatToString(n);
    forall i | 0 <= i < |s| ensures s[i] !in Whitespace {
      assert IsDigit(s[i]);
    }
  }

  /** `str` is injective on natural numbers. */
  lemma NatToStringInjective(m: nat, n: nat)
    requires NatToString(m) == NatToString(n)
    ensures m == n
  {
  }
}
