/** The parts of the Kotlin standard library's String API that the remapping
    engine relies on, over `string` (a sequence of UTF-16 code units in the
    JVM, a sequence of chars here).  Every delimiter the engine passes to
    these functions ("\n", " ", ".", "/") is a one-character string. */
module KotlinText {

  /** Kotlin's `Char.isWhitespace()` on the JVM: `Character.isWhitespace(c)`
      or `Character.isSpaceChar(c)`, listed by code point. */
  predicate IsWhitespace(c: char) {
    var n := c as int;
    (9 <= n <= 13) || (28 <= n <= 32)           // \t \n \v \f \r, FS GS RS US, space
    || n == 0xA0 || n == 0x1680                 // no-break space, ogham space mark
    || (0x2000 <= n <= 0x200A)                  // en quad .. hair space
    || n == 0x2028 || n == 0x2029               // line and paragraph separators
    || n == 0x202F || n == 0x205F || n == 0x3000
  }

  /** Drops the leading whitespace. */
  function TrimStart(s: string): (r: string)
    ensures |r| <= |s| && r == s[|s| - |r|..]
    ensures r == [] || !IsWhitespace(r[0])
    ensures forall k :: 0 <= k < |s| - |r| ==> IsWhitespace(s[k])
  {
    if s != [] && IsWhitespace(s[0]) then
      var r := TrimStart(s[1..]);
      assert s[|s| - |r|..] == s[1..][|s| - 1 - |r|..];
      assert forall k :: 1 <= k < |s| - |r| ==> s[k] == s[1..][k - 1];
      r
    else s
  }

  /** Drops the trailing whitespace. */
  function TrimEnd(s: string): (r: string)
    ensures |r| <= |s| && r == s[..|r|]
    ensures r == [] || !IsWhitespace(r[|r| - 1])
    ensures forall k :: |r| <= k < |s| ==> IsWhitespace(s[k])
  {
    if s != [] && IsWhitespace(s[|s| - 1]) then TrimEnd(s[..|s| - 1]) else s
  }

  /** `String.trim()`: whitespace dropped at both ends. */
  function Trim(s: string): string {
    TrimEnd(TrimStart(s))
  }

  /** The trimmed text is the longest slice of `s` that neither starts nor
      ends with whitespace, everything around it being whitespace. */
  lemma TrimSlice(s: string)
    ensures var start, r := |s| - |TrimStart(s)|, Trim(s);
      start + |r| <= |s| && r == s[start..start + |r|]
      && (forall k :: 0 <= k < start ==> IsWhitespace(s[k]))
      && (forall k :: start + |r| <= k < |s| ==> IsWhitespace(s[k]))
      && (r == [] || (!IsWhitespace(r[0]) && !IsWhitespace(r[|r| - 1])))
  {
    TrimSliceShape(s);
    TrimTrailing(s);
    TrimEnds(s);
  }

  lemma TrimSliceShape(s: string)
    ensures var start, r := |s| - |TrimStart(s)|, Trim(s);
      start + |r| <= |s| && r == s[start..start + |r|]
  {
    var u := TrimStart(s);
    var start, r := |s| - |u|, TrimEnd(u);
    SliceOfSuffix(s, start, |r|);
  }

  lemma SliceOfSuffix(s: string, start: nat, n: nat)
    requires start + n <= |s|
    ensures s[start..][..n] == s[start..start + n]
  {
  }

  lemma TrimTrailing(s: string)
    ensures var start, r := |s| - |TrimStart(s)|, Trim(s);
      forall k :: start + |r| <= k < |s| ==> IsWhitespace(s[k])
  {
    var u := TrimStart(s);
    var start, r := |s| - |u|, TrimEnd(u);
    forall k | start + |r| <= k < |s|
      ensures IsWhitespace(s[k])
    {
      assert s[k] == u[k - start];
    }
  }

  lemma TrimEnds(s: string)
    ensures var r := Trim(s);
      r == [] || (!IsWhitespace(r[0]) && !IsWhitespace(r[|r| - 1]))
  {
    var u := TrimStart(s);
    var r := TrimEnd(u);
    if r != [] {
      assert r[0] == u[0];
    }
  }

  /** Trimming drops characters and adds none. */
  lemma TrimAvoids(s: string, c: char)
    requires c !in s
    ensures c !in Trim(s)
  {
    TrimSliceShape(s);
  }

  /** Trimming a string that starts and ends with a visible character
      changes nothing. */
  lemma TrimVisible(s: string)
    requires s != [] && !IsWhitespace(s[0]) && !IsWhitespace(s[|s| - 1])
    ensures Trim(s) == s
  {
    assert TrimStart(s) == s;
  }

  /** `String.lastIndexOf(c)`: -1 when `c` does not occur. */
  function LastIndexOf(s: string, c: char): (r: int)
    ensures -1 <= r < |s|
    ensures r >= 0 ==> s[r] == c
    ensures forall j :: r < j < |s| ==> s[j] != c
  {
    if s == [] then -1
    else if s[|s| - 1] == c then |s| - 1
    else LastIndexOf(s[..|s| - 1], c)
  }

  /** `String.substringAfterLast(c)`: the part after the last `c`, or the
      whole string when `c` does not occur. */
  function SubstringAfterLast(s: string, c: char): (r: string)
    ensures |r| <= |s| && r == s[|s| - |r|..]
    ensures c !in r
    ensures |r| == |s| || s[|s| - |r| - 1] == c
  {
    var i := LastIndexOf(s, c);
    if i == -1 then s else s[i + 1..]
  }

  /** `String.replace(oldValue, newValue)`: every occurrence of `oldValue`,
      found left to right without overlap (scanning resumes after each
      replaced occurrence), is replaced by `newValue`. */
  function ReplaceAll(s: string, oldValue: string, newValue: string): string
    requires |oldValue| > 0
    decreases |s|
  {
    if s == [] then []
    else if oldValue <= s then newValue + ReplaceAll(s[|oldValue|..], oldValue, newValue)
    else [s[0]] + ReplaceAll(s[1..], oldValue, newValue)
  }

  /** `String.split(delimiter)` with no limit: the pieces between the
      occurrences of `delimiter` found left to right, empty pieces (also a
      trailing one) kept. */
  function SplitOn(s: string, delimiter: string): (parts: seq<string>)
    requires |delimiter| > 0
    ensures |parts| > 0
    decreases |s|
  {
    if s == [] then [[]]
    else if delimiter <= s then [[]] + SplitOn(s[|delimiter|..], delimiter)
    else
      var rest := SplitOn(s[1..], delimiter);
      [[s[0]] + rest[0]] + rest[1..]
  }

  /** `Iterable<String>.joinToString(separator)`. */
  function Join(parts: seq<string>, separator: string): string {
    if |parts| == 0 then []
    else if |parts| == 1 then parts[0]
    else parts[0] + separator + Join(parts[1..], separator)
  }

  // ---------------------------------------------------------------------
  // Split and join are inverse

  /** Joining with one more piece in front adds that piece and a separator. */
  lemma JoinCons(x: string, parts: seq<string>, separator: string)
    requires |parts| > 0
    ensures Join([x] + parts, separator) == x + separator + Join(parts, separator)
  {
    assert ([x] + parts)[1..] == parts;
  }

  /** Joining after growing the first piece by one character in front. */
  lemma JoinGrowHead(c: char, parts: seq<string>, separator: string)
    requires |parts| > 0
    ensures Join([[c] + parts[0]] + parts[1..], separator) == [c] + Join(parts, separator)
  {
    if |parts| > 1 {
      JoinCons([c] + parts[0], parts[1..], separator);
      JoinCons(parts[0], parts[1..], separator);
      assert [parts[0]] + parts[1..] == parts;
    }
  }

  /** JoinGrowHead for a text whose rest is the join. */
  lemma JoinGrowHeadOf(s: string, parts: seq<string>, separator: string)
    requires s != [] && |parts| > 0 && Join(parts, separator) == s[1..]
    ensures Join([[s[0]] + parts[0]] + parts[1..], separator) == s
  {
    JoinGrowHead(s[0], parts, separator);
    assert s == [s[0]] + s[1..];
  }

  /** Joining the pieces of a split with the same delimiter gives back the
      original text. */
  lemma {:induction false} JoinSplitOn(s: string, d: string)
    requires |d| > 0
    ensures Join(SplitOn(s, d), d) == s
    decreases |s|
  {
    if s == [] {
    } else if d <= s {
      JoinSplitOn(s[|d|..], d);
      JoinSplitOnMatch(s, d);
    } else {
      JoinSplitOn(s[1..], d);
      JoinSplitOnSkip(s, d);
    }
  }

  /** Step of JoinSplitOn when `s` starts with the delimiter. */
  lemma JoinSplitOnMatch(s: string, d: string)
    requires |d| > 0 && s != [] && d <= s
    requires Join(SplitOn(s[|d|..], d), d) == s[|d|..]
    ensures Join(SplitOn(s, d), d) == s
  {
    var tail := SplitOn(s[|d|..], d);
    assert SplitOn(s, d) == [[]] + tail;
    assert s == d + s[|d|..];
    JoinAfterDelimiter(tail, d, s[|d|..]);
  }

  lemma JoinAfterDelimiter(tail: seq<string>, d: string, rest: string)
    requires |tail| > 0 && Join(tail, d) == rest
    ensures Join([[]] + tail, d) == d + rest
  {
    var empty: string := [];
    var parts := [empty] + tail;
    assert parts[0] == empty && parts[1..] == tail;
    assert Join(parts, d) == empty + d + Join(tail, d);
    assert empty + d == d;
  }

  /** Step of JoinSplitOn when `s` does not start with the delimiter. */
  lemma JoinSplitOnSkip(s: string, d: string)
    requires |d| > 0 && s != [] && !(d <= s)
    requires Join(SplitOn(s[1..], d), d) == s[1..]
    ensures Join(SplitOn(s, d), d) == s
  {
    var rest := SplitOn(s[1..], d);
    assert SplitOn(s, d) == [[s[0]] + rest[0]] + rest[1..];
    JoinGrowHeadOf(s, rest, d);
  }

  /** Splitting on a one-character delimiter a text that does not contain
      it gives that text as the only piece. */
  lemma {:induction false} SplitOnAbsent(s: string, c: char)
    requires c !in s
    ensures SplitOn(s, [c]) == [s]
    decreases |s|
  {
    if s != [] {
      SplitOnAbsent(s[1..], c);
      assert s == [s[0]] + s[1..];
    }
  }

  /** The first piece of a split ends at the first delimiter. */
  lemma {:induction false} SplitOnPrefix(p: string, c: char, t: string)
    requires c !in p
    ensures SplitOn(p + [c] + t, [c]) == [p] + SplitOn(t, [c])
    decreases |p|
  {
    var s := p + [c] + t;
    if p == [] {
      assert s == [c] + t && s[1..] == t;
    } else {
      assert s[0] == p[0] != c;
      assert s[1..] == p[1..] + [c] + t;
      SplitOnPrefix(p[1..], c, t);
      var rest := SplitOn(s[1..], [c]);
      assert rest == [p[1..]] + SplitOn(t, [c]);
      assert SplitOn(s, [c]) == [[p[0]] + rest[0]] + rest[1..];
      assert [p[0]] + p[1..] == p;
    }
  }

  /** Splitting on a one-character delimiter a text made of two texts with
      the delimiter between them gives the pieces of the first followed by
      the pieces of the second. */
  lemma {:induction false} SplitOnConcat(x: string, c: char, y: string)
    ensures SplitOn(x + [c] + y, [c]) == SplitOn(x, [c]) + SplitOn(y, [c])
    decreases |x|
  {
    var s := x + [c] + y;
    if x == [] {
      assert s == [c] + y && s[1..] == y;
    } else {
      assert s[0] == x[0] && s[1..] == x[1..] + [c] + y;
      SplitOnConcat(x[1..], c, y);
      SplitOnConcatStep(x, c, y);
    }
  }

  /** Step of SplitOnConcat: from the rest of `x` to `x`. */
  lemma SplitOnConcatStep(x: string, c: char, y: string)
    requires x != []
    requires SplitOn(x[1..] + [c] + y, [c]) == SplitOn(x[1..], [c]) + SplitOn(y, [c])
    ensures SplitOn(x + [c] + y, [c]) == SplitOn(x, [c]) + SplitOn(y, [c])
  {
    var s := x + [c] + y;
    assert s[0] == x[0] && s[1..] == x[1..] + [c] + y;
    if x[0] == c {
      SplitOnConcatAtDelimiter(x, c, y);
    } else {
      SplitOnConcatPastChar(x, c, y);
    }
  }

  lemma SplitOnConcatAtDelimiter(x: string, c: char, y: string)
    requires x != [] && x[0] == c
    requires SplitOn(x[1..] + [c] + y, [c]) == SplitOn(x[1..], [c]) + SplitOn(y, [c])
    ensures SplitOn(x + [c] + y, [c]) == SplitOn(x, [c]) + SplitOn(y, [c])
  {
    var s := x + [c] + y;
    assert s[0] == c && s[1..] == x[1..] + [c] + y;
    SplitOnAtDelimiter(s, c);
    SplitOnAtDelimiter(x, c);
    ConsAppend([], SplitOn(x[1..], [c]), SplitOn(y, [c]));
  }

  lemma ConsAppend<T>(e: T, a: seq<T>, b: seq<T>)
    ensures [e] + (a + b) == ([e] + a) + b
  {
  }

  /** A delimiter at the start closes an empty first piece. */
  lemma SplitOnAtDelimiter(s: string, c: char)
    requires s != [] && s[0] == c
    ensures SplitOn(s, [c]) == [[]] + SplitOn(s[1..], [c])
  {
    assert [c] <= s;
  }

  lemma SplitOnConcatPastChar(x: string, c: char, y: string)
    requires x != [] && x[0] != c
    requires SplitOn(x[1..] + [c] + y, [c]) == SplitOn(x[1..], [c]) + SplitOn(y, [c])
    ensures SplitOn(x + [c] + y, [c]) == SplitOn(x, [c]) + SplitOn(y, [c])
  {
    var s := x + [c] + y;
    assert !([c] <= s) && s[1..] == x[1..] + [c] + y;
    assert !([c] <= x);
    HeadPieceGrows(x[0], SplitOn(x[1..], [c]), SplitOn(y, [c]));
  }

  /** Growing the first piece commutes with appending further pieces. */
  lemma HeadPieceGrows(h: char, a: seq<string>, b: seq<string>)
    requires a != []
    ensures (a + b)[0] == a[0] && [[h] + (a + b)[0]] + (a + b)[1..] == ([[h] + a[0]] + a[1..]) + b
  {
    assert (a + b)[1..] == a[1..] + b;
  }

  /** Splitting on a one-character delimiter undoes joining with it, as long
      as no piece contains the delimiter. */
  lemma {:induction false} SplitOnJoin(parts: seq<string>, c: char)
    requires |parts| > 0
    requires forall k :: 0 <= k < |parts| ==> c !in parts[k]
    ensures SplitOn(Join(parts, [c]), [c]) == parts
    decreases |parts|
  {
    if |parts| == 1 {
      SplitOnAbsent(parts[0], c);
    } else {
      SplitOnJoin(parts[1..], c);
      SplitOnPrefix(parts[0], c, Join(parts[1..], [c]));
      assert [parts[0]] + parts[1..] == parts;
    }
  }

  /** No piece of a split on a one-character delimiter contains it. */
  lemma {:induction false} SplitOnPiecesAvoid(s: string, c: char)
    ensures forall k :: 0 <= k < |SplitOn(s, [c])| ==> c !in SplitOn(s, [c])[k]
    decreases |s|
  {
    if s != [] {
      SplitOnPiecesAvoid(s[1..], c);
    }
  }

  /** A split on a one-character delimiter has a single piece exactly when
      the delimiter does not occur. */
  lemma {:induction false} SplitOnSingleIff(s: string, c: char)
    ensures |SplitOn(s, [c])| == 1 <==> c !in s
    decreases |s|
  {
    if c !in s {
      SplitOnAbsent(s, c);
    } else if s[0] != c {
      assert c in s[1..];
      SplitOnSingleIff(s[1..], c);
    }
  }

  /** Field 1 of a split on a one-character delimiter is the text between
      the first delimiter and the next one (or the end of the text), and
      field 0 is everything before the first delimiter. */
  lemma SplitOnSecondField(t: string, c: char)
    requires c in t
    ensures |SplitOn(t, [c])| >= 2
    ensures var f := SplitOn(t, [c]);
      var n0, n1 := |f[0]|, |f[1]|;
      c !in f[0] && c !in f[1] && n0 + 1 + n1 <= |t|
      && t[..n0] == f[0] && t[n0] == c && t[n0 + 1..n0 + 1 + n1] == f[1]
      && (n0 + 1 + n1 == |t| || t[n0 + 1 + n1] == c)
  {
    var f := SplitOn(t, [c]);
    SplitOnSingleIff(t, c);
    SplitOnPiecesAvoid(t, c);
    JoinSplitOn(t, [c]);
    var rest := if |f| == 2 then [] else [c] + Join(f[2..], [c]);
    JoinSecond(f, [c], rest);
    TwoFieldsLayout(t, c, f[0], f[1], rest);
  }

  /** The first two pieces of a join, and what follows them. */
  lemma JoinSecond(f: seq<string>, separator: string, rest: string)
    requires |f| >= 2
    requires rest == if |f| == 2 then [] else separator + Join(f[2..], separator)
    ensures Join(f, separator) == f[0] + separator + f[1] + rest
  {
    if |f| > 2 {
      assert Join(f[1..], separator) == f[1] + separator + Join(f[2..], separator) by {
        assert f[1..][1..] == f[2..];
      }
    }
  }

  /** Where the two fields of `f0 c f1 rest` sit. */
  lemma TwoFieldsLayout(t: string, c: char, f0: string, f1: string, rest: string)
    requires t == f0 + [c] + f1 + rest && (rest == [] || rest[0] == c)
    ensures var n0, n1 := |f0|, |f1|;
      n0 + 1 + n1 <= |t| && t[..n0] == f0 && t[n0] == c && t[n0 + 1..n0 + 1 + n1] == f1
      && (n0 + 1 + n1 == |t| || t[n0 + 1 + n1] == c)
  {
  }

  /** Joining one more piece adds a separator and that piece. */
  lemma {:induction false} JoinSnoc(parts: seq<string>, x: string, separator: string)
    ensures Join(parts + [x], separator) ==
      if parts == [] then x else Join(parts, separator) + separator + x
    decreases |parts|
  {
    if |parts| > 1 {
      JoinSnoc(parts[1..], x, separator);
      assert (parts + [x])[1..] == parts[1..] + [x];
    } else if |parts| == 1 {
      assert (parts + [x])[1..] == [x];
    }
  }

  // ---------------------------------------------------------------------
  // Replace

  /** Reference definition: replacing is splitting on the old value and
      joining with the new one (how Kotlin's `replace` was once written). */
  lemma {:induction false} ReplaceAllIsSplitJoin(s: string, oldValue: string, newValue: string)
    requires |oldValue| > 0
    ensures ReplaceAll(s, oldValue, newValue) == Join(SplitOn(s, oldValue), newValue)
    decreases |s|
  {
    if s == [] {
    } else if oldValue <= s {
      ReplaceAllIsSplitJoin(s[|oldValue|..], oldValue, newValue);
      var tail := SplitOn(s[|oldValue|..], oldValue);
      assert SplitOn(s, oldValue) == [[]] + tail;
      JoinCons([], tail, newValue);
    } else {
      ReplaceAllIsSplitJoin(s[1..], oldValue, newValue);
      ReplaceAllIsSplitJoinSkip(s, oldValue, newValue);
    }
  }

  /** Step of ReplaceAllIsSplitJoin when `s` does not start with the old value. */
  lemma ReplaceAllIsSplitJoinSkip(s: string, oldValue: string, newValue: string)
    requires |oldValue| > 0 && s != [] && !(oldValue <= s)
    requires ReplaceAll(s[1..], oldValue, newValue) == Join(SplitOn(s[1..], oldValue), newValue)
    ensures ReplaceAll(s, oldValue, newValue) == Join(SplitOn(s, oldValue), newValue)
  {
    var rest := SplitOn(s[1..], oldValue);
    assert SplitOn(s, oldValue) == [[s[0]] + rest[0]] + rest[1..];
    JoinGrowHead(s[0], rest, newValue);
  }

  /** Replacing a value by itself changes nothing. */
  lemma ReplaceAllSelf(s: string, v: string)
    requires |v| > 0
    ensures ReplaceAll(s, v, v) == s
  {
    ReplaceAllIsSplitJoin(s, v, v);
    JoinSplitOn(s, v);
  }

  /** Text in which the old value occurs nowhere is left unchanged. */
  lemma {:induction false} ReplaceAllNoOccurrence(s: string, oldValue: string, newValue: string)
    requires |oldValue| > 0
    requires forall i :: 0 <= i < |s| ==> !(oldValue <= s[i..])
    ensures ReplaceAll(s, oldValue, newValue) == s
    decreases |s|
  {
    if s != [] {
      assert s[0..] == s;
      forall i | 0 <= i < |s[1..]|
        ensures !(oldValue <= s[1..][i..])
      {
        assert s[1..][i..] == s[i + 1..];
      }
      ReplaceAllNoOccurrence(s[1..], oldValue, newValue);
      assert [s[0]] + s[1..] == s;
    }
  }

  /** Replacing one character by another rewrites each position on its own:
      the length is kept and every other character is kept. */
  lemma {:induction false} ReplaceCharPointwise(s: string, a: char, b: char)
    ensures |ReplaceAll(s, [a], [b])| == |s|
    ensures forall i :: 0 <= i < |s| ==>
      ReplaceAll(s, [a], [b])[i] == if s[i] == a then b else s[i]
    decreases |s|
  {
    if s != [] {
      ReplaceCharPointwise(s[1..], a, b);
    }
  }

  /** Replacing a single character distributes over concatenation. */
  lemma {:induction false} ReplaceCharConcat(x: string, y: string, a: char, newValue: string)
    ensures ReplaceAll(x + y, [a], newValue) ==
      ReplaceAll(x, [a], newValue) + ReplaceAll(y, [a], newValue)
    decreases |x|
  {
    if x != [] {
      var s := x + y;
      assert s[0] == x[0] && s[1..] == x[1..] + y;
      ReplaceCharConcat(x[1..], y, a, newValue);
      if x[0] == a {
        assert [a] <= s && [a] <= x;
        assert ReplaceAll(s, [a], newValue) == newValue + ReplaceAll(s[1..], [a], newValue);
        assert ReplaceAll(x, [a], newValue) == newValue + ReplaceAll(x[1..], [a], newValue);
      } else {
        assert !([a] <= s) && !([a] <= x);
        assert ReplaceAll(s, [a], newValue) == [x[0]] + ReplaceAll(s[1..], [a], newValue);
        assert ReplaceAll(x, [a], newValue) == [x[0]] + ReplaceAll(x[1..], [a], newValue);
      }
    } else {
      assert x + y == y;
    }
  }

  /** An occurrence at the start is replaced, and scanning resumes after it. */
  lemma ReplaceAllAtMatch(oldValue: string, t: string, newValue: string)
    requires |oldValue| > 0
    ensures ReplaceAll(oldValue + t, oldValue, newValue) == newValue + ReplaceAll(t, oldValue, newValue)
  {
    assert oldValue <= oldValue + t && (oldValue + t)[|oldValue|..] == t;
  }

  /** A prefix none of whose characters can start an occurrence of the old
      value is carried through unchanged. */
  lemma {:induction false} ReplaceAllKeepsPrefix(p: string, t: string, oldValue: string, newValue: string)
    requires |oldValue| > 0
    requires forall i :: 0 <= i < |p| ==> p[i] != oldValue[0]
    ensures ReplaceAll(p + t, oldValue, newValue) == p + ReplaceAll(t, oldValue, newValue)
    decreases |p|
  {
    if p == [] {
      assert p + t == t;
    } else {
      var s := p + t;
      assert s[0] == p[0] != oldValue[0];
      assert s[1..] == p[1..] + t;
      ReplaceAllKeepsPrefix(p[1..], t, oldValue, newValue);
      assert [p[0]] + p[1..] == p;
    }
  }

  /** A prefix at none of whose positions an occurrence of the old value
      starts is carried through unchanged, whatever characters it holds. */
  lemma {:induction false} ReplaceAllUnmatchedPrefix(p: string, t: string, oldValue: string, newValue: string)
    requires |oldValue| > 0
    requires forall i :: 0 <= i < |p| ==> !(oldValue <= (p + t)[i..])
    ensures ReplaceAll(p + t, oldValue, newValue) == p + ReplaceAll(t, oldValue, newValue)
    decreases |p|
  {
    if p == [] {
      assert p + t == t;
    } else {
      var s := p + t;
      assert s[0..] == s;
      assert s[1..] == p[1..] + t;
      forall i | 0 <= i < |p[1..]|
        ensures !(oldValue <= (p[1..] + t)[i..])
      {
        assert (p[1..] + t)[i..] == s[i + 1..];
      }
      ReplaceAllUnmatchedPrefix(p[1..], t, oldValue, newValue);
      assert [p[0]] + p[1..] == p;
    }
  }

  /** A prefix holding no character that can start the old value is one
      at which no occurrence starts. */
  lemma UnmatchedPrefix(p: string, t: string, oldValue: string)
    requires |oldValue| > 0
    requires forall i :: 0 <= i < |p| ==> p[i] != oldValue[0]
    ensures forall i :: 0 <= i < |p| ==> !(oldValue <= (p + t)[i..])
  {
    forall i | 0 <= i < |p|
      ensures !(oldValue <= (p + t)[i..])
    {
      assert (p + t)[i..][0] == p[i];
    }
  }

  /** A prefix where every character that could start the old value is
      followed by one that cannot continue it is one at which no occurrence
      starts. */
  lemma UnmatchedPrefixPairs(p: string, t: string, oldValue: string)
    requires |oldValue| >= 2
    requires forall i :: 0 <= i < |p| ==>
      p[i] != oldValue[0] || (i + 1 < |p| && p[i + 1] != oldValue[1])
    ensures forall i :: 0 <= i < |p| ==> !(oldValue <= (p + t)[i..])
  {
    forall i | 0 <= i < |p|
      ensures !(oldValue <= (p + t)[i..])
    {
      var rest := (p + t)[i..];
      assert p[i] != oldValue[0] || (i + 1 < |p| && p[i + 1] != oldValue[1]);
      if p[i] == oldValue[0] {
        assert rest[1] == p[i + 1] != oldValue[1];
      } else {
        assert rest[0] == p[i] != oldValue[0];
      }
    }
  }

  /** The leftmost occurrence is replaced, and scanning resumes after it:
      `replace` rewrites the first place where the old value starts,
      whatever text comes before it. */
  lemma ReplaceAllFirstOccurrence(p: string, oldValue: string, t: string, newValue: string)
    requires |oldValue| > 0
    requires forall i :: 0 <= i < |p| ==> !(oldValue <= (p + oldValue + t)[i..])
    ensures ReplaceAll(p + oldValue + t, oldValue, newValue) == p + newValue + ReplaceAll(t, oldValue, newValue)
  {
    assert p + oldValue + t == p + (oldValue + t);
    ReplaceAllUnmatchedPrefix(p, oldValue + t, oldValue, newValue);
    ReplaceAllAtMatch(oldValue, t, newValue);
  }

  /** A character absent from the text and from the new value is absent
      from the result. */
  lemma {:induction false} ReplaceAllAvoids(s: string, oldValue: string, newValue: string, c: char)
    requires |oldValue| > 0
    requires c !in s && c !in newValue
    ensures c !in ReplaceAll(s, oldValue, newValue)
    decreases |s|
  {
    if s != [] {
      if oldValue <= s {
        ReplaceAllAvoids(s[|oldValue|..], oldValue, newValue, c);
      } else {
        ReplaceAllAvoids(s[1..], oldValue, newValue, c);
      }
    }
  }

  /** `substringAfterLast` of a text whose last delimiter is known. */
  lemma SubstringAfterLastOf(p: string, c: char, x: string)
    requires c !in x
    ensures SubstringAfterLast(p + [c] + x, c) == x
  {
    var s := p + [c] + x;
    var i := LastIndexOf(s, c);
    assert s[|p|] == c;
    assert i >= |p|;
    assert s[|p| + 1..] == x;
  }
}
