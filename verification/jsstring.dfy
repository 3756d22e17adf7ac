/** The ECMAScript string built-ins the program relies on, over `string`.
    A `char` stands for one UTF-16 code unit of a JavaScript string, so
    `length` is `|s|` and `charCodeAt(i)` is `s[i] as int`. */
module JsString {
  import opened Wrappers

  /** The code units `charCodeAt` yields for every index of `s`, in order. */
  function CodeUnits(s: string): (r: seq<nat>)
    ensures |r| == |s|
    ensures forall i :: 0 <= i < |s| ==> r[i] == s[i] as nat
  {
    seq(|s|, i requires 0 <= i < |s| => s[i] as nat)
  }

  lemma CodeUnitsAppend(a: string, b: string)
    ensures CodeUnits(a + b) == CodeUnits(a) + CodeUnits(b)
  {
  }

  /** The ECMAScript WhiteSpace and LineTerminator code units: what
      `String.prototype.trim` strips and what the regular expression
      class `\s` matches. */
  predicate IsWhitespace(c: char)
  {
    var n := c as int;
    n == 0x09 || n == 0x0A || n == 0x0B || n == 0x0C || n == 0x0D || n == 0x20
    || n == 0xA0 || n == 0x1680 || (0x2000 <= n <= 0x200A)
    || n == 0x2028 || n == 0x2029 || n == 0x202F || n == 0x205F
    || n == 0x3000 || n == 0xFEFF
  }

  predicate AllWhitespace(s: string)
  {
    forall i {:trigger IsWhitespace(s[i])} :: 0 <= i < |s| ==> IsWhitespace(s[i])
  }

  /** Leading whitespace removed. */
  function TrimStart(s: string): string
    decreases |s|
  {
    if |s| > 0 && IsWhitespace(s[0]) then TrimStart(s[1..]) else s
  }

  /** The result of `TrimStart` is a suffix of `s`, every dropped code
      unit is whitespace, and the result does not start with whitespace. */
  lemma {:induction false} TrimStartShape(s: string)
    ensures var r := TrimStart(s);
      && |r| <= |s| && r == s[|s| - |r|..]
      && AllWhitespace(s[..|s| - |r|])
      && (|r| > 0 ==> !IsWhitespace(r[0]))
    decreases |s|
  {
    if |s| > 0 && IsWhitespace(s[0]) {
      var t := s[1..];
      var r := TrimStart(t);
      TrimStartShape(t);
      assert TrimStart(s) == r;
      var j := |s| - |r|;
      TailSlices(s, j);
      WhitespaceCons(s[0], t[..j - 1]);
    }
  }

  /** Trailing whitespace removed. */
  function TrimEnd(s: string): string
    decreases |s|
  {
    if |s| > 0 && IsWhitespace(s[|s| - 1]) then TrimEnd(s[..|s| - 1]) else s
  }

  /** The result of `TrimEnd` is a prefix of `s`, every dropped code unit
      is whitespace, and the result does not end with whitespace. */
  lemma {:induction false} TrimEndShape(s: string)
    ensures var r := TrimEnd(s);
      && |r| <= |s| && r == s[..|r|]
      && AllWhitespace(s[|r|..])
      && (|r| > 0 ==> !IsWhitespace(r[|r| - 1]))
    decreases |s|
  {
    if |s| > 0 && IsWhitespace(s[|s| - 1]) {
      var p := s[..|s| - 1];
      var r := TrimEnd(p);
      TrimEndShape(p);
      assert TrimEnd(s) == r;
      InitSlices(s, |r|);
      WhitespaceSnoc(p[|r|..], s[|s| - 1]);
    }
  }

  lemma TailSlices(s: string, j: nat)
    requires 1 <= j <= |s|
    ensures s[j..] == s[1..][j - 1..] && s[..j] == [s[0]] + s[1..][..j - 1]
  {
  }

  lemma InitSlices(s: string, j: nat)
    requires j < |s|
    ensures s[..j] == s[..|s| - 1][..j] && s[j..] == s[..|s| - 1][j..] + [s[|s| - 1]]
  {
  }

  lemma WhitespaceCons(c: char, w: string)
    requires IsWhitespace(c) && AllWhitespace(w)
    ensures AllWhitespace([c] + w)
  {
    var v := [c] + w;
    forall i | 0 <= i < |v| ensures IsWhitespace(v[i]) {
      if i > 0 {
        assert v[i] == w[i - 1];
      }
    }
  }

  lemma WhitespaceSnoc(w: string, c: char)
    requires AllWhitespace(w) && IsWhitespace(c)
    ensures AllWhitespace(w + [c])
  {
    var v := w + [c];
    forall i | 0 <= i < |v| ensures IsWhitespace(v[i]) {
      if i < |w| {
        assert v[i] == w[i];
      }
    }
  }

  /** `r` is `s` with the whitespace at both ends dropped: a contiguous
      slice of `s` with only whitespace around it, neither starting nor
      ending with whitespace, and empty exactly when `s` is all
      whitespace. */
  predicate TrimmedFrom(s: string, r: string)
  {
    && (exists k :: 0 <= k && k + |r| <= |s| && r == s[k..k + |r|]
                    && AllWhitespace(s[..k]) && AllWhitespace(s[k + |r|..]))
    && (|r| > 0 ==> !IsWhitespace(r[0]) && !IsWhitespace(r[|r| - 1]))
    && (r == "" <==> AllWhitespace(s))
  }

  /** `s.trim()`. */
  function Trim(s: string): (r: string)
    ensures TrimmedFrom(s, r)
  {
    var t := TrimStart(s);
    var r := TrimEnd(t);
    TrimStartShape(s);
    TrimEndShape(t);
    TrimmedSlice(s, |s| - |t|, t, r);
    r
  }

  /** Whitespace dropped from the front of `s` and then from the back of
      what is left is whitespace dropped from either end. */
  lemma TrimmedSlice(s: string, k: nat, t: string, r: string)
    requires k + |t| == |s| && t == s[k..] && AllWhitespace(s[..k])
    requires |t| > 0 ==> !IsWhitespace(t[0])
    requires |r| <= |t| && r == t[..|r|] && AllWhitespace(t[|r|..])
    requires |r| > 0 ==> !IsWhitespace(r[|r| - 1])
    ensures TrimmedFrom(s, r)
  {
    TrimmedSliceBounds(s, k, t, r);
    if r == "" {
      assert t[|r|..] == t;
      assert |t| == 0;
      forall i | 0 <= i < |s| ensures IsWhitespace(s[i]) {
        assert s[i] == s[..k][i];
      }
    } else {
      assert r[0] == t[0];
    }
  }

  /** A prefix `r` of the suffix `t` of `s` that starts at `k` is the
      slice of `s` at `k`, and what follows it in `t` follows it in `s`. */
  lemma TrimmedSliceBounds(s: string, k: nat, t: string, r: string)
    requires k + |t| == |s| && t == s[k..]
    requires |r| <= |t| && r == t[..|r|] && AllWhitespace(t[|r|..])
    ensures k + |r| <= |s| && r == s[k..k + |r|] && AllWhitespace(s[k + |r|..])
  {
    assert s[k + |r|..] == t[|r|..];
    assert r == s[k..k + |r|];
  }

  /** The trimmed string is a contiguous slice of the original with only
      whitespace around it. */
  lemma TrimSlice(s: string) returns (k: nat)
    ensures k + |Trim(s)| <= |s| && Trim(s) == s[k..k + |Trim(s)|]
    ensures AllWhitespace(s[..k]) && AllWhitespace(s[k + |Trim(s)|..])
  {
    var t := TrimStart(s);
    TrimStartShape(s);
    var r := TrimEnd(t);
    k := |s| - |t|;
    assert k + |r| <= |s| && r == s[k..k + |r|] && AllWhitespace(s[k + |r|..]) by {
      TrimEndShape(t);
      TrimmedSliceBounds(s, k, t, r);
    }
    assert Trim(s) == r;
  }

  /** `s` is the whitespace `Trim` drops, then `Trim(s)`, then more of it. */
  lemma TrimParts(s: string) returns (a: string, b: string)
    ensures AllWhitespace(a) && AllWhitespace(b)
    ensures s == a + (Trim(s) + b)
  {
    var k := TrimSlice(s);
    SliceAround(s, k, Trim(s));
    a, b := s[..k], s[k + |Trim(s)|..];
  }

  /** A slice `r` of `s` at `k` together with what lies before and after
      it makes up `s`. */
  lemma SliceAround(s: string, k: nat, r: string)
    requires k + |r| <= |s| && r == s[k..k + |r|]
    ensures s == s[..k] + (r + s[k + |r|..])
  {
    assert r + s[k + |r|..] == s[k..];
  }

  lemma SplitAround(s: string, n: nat)
    requires n < |s|
    ensures s == s[..n] + [s[n]] + s[n + 1..]
  {
    assert s[..n] + [s[n]] == s[..n + 1];
  }

  lemma AppendSlices(x: string, y: string, m: nat)
    requires m <= |x|
    ensures (x + y)[..m] == x[..m] && (x + y)[m..] == x[m..] + y
  {
  }

  lemma SuffixCons(s: string, n: nat)
    requires n < |s|
    ensures s[n..] == [s[n]] + s[n + 1..]
  {
  }

  lemma AppendAssoc(a: string, b: string, c: string)
    ensures (a + b) + c == a + (b + c)
  {
  }

  /** Trimming removes nothing from a string that neither starts nor ends
      with whitespace. */
  lemma TrimNoop(s: string)
    requires |s| > 0 ==> !IsWhitespace(s[0]) && !IsWhitespace(s[|s| - 1])
    ensures Trim(s) == s
  {
  }

  /** Only an all-whitespace string trims to nothing. */
  lemma BlankIsWhitespace(s: string)
    requires Trim(s) == ""
    ensures AllWhitespace(s)
  {
    assert TrimmedFrom(s, Trim(s));
  }

  /** Trimming keeps only code units of the original. */
  lemma TrimWithin(s: string, c: char)
    requires c !in s
    ensures c !in Trim(s)
  {
    var k := TrimSlice(s);
    var t := Trim(s);
    forall j | 0 <= j < |t| ensures t[j] != c {
      assert t[j] == s[k + j];
    }
  }

  lemma {:induction false} TrimIdempotent(s: string)
    ensures Trim(Trim(s)) == Trim(s)
  {
    TrimNoop(Trim(s));
  }

  /** ASCII `toLowerCase` of one code unit: `A`-`Z` map to `a`-`z`,
      everything else is unchanged. */
  function LowerChar(c: char): (d: char)
    ensures 'A' <= c <= 'Z' ==> d as int == c as int + 32
    ensures !('A' <= c <= 'Z') ==> d == c
  {
    if 'A' <= c <= 'Z' then (c as int + 32) as char else c
  }

  /** `s.toLowerCase()` restricted to the ASCII case mapping. */
  function LowerAscii(s: string): (r: string)
    ensures |r| == |s|
    ensures forall i :: 0 <= i < |s| ==> r[i] == LowerChar(s[i])
  {
    seq(|s|, i requires 0 <= i < |s| => LowerChar(s[i]))
  }

  lemma LowerSlices(s: string, n: nat)
    requires n <= |s|
    ensures LowerAscii(s)[..n] == LowerAscii(s[..n]) && LowerAscii(s)[n..] == LowerAscii(s[n..])
  {
  }

  lemma LowerAsciiAppend(a: string, b: string)
    ensures LowerAscii(a + b) == LowerAscii(a) + LowerAscii(b)
  {
  }

  /** `s.repeat(n)` for a one-code-unit string `[c]`. */
  function RepeatChar(c: char, n: nat): (r: string)
    ensures |r| == n
    ensures forall i :: 0 <= i < n ==> r[i] == c
  {
    seq(n, i => c)
  }

  /** `s.startsWith(p)`. */
  predicate StartsWith(s: string, p: string)
  {
    |p| <= |s| && s[..|p|] == p
  }

  /** Concatenation of a list of strings: `xs.join('')`. */
  function Concat(xs: seq<string>): (r: string)
    decreases |xs|
  {
    if |xs| == 0 then "" else xs[0] + Concat(xs[1..])
  }

  lemma {:induction false} ConcatAppend(xs: seq<string>, ys: seq<string>)
    ensures Concat(xs + ys) == Concat(xs) + Concat(ys)
    decreases |xs|
  {
    if |xs| == 0 {
      assert xs + ys == ys;
    } else {
      assert (xs + ys)[1..] == xs[1..] + ys;
      ConcatAppend(xs[1..], ys);
    }
  }

  /** `xs.join(sep)`. */
  function JoinWith(xs: seq<string>, sep: string): (r: string)
    decreases |xs|
  {
    if |xs| == 0 then ""
    else if |xs| == 1 then xs[0]
    else xs[0] + sep + JoinWith(xs[1..], sep)
  }

  /** Joining a list with at least two entries puts `sep` after its head. */
  lemma JoinCons(x: string, ts: seq<string>, sep: string)
    requires |ts| > 0
    ensures JoinWith([x] + ts, sep) == x + sep + JoinWith(ts, sep)
  {
    assert ([x] + ts)[1..] == ts;
  }

  /** `s.split(sep)` for a one-code-unit separator: every maximal piece
      between separators, including empty ones, so the result is never
      empty and no piece contains the separator. */
  function Split(s: string, sep: char): (r: seq<string>)
    ensures |r| >= 1
    ensures forall i :: 0 <= i < |r| ==> sep !in r[i]
    decreases |s|
  {
    if |s| == 0 then [""]
    else
      var rest := Split(s[1..], sep);
      if s[0] == sep then [""] + rest
      else [[s[0]] + rest[0]] + rest[1..]
  }

  /** A split yields one more piece than there are separators. */
  lemma {:induction false} SplitCount(s: string, sep: char)
    ensures |Split(s, sep)| == multiset(s)[sep] + 1
    decreases |s|
  {
    if |s| > 0 {
      SplitCount(s[1..], sep);
      assert s == [s[0]] + s[1..];
      assert multiset(s) == multiset{s[0]} + multiset(s[1..]);
    }
  }

  /** Joining the pieces of a split with the same separator gives the
      original string back. */
  lemma {:induction false} SplitJoin(s: string, sep: char)
    ensures JoinWith(Split(s, sep), [sep]) == s
    decreases |s|
  {
    if |s| > 0 {
      var rest := Split(s[1..], sep);
      SplitJoin(s[1..], sep);
      if s[0] == sep {
        assert ([""] + rest)[1..] == rest;
      } else {
        var r := [[s[0]] + rest[0]] + rest[1..];
        assert r[1..] == rest[1..];
        if |rest| > 1 {
          assert JoinWith(rest, [sep]) == rest[0] + [sep] + JoinWith(rest[1..], [sep]);
        }
      }
    }
  }

  /** A string without the separator splits into exactly itself. */
  lemma {:induction false} SplitNoSeparator(s: string, sep: char)
    requires sep !in s
    ensures Split(s, sep) == [s]
    decreases |s|
  {
    if |s| > 0 {
      assert sep !in s[1..] by {
        forall i | 0 <= i < |s[1..]| ensures s[1..][i] != sep {
          assert s[1..][i] == s[i + 1];
        }
      }
      SplitNoSeparator(s[1..], sep);
      assert s[0] != sep by { assert s[0] in s; }
      var rest := Split(s[1..], sep);
      assert rest[1..] == [];
      assert [s[0]] + s[1..] == s;
    }
  }

  /** A piece without the separator, then the separator: the split starts
      with that piece and continues with the split of the rest. */
  lemma {:induction false} SplitAfterPiece(x: string, t: string, sep: char)
    requires sep !in x
    ensures Split(x + [sep] + t, sep) == [x] + Split(t, sep)
    decreases |x|
  {
    if |x| == 0 {
      assert x + [sep] + t == [sep] + t;
      assert ([sep] + t)[1..] == t;
    } else {
      var s := x + [sep] + t;
      assert s[1..] == x[1..] + [sep] + t;
      assert sep !in x[1..] by {
        forall i | 0 <= i < |x[1..]| ensures x[1..][i] != sep {
          assert x[1..][i] == x[i + 1];
        }
      }
      assert x[0] != sep by { assert x[0] in x; }
      SplitAfterPiece(x[1..], t, sep);
      assert [x[0]] + x[1..] == x;
    }
  }

  /** Splitting a join of separator-free pieces gives the pieces back. */
  lemma {:induction false} JoinSplit(xs: seq<string>, sep: char)
    requires |xs| >= 1
    requires forall i :: 0 <= i < |xs| ==> sep !in xs[i]
    ensures Split(JoinWith(xs, [sep]), sep) == xs
    decreases |xs|
  {
    if |xs| == 1 {
      SplitNoSeparator(xs[0], sep);
    } else {
      assert sep !in xs[0];
      JoinSplit(xs[1..], sep);
      SplitAfterPiece(xs[0], JoinWith(xs[1..], [sep]), sep);
      assert [xs[0]] + xs[1..] == xs;
    }
  }

  /** `pat` occurs in `s` starting at index `i`. */
  predicate OccursAt(s: string, pat: string, i: nat)
  {
    i + |pat| <= |s| && s[i..i + |pat|] == pat
  }

  /** `s.indexOf(pat, from)`: the first occurrence at or after `from`. */
  function IndexOfFrom(s: string, pat: string, from: nat): (r: Option<nat>)
    requires from <= |s|
    ensures r.Some? ==> from <= r.value && OccursAt(s, pat, r.value)
    ensures r.Some? ==> forall k :: from <= k < r.value ==> !OccursAt(s, pat, k)
    ensures r.None? <==> forall k :: from <= k <= |s| ==> !OccursAt(s, pat, k)
    decreases |s| - from
  {
    if OccursAt(s, pat, from) then Some(from)
    else if from == |s| then None
    else IndexOfFrom(s, pat, from + 1)
  }

  /** `s.replace(pat, rep)` with a string pattern: only the first
      occurrence is rewritten (replacement `$` patterns are not
      interpreted). */
  function ReplaceFirst(s: string, pat: string, rep: string): (r: string)
    ensures (forall k :: 0 <= k <= |s| ==> !OccursAt(s, pat, k)) ==> r == s
  {
    match IndexOfFrom(s, pat, 0)
    case None => s
    case Some(i) => s[..i] + rep + s[i + |pat|..]
  }

  /** When the first occurrence of `pat` is at `i`, exactly that occurrence
      is replaced and the text around it is kept. */
  lemma ReplaceFirstAt(s: string, pat: string, rep: string, i: nat)
    requires OccursAt(s, pat, i)
    requires forall k :: 0 <= k < i ==> !OccursAt(s, pat, k)
    ensures ReplaceFirst(s, pat, rep) == s[..i] + rep + s[i + |pat|..]
  {
    var r := IndexOfFrom(s, pat, 0);
    assert r.Some? by {
      assert OccursAt(s, pat, i);
    }
    assert OccursAt(s, pat, r.value);
    assert r.value == i;
  }

  /** Every code unit fits in one byte (ISO 8859-1 range). */
  predicate Latin1(s: string)
  {
    forall i :: 0 <= i < |s| ==> s[i] as int < 256
  }

  lemma Latin1Append(a: string, b: string)
    requires Latin1(a) && Latin1(b)
    ensures Latin1(a + b)
  {
    assert forall i :: |a| <= i < |a + b| ==> (a + b)[i] == b[i - |a|];
  }

  /** Replacing the first occurrence of a pattern writes only code units of
      the subject and of the replacement. */
  lemma ReplaceFirstLatin1(s: string, pat: string, rep: string)
    requires Latin1(s) && Latin1(rep)
    ensures Latin1(ReplaceFirst(s, pat, rep))
  {
    match IndexOfFrom(s, pat, 0)
    case None =>
    case Some(i) =>
      Latin1Append(s[..i], rep);
      Latin1Append(s[..i] + rep, s[i + |pat|..]);
  }

  /** Decimal digit. */
  function DigitChar(d: nat): (c: char)
    requires d < 10
    ensures '0' <= c <= '9'
  {
    ('0' as int + d) as char
  }

  /** `String(n)` for a natural number: its decimal digits, no leading zeros. */
  function NatToString(n: nat): (s: string)
    ensures |s| >= 1
    ensures forall i :: 0 <= i < |s| ==> '0' <= s[i] <= '9'
    ensures |s| > 1 ==> s[0] != '0'
    decreases n
  {
    if n < 10 then [DigitChar(n)] else NatToString(n / 10) + [DigitChar(n % 10)]
  }
}
