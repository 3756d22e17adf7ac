/** Message sanitisation for the terminal and the two fixed-shape helpers
    of the PETSCII service. `CleanMessage` follows the service's pipeline
    stage by stage: trim, every match of the allowed-characters pattern,
    drop blank matches, join with a space, trim, lower-case, collapse
    whitespace runs, truncate. */
module PetsciiService {
  import opened JsString
  import opened PetsciiCodes

  /** Default `maxLength` of `cleanMessage`. */
  const DefaultMaxLength: nat := 256

  predicate AllAllowed(s: string)
  {
    forall i {:trigger IsAllowed(s[i])} :: 0 <= i < |s| ==> IsAllowed(s[i])
  }

  predicate NoUpper(s: string)
  {
    forall i :: 0 <= i < |s| ==> !('A' <= s[i] <= 'Z')
  }

  predicate NoDoubleSpace(s: string)
  {
    forall i :: 0 <= i < |s| - 1 ==> !(s[i] == ' ' && s[i + 1] == ' ')
  }

  /** The shape of a sanitised, untruncated message: allowed code units
      only, no upper-case letter, single spaces between words and none at
      either end. */
  predicate Clean(s: string)
  {
    && AllAllowed(s)
    && NoUpper(s)
    && NoDoubleSpace(s)
    && (|s| > 0 ==> s[0] != ' ' && s[|s| - 1] != ' ')
  }

  /** A code unit that survives sanitisation as content: allowed and not a
      space. */
  predicate IsWordChar(c: char)
  {
    IsAllowed(c) && c != ' '
  }

  /** The word code units of `s`, in order. */
  function Words(s: string): string
    decreases |s|
  {
    if |s| == 0 then ""
    else (if IsWordChar(s[0]) then [s[0]] else "") + Words(s[1..])
  }

  lemma {:induction false} WordsAppend(a: string, b: string)
    ensures Words(a + b) == Words(a) + Words(b)
    decreases |a|
  {
    if |a| == 0 {
      assert a + b == b;
    } else {
      assert (a + b)[0] == a[0];
      assert (a + b)[1..] == a[1..] + b;
      WordsAppend(a[1..], b);
      var w := if IsWordChar(a[0]) then [a[0]] else "";
      assert Words(a + b) == w + Words(a[1..] + b);
      assert Words(a) == w + Words(a[1..]);
      assert w + (Words(a[1..]) + Words(b)) == (w + Words(a[1..])) + Words(b);
    }
  }

  lemma {:induction false} WordsOfWhitespace(s: string)
    requires AllWhitespace(s)
    ensures Words(s) == ""
    decreases |s|
  {
    if |s| > 0 {
      WhitespaceIsNoWord(s[0]);
      WordsOfWhitespace(s[1..]);
    }
  }

  lemma WordsOfSingle(c: char)
    ensures Words([c]) == (if IsWordChar(c) then [c] else "")
  {
    assert [c][1..] == "";
  }

  lemma TrimKeepsWords(s: string)
    ensures Words(Trim(s)) == Words(s)
  {
    TrimStartKeepsWords(s);
    TrimEndKeepsWords(TrimStart(s));
  }

  lemma TrimStartKeepsWords(s: string)
    ensures Words(TrimStart(s)) == Words(s)
  {
    var t := TrimStart(s);
    TrimStartShape(s);
    var w := s[..|s| - |t|];
    assert s == w + t;
    WordsAppend(w, t);
    WordsOfWhitespace(w);
  }

  lemma TrimEndKeepsWords(t: string)
    ensures Words(TrimEnd(t)) == Words(t)
  {
    var r := TrimEnd(t);
    TrimEndShape(t);
    var w := t[|r|..];
    assert t == r + w;
    WordsAppend(r, w);
    WordsOfWhitespace(w);
  }

  // ---------------------------------------------------------------------
  // The global match of the allowed-characters pattern

  /** Length of the longest prefix of `s` made of allowed code units. */
  function AllowedRun(s: string): (n: nat)
    ensures n <= |s|
    ensures forall i {:trigger IsAllowed(s[i])} :: 0 <= i < n ==> IsAllowed(s[i])
    ensures n < |s| ==> !IsAllowed(s[n])
    decreases |s|
  {
    if |s| == 0 || !IsAllowed(s[0]) then 0 else 1 + AllowedRun(s[1..])
  }

  /** Every match of the allowed-characters pattern, globally: at each position the greedy match is the
      longest run of allowed code units; an empty match (at a code unit
      outside the class, and once at the end) advances by one. */
  function MatchAll(s: string): (ms: seq<string>)
    ensures |ms| >= 1
    ensures forall i :: 0 <= i < |ms| ==> AllAllowed(ms[i])
    decreases |s|
  {
    if |s| == 0 then [""]
    else
      var n := AllowedRun(s);
      if n == 0 then [""] + MatchAll(s[1..])
      else [s[..n]] + MatchAll(s[n..])
  }

  /** The matches, put back together, lose exactly the code units outside
      the class, so they carry every word code unit of the input. */
  lemma {:induction false} MatchAllKeepsWords(s: string)
    ensures Words(Concat(MatchAll(s))) == Words(s)
    decreases |s|
  {
    if |s| > 0 {
      var n := AllowedRun(s);
      if n == 0 {
        MatchAllKeepsWords(s[1..]);
        SkipKeepsWords(s);
      } else {
        MatchAllKeepsWords(s[n..]);
        RunMatched(s);
        WordsAppend(s[..n], Concat(MatchAll(s[n..])));
        assert s == s[..n] + s[n..];
        WordsAppend(s[..n], s[n..]);
      }
    }
  }

  /** A code unit outside the class yields an empty match and is no word
      code unit, so skipping it loses no word. */
  lemma SkipKeepsWords(s: string)
    requires |s| > 0 && AllowedRun(s) == 0
    ensures Concat(MatchAll(s)) == Concat(MatchAll(s[1..]))
    ensures Words(s) == Words(s[1..])
  {
    var rest := MatchAll(s[1..]);
    var ms := [""] + rest;
    assert ms[0] == "" && ms[1..] == rest;
    assert !IsWordChar(s[0]);
  }

  /** A non-empty run is matched whole, ahead of the matches after it. */
  lemma RunMatched(s: string)
    requires |s| > 0 && AllowedRun(s) > 0
    ensures Concat(MatchAll(s)) == s[..AllowedRun(s)] + Concat(MatchAll(s[AllowedRun(s)..]))
  {
    var n := AllowedRun(s);
    var rest := MatchAll(s[n..]);
    var ms := [s[..n]] + rest;
    assert MatchAll(s) == ms;
    assert ms[0] == s[..n] && ms[1..] == rest;
  }

  /** On a string made only of allowed code units the pattern matches the
      whole string once, then the empty string at its end. */
  lemma MatchAllOfAllowed(s: string)
    requires AllAllowed(s)
    ensures MatchAll(s) == (if s == "" then [""] else [s, ""])
  {
    if s != "" {
      assert s[..|s|] == s;
      assert s[|s|..] == "";
    }
  }

  /** The matches that are not blank once trimmed, in order. */
  function DropBlank(ms: seq<string>): (r: seq<string>)
    ensures forall t :: t in r ==> t in ms && Trim(t) != ""
    decreases |ms|
  {
    if |ms| == 0 then []
    else (if Trim(ms[0]) != "" then [ms[0]] else []) + DropBlank(ms[1..])
  }

  /** A blank match carries no word code unit. */
  lemma BlankHasNoWords(m: string)
    requires Trim(m) == ""
    ensures Words(m) == ""
  {
    WordsOfWhitespace(m);
  }

  lemma {:induction false} DropBlankKeepsWords(ms: seq<string>)
    ensures Words(Concat(DropBlank(ms))) == Words(Concat(ms))
    decreases |ms|
  {
    if |ms| > 0 {
      var rest := DropBlank(ms[1..]);
      DropBlankKeepsWords(ms[1..]);
      assert Concat(ms) == ms[0] + Concat(ms[1..]);
      WordsAppend(ms[0], Concat(ms[1..]));
      if Trim(ms[0]) != "" {
        var kept := [ms[0]] + rest;
        assert DropBlank(ms) == kept;
        assert kept[0] == ms[0] && kept[1..] == rest;
        assert Concat(kept) == ms[0] + Concat(rest);
        WordsAppend(ms[0], Concat(rest));
      } else {
        assert DropBlank(ms) == [] + rest;
        assert [] + rest == rest;
        BlankHasNoWords(ms[0]);
      }
    }
  }

  lemma {:induction false} JoinSpaceKeepsWords(xs: seq<string>)
    ensures Words(JoinWith(xs, " ")) == Words(Concat(xs))
    decreases |xs|
  {
    if |xs| == 1 {
      assert Concat(xs) == xs[0] + Concat(xs[1..]);
      assert Concat(xs[1..]) == "";
      assert xs[0] + "" == xs[0];
    } else if |xs| > 1 {
      JoinSpaceKeepsWords(xs[1..]);
      var tail := JoinWith(xs[1..], " ");
      assert JoinWith(xs, " ") == (xs[0] + " ") + tail;
      WordsAppend(xs[0] + " ", tail);
      WordsAppend(xs[0], " ");
      WordsOfSingle(' ');
      assert Concat(xs) == xs[0] + Concat(xs[1..]);
      WordsAppend(xs[0], Concat(xs[1..]));
    }
  }

  lemma {:induction false} JoinSpaceAllowed(xs: seq<string>)
    requires forall t :: t in xs ==> AllAllowed(t)
    ensures AllAllowed(JoinWith(xs, " "))
    decreases |xs|
  {
    if |xs| > 1 {
      assert xs[0] in xs;
      assert forall t :: t in xs[1..] ==> t in xs;
      JoinSpaceAllowed(xs[1..]);
      var tail := JoinWith(xs[1..], " ");
      var r := xs[0] + " " + tail;
      assert JoinWith(xs, " ") == r;
      forall i | 0 <= i < |r| ensures IsAllowed(r[i]) {
        if i < |xs[0]| {
          assert r[i] == xs[0][i];
        } else if i == |xs[0]| {
          assert r[i] == ' ';
        } else {
          assert r[i] == tail[i - |xs[0]| - 1];
        }
      }
    } else if |xs| == 1 {
      assert xs[0] in xs;
    }
  }

  // ---------------------------------------------------------------------
  // Whitespace collapsing

  /** Whitespace runs replaced by one space; `afterSpace` records that the
      output already ends in the space standing for the current run. */
  function CollapseFrom(s: string, afterSpace: bool): string
    decreases |s|
  {
    if |s| == 0 then ""
    else if IsWhitespace(s[0]) then (if afterSpace then "" else " ") + CollapseFrom(s[1..], true)
    else [s[0]] + CollapseFrom(s[1..], false)
  }

  function CollapseWhitespace(s: string): string
  {
    CollapseFrom(s, false)
  }

  /** Collapsing writes only spaces and non-whitespace code units of its
      input, so the allowed class and the absence of upper case carry over. */
  lemma {:induction false} CollapseFromKeepsClass(s: string, afterSpace: bool)
    ensures AllAllowed(s) ==> AllAllowed(CollapseFrom(s, afterSpace))
    ensures NoUpper(s) ==> NoUpper(CollapseFrom(s, afterSpace))
    decreases |s|
  {
    if |s| > 0 {
      CollapseFromKeepsClass(s[1..], IsWhitespace(s[0]));
      var rest := CollapseFrom(s[1..], IsWhitespace(s[0]));
      var head := if IsWhitespace(s[0]) then (if afterSpace then "" else " ") else [s[0]];
      var r := head + rest;
      assert CollapseFrom(s, afterSpace) == r;
      assert forall i :: 0 <= i < |head| ==> head[i] == ' ' || head[i] == s[0];
      if AllAllowed(s) {
        assert IsAllowed(' ') && IsAllowed(s[0]);
        forall i | 0 <= i < |r| ensures IsAllowed(r[i]) {
          if i >= |head| {
            assert r[i] == rest[i - |head|];
          }
        }
      }
      if NoUpper(s) {
        forall i | 0 <= i < |r| ensures !('A' <= r[i] <= 'Z') {
          if i >= |head| {
            assert r[i] == rest[i - |head|];
          }
        }
      }
    }
  }

  /** Collapsing never leaves two adjacent spaces, and writes no space
      right after the one standing for the current run. */
  lemma {:induction false} CollapseFromSingleSpaces(s: string, afterSpace: bool)
    ensures NoDoubleSpace(CollapseFrom(s, afterSpace))
    ensures afterSpace && |CollapseFrom(s, afterSpace)| > 0 ==> CollapseFrom(s, afterSpace)[0] != ' '
    decreases |s|
  {
    if |s| > 0 {
      CollapseFromSingleSpaces(s[1..], IsWhitespace(s[0]));
      var rest := CollapseFrom(s[1..], IsWhitespace(s[0]));
      var head := if IsWhitespace(s[0]) then (if afterSpace then "" else " ") else [s[0]];
      var r := head + rest;
      assert CollapseFrom(s, afterSpace) == r;
      assert |head| <= 1;
      assert head == " " ==> |rest| == 0 || rest[0] != ' ';
      forall i | 0 <= i < |r| - 1 ensures !(r[i] == ' ' && r[i + 1] == ' ') {
        if i >= |head| {
          assert r[i] == rest[i - |head|] && r[i + 1] == rest[i - |head| + 1];
        } else {
          assert r[i + 1] == rest[0];
        }
      }
    }
  }

  lemma {:induction false} CollapseFromKeepsWords(s: string, afterSpace: bool)
    ensures Words(CollapseFrom(s, afterSpace)) == Words(s)
    decreases |s|
  {
    if |s| > 0 {
      CollapseFromKeepsWords(s[1..], IsWhitespace(s[0]));
      var rest := CollapseFrom(s[1..], IsWhitespace(s[0]));
      var head := if IsWhitespace(s[0]) then (if afterSpace then "" else " ") else [s[0]];
      assert CollapseFrom(s, afterSpace) == head + rest;
      WordsAppend(head, rest);
      assert s == [s[0]] + s[1..];
      WordsAppend([s[0]], s[1..]);
      CollapsedHeadWords(s[0], afterSpace);
    }
  }

  /** What one input code unit turns into when collapsing holds the same
      words as the code unit itself. */
  lemma CollapsedHeadWords(c: char, afterSpace: bool)
    ensures Words(if IsWhitespace(c) then (if afterSpace then "" else " ") else [c]) == Words([c])
  {
    WordsOfSingle(c);
    if IsWhitespace(c) {
      WordsOfSingle(' ');
      WhitespaceIsNoWord(c);
    }
  }

  /** No whitespace code unit is part of a word. */
  lemma WhitespaceIsNoWord(c: char)
    requires IsWhitespace(c)
    ensures !IsWordChar(c)
  {
    if IsAllowed(c) {
      AllowedWhitespaceIsSpace(c);
    }
  }

  /** The first and the last code unit survive collapsing when they are not
      whitespace. */
  lemma {:induction false} CollapseFromEnds(s: string, afterSpace: bool)
    requires |s| > 0 && !IsWhitespace(s[|s| - 1])
    ensures var r := CollapseFrom(s, afterSpace);
      |r| > 0 && r[|r| - 1] == s[|s| - 1]
      && (!IsWhitespace(s[0]) ==> r[0] == s[0])
    decreases |s|
  {
    if |s| > 1 {
      CollapseFromEnds(s[1..], IsWhitespace(s[0]));
    }
  }

  /** Collapsing changes nothing in a string of allowed code units whose
      spaces are single (and not leading, after a run). */
  lemma {:induction false} CollapseFromNoop(s: string, afterSpace: bool)
    requires AllAllowed(s) && NoDoubleSpace(s)
    requires afterSpace && |s| > 0 ==> s[0] != ' '
    ensures CollapseFrom(s, afterSpace) == s
    decreases |s|
  {
    if |s| > 0 {
      AllowedWhitespaceIsSpace(s[0]);
      if |s| > 1 {
        AllowedWhitespaceIsSpace(s[1]);
      }
      CollapseFromNoop(s[1..], IsWhitespace(s[0]));
      assert s == [s[0]] + s[1..];
    }
  }

  // ---------------------------------------------------------------------
  // Tokens: the maximal runs of word code units

  /** Length of the longest prefix of `s` made of word code units. */
  function WordRun(s: string): (n: nat)
    ensures n <= |s|
    ensures forall i {:trigger IsWordChar(s[i])} :: 0 <= i < n ==> IsWordChar(s[i])
    ensures n < |s| ==> !IsWordChar(s[n])
    decreases |s|
  {
    if |s| == 0 || !IsWordChar(s[0]) then 0 else 1 + WordRun(s[1..])
  }

  /** The maximal runs of word code units of `s`, in order: the words a
      reader sees in a message, defined without reference to the stages
      that sanitise it. */
  function Tokens(s: string): seq<string>
    decreases |s|
  {
    if |s| == 0 then []
    else if !IsWordChar(s[0]) then Tokens(s[1..])
    else
      var n := WordRun(s);
      [s[..n]] + Tokens(s[n..])
  }

  /** The run length is determined by the run's characterisation. */
  lemma WordRunUnique(s: string, n: nat)
    requires n <= |s|
    requires forall i {:trigger IsWordChar(s[i])} :: 0 <= i < n ==> IsWordChar(s[i])
    requires n < |s| ==> !IsWordChar(s[n])
    ensures WordRun(s) == n
  {
  }

  /** Splitting a string where no run is cut (one side is empty, or a
      non-word code unit sits at the seam) splits its tokens. */
  lemma {:induction false} TokensAppend(x: string, y: string)
    requires |x| == 0 || |y| == 0 || !IsWordChar(x[|x| - 1]) || !IsWordChar(y[0])
    ensures Tokens(x + y) == Tokens(x) + Tokens(y)
    decreases |x|
  {
    if |x| == 0 {
      assert x + y == y;
    } else if !IsWordChar(x[0]) {
      AppendSlices(x, y, 1);
      TokensAppend(x[1..], y);
    } else {
      var m := WordRun(x);
      RunOfAppend(x, y);
      AppendSlices(x, y, m);
      TokensAppend(x[m..], y);
    }
  }

  /** The seam does not cut a run, so the first run of `x + y` is the
      first run of `x`. */
  lemma RunOfAppend(x: string, y: string)
    requires |x| > 0
    requires |y| == 0 || !IsWordChar(x[|x| - 1]) || !IsWordChar(y[0])
    ensures WordRun(x + y) == WordRun(x)
  {
    var s := x + y;
    var m := WordRun(x);
    forall i | 0 <= i < m ensures IsWordChar(s[i]) {
      assert s[i] == x[i];
    }
    if m < |s| {
      if m < |x| {
        assert s[m] == x[m];
      } else {
        assert IsWordChar(x[|x| - 1]);
        assert s[m] == y[0];
      }
    }
    WordRunUnique(s, m);
  }

  /** A string without word code units has no tokens. */
  lemma {:induction false} TokensOfNoWord(s: string)
    requires forall i {:trigger IsWordChar(s[i])} :: 0 <= i < |s| ==> !IsWordChar(s[i])
    ensures Tokens(s) == []
    decreases |s|
  {
    if |s| > 0 {
      TokensOfNoWord(s[1..]);
    }
  }

  lemma WhitespaceTokens(w: string)
    requires AllWhitespace(w)
    ensures Tokens(w) == []
    ensures forall i {:trigger IsWordChar(w[i])} :: 0 <= i < |w| ==> !IsWordChar(w[i])
  {
    forall i | 0 <= i < |w| ensures !IsWordChar(w[i]) {
      WhitespaceIsNoWord(w[i]);
    }
    TokensOfNoWord(w);
  }

  lemma WhitespacePrefixTokens(a: string, t: string)
    requires AllWhitespace(a)
    ensures Tokens(a + t) == Tokens(t)
  {
    WhitespaceTokens(a);
    if |a| > 0 {
      assert !IsWordChar(a[|a| - 1]);
    }
    TokensAppend(a, t);
    assert [] + Tokens(t) == Tokens(t);
  }

  lemma WhitespaceSuffixTokens(t: string, b: string)
    requires AllWhitespace(b)
    ensures Tokens(t + b) == Tokens(t)
  {
    WhitespaceTokens(b);
    if |b| > 0 {
      assert !IsWordChar(b[0]);
    }
    TokensAppend(t, b);
    assert Tokens(t) + [] == Tokens(t);
  }

  lemma TrimTokens(s: string)
    ensures Tokens(Trim(s)) == Tokens(s)
  {
    var a, b := TrimParts(s);
    WhitespaceSuffixTokens(Trim(s), b);
    WhitespacePrefixTokens(a, Trim(s) + b);
  }

  /** The tokens of every string of a list, in order. */
  function TokensOfEach(xs: seq<string>): seq<string>
    decreases |xs|
  {
    if |xs| == 0 then [] else Tokens(xs[0]) + TokensOfEach(xs[1..])
  }

  lemma TokensOfEachCons(x: string, xs: seq<string>)
    ensures TokensOfEach([x] + xs) == Tokens(x) + TokensOfEach(xs)
  {
    assert ([x] + xs)[1..] == xs;
  }

  lemma SpaceTokens(t: string)
    ensures Tokens(" " + t) == Tokens(t)
  {
    var s := " " + t;
    assert s[0] == ' ' && s[1..] == t;
  }

  /** Joining with a space neither merges nor adds tokens. */
  lemma {:induction false} JoinSpaceTokens(xs: seq<string>)
    ensures Tokens(JoinWith(xs, " ")) == TokensOfEach(xs)
    decreases |xs|
  {
    if |xs| == 1 {
      assert xs[1..] == [];
      assert TokensOfEach(xs) == Tokens(xs[0]) + [];
    } else if |xs| > 1 {
      var tail := JoinWith(xs[1..], " ");
      JoinSpaceTokens(xs[1..]);
      assert JoinWith(xs, " ") == xs[0] + (" " + tail);
      assert (" " + tail)[0] == ' ';
      TokensAppend(xs[0], " " + tail);
      SpaceTokens(tail);
    }
  }

  /** Dropping blank matches loses no token. */
  lemma {:induction false} DropBlankTokens(ms: seq<string>)
    ensures TokensOfEach(DropBlank(ms)) == TokensOfEach(ms)
    decreases |ms|
  {
    if |ms| > 0 {
      var rest := DropBlank(ms[1..]);
      DropBlankTokens(ms[1..]);
      if Trim(ms[0]) != "" {
        assert DropBlank(ms) == [ms[0]] + rest;
        TokensOfEachCons(ms[0], rest);
      } else {
        assert DropBlank(ms) == rest;
        BlankIsWhitespace(ms[0]);
        WhitespaceTokens(ms[0]);
      }
    }
  }

  /** The matches of the allowed-characters pattern carry exactly the
      tokens of the text they were taken from. */
  lemma {:induction false} MatchAllTokens(s: string)
    ensures TokensOfEach(MatchAll(s)) == Tokens(s)
    decreases |s|
  {
    if |s| > 0 {
      var n := AllowedRun(s);
      if n == 0 {
        MatchAllTokens(s[1..]);
        var ms := [""] + MatchAll(s[1..]);
        assert MatchAll(s) == ms;
        assert ms[0] == "" && ms[1..] == MatchAll(s[1..]);
        assert !IsWordChar(s[0]);
      } else {
        MatchAllTokens(s[n..]);
        var ms := [s[..n]] + MatchAll(s[n..]);
        assert MatchAll(s) == ms;
        assert ms[0] == s[..n] && ms[1..] == MatchAll(s[n..]);
        assert s == s[..n] + s[n..];
        assert n < |s| ==> s[n..][0] == s[n];
        TokensAppend(s[..n], s[n..]);
      }
    }
  }

  /** Every token lower-cased. */
  function LowerEach(ts: seq<string>): seq<string>
  {
    seq(|ts|, i requires 0 <= i < |ts| => LowerAscii(ts[i]))
  }

  /** Lower-casing maps word code units to word code units and nothing
      else to one. */
  lemma WordCharLower(c: char)
    ensures IsWordChar(LowerChar(c)) <==> IsWordChar(c)
  {
    AllowedClosedUnderLower(c);
  }

  /** Lower-casing a text lower-cases its tokens and keeps their bounds. */
  lemma {:induction false} TokensLower(s: string)
    ensures Tokens(LowerAscii(s)) == LowerEach(Tokens(s))
    decreases |s|
  {
    if |s| > 0 {
      WordCharLower(s[0]);
      if !IsWordChar(s[0]) {
        LowerSlices(s, 1);
        TokensLower(s[1..]);
      } else {
        var n := WordRun(s);
        LowerRun(s);
        LowerSlices(s, n);
        TokensLower(s[n..]);
        LowerEachCons(s[..n], Tokens(s[n..]));
      }
    }
  }

  /** Lower-casing keeps the first run's length. */
  lemma LowerRun(s: string)
    ensures WordRun(LowerAscii(s)) == WordRun(s)
  {
    var l := LowerAscii(s);
    var n := WordRun(s);
    forall i | 0 <= i < n ensures IsWordChar(l[i]) {
      WordCharLower(s[i]);
    }
    if n < |s| {
      WordCharLower(s[n]);
    }
    WordRunUnique(l, n);
  }

  lemma LowerEachCons(t: string, ts: seq<string>)
    ensures LowerEach([t] + ts) == [LowerAscii(t)] + LowerEach(ts)
  {
  }

  /** A separator after text that already ends outside a run can be
      dropped without changing the tokens. */
  lemma SeparatorAfterBoundary(p: string, c: char, rest: string)
    requires !IsWordChar(c)
    requires |p| == 0 || !IsWordChar(p[|p| - 1])
    ensures Tokens(p + rest) == Tokens(p + ([c] + rest))
  {
    TokensAppend(p, [c] + rest);
    SeparatorTokens(c, rest);
    TokensAppend(p, rest);
  }
  /** Any separator separates exactly like one space. */
  lemma SeparatorAsSpace(p: string, c: char, rest: string)
    requires !IsWordChar(c)
    ensures Tokens((p + " ") + rest) == Tokens(p + ([c] + rest))
  {
    TokensAppend(p, [c] + rest);
    SeparatorTokens(c, rest);
    AppendAssoc(p, " ", rest);
    TokensAppend(p, " " + rest);
    SpaceTokens(rest);
  }
  /** Collapsing whitespace after an already written prefix `p` keeps the
      tokens; `afterSpace` requires `p` to end outside a run. */
  lemma {:induction false} CollapseTokens(p: string, s: string, afterSpace: bool)
    requires afterSpace ==> |p| == 0 || !IsWordChar(p[|p| - 1])
    ensures Tokens(p + CollapseFrom(s, afterSpace)) == Tokens(p + s)
    decreases |s|
  {
    if |s| == 0 {
      assert p + CollapseFrom(s, afterSpace) == p + s;
    } else {
      var rest := s[1..];
      assert s == [s[0]] + rest;
      if IsWhitespace(s[0]) {
        WhitespaceIsNoWord(s[0]);
        if afterSpace {
          CollapseTokens(p, rest, true);
          assert CollapseFrom(s, afterSpace) == CollapseFrom(rest, true);
          SeparatorAfterBoundary(p, s[0], rest);
        } else {
          CollapseTokens(p + " ", rest, true);
          assert CollapseFrom(s, afterSpace) == " " + CollapseFrom(rest, true);
          AppendAssoc(p, " ", CollapseFrom(rest, true));
          SeparatorAsSpace(p, s[0], rest);
        }
      } else {
        CollapseTokens(p + [s[0]], rest, false);
        assert CollapseFrom(s, afterSpace) == [s[0]] + CollapseFrom(rest, false);
        AppendAssoc(p, [s[0]], CollapseFrom(rest, false));
        AppendAssoc(p, [s[0]], rest);
      }
    }
  }

  lemma SeparatorTokens(c: char, t: string)
    requires !IsWordChar(c)
    ensures Tokens([c] + t) == Tokens(t)
  {
    var s := [c] + t;
    assert s[0] == c && s[1..] == t;
  }

  /** A run followed by a separator and more text: the run is the first
      token and the tokens after the separator follow it. */
  lemma RunThenSeparator(r: string, n: nat)
    requires 0 < n < |r| && n == WordRun(r)
    ensures Tokens(r) == [r[..n]] + Tokens(r[n + 1..])
  {
    var rest := r[n + 1..];
    assert Tokens(r) == [r[..n]] + Tokens(r[n..]) by {
      assert IsWordChar(r[0]);
    }
    assert Tokens(r[n..]) == Tokens(rest) by {
      SuffixCons(r, n);
      SeparatorTokens(r[n], rest);
    }
  }

  /** What follows a space inside a `Clean` string is `Clean`. */
  lemma CleanAfterSpace(r: string, j: nat)
    requires Clean(r) && 0 < j < |r| && r[j - 1] == ' '
    ensures Clean(r[j..])
  {
    var rest := r[j..];
    forall i | 0 <= i < |rest| - 1 ensures !(rest[i] == ' ' && rest[i + 1] == ' ') {
      assert rest[i] == r[j + i] && rest[i + 1] == r[j + i + 1];
    }
    assert rest[0] == r[j] && rest[|rest| - 1] == r[|r| - 1];
  }

  /** A non-empty `Clean` string opens with a run, which either fills it or
      is followed by one space and a `Clean` rest that opens with a word
      code unit. */
  lemma CleanFirstRun(r: string)
    requires Clean(r) && |r| > 0
    ensures 0 < WordRun(r)
    ensures WordRun(r) < |r| ==> var n := WordRun(r);
      && r[n] == ' ' && n + 1 < |r| && Clean(r[n + 1..]) && IsWordChar(r[n + 1])
  {
    var n := WordRun(r);
    if n < |r| {
      assert r[n] == ' ' && n + 1 < |r|;
      CleanAfterSpace(r, n + 1);
    }
  }

  /** A string that opens with a word code unit has a token. */
  lemma TokensOpen(s: string)
    requires |s| > 0 && IsWordChar(s[0])
    ensures Tokens(s) != []
  {
  }

  /** A string made of one run is its one token. */
  lemma SingleRunTokens(s: string)
    requires |s| > 0 && WordRun(s) == |s|
    ensures Tokens(s) == [s]
  {
    assert s[..|s|] == s && s[|s|..] == "";
  }

  /** A `Clean` string is its own tokens joined by single spaces. */
  lemma {:induction false} CleanIsJoinOfTokens(r: string)
    requires Clean(r)
    ensures JoinWith(Tokens(r), " ") == r
    decreases |r|
  {
    if |r| > 0 {
      var n := WordRun(r);
      CleanFirstRun(r);
      if n == |r| {
        SingleRunTokens(r);
      } else {
        var rest := r[n + 1..];
        CleanIsJoinOfTokens(rest);
        RunThenSeparator(r, n);
        TokensOpen(rest);
        JoinCons(r[..n], Tokens(rest), " ");
        SplitAround(r, n);
      }
    }
  }

  // ---------------------------------------------------------------------
  // The whole pipeline

  /** `cleanMessage` before its final truncation. */
  function Sanitise(input: string): string
  {
    var matches := MatchAll(Trim(input));
    var joined := JoinWith(DropBlank(matches), " ");
    CollapseWhitespace(LowerAscii(Trim(joined)))
  }

  lemma {:induction false} LowerKeepsWords(s: string)
    ensures Words(LowerAscii(s)) == LowerAscii(Words(s))
    decreases |s|
  {
    if |s| > 0 {
      var c := s[0];
      assert s == [c] + s[1..];
      LowerAsciiAppend([c], s[1..]);
      WordsAppend([c], s[1..]);
      WordsAppend(LowerAscii([c]), LowerAscii(s[1..]));
      LowerKeepsWords(s[1..]);
      LowerWordsOfSingle(c);
      LowerAsciiAppend(Words([c]), Words(s[1..]));
    }
  }

  /** Lower-casing one code unit and taking its words commute. */
  lemma LowerWordsOfSingle(c: char)
    ensures Words(LowerAscii([c])) == LowerAscii(Words([c]))
  {
    assert LowerAscii([c]) == [LowerChar(c)];
    WordsOfSingle(c);
    WordsOfSingle(LowerChar(c));
    AllowedClosedUnderLower(c);
    if IsWordChar(c) {
      assert LowerAscii([c]) == [LowerChar(c)];
    } else if IsAllowed(LowerChar(c)) {
      assert LowerChar(c) == c || 'A' <= c <= 'Z';
    }
  }

  /** The lowered, trimmed join: the input of the collapse stage. */
  function Lowered(input: string): string
  {
    LowerAscii(Trim(JoinWith(DropBlank(MatchAll(Trim(input))), " ")))
  }

  lemma TrimKeepsAllowed(s: string)
    requires AllAllowed(s)
    ensures AllAllowed(Trim(s))
  {
    var k := TrimSlice(s);
    var r := Trim(s);
    forall i | 0 <= i < |r| ensures IsAllowed(r[i]) {
      assert r[i] == s[k + i];
      assert IsAllowed(s[k + i]);
    }
  }

  lemma LowerKeepsAllowed(s: string)
    requires AllAllowed(s)
    ensures AllAllowed(LowerAscii(s)) && NoUpper(LowerAscii(s))
  {
    forall i | 0 <= i < |s| ensures IsAllowed(LowerAscii(s)[i]) {
      AllowedClosedUnderLower(s[i]);
    }
  }

  lemma LowerCharWhitespace(c: char)
    ensures IsWhitespace(LowerChar(c)) <==> IsWhitespace(c)
  {
  }

  /** Lower-casing a trimmed string of allowed code units keeps it free of
      whitespace at both ends. */
  lemma LowerTrimmedShape(joined: string)
    requires AllAllowed(joined)
    ensures var l := LowerAscii(Trim(joined));
      AllAllowed(l) && NoUpper(l)
      && (|l| > 0 ==> !IsWhitespace(l[0]) && !IsWhitespace(l[|l| - 1]))
  {
    var trimmed := Trim(joined);
    TrimKeepsAllowed(joined);
    LowerKeepsAllowed(trimmed);
    if |trimmed| > 0 {
      LowerCharWhitespace(trimmed[0]);
      LowerCharWhitespace(trimmed[|trimmed| - 1]);
    }
  }

  /** The collapse stage receives allowed code units only, no upper case,
      and neither leading nor trailing whitespace. */
  lemma LoweredShape(input: string)
    ensures AllAllowed(Lowered(input)) && NoUpper(Lowered(input))
    ensures |Lowered(input)| > 0 ==>
      !IsWhitespace(Lowered(input)[0]) && !IsWhitespace(Lowered(input)[|Lowered(input)| - 1])
  {
    var kept := DropBlank(MatchAll(Trim(input)));
    JoinSpaceAllowed(kept);
    LowerTrimmedShape(JoinWith(kept, " "));
  }

  lemma LoweredWords(input: string)
    ensures Words(Lowered(input)) == LowerAscii(Words(input))
  {
    var matches := MatchAll(Trim(input));
    var kept := DropBlank(matches);
    var joined := JoinWith(kept, " ");
    TrimKeepsWords(input);
    MatchAllKeepsWords(Trim(input));
    DropBlankKeepsWords(matches);
    JoinSpaceKeepsWords(kept);
    TrimKeepsWords(joined);
    LowerKeepsWords(Trim(joined));
  }

  /** The sanitised text is `Clean` and carries exactly the word code units
      of the input, lower-cased, in their original order. */
  lemma SanitiseClean(input: string)
    ensures Clean(Sanitise(input))
    ensures Words(Sanitise(input)) == LowerAscii(Words(input))
  {
    var lowered := Lowered(input);
    assert Sanitise(input) == CollapseFrom(lowered, false);
    LoweredShape(input);
    LoweredWords(input);
    CollapseFromKeepsClass(lowered, false);
    CollapseFromSingleSpaces(lowered, false);
    CollapseFromKeepsWords(lowered, false);
    if |lowered| > 0 {
      CollapseFromEnds(lowered, false);
    }
  }

  /** Sanitising keeps the tokens of the lower-cased input. */
  lemma SanitiseTokens(input: string)
    ensures Tokens(Sanitise(input)) == Tokens(LowerAscii(input))
  {
    var matches := MatchAll(Trim(input));
    var kept := DropBlank(matches);
    var joined := JoinWith(kept, " ");
    var lowered := LowerAscii(Trim(joined));
    assert Sanitise(input) == CollapseFrom(lowered, false);
    CollapseTokens("", lowered, false);
    assert "" + lowered == lowered;
    assert "" + CollapseFrom(lowered, false) == CollapseFrom(lowered, false);
    TokensLower(Trim(joined));
    TrimTokens(joined);
    JoinSpaceTokens(kept);
    DropBlankTokens(matches);
    MatchAllTokens(Trim(input));
    TrimTokens(input);
    TokensLower(input);
  }

  /** The sanitised text is `Clean`, carries the word code units of the
      input lower-cased and in order, and is exactly the tokens of the
      lower-cased input joined by single spaces. */
  lemma SanitiseShape(input: string)
    ensures Clean(Sanitise(input))
    ensures Words(Sanitise(input)) == LowerAscii(Words(input))
    ensures Sanitise(input) == JoinWith(Tokens(LowerAscii(input)), " ")
  {
    SanitiseClean(input);
    SanitiseTokens(input);
    CleanIsJoinOfTokens(Sanitise(input));
  }

  lemma CleanTrimNoop(s: string)
    requires Clean(s)
    ensures Trim(s) == s
  {
    if |s| > 0 {
      AllowedWhitespaceIsSpace(s[0]);
      AllowedWhitespaceIsSpace(s[|s| - 1]);
    }
    TrimNoop(s);
  }

  lemma DropBlankOfEmpty()
    ensures DropBlank([""]) == []
  {
    assert AllWhitespace("");
    assert Trim("") == "";
  }

  lemma DropBlankOfClean(s: string)
    requires Clean(s)
    ensures DropBlank(MatchAll(s)) == (if s == "" then [] else [s])
  {
    MatchAllOfAllowed(s);
    if s == "" {
      DropBlankOfEmpty();
    } else {
      CleanTrimNoop(s);
      DropBlankKeepsOne(s);
    }
  }

  /** A non-blank match followed by the final empty one filters to itself. */
  lemma DropBlankKeepsOne(m: string)
    requires Trim(m) != ""
    ensures DropBlank([m, ""]) == [m]
  {
    var ms := [m, ""];
    assert ms[0] == m && ms[1..] == [""];
    DropBlankOfEmpty();
    assert DropBlank(ms) == [m] + DropBlank([""]);
  }

  lemma LowerNoUpper(s: string)
    requires NoUpper(s)
    ensures LowerAscii(s) == s
  {
  }

  /** The stages before collapsing leave a `Clean` string as it is. */
  lemma LoweredOfClean(s: string)
    requires Clean(s)
    ensures Lowered(s) == s
  {
    CleanTrimNoop(s);
    DropBlankOfClean(s);
    var joined := JoinWith(DropBlank(MatchAll(Trim(s))), " ");
    assert joined == s;
    LowerNoUpper(s);
  }

  /** Sanitising a `Clean` string gives it back unchanged. */
  lemma SanitiseFixpoint(s: string)
    requires Clean(s)
    ensures Sanitise(s) == s
  {
    LoweredOfClean(s);
    assert Sanitise(s) == CollapseFrom(Lowered(s), false);
    CollapseFromNoop(s, false);
  }

  /** A `Clean` string is empty exactly when it has no word code unit. */
  lemma CleanWordsEmpty(c: string)
    requires Clean(c)
    ensures c == "" <==> Words(c) == ""
  {
    if c != "" {
      AllowedWhitespaceIsSpace(c[0]);
      assert c == [c[0]] + c[1..];
      WordsAppend([c[0]], c[1..]);
      WordsOfSingle(c[0]);
    }
  }

  /** Truncating a `Clean` string to `m` code units and appending `...`
      keeps the class, the single spacing and the non-space start, and
      keeps a prefix of its words. */
  lemma TruncatedShape(c: string, m: nat)
    requires Clean(c) && |c| > m
    ensures var r := c[..m] + "...";
      && AllAllowed(r) && NoUpper(r) && NoDoubleSpace(r)
      && r[0] != ' '
      && |r| == m + 3 && r[m..] == "..." && r[..m] == c[..m]
      && Words(r[..m]) <= Words(c)
  {
    var r := c[..m] + "...";
    AllowedClosedUnderLower('.');
    assert forall i :: m <= i < |r| ==> r[i] == '.';
    assert forall i :: 0 <= i < m ==> r[i] == c[i];
    assert c == c[..m] + c[m..];
    WordsAppend(c[..m], c[m..]);
  }

  /** `cleanMessage(input, maxLength)`. */
  function CleanMessage(input: string, maxLength: nat): (r: string)
    ensures AllAllowed(r) && NoUpper(r) && NoDoubleSpace(r)
    ensures |r| > 0 ==> r[0] != ' '
    ensures r == "" <==> Words(input) == ""
    ensures |r| <= maxLength ==> Words(r) == LowerAscii(Words(input))
    ensures |r| <= maxLength && |r| > 0 ==> r[|r| - 1] != ' '
    ensures |r| > maxLength ==> |r| == maxLength + 3 && r[maxLength..] == "..."
    ensures |r| > maxLength ==> Words(r[..maxLength]) <= LowerAscii(Words(input))
    ensures |r| <= maxLength ==> r == JoinWith(Tokens(LowerAscii(input)), " ")
    ensures |r| > maxLength ==>
      var full := JoinWith(Tokens(LowerAscii(input)), " ");
      |full| > maxLength && r[..maxLength] == full[..maxLength]
  {
    var cleaned := Sanitise(input);
    SanitiseShape(input);
    CleanWordsEmpty(cleaned);
    if |cleaned| > maxLength then
      TruncatedShape(cleaned, maxLength);
      cleaned[..maxLength] + "..."
    else
      cleaned
  }

  /** Cleaning an untruncated result again changes nothing. */
  lemma CleanMessageIdempotent(input: string, maxLength: nat)
    ensures |CleanMessage(input, maxLength)| <= maxLength ==>
      CleanMessage(CleanMessage(input, maxLength), maxLength) == CleanMessage(input, maxLength)
  {
    var r := CleanMessage(input, maxLength);
    if |r| <= maxLength {
      SanitiseShape(input);
      assert r == Sanitise(input);
      SanitiseFixpoint(r);
    }
  }

  /** `drawUnderscore(text, color, underscoreColor)`: the text in `color`,
      a line of as many up-underscores as the text has code units in
      `underscoreColor`, then back to `color`. */
  function DrawUnderscore(text: string, color: string, underscoreColor: string): (r: string)
    ensures |r| == 2 * |text| + 2 * |color| + |underscoreColor| + 2
    ensures r[..|color| + |text|] == color + text
    ensures r[|color| + |text|] == '\r'
    ensures forall i :: |color| + |text| + 1 + |underscoreColor| <= i < |color| + 2 * |text| + 1 + |underscoreColor|
              ==> r[i] == Char(UpUnderscore)
    ensures r[|color| + |text| + 1..|color| + |text| + 1 + |underscoreColor|] == underscoreColor
    ensures r[|color| + 2 * |text| + 1 + |underscoreColor|] == '\r'
    ensures r[|r| - |color|..] == color
  {
    color + text + "\r" + underscoreColor + RepeatChar(Char(UpUnderscore), |text|) + "\r" + color
  }

  /** `addDelete()`: a return, forty cursor-lefts, a return and forty
      deletes, 82 code units in all. */
  function AddDelete(): (r: string)
    ensures |r| == 82
    ensures r[0] == '\r' && r[41] == '\r'
    ensures forall i :: 1 <= i <= 40 ==> r[i] == Char(CursorLeft)
    ensures forall i :: 42 <= i < 82 ==> r[i] == Char(Delete)
  {
    "\r" + RepeatChar(Char(CursorLeft), 40) + "\r" + RepeatChar(Char(Delete), 40)
  }
}
