/** The JavaScript string built-ins the normalisers rely on: the `\s`
    character class, `String.prototype.trim`, `replace(/\s+/g, " ")` and
    `split`. Characters are Unicode scalar values; the feeds' text contains
    no unpaired surrogates, so UTF-16 code units and scalar values agree on
    every character these functions look at. */
module Text {

  /** ECMAScript WhiteSpace and LineTerminator code points: the set matched
      by `\s` and removed by `trim` (the two agree). */
  predicate IsSpace(c: char) {
    || c == '\t' || c == '\n' || c == '\U{B}' || c == '\U{C}' || c == '\r' || c == ' '
    || c == '\U{A0}' || c == '\U{1680}' || ('\U{2000}' <= c <= '\U{200A}')
    || c == '\U{2028}' || c == '\U{2029}' || c == '\U{202F}' || c == '\U{205F}'
    || c == '\U{3000}' || c == '\U{FEFF}'
  }

  predicate AllSpace(s: string) {
    forall i :: 0 <= i < |s| ==> IsSpace(s[i])
  }

  /** Neither end of `s` is whitespace. */
  predicate Trimmed(s: string) {
    s == [] || (!IsSpace(s[0]) && !IsSpace(s[|s| - 1]))
  }

  /** Every whitespace character is a plain space and no two are adjacent. */
  predicate SingleSpaced(s: string) {
    forall i :: 0 <= i < |s| && IsSpace(s[i]) ==> s[i] == ' ' && (i + 1 < |s| ==> !IsSpace(s[i + 1]))
  }

  /** The non-whitespace characters of `s`, in order. */
  function Squeeze(s: string): string {
    if s == [] then []
    else if IsSpace(s[0]) then Squeeze(s[1..])
    else [s[0]] + Squeeze(s[1..])
  }

  lemma {:induction false} SqueezeAppend(a: string, b: string)
    ensures Squeeze(a + b) == Squeeze(a) + Squeeze(b)
  {
    if a != [] {
      ConsParts(a, b);
      SqueezeAppend(a[1..], b);
      ConsAssoc(a[0], Squeeze(a[1..]), Squeeze(b));
    } else {
      AppendNil(b);
      AppendNil(Squeeze(b));
    }
  }

  lemma {:induction false} SqueezeAllSpace(s: string)
    requires AllSpace(s)
    ensures Squeeze(s) == []
  {
    if s != [] {
      SqueezeAllSpace(s[1..]);
    }
  }

  /** A string has no non-whitespace character exactly when it is all
      whitespace. */
  lemma {:induction false} SqueezeEmpty(s: string)
    ensures Squeeze(s) == [] <==> AllSpace(s)
  {
    if s != [] {
      SqueezeEmpty(s[1..]);
      if IsSpace(s[0]) {
        assert AllSpace(s) <==> AllSpace(s[1..]) by {
          assert forall i :: 1 <= i < |s| ==> s[i] == s[1..][i - 1];
        }
      }
    }
  }

  /** The length of the leading whitespace run of `s`. */
  function LeadingSpaces(s: string): (n: nat)
    ensures n <= |s| && AllSpace(s[..n]) && (n < |s| ==> !IsSpace(s[n]))
    decreases |s|
  {
    if s != [] && IsSpace(s[0]) then 1 + LeadingSpaces(s[1..]) else 0
  }

  /** The length of the trailing whitespace run of `s`. */
  function TrailingSpaces(s: string): (n: nat)
    ensures n <= |s| && AllSpace(s[|s| - n..]) && (n < |s| ==> !IsSpace(s[|s| - n - 1]))
    decreases |s|
  {
    if s != [] && IsSpace(s[|s| - 1]) then
      var m := TrailingSpaces(s[..|s| - 1]);
      TrailingStep(s, m);
      1 + m
    else 0
  }

  /** One more whitespace character at the end extends the trailing run. */
  lemma TrailingStep(s: string, m: nat)
    requires s != [] && IsSpace(s[|s| - 1])
    requires m <= |s| - 1 && AllSpace(s[..|s| - 1][|s| - 1 - m..])
    requires m < |s| - 1 ==> !IsSpace(s[..|s| - 1][|s| - 2 - m])
    ensures AllSpace(s[|s| - (m + 1)..])
    ensures m + 1 < |s| ==> !IsSpace(s[|s| - (m + 1) - 1])
  {
    var t, u := s[..|s| - 1], s[|s| - (m + 1)..];
    forall i | 0 <= i < |u| ensures IsSpace(u[i]) {
      if i < m {
        assert u[i] == t[|s| - 1 - m..][i];
      } else {
        assert u[i] == s[|s| - 1];
      }
    }
    if m + 1 < |s| {
      assert s[|s| - m - 2] == t[|s| - 2 - m];
    }
  }

  /** `trimStart`. */
  function TrimStart(s: string): string {
    s[LeadingSpaces(s)..]
  }

  /** `trimEnd`. */
  function TrimEnd(s: string): string {
    s[..|s| - TrailingSpaces(s)]
  }

  /** A slice of a single-spaced string is single-spaced. */
  lemma SingleSpacedSlice(s: string, i: nat, j: nat)
    requires i <= j <= |s| && SingleSpaced(s)
    ensures SingleSpaced(s[i..j])
  {
    forall k | 0 <= k < j - i && IsSpace(s[i..j][k])
      ensures s[i..j][k] == ' ' && (k + 1 < j - i ==> !IsSpace(s[i..j][k + 1]))
    {
      assert s[i..j][k] == s[i + k];
      if k + 1 < j - i {
        assert s[i..j][k + 1] == s[i + k + 1];
      }
    }
  }

  /** `r` is a slice of `s` with nothing but whitespace before and after
      it. */
  predicate BetweenSpaces(r: string, s: string) {
    exists i :: 0 <= i <= |s| - |r| && r == s[i..i + |r|] && AllSpace(s[..i]) && AllSpace(s[i + |r|..])
  }

  /** Where the trimmed string sits in `s`: right after the leading
      whitespace. */
  lemma TrimAt(s: string)
    ensures LeadingSpaces(s) + |Trim(s)| <= |s|
    ensures Trim(s) == s[LeadingSpaces(s)..LeadingSpaces(s) + |Trim(s)|]
  {
    var t := TrimStart(s);
    var r := TrimEnd(t);
    TrimCutHolds(s, t, r);
    TrimPlace(s, LeadingSpaces(s), t, TrailingSpaces(t), r);
  }

  /** `String.prototype.trim`: the result is the slice of `s` left after
      removing whitespace from both ends, so it keeps every other character
      and has no whitespace at either end. */
  function Trim(s: string): (r: string)
    ensures Trimmed(r)
    ensures BetweenSpaces(r, s)
    ensures Squeeze(r) == Squeeze(s)
    ensures SingleSpaced(s) ==> SingleSpaced(r)
    ensures Trimmed(s) ==> r == s
  {
    var t := TrimStart(s);
    var r := TrimEnd(t);
    TrimFacts(s, t, r);
    r
  }

  lemma TrimFacts(s: string, t: string, r: string)
    requires t == TrimStart(s) && r == TrimEnd(t)
    ensures Trimmed(r)
    ensures BetweenSpaces(r, s)
    ensures Squeeze(r) == Squeeze(s)
    ensures SingleSpaced(s) ==> SingleSpaced(r)
    ensures Trimmed(s) ==> r == s
  {
    TrimCutHolds(s, t, r);
    TrimCutFacts(s, LeadingSpaces(s), t, TrailingSpaces(t), r);
  }

  lemma TrimCutFacts(s: string, i: nat, t: string, n: nat, r: string)
    requires TrimCut(s, i, t, n, r)
    ensures Trimmed(r)
    ensures BetweenSpaces(r, s)
    ensures Squeeze(r) == Squeeze(s)
    ensures SingleSpaced(s) ==> SingleSpaced(r)
    ensures Trimmed(s) ==> r == s
  {
    assert Trimmed(r) && (Trimmed(s) ==> r == s) by {
      TrimEnds(s, i, t, n, r);
    }
    assert i <= |s| - |r| && r == s[i..i + |r|] && AllSpace(s[..i]) && AllSpace(s[i + |r|..]) by {
      TrimPlace(s, i, t, n, r);
    }
    assert Squeeze(r) == Squeeze(s) by {
      TrimSqueeze(s, i, t, n, r);
    }
    assert SingleSpaced(s) ==> SingleSpaced(r) by {
      if SingleSpaced(s) {
        TrimPlace(s, i, t, n, r);
        SingleSpacedSlice(s, i, i + |r|);
      }
    }
  }

  /** `trimStart` and `trimEnd` cut `s` as `TrimCut` describes. */
  lemma TrimCutHolds(s: string, t: string, r: string)
    requires t == TrimStart(s) && r == TrimEnd(t)
    ensures TrimCut(s, LeadingSpaces(s), t, TrailingSpaces(t), r)
  {
  }

  /** `s` cut into leading whitespace `s[..i]`, the rest `t`, and `t` cut
      into `r` and trailing whitespace of length `n`. */
  predicate TrimCut(s: string, i: nat, t: string, n: nat, r: string) {
    i <= |s| && t == s[i..] && n <= |t| && r == t[..|t| - n]
    && AllSpace(s[..i]) && (i < |s| ==> !IsSpace(s[i]))
    && AllSpace(t[|t| - n..]) && (n < |t| ==> !IsSpace(t[|t| - n - 1]))
  }

  lemma TrimEnds(s: string, i: nat, t: string, n: nat, r: string)
    requires TrimCut(s, i, t, n, r)
    ensures Trimmed(r)
    ensures Trimmed(s) ==> r == s
  {
    if r != [] {
      assert r[0] == t[0] == s[i];
      assert r[|r| - 1] == t[|t| - n - 1];
    }
    AllSpaceEnds(s[..i]);
    AllSpaceEnds(t[|t| - n..]);
  }

  lemma AllSpaceEnds(u: string)
    ensures AllSpace(u) && u != [] ==> IsSpace(u[0]) && IsSpace(u[|u| - 1])
  {
  }

  /** The trimmed string sits in `s` between two whitespace runs. */
  lemma TrimPlace(s: string, i: nat, t: string, n: nat, r: string)
    requires TrimCut(s, i, t, n, r)
    ensures i <= |s| - |r| && r == s[i..i + |r|] && AllSpace(s[..i]) && AllSpace(s[i + |r|..])
  {
    DropDrop(s, i, |r|);
  }

  lemma TrimSqueeze(s: string, i: nat, t: string, n: nat, r: string)
    requires TrimCut(s, i, t, n, r)
    ensures Squeeze(r) == Squeeze(s)
  {
    CutAt(s, [], i);
    CutAt(t, [], |r|);
    SqueezeAppend(s[..i], t);
    SqueezeAppend(r, t[|r|..]);
    SqueezeAllSpace(s[..i]);
    SqueezeAllSpace(t[|r|..]);
    AppendNil(Squeeze(t));
    AppendNil(Squeeze(r));
  }

  /** `replace(/\s+/g, " ")`: every maximal whitespace run becomes one space,
      so the result is single-spaced and keeps every other character, and it
      starts with a space exactly when the input starts with whitespace.
      `CollapseSpacesLast` adds the same for the end, and
      `CollapseSpacesWords` that the words are kept. */
  function CollapseSpaces(s: string): (r: string)
    ensures Squeeze(r) == Squeeze(s)
    ensures SingleSpaced(r)
    ensures r != [] <==> s != []
    ensures s != [] ==> (IsSpace(r[0]) <==> IsSpace(s[0]))
    decreases |s|
  {
    if s == [] then []
    else if IsSpace(s[0]) then
      var rest := TrimStart(s[1..]);
      var c := CollapseSpaces(rest);
      CollapseRunStep(s, rest, c);
      [' '] + c
    else
      var c := CollapseSpaces(s[1..]);
      var r := [s[0]] + c;
      assert Squeeze(r) == [s[0]] + Squeeze(c);
      r
  }

  lemma CollapseRunStep(s: string, rest: string, c: string)
    requires s != [] && IsSpace(s[0]) && rest == TrimStart(s[1..])
    requires Squeeze(c) == Squeeze(rest) && SingleSpaced(c)
    requires c != [] && IsSpace(c[0]) ==> rest != [] && IsSpace(rest[0])
    ensures Squeeze([' '] + c) == Squeeze(s)
    ensures SingleSpaced([' '] + c)
  {
    var n := LeadingSpaces(s[1..]);
    var run := s[1..][..n];
    assert Squeeze(s[1..]) == Squeeze(rest) by {
      CutAt(s[1..], [], n);
      SqueezeAppend(run, rest);
      SqueezeAllSpace(run);
    }
    assert Squeeze(s) == Squeeze(s[1..]);
    assert Squeeze([' '] + c) == Squeeze(c) by {
      ConsCut(' ', c, 1);
    }
    assert rest != [] ==> !IsSpace(rest[0]) by {
      if rest != [] {
        assert rest[0] == s[1..][n];
      }
    }
    SingleSpacedCons(c);
  }

  /** The collapsed string ends with a space exactly when the input ends
      with whitespace. */
  lemma {:induction false} CollapseSpacesLast(s: string)
    requires s != []
    ensures var r := CollapseSpaces(s); IsSpace(r[|r| - 1]) <==> IsSpace(s[|s| - 1])
    decreases |s|
  {
    if IsSpace(s[0]) {
      var rest := TrimStart(s[1..]);
      if rest != [] {
        CollapseSpacesLast(rest);
      }
      RunEnd(s, rest, CollapseSpaces(rest));
    } else if |s| > 1 {
      CollapseSpacesLast(s[1..]);
      CharEnd(s, CollapseSpaces(s[1..]));
    }
  }

  lemma CharEnd(s: string, c: string)
    requires |s| > 1 && !IsSpace(s[0]) && c == CollapseSpaces(s[1..])
    requires IsSpace(c[|c| - 1]) <==> IsSpace(s[1..][|s| - 2])
    ensures var r := CollapseSpaces(s); IsSpace(r[|r| - 1]) <==> IsSpace(s[|s| - 1])
  {
    CollapseCharUnfold(s);
    ConsLast(s[0], c);
  }

  /** The last character of a collapsed run followed by the collapsed rest. */
  lemma RunEnd(s: string, rest: string, c: string)
    requires s != [] && IsSpace(s[0]) && rest == TrimStart(s[1..]) && c == CollapseSpaces(rest)
    requires rest != [] ==> (IsSpace(c[|c| - 1]) <==> IsSpace(rest[|rest| - 1]))
    ensures var r := CollapseSpaces(s); IsSpace(r[|r| - 1]) <==> IsSpace(s[|s| - 1])
  {
    CollapseRunUnfold(s);
    RunEndAt(s, LeadingSpaces(s[1..]), rest, c);
  }

  lemma RunEndAt(s: string, n: nat, rest: string, c: string)
    requires s != [] && IsSpace(s[0]) && n <= |s| - 1
    requires AllSpace(s[1..][..n]) && rest == s[1..][n..] && (c == [] <==> rest == [])
    requires rest != [] ==> (IsSpace(c[|c| - 1]) <==> IsSpace(rest[|rest| - 1]))
    ensures var r := [' '] + c; IsSpace(r[|r| - 1]) <==> IsSpace(s[|s| - 1])
  {
    DropDrop(s, 1, n);
    AllSpaceEnds(s[1..][..n]);
    ConsLast(' ', c);
  }

  lemma ConsLast<T>(x: T, c: seq<T>)
    ensures c != [] ==> ([x] + c)[|c|] == c[|c| - 1]
    ensures c == [] ==> ([x] + c)[0] == x
  {
  }

  /** A space in front of a single-spaced string that does not start with
      whitespace keeps it single-spaced. */
  lemma SingleSpacedCons(c: string)
    requires SingleSpaced(c) && (c == [] || !IsSpace(c[0]))
    ensures SingleSpaced([' '] + c)
  {
    var w := [' '] + c;
    forall i | 0 <= i < |w| && IsSpace(w[i]) ensures w[i] == ' ' && (i + 1 < |w| ==> !IsSpace(w[i + 1])) {
      if i > 0 {
        assert w[i] == c[i - 1];
      }
      if i + 1 < |w| {
        assert w[i + 1] == c[i];
      }
    }
  }

  /** Collapsing a string that is already single-spaced changes nothing. */
  lemma {:induction false} CollapseSingleSpaced(s: string)
    requires SingleSpaced(s)
    ensures CollapseSpaces(s) == s
  {
    if s != [] {
      assert SingleSpaced(s[1..]);
      if IsSpace(s[0]) {
        assert TrimStart(s[1..]) == s[1..];
      }
      CollapseSingleSpaced(s[1..]);
    }
  }

  /** The length of the leading run of non-whitespace characters. */
  function WordEnd(s: string): (n: nat)
    ensures n <= |s| && (n < |s| ==> IsSpace(s[n]))
    decreases |s|
  {
    if s != [] && !IsSpace(s[0]) then 1 + WordEnd(s[1..]) else 0
  }

  /** The words of `s`: its maximal runs of non-whitespace characters, in
      order. */
  function Words(s: string): seq<string>
    decreases |s|
  {
    if s == [] then []
    else if IsSpace(s[0]) then Words(s[1..])
    else
      var n := WordEnd(s);
      [s[..n]] + Words(s[n..])
  }

  /** No character of `w` is whitespace. */
  predicate NoSpace(w: string) {
    forall k :: 0 <= k < |w| ==> !IsSpace(w[k])
  }

  /** The leading run holds no whitespace. */
  lemma {:induction false} WordEndNoSpace(s: string)
    ensures NoSpace(s[..WordEnd(s)])
    decreases |s|
  {
    if s != [] && !IsSpace(s[0]) {
      var n := WordEnd(s);
      WordEndNoSpace(s[1..]);
      assert forall k :: 1 <= k < n ==> s[..n][k] == s[1..][..n - 1][k - 1];
    }
  }

  /** Every word is non-empty and holds no whitespace. */
  lemma {:induction false} WordsNoSpace(s: string)
    ensures forall i :: 0 <= i < |Words(s)| ==> Words(s)[i] != [] && NoSpace(Words(s)[i])
    decreases |s|
  {
    if s != [] {
      if IsSpace(s[0]) {
        WordsNoSpace(s[1..]);
      } else {
        WordsFirst(s);
        WordEndNoSpace(s);
        WordsNoSpace(s[WordEnd(s)..]);
      }
    }
  }

  /** The words joined by single spaces: `words.join(" ")`. */
  function Unwords(ws: seq<string>): string {
    if ws == [] then ""
    else if |ws| == 1 then ws[0]
    else ws[0] + " " + Unwords(ws[1..])
  }

  // Sequence identities used by the word lemmas. Stated generically so
  // that the solver proves them without the word functions in scope.

  lemma AppendNil<T>(a: seq<T>)
    ensures a + [] == a && [] + a == a
  {
  }

  lemma ConsParts<T>(s: seq<T>, u: seq<T>)
    requires s != []
    ensures s == [s[0]] + s[1..] && (s + u)[0] == s[0] && (s + u)[1..] == s[1..] + u
  {
  }

  lemma CutAt<T>(s: seq<T>, u: seq<T>, n: nat)
    requires n <= |s|
    ensures s == s[..n] + s[n..] && (s + u)[..n] == s[..n] && (s + u)[n..] == s[n..] + u
  {
  }

  lemma DropDrop<T>(s: seq<T>, i: nat, k: nat)
    requires i + k <= |s|
    ensures s[i..][k..] == s[i + k..] && s[i..][..k] == s[i..i + k]
  {
  }

  lemma ConsCut<T>(x: T, s: seq<T>, n: nat)
    requires 1 <= n <= |s| + 1
    ensures ([x] + s)[0] == x && ([x] + s)[1..] == s
    ensures ([x] + s)[..n] == [x] + s[..n - 1] && ([x] + s)[n..] == s[n - 1..]
  {
  }

  lemma Around<T>(s: seq<T>, n: nat)
    requires n < |s|
    ensures s[n..] == [s[n]] + s[n + 1..] && s[n..][1..] == s[n + 1..]
    ensures s == s[..n] + [s[n]] + s[n + 1..]
  {
  }

  lemma ConcatAssoc<T>(a: seq<T>, b: seq<T>, c: seq<T>)
    ensures a + b + c == a + (b + c)
    ensures |a| == 1 ==> a == [a[0]]
  {
  }

  lemma ConsAssoc<T>(w: T, x: seq<T>, y: seq<T>)
    ensures [w] + (x + y) == ([w] + x) + y
  {
  }

  /** One whitespace character in front adds no word. */
  lemma WordsAfterSpace(x: char, s: string)
    requires IsSpace(x)
    ensures Words([x] + s) == Words(s)
  {
    ConsCut(x, s, 1);
  }

  /** Whitespace in front of a string adds no word. */
  lemma {:induction false} WordsAfterSpaces(a: string, s: string)
    requires AllSpace(a)
    ensures Words(a + s) == Words(s)
    decreases |a|
  {
    if a == [] {
      AppendNil(s);
    } else {
      ConsParts(a, s);
      WordsAfterSpaces(a[1..], s);
    }
  }

  /** A word does not run on into a string that starts with whitespace. */
  lemma {:induction false} WordEndAppend(s: string, u: string)
    requires u == [] || IsSpace(u[0])
    ensures WordEnd(s + u) == WordEnd(s)
    decreases |s|
  {
    if s == [] {
      AppendNil(u);
    } else {
      ConsParts(s, u);
      WordEndAppend(s[1..], u);
    }
  }

  /** A string that starts with a word: that word, then the words of the
      rest. */
  lemma WordsFirst(s: string)
    requires s != [] && !IsSpace(s[0])
    ensures WordEnd(s) > 0 && Words(s) == [s[..WordEnd(s)]] + Words(s[WordEnd(s)..])
  {
  }

  /** Words split at a whitespace boundary. */
  lemma {:induction false} WordsAppend(s: string, u: string)
    requires u == [] || IsSpace(u[0])
    ensures Words(s + u) == Words(s) + Words(u)
    decreases |s|
  {
    if s == [] {
      AppendNil(u);
      AppendNil(Words(u));
    } else if IsSpace(s[0]) {
      WordsAppend(s[1..], u);
      WordsAppendSpace(s, u);
    } else {
      WordsFirst(s);
      WordsAppend(s[WordEnd(s)..], u);
      WordsAppendWord(s, u);
    }
  }

  lemma WordsAppendSpace(s: string, u: string)
    requires s != [] && IsSpace(s[0])
    requires Words(s[1..] + u) == Words(s[1..]) + Words(u)
    ensures Words(s + u) == Words(s) + Words(u)
  {
    ConsParts(s, u);
  }

  lemma WordsAppendWord(s: string, u: string)
    requires s != [] && !IsSpace(s[0]) && (u == [] || IsSpace(u[0]))
    requires WordEnd(s) > 0
    requires Words(s[WordEnd(s)..] + u) == Words(s[WordEnd(s)..]) + Words(u)
    ensures Words(s + u) == Words(s) + Words(u)
  {
    var n := WordEnd(s);
    WordsFirst(s);
    WordsFirstAppend(s, u);
    ConsAssoc(s[..n], Words(s[n..]), Words(u));
  }

  /** The first word of `s` is also the first word of `s + u` when `u`
      starts with whitespace. */
  lemma WordsFirstAppend(s: string, u: string)
    requires s != [] && !IsSpace(s[0]) && (u == [] || IsSpace(u[0]))
    ensures Words(s + u) == [s[..WordEnd(s)]] + Words(s[WordEnd(s)..] + u)
  {
    WordEndAppend(s, u);
    ConsParts(s, u);
    WordsFirst(s + u);
    CutAt(s, u, WordEnd(s));
  }

  /** A non-whitespace character in front either starts a new word or
      extends the first one. */
  lemma WordsCons(x: char, s: string)
    requires !IsSpace(x)
    ensures s == [] || IsSpace(s[0]) ==> Words([x] + s) == [[x]] + Words(s)
    ensures s != [] && !IsSpace(s[0]) ==>
      |Words(s)| > 0 && Words([x] + s) == [[x] + Words(s)[0]] + Words(s)[1..]
  {
    var m := WordEnd(s);
    ConsCut(x, s, m + 1);
    assert WordEnd([x] + s) == m + 1;
  }

  /** Collapsing whitespace keeps the words. */
  lemma {:induction false} CollapseSpacesWords(s: string)
    ensures Words(CollapseSpaces(s)) == Words(s)
    decreases |s|
  {
    if s != [] && IsSpace(s[0]) {
      var rest := TrimStart(s[1..]);
      CollapseSpacesWords(rest);
      CollapseRunWords(s, rest, CollapseSpaces(rest));
    } else if s != [] {
      CollapseSpacesWords(s[1..]);
      CollapseCharWords(s, CollapseSpaces(s[1..]));
    }
  }

  lemma CollapseRunWords(s: string, rest: string, c: string)
    requires s != [] && IsSpace(s[0]) && rest == TrimStart(s[1..])
    requires c == CollapseSpaces(rest) && Words(c) == Words(rest)
    ensures Words(CollapseSpaces(s)) == Words(s)
  {
    CollapseRunUnfold(s);
    WordsAfterSpace(' ', c);
    ConsParts(s, []);
    WordsAfterSpace(s[0], s[1..]);
    WordsTrimStart(s[1..]);
  }

  lemma CollapseRunUnfold(s: string)
    requires s != [] && IsSpace(s[0])
    ensures CollapseSpaces(s) == [' '] + CollapseSpaces(TrimStart(s[1..]))
  {
  }

  lemma CollapseCharUnfold(s: string)
    requires s != [] && !IsSpace(s[0])
    ensures CollapseSpaces(s) == [s[0]] + CollapseSpaces(s[1..])
  {
  }

  lemma CollapseCharWords(s: string, c: string)
    requires s != [] && !IsSpace(s[0])
    requires c == CollapseSpaces(s[1..]) && Words(c) == Words(s[1..])
    ensures Words(CollapseSpaces(s)) == Words(s)
  {
    CollapseCharUnfold(s);
    ConsParts(s, []);
    WordsConsSame(s[0], c, s[1..]);
  }

  /** Strings with the same words that agree on whether they start with
      whitespace keep the same words behind one more character. */
  lemma WordsConsSame(x: char, c: string, u: string)
    requires !IsSpace(x) && Words(c) == Words(u)
    requires c != [] <==> u != []
    requires u != [] ==> (IsSpace(c[0]) <==> IsSpace(u[0]))
    ensures Words([x] + c) == Words([x] + u)
  {
    WordsCons(x, c);
    WordsCons(x, u);
  }

  /** Leading whitespace holds no word. */
  lemma WordsTrimStart(u: string)
    ensures Words(TrimStart(u)) == Words(u)
  {
    var n := LeadingSpaces(u);
    CutAt(u, [], n);
    WordsAfterSpaces(u[..n], u[n..]);
  }

  /** Trailing whitespace holds no word. */
  lemma WordsTrimEnd(t: string)
    ensures Words(TrimEnd(t)) == Words(t)
  {
    var k := |t| - TrailingSpaces(t);
    var r, b := t[..k], t[k..];
    CutAt(t, [], k);
    WordsAppend(r, b);
    AppendNil(b);
    WordsAfterSpaces(b, []);
    AppendNil(Words(r));
  }

  /** Trimming keeps the words. */
  lemma TrimWords(s: string)
    ensures Words(Trim(s)) == Words(s)
  {
    assert Trim(s) == TrimEnd(TrimStart(s));
    WordsTrimStart(s);
    WordsTrimEnd(TrimStart(s));
  }

  /** Collapsing whitespace and trimming joins the words of `s` by single
      spaces. */
  lemma CollapseTrimWords(s: string)
    ensures Trim(CollapseSpaces(s)) == Unwords(Words(s))
  {
    var c := CollapseSpaces(s);
    CollapseSpacesWords(s);
    TrimWords(c);
    UnwordsWords(Trim(c));
  }

  /** A trimmed, single-spaced string is its words joined by single
      spaces. */
  lemma {:induction false} UnwordsWords(s: string)
    requires Trimmed(s) && SingleSpaced(s)
    ensures s == Unwords(Words(s))
    decreases |s|
  {
    if s != [] {
      var n := WordEnd(s);
      if n == |s| {
        UnwordsOneWord(s);
      } else {
        var t := s[n + 1..];
        SpaceAfterWord(s, n, t);
        UnwordsWords(t);
        UnwordsStep(s, n, t);
      }
    }
  }

  lemma UnwordsOneWord(s: string)
    requires s != [] && !IsSpace(s[0]) && WordEnd(s) == |s|
    ensures s == Unwords(Words(s))
  {
    WordsFirst(s);
    CutAt(s, [], |s|);
    assert Words(s[|s|..]) == [];
    AppendNil([s]);
  }

  /** In a trimmed, single-spaced string a word that does not reach the end
      is followed by one space and a trimmed, single-spaced rest. */
  lemma SpaceAfterWord(s: string, n: nat, t: string)
    requires Trimmed(s) && SingleSpaced(s)
    requires n < |s| && IsSpace(s[n]) && t == s[n + 1..]
    ensures n + 1 < |s| && s[n] == ' ' && !IsSpace(s[n + 1])
    ensures Trimmed(t) && SingleSpaced(t)
  {
    SingleSpacedSlice(s, n + 1, |s|);
    assert t[0] == s[n + 1] && t[|t| - 1] == s[|s| - 1];
  }

  lemma UnwordsStep(s: string, n: nat, t: string)
    requires s != [] && !IsSpace(s[0]) && n == WordEnd(s) && n + 1 < |s|
    requires s[n] == ' ' && !IsSpace(s[n + 1]) && t == s[n + 1..]
    requires t == Unwords(Words(t))
    ensures s == Unwords(Words(s))
  {
    WordsAtSpace(s, n, t);
    UnwordsCons(s[..n], Words(t));
  }

  /** Cutting after the first word, at a single space. */
  lemma WordsAtSpace(s: string, n: nat, t: string)
    requires s != [] && !IsSpace(s[0]) && n == WordEnd(s) && n + 1 < |s|
    requires s[n] == ' ' && !IsSpace(s[n + 1]) && t == s[n + 1..]
    ensures Words(s) == [s[..n]] + Words(t) && Words(t) != []
    ensures s == s[..n] + " " + t
  {
    WordsFirst(s);
    Around(s, n);
    WordsAfterSpace(s[n], t);
  }

  lemma UnwordsCons(w: string, ws: seq<string>)
    requires ws != []
    ensures Unwords([w] + ws) == w + " " + Unwords(ws)
  {
    assert ([w] + ws)[1..] == ws;
  }

  /** `s.split(sep)` for a one-character separator: the pieces between
      separators, including empty ones. */
  function Split(s: string, sep: char): (parts: seq<string>)
    ensures |parts| >= 1
    ensures forall i :: 0 <= i < |parts| ==> sep !in parts[i]
    decreases |s|
  {
    if s == [] then [""]
    else
      var rest := Split(s[1..], sep);
      if s[0] == sep then [""] + rest else [[s[0]] + rest[0]] + rest[1..]
  }

  /** `parts.join(sep)`. */
  function Join(parts: seq<string>, sep: char): string
    requires |parts| >= 1
  {
    if |parts| == 1 then parts[0] else parts[0] + [sep] + Join(parts[1..], sep)
  }

  /** Splitting loses nothing: joining the pieces gives back the input. */
  lemma {:induction false} JoinSplit(s: string, sep: char)
    ensures Join(Split(s, sep), sep) == s
    decreases |s|
  {
    if s != [] {
      var rest := Split(s[1..], sep);
      JoinSplit(s[1..], sep);
      if s[0] != sep {
        if |rest| > 1 {
          assert Split(s, sep)[1..] == rest[1..];
        }
      }
    }
  }

  /** A separator is a boundary: splitting around it splits each side. */
  lemma {:induction false} SplitConcat(a: string, sep: char, b: string)
    ensures Split(a + [sep] + b, sep) == Split(a, sep) + Split(b, sep)
    decreases |a|
  {
    if a == [] {
      assert a + [sep] + b == [sep] + b;
      assert ([sep] + b)[1..] == b;
    } else {
      assert (a + [sep] + b)[0] == a[0];
      assert (a + [sep] + b)[1..] == a[1..] + [sep] + b;
      SplitConcat(a[1..], sep, b);
    }
  }

  /** A string without the separator is one piece. */
  lemma {:induction false} SplitNoSep(w: string, sep: char)
    requires sep !in w
    ensures Split(w, sep) == [w]
    decreases |w|
  {
    if w != [] {
      SplitNoSep(w[1..], sep);
      assert [w[0]] + w[1..] == w;
    }
  }

  /** A piece with no separator in it is split off intact. */
  lemma SplitPiece(w: string, sep: char, rest: string)
    requires sep !in w
    ensures Split(w + [sep] + rest, sep) == [w] + Split(rest, sep)
  {
    SplitConcat(w, sep, rest);
    SplitNoSep(w, sep);
  }

  /** A trailing separator adds exactly one empty piece. */
  lemma SplitTrailing(s: string, sep: char)
    ensures Split(s + [sep], sep) == Split(s, sep) + [""]
  {
    SplitConcat(s, sep, "");
    assert s + [sep] + "" == s + [sep];
  }

  /** A run of separators splits into empty pieces only. */
  lemma {:induction false} NonEmptyOfSeparators(t: string, sep: char)
    requires forall i :: 0 <= i < |t| ==> t[i] == sep
    ensures NonEmpty(Split(t, sep)) == []
    decreases |t|
  {
    if t != [] {
      NonEmptyOfSeparators(t[1..], sep);
    }
  }

  /** `filter(Boolean)` on strings: keeps the non-empty ones. */
  function NonEmpty(parts: seq<string>): (r: seq<string>)
    ensures forall i :: 0 <= i < |r| ==> r[i] != "" && r[i] in parts
    ensures |r| <= |parts|
  {
    if parts == [] then []
    else if parts[0] == "" then NonEmpty(parts[1..])
    else [parts[0]] + NonEmpty(parts[1..])
  }

  lemma {:induction false} NonEmptyAppend(a: seq<string>, b: seq<string>)
    ensures NonEmpty(a + b) == NonEmpty(a) + NonEmpty(b)
  {
    if a != [] {
      assert (a + b)[0] == a[0];
      assert (a + b)[1..] == a[1..] + b;
      NonEmptyAppend(a[1..], b);
    } else {
      assert a + b == b;
    }
  }

  lemma NonEmptyCons(w: string, parts: seq<string>)
    ensures NonEmpty([w] + parts) == (if w == "" then [] else [w]) + NonEmpty(parts)
  {
    assert ([w] + parts)[1..] == parts;
  }

  /** The non-empty segments of a URL path: `path.split("/").filter(Boolean)`. */
  function Segments(path: string): (r: seq<string>)
    ensures forall i :: 0 <= i < |r| ==> r[i] != "" && '/' !in r[i]
  {
    NonEmpty(Split(path, '/'))
  }

  /** A trailing slash does not change the segments of a path. */
  lemma SegmentsTrailingSlash(path: string)
    ensures Segments(path + "/") == Segments(path)
  {
    SplitTrailing(path, '/');
    NonEmptyAppend(Split(path, '/'), [""]);
  }

  /** The canonical film path `/film/<slug>/` has exactly the two segments
      `film` and the slug. */
  lemma FilmPathSegments(slug: string)
    requires slug != "" && '/' !in slug
    ensures Segments("/film/" + slug + "/") == ["film", slug]
  {
    FilmPathSplit(slug);
    FilmPathNonEmpty(slug);
  }

  lemma FilmPathSplit(slug: string)
    requires '/' !in slug
    ensures Split("/film/" + slug + "/", '/') == [""] + (["film"] + [slug, ""])
  {
    var t3 := slug + ['/'] + "";
    var t2 := "film" + ['/'] + t3;
    FilmPathPieces(slug);
    assert Split(t3, '/') == [slug, ""] by { SplitPiece(slug, '/', ""); }
    assert Split(t2, '/') == ["film"] + [slug, ""] by { SplitPiece("film", '/', t3); }
    SplitPiece("", '/', t2);
  }

  lemma FilmPathPieces(slug: string)
    ensures "/film/" + slug + "/" == "" + ['/'] + ("film" + ['/'] + (slug + ['/'] + ""))
  {
  }

  lemma FilmPathNonEmpty(slug: string)
    requires slug != ""
    ensures NonEmpty([""] + (["film"] + [slug, ""])) == ["film", slug]
  {
    var q1: seq<string> := [slug, ""];
    var q2 := ["film"] + q1;
    assert NonEmpty([""]) == [];
    assert NonEmpty(q1) == [slug] by { NonEmptyCons(slug, [""]); }
    assert NonEmpty(q2) == ["film", slug] by { NonEmptyCons("film", q1); }
    NonEmptyCons("", q2);
  }


}
