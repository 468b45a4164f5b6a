/**
 * The ECMAScript string built-ins the scraper and the URL input helpers rely on:
 * white space, `trim`, `split`, `toLowerCase`, `startsWith`, `endsWith` and
 * `includes`. Strings are sequences of characters. `Join` is not called by the
 * code; it is here only to state the round trips of the split-based parsers.
 */
module JsText {

  /** The WhiteSpace and LineTerminator code points of ECMAScript: the characters
      `String.prototype.trim` removes and the regular-expression class `\s` matches. */
  predicate IsWhite(c: char) {
    if c <= ' ' then c == ' ' || '\t' <= c <= '\r'
    else if c < '\U{00A0}' then false
    else c in OtherWhiteChars
  }

  /** The white-space characters above the ASCII range. */
  const OtherWhiteChars: set<char> := {
    '\U{00A0}', '\U{1680}',
    '\U{2000}', '\U{2001}', '\U{2002}', '\U{2003}', '\U{2004}', '\U{2005}',
    '\U{2006}', '\U{2007}', '\U{2008}', '\U{2009}', '\U{200A}',
    '\U{2028}', '\U{2029}', '\U{202F}', '\U{205F}', '\U{3000}', '\U{FEFF}'
  }

  predicate AllWhite(s: string) {
    forall i :: 0 <= i < |s| ==> IsWhite(s[i])
  }

  predicate NoWhite(s: string) {
    forall i :: 0 <= i < |s| ==> !IsWhite(s[i])
  }

  /** No character of `s` is one of `cs`. */
  predicate NoneOf(s: string, cs: set<char>) {
    forall i :: 0 <= i < |s| ==> s[i] !in cs
  }

  /** `s` neither starts nor ends with white space. */
  predicate IsTrimmed(s: string) {
    s == [] || (!IsWhite(s[0]) && !IsWhite(s[|s| - 1]))
  }

  // ---------------------------------------------------------------- trim

  /** `String.prototype.trimStart`: the suffix left after the leading white space. */
  function TrimStart(s: string): (r: string)
    ensures |r| <= |s| && r == s[|s| - |r|..]
    ensures r == [] || !IsWhite(r[0])
  {
    if s != [] && IsWhite(s[0]) then TrimStart(s[1..]) else s
  }

  /** `String.prototype.trimEnd`: the prefix left before the trailing white space. */
  function TrimEnd(s: string): (r: string)
    ensures |r| <= |s| && r == s[..|r|]
    ensures r == [] || !IsWhite(r[|r| - 1])
  {
    if s != [] && IsWhite(s[|s| - 1]) then TrimEnd(s[..|s| - 1]) else s
  }

  /** `trimStart` removes white space only. */
  lemma {:induction false} TrimStartRemovesWhite(s: string)
    ensures AllWhite(s[..|s| - |TrimStart(s)|])
  {
    if s != [] && IsWhite(s[0]) {
      TrimStartRemovesWhite(s[1..]);
      var k := |s| - |TrimStart(s)|;
      forall i | 0 <= i < k ensures IsWhite(s[i]) {
        if i > 0 { assert s[i] == s[1..][..k - 1][i - 1]; }
      }
    }
  }

  /** `trimEnd` removes white space only. */
  lemma {:induction false} TrimEndRemovesWhite(s: string)
    ensures AllWhite(s[|TrimEnd(s)|..])
  {
    if s != [] && IsWhite(s[|s| - 1]) {
      var s' := s[..|s| - 1];
      TrimEndRemovesWhite(s');
      var k := |TrimEnd(s)|;
      forall i | k <= i < |s| ensures IsWhite(s[i]) {
        if i < |s| - 1 { assert s[i] == s'[k..][i - k]; }
      }
    }
  }

  /** `String.prototype.trim`. */
  function Trim(s: string): (r: string)
    ensures IsTrimmed(r)
  {
    var t := TrimStart(s);
    var r := TrimEnd(t);
    assert r != [] ==> r[0] == t[0];
    r
  }

  lemma TrimStartOfPadded(w: string, t: string)
    requires AllWhite(w) && (t == [] || !IsWhite(t[0]))
    ensures TrimStart(w + t) == t
  {
    var s := w + t;
    assert s[..|w|] == w && s[|w|..] == t;
    TrimStartAt(s, |w|);
  }

  /** `trimStart` stops at the first character that is not white. */
  lemma {:induction false} TrimStartAt(s: string, k: nat)
    requires k <= |s| && AllWhite(s[..k]) && (k == |s| || !IsWhite(s[k]))
    ensures TrimStart(s) == s[k..]
    decreases k
  {
    if k > 0 {
      assert IsWhite(s[..k][0]);
      var s' := s[1..];
      assert s'[..k - 1] == s[1..k];
      assert AllWhite(s'[..k - 1]) by {
        forall i | 0 <= i < k - 1 ensures IsWhite(s'[i]) {
          assert s'[i] == s[..k][i + 1];
        }
      }
      TrimStartAt(s', k - 1);
      assert s'[k - 1..] == s[k..];
    }
  }

  lemma TrimEndOfPadded(t: string, w: string)
    requires AllWhite(w) && (t == [] || !IsWhite(t[|t| - 1]))
    ensures TrimEnd(t + w) == t
    decreases |w|
  {
    if w != [] {
      assert (t + w)[..|t + w| - 1] == t + w[..|w| - 1];
      TrimEndOfPadded(t, w[..|w| - 1]);
    } else {
      assert t + w == t;
    }
  }

  /** Trailing white space after a non-white character stops at that character. */
  lemma TrimEndKeepsPrefix(u: string, d: string)
    requires u != [] && !IsWhite(u[|u| - 1])
    ensures u <= TrimEnd(u + d) <= u + d
  {
    var x := u + d;
    var r := TrimEnd(x);
    TrimEndRemovesWhite(x);
    assert forall j :: |r| <= j < |x| ==> IsWhite(x[j]) by {
      forall j | |r| <= j < |x| ensures IsWhite(x[j]) { assert x[j] == x[|r|..][j - |r|]; }
    }
    assert !IsWhite(x[|u| - 1]);
    assert |r| >= |u|;
    assert r[..|u|] == x[..|u|] == u;
  }

  /** `trim` removes exactly the white padding around a trimmed core: together with
      `IsTrimmed(Trim(s))` this pins `Trim` down. */
  lemma {:induction false} TrimOfPadded(w1: string, t: string, w2: string)
    requires AllWhite(w1) && AllWhite(w2) && IsTrimmed(t)
    ensures Trim(w1 + t + w2) == t
  {
    if t == [] {
      assert w1 + t + w2 == w1 + w2;
      TrimStartOfPadded(w1 + w2, "");
      assert w1 + w2 + "" == w1 + w2;
      assert TrimStart(w1 + t + w2) == "";
    } else {
      assert w1 + t + w2 == w1 + (t + w2);
      TrimStartOfPadded(w1, t + w2);
      TrimEndOfPadded(t, w2);
    }
  }

  lemma TrimOfTrimmed(t: string)
    requires IsTrimmed(t)
    ensures Trim(t) == t
  {
    TrimOfPadded("", t, "");
    assert "" + t + "" == t;
  }

  /** Only an all-white string trims to the empty string. */
  lemma {:induction false} TrimEmptyIff(s: string)
    ensures Trim(s) == [] <==> AllWhite(s)
  {
    var t := TrimStart(s);
    TrimStartRemovesWhite(s);
    TrimEndRemovesWhite(t);
    if !AllWhite(s) {
      var k :| 0 <= k < |s| && !IsWhite(s[k]);
      assert t != [];
      assert TrimEnd(t) != [];
    }
  }

  /** Trimming keeps only characters of the input. */
  lemma TrimNoneOf(s: string, cs: set<char>)
    requires NoneOf(s, cs)
    ensures NoneOf(Trim(s), cs)
  {
    var t := TrimStart(s);
    assert NoneOf(t, cs) by {
      forall i | 0 <= i < |t| ensures t[i] !in cs {
        assert t[i] == s[|s| - |t| + i];
      }
    }
    var r := TrimEnd(t);
    forall i | 0 <= i < |r| ensures r[i] !in cs {
      assert r[i] == t[i];
    }
  }

  // ---------------------------------------------------------------- split and join

  /** `String.prototype.split` where the separator is any single character of `seps`:
      the pieces between the separators, `[""]` for the empty string. */
  function Split(s: string, seps: set<char>): (r: seq<string>)
    ensures |r| >= 1
    decreases |s|
  {
    if s == [] then [""]
    else
      var rest := Split(s[1..], seps);
      if s[0] in seps then [""] + rest
      else [[s[0]] + rest[0]] + rest[1..]
  }

  /** No piece holds a separator. */
  lemma {:induction false} SplitPiecesNoneOf(s: string, seps: set<char>)
    ensures forall k :: 0 <= k < |Split(s, seps)| ==> NoneOf(Split(s, seps)[k], seps)
    decreases |s|
  {
    if s != [] {
      SplitPiecesNoneOf(s[1..], seps);
      var rest := Split(s[1..], seps);
      if s[0] !in seps {
        var first := [s[0]] + rest[0];
        assert NoneOf(first, seps) by {
          forall i | 0 <= i < |first| ensures first[i] !in seps {
            if i > 0 { assert first[i] == rest[0][i - 1]; }
          }
        }
      }
    }
  }

  /** `Array.prototype.join` with a one-character separator. The code never joins;
      the split round-trip lemmas use it to build their inputs. */
  function Join(xs: seq<string>, sep: char): string
  {
    if xs == [] then ""
    else if |xs| == 1 then xs[0]
    else xs[0] + [sep] + Join(xs[1..], sep)
  }

  /** A string without separators is a single piece. */
  lemma {:induction false} SplitNoSeparator(s: string, seps: set<char>)
    requires NoneOf(s, seps)
    ensures Split(s, seps) == [s]
    decreases |s|
  {
    if s != [] {
      SplitNoSeparator(s[1..], seps);
      assert [s[0]] + s[1..] == s;
    }
  }

  /** `Split` on a string given by its first character. */
  lemma SplitCons(x: char, t: string, seps: set<char>)
    ensures Split([x] + t, seps) ==
      var rest := Split(t, seps);
      if x in seps then [""] + rest else [[x] + rest[0]] + rest[1..]
  {
    assert ([x] + t)[0] == x && ([x] + t)[1..] == t;
  }

  lemma ConsAppend(x: char, ra: seq<string>, sb: seq<string>)
    requires |ra| >= 1
    ensures [""] + (ra + sb) == ([""] + ra) + sb
    ensures [[x] + (ra + sb)[0]] + (ra + sb)[1..] == ([[x] + ra[0]] + ra[1..]) + sb
  {
    assert (ra + sb)[1..] == ra[1..] + sb;
  }

  /** Splitting at one separator splits the two sides independently. */
  lemma {:induction false} SplitAtSeparator(a: string, c: char, b: string, seps: set<char>)
    requires c in seps
    ensures Split(a + [c] + b, seps) == Split(a, seps) + Split(b, seps)
    decreases |a|
  {
    if a == [] {
      assert a + [c] + b == [c] + b;
      SplitCons(c, b, seps);
    } else {
      var t := a[1..] + [c] + b;
      assert a + [c] + b == [a[0]] + t;
      assert a == [a[0]] + a[1..];
      SplitCons(a[0], t, seps);
      SplitCons(a[0], a[1..], seps);
      SplitAtSeparator(a[1..], c, b, seps);
      var ra := Split(a[1..], seps);
      var sb := Split(b, seps);
      ConsAppend(a[0], ra, sb);
    }
  }

  /** `split` undoes `join` when no piece holds a separator. */
  lemma {:induction false} SplitJoin(xs: seq<string>, sep: char, seps: set<char>)
    requires |xs| >= 1 && sep in seps
    requires forall k :: 0 <= k < |xs| ==> NoneOf(xs[k], seps)
    ensures Split(Join(xs, sep), seps) == xs
  {
    if |xs| == 1 {
      SplitNoSeparator(xs[0], seps);
    } else {
      SplitAtSeparator(xs[0], sep, Join(xs[1..], sep), seps);
      SplitNoSeparator(xs[0], seps);
      SplitJoin(xs[1..], sep, seps);
      assert [xs[0]] + xs[1..] == xs;
    }
  }

  // ---------------------------------------------------------------- case and search

  /** `toLowerCase` on one character, for the ASCII letters. */
  function LowerChar(c: char): char {
    if 'A' <= c <= 'Z' then (c as int + 32) as char else c
  }

  /** `toLowerCase`, character by character: only `A`-`Z` change. */
  function ToLower(s: string): (r: string)
    ensures |r| == |s|
    ensures forall i :: 0 <= i < |r| ==> !('A' <= r[i] <= 'Z')
    ensures forall i :: 0 <= i < |s| && !('A' <= s[i] <= 'Z') ==> r[i] == s[i]
    ensures forall i :: 0 <= i < |s| && 'A' <= s[i] <= 'Z' ==> r[i] == (s[i] as int + 32) as char
  {
    seq(|s|, i requires 0 <= i < |s| => LowerChar(s[i]))
  }

  /** `s.startsWith(p)`. */
  predicate StartsWith(s: string, p: string) {
    p <= s
  }

  /** `s.endsWith(p)`. */
  predicate EndsWith(s: string, p: string) {
    |p| <= |s| && s[|s| - |p|..] == p
  }

  /** `p` occurs in `s` starting at index `i`. */
  predicate OccursAt(s: string, p: string, i: nat) {
    i + |p| <= |s| && s[i..i + |p|] == p
  }

  /** `s.includes(p)`, as a left-to-right scan. */
  predicate Includes(s: string, p: string)
    decreases |s|
  {
    p <= s || (s != [] && Includes(s[1..], p))
  }

  /** The scan finds `p` exactly when `p` occurs somewhere in `s`. */
  lemma {:induction false} IncludesIff(s: string, p: string)
    ensures Includes(s, p) <==> exists i: nat :: OccursAt(s, p, i)
    decreases |s|
  {
    if p <= s {
      assert OccursAt(s, p, 0);
    } else if s != [] {
      IncludesIff(s[1..], p);
      if Includes(s[1..], p) {
        var i: nat :| OccursAt(s[1..], p, i);
        OccursAtShift(s, p, i);
      }
      if exists i: nat :: OccursAt(s, p, i) {
        var i: nat :| OccursAt(s, p, i);
        assert i > 0;
        OccursAtShift(s, p, i - 1);
      }
    }
  }

  lemma OccursAtShift(s: string, p: string, i: nat)
    requires s != []
    ensures OccursAt(s[1..], p, i) <==> OccursAt(s, p, i + 1)
  {
    if i + |p| <= |s[1..]| {
      assert s[1..][i..i + |p|] == s[i + 1..i + 1 + |p|];
    }
  }

  /** A single character is included exactly when it appears. */
  lemma {:induction false} IncludesChar(s: string, c: char)
    ensures Includes(s, [c]) <==> c in s
  {
    IncludesIff(s, [c]);
    if c in s {
      var i :| 0 <= i < |s| && s[i] == c;
      assert OccursAt(s, [c], i);
    }
    if exists i: nat :: OccursAt(s, [c], i) {
      var i: nat :| OccursAt(s, [c], i);
      assert s[i] == s[i..i + 1][0];
    }
  }
}
