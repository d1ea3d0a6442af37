/**
 * Character and string helpers shared by the bookbuilder model: Python's
 * whitespace set, `str.strip`, `str.lower`, `str.split()`, substring search,
 * `str.replace`, decimal rendering and parsing (`int()` / f-string `{n}` /
 * `{n:03}`), and `html.escape`.
 */
module Basics {

  datatype Option<T> = None | Some(value: T)

  /** Python's `str.isspace()` for one character (also what `\s` matches). */
  predicate IsSpace(c: char)
  {
    c == ' ' || ('\t' <= c <= '\r') || ('\U{001C}' <= c <= '\U{001F}') ||
    c == '\U{0085}' || c == '\U{00A0}' || c == '\U{1680}' || ('\U{2000}' <= c <= '\U{200A}') ||
    c == '\U{2028}' || c == '\U{2029}' || c == '\U{202F}' || c == '\U{205F}' || c == '\U{3000}'
  }

  predicate IsDigit(c: char) { '0' <= c <= '9' }

  /** ASCII part of the regex class `\w`. */
  predicate IsWordChar(c: char)
  {
    IsDigit(c) || ('a' <= c <= 'z') || ('A' <= c <= 'Z') || c == '_'
  }

  predicate AllSpace(s: string) { forall i | 0 <= i < |s| :: IsSpace(s[i]) }
  predicate AllDigits(s: string) { forall i | 0 <= i < |s| :: IsDigit(s[i]) }
  predicate NoDigits(s: string) { forall i | 0 <= i < |s| :: !IsDigit(s[i]) }

  function LowerChar(c: char): char
  {
    if 'A' <= c <= 'Z' then (c as int + 32) as char else c
  }

  function UpperChar(c: char): char
  {
    if 'a' <= c <= 'z' then (c as int - 32) as char else c
  }

  function Lower(s: string): (r: string)
    ensures |r| == |s|
  {
    if s == [] then [] else [LowerChar(s[0])] + Lower(s[1..])
  }

  lemma {:induction false} LowerAt(s: string, i: nat)
    requires i < |s|
    ensures Lower(s)[i] == LowerChar(s[i])
  {
    if i > 0 {
      LowerAt(s[1..], i - 1);
    }
  }

  lemma {:induction false} LowerAppend(a: string, b: string)
    ensures Lower(a + b) == Lower(a) + Lower(b)
  {
    if a == [] {
      assert a + b == b;
    } else {
      assert (a + b)[0] == a[0] && (a + b)[1..] == a[1..] + b;
      LowerAppend(a[1..], b);
    }
  }

  function Upper(s: string): (r: string)
    ensures |r| == |s|
  {
    if s == [] then [] else [UpperChar(s[0])] + Upper(s[1..])
  }

  predicate StartsWith(s: string, p: string)
  {
    |p| <= |s| && s[..|p|] == p
  }

  /** Case-insensitive prefix test, `s.lower().startswith(p)` for a lower-case `p`. */
  predicate StartsWithCI(s: string, p: string)
  {
    StartsWith(Lower(s), p)
  }

  /** Python's `p in s`. */
  predicate Contains(s: string, p: string)
    decreases |s|
  {
    StartsWith(s, p) || (s != [] && Contains(s[1..], p))
  }

  lemma {:induction false} ContainsChar(s: string, c: char)
    ensures Contains(s, [c]) <==> c in s
    decreases |s|
  {
    if s != [] {
      ContainsChar(s[1..], c);
      assert c in s <==> (s[0] == c || c in s[1..]) by {
        assert s == [s[0]] + s[1..];
      }
    }
  }

  /** Leading whitespace removed (`str.lstrip()`). */
  function LStrip(s: string): (r: string)
    ensures |r| <= |s| && r == s[|s| - |r|..]
    ensures AllSpace(s[..|s| - |r|])
    ensures r != [] ==> !IsSpace(r[0])
  {
    if s != [] && IsSpace(s[0]) then
      var r := LStrip(s[1..]);
      LStripStep(s, r);
      r
    else s
  }

  lemma LStripStep(s: string, r: string)
    requires s != [] && IsSpace(s[0])
    requires |r| <= |s| - 1 && r == s[1..][|s| - 1 - |r|..] && AllSpace(s[1..][..|s| - 1 - |r|])
    ensures r == s[|s| - |r|..] && AllSpace(s[..|s| - |r|])
  {
    var n := |s| - |r|;
    assert s[1..][n - 1..] == s[n..];
    assert forall i | 1 <= i < n :: s[i] == s[1..][..n - 1][i - 1];
  }

  /** Trailing whitespace removed (`str.rstrip()`). */
  function RStrip(s: string): (r: string)
    ensures |r| <= |s| && r == s[..|r|]
    ensures AllSpace(s[|r|..])
    ensures r != [] ==> !IsSpace(r[|r| - 1])
  {
    if s != [] && IsSpace(s[|s| - 1]) then
      var r := RStrip(s[..|s| - 1]);
      assert s[|r|..] == s[..|s| - 1][|r|..] + [s[|s| - 1]];
      r
    else s
  }

  /** Python's `str.strip()`: the input without its whitespace border. */
  function Strip(s: string): (r: string)
    ensures |r| <= |s|
    ensures r != [] ==> !IsSpace(r[0]) && !IsSpace(r[|r| - 1])
    ensures r == [] <==> AllSpace(s)
  {
    var l := LStrip(s);
    var r := RStrip(l);
    if r == [] then
      assert AllSpace(l) by { assert l[|r|..] == l; }
      assert s == s[..|s| - |l|] + l;
      r
    else
      assert r[|r| - 1] == l[|r| - 1];
      r
  }

  /** `strip()` cuts a whitespace border off each end and keeps the middle as it was. */
  lemma StripSlice(s: string)
    ensures Border(s, Strip(s), |s| - |LStrip(s)|)
  {
    var l := LStrip(s);
    BorderOf(s, l, RStrip(l));
  }

  lemma BorderOf(s: string, l: string, r: string)
    requires |l| <= |s| && l == s[|s| - |l|..] && AllSpace(s[..|s| - |l|])
    requires |r| <= |l| && r == l[..|r|] && AllSpace(l[|r|..])
    ensures Border(s, r, |s| - |l|)
  {
    var a := |s| - |l|;
    SliceAt(s, a, r);
    LeadingSpaces(s, a);
    assert l[|r|..] == s[a + |r|..];
    TrailingSpaces(s, a + |r|);
  }

  /** `r` is `s` from offset `a` on, with only whitespace around it. */
  predicate Border(s: string, r: string, a: nat)
  {
    && a + |r| <= |s|
    && (forall j | 0 <= j < |r| :: r[j] == s[a + j])
    && (forall i | 0 <= i < a :: IsSpace(s[i]))
    && (forall i | a + |r| <= i < |s| :: IsSpace(s[i]))
  }

  lemma SliceAt(s: string, a: nat, r: string)
    requires a + |r| <= |s| && r == s[a..][..|r|]
    ensures forall j | 0 <= j < |r| :: r[j] == s[a + j]
  {
  }

  lemma LeadingSpaces(s: string, a: nat)
    requires a <= |s| && AllSpace(s[..a])
    ensures forall i | 0 <= i < a :: IsSpace(s[i])
  {
    forall i | 0 <= i < a ensures IsSpace(s[i]) {
      assert s[..a][i] == s[i];
    }
  }

  lemma TrailingSpaces(s: string, b: nat)
    requires b <= |s| && AllSpace(s[b..])
    ensures forall i | b <= i < |s| :: IsSpace(s[i])
  {
    forall i | b <= i < |s| ensures IsSpace(s[i]) {
      assert s[b..][i - b] == s[i];
    }
  }

  /** A non-space character is in the stripped text exactly when it is in the text. */
  lemma StripKeepsChar(s: string, c: char)
    requires !IsSpace(c)
    ensures c in Strip(s) <==> c in s
  {
    StripSlice(s);
    BorderKeepsChar(s, Strip(s), |s| - |LStrip(s)|, c);
  }

  lemma BorderKeepsChar(s: string, r: string, a: nat, c: char)
    requires !IsSpace(c) && Border(s, r, a)
    ensures c in r <==> c in s
  {
    if c in s {
      var i :| 0 <= i < |s| && s[i] == c;
      assert r[i - a] == c;
    }
  }

  /** The regex class `\w` finds a match. */
  predicate HasWord(s: string)
  {
    exists i | 0 <= i < |s| :: IsWordChar(s[i])
  }

  lemma HasWordAppend(a: string, b: string)
    ensures HasWord(a + b) <==> HasWord(a) || HasWord(b)
  {
    if HasWord(a + b) {
      var i :| 0 <= i < |a + b| && IsWordChar((a + b)[i]);
      if i >= |a| {
        assert b[i - |a|] == (a + b)[i];
      }
    }
    if HasWord(a) {
      var i :| 0 <= i < |a| && IsWordChar(a[i]);
      assert (a + b)[i] == a[i];
    }
    if HasWord(b) {
      var i :| 0 <= i < |b| && IsWordChar(b[i]);
      assert (a + b)[|a| + i] == b[i];
    }
  }

  lemma HasWordStrip(s: string)
    ensures HasWord(Strip(s)) <==> HasWord(s)
  {
    StripSlice(s);
    BorderKeepsWord(s, Strip(s), |s| - |LStrip(s)|);
  }

  lemma BorderKeepsWord(s: string, r: string, a: nat)
    requires Border(s, r, a)
    ensures HasWord(r) <==> HasWord(s)
  {
    if HasWord(s) {
      var i :| 0 <= i < |s| && IsWordChar(s[i]);
      assert r[i - a] == s[i];
    }
  }

  lemma StripIdempotent(s: string)
    requires s != [] ==> !IsSpace(s[0]) && !IsSpace(s[|s| - 1])
    ensures Strip(s) == s
  {
  }

  /** `s.strip(c)` for one character: that character removed at both ends. */
  function StripChar(s: string, c: char): (r: string)
    ensures r != [] ==> r[0] != c && r[|r| - 1] != c
    ensures |r| <= |s|
  {
    if s == [] then s
    else if s[0] == c then StripChar(s[1..], c)
    else if s[|s| - 1] == c then StripChar(s[..|s| - 1], c)
    else s
  }

  /** Strings joined with a separator (`sep.join(parts)`). */
  function Join(parts: seq<string>, sep: string): string
  {
    if parts == [] then []
    else if |parts| == 1 then parts[0]
    else parts[0] + sep + Join(parts[1..], sep)
  }

  function Concat(parts: seq<string>): string
  {
    if parts == [] then [] else parts[0] + Concat(parts[1..])
  }

  lemma {:induction false} ConcatAppend(a: seq<string>, b: seq<string>)
    ensures Concat(a + b) == Concat(a) + Concat(b)
  {
    if a != [] {
      assert (a + b)[0] == a[0];
      assert (a + b)[1..] == a[1..] + b;
      ConcatAppend(a[1..], b);
    } else {
      assert a + b == b;
    }
  }

  /** Length of the longest prefix of non-space characters. */
  function WordLen(s: string): (n: nat)
    ensures n <= |s|
    ensures forall i | 0 <= i < n :: !IsSpace(s[i])
    ensures n < |s| ==> IsSpace(s[n])
  {
    if s == [] || IsSpace(s[0]) then 0 else 1 + WordLen(s[1..])
  }

  /** A word of `str.split()`: non-empty, without whitespace. */
  predicate Solid(w: string)
  {
    w != [] && forall i | 0 <= i < |w| :: !IsSpace(w[i])
  }

  /** Python's `str.split()` with no argument: the maximal runs of non-space characters. */
  function Words(s: string): (ws: seq<string>)
    ensures s == [] ==> ws == []
    decreases |s|
  {
    var t := LStrip(s);
    if t == [] then []
    else
      var n := WordLen(t);
      [t[..n]] + Words(t[n..])
  }

  /** Every word `split()` returns is non-empty and holds no whitespace. */
  lemma {:induction false} WordsSolid(s: string)
    ensures forall k | 0 <= k < |Words(s)| :: Solid(Words(s)[k])
    decreases |s|
  {
    var t := LStrip(s);
    if t != [] {
      var n := WordLen(t);
      var ws := Words(s);
      assert ws == [t[..n]] + Words(t[n..]);
      FirstWordSolid(t);
      WordsSolid(t[n..]);
      forall k | 0 <= k < |ws| ensures Solid(ws[k]) {
        if k > 0 {
          assert ws[k] == Words(t[n..])[k - 1];
        }
      }
    }
  }

  lemma FirstWordSolid(t: string)
    requires t != [] && !IsSpace(t[0])
    ensures WordLen(t) > 0 && Solid(t[..WordLen(t)])
  {
  }

  /** The words `split()` returns, put back together, are the text without its whitespace. */
  lemma {:induction false} WordsText(s: string)
    ensures Concat(Words(s)) == NonSpace(s)
    decreases |s|
  {
    var t := LStrip(s);
    LStripText(s, t);
    if t != [] {
      var n := WordLen(t);
      FirstWordSolid(t);
      WordsText(t[n..]);
      WordsStep(t, n, Words(t[n..]));
    }
  }

  lemma LStripText(s: string, t: string)
    requires t == LStrip(s)
    ensures NonSpace(s) == NonSpace(t)
    ensures t == [] ==> NonSpace(s) == []
  {
    LeadingSpaces(s, |s| - |t|);
    NonSpaceDrop(s, |s| - |t|);
  }

  lemma WordsStep(t: string, n: nat, rest: seq<string>)
    requires 0 < n <= |t| && Solid(t[..n]) && Concat(rest) == NonSpace(t[n..])
    ensures Concat([t[..n]] + rest) == NonSpace(t)
  {
    ConcatCons(t[..n], rest);
    assert t == t[..n] + t[n..];
    NonSpaceAppend(t[..n], t[n..]);
    NonSpaceSolid(t[..n]);
  }

  /** Text without whitespace is its own non-space text. */
  lemma {:induction false} NonSpaceSolid(w: string)
    requires forall i | 0 <= i < |w| :: !IsSpace(w[i])
    ensures NonSpace(w) == w
  {
    if w != [] {
      NonSpaceSolid(w[1..]);
    }
  }

  /** `" ".join(ws).split() == ws` for words without whitespace: splitting undoes joining. */
  lemma {:induction false} SplitJoin(ws: seq<string>)
    requires forall k | 0 <= k < |ws| :: Solid(ws[k])
    ensures Words(Join(ws, " ")) == ws
  {
    if ws == [] {
    } else if |ws| == 1 {
      WordsSingle(ws[0]);
    } else {
      var rest := Join(ws[1..], " ");
      assert Join(ws, " ") == ws[0] + " " + rest;
      SplitJoin(ws[1..]);
      WordsFront(ws[0], rest);
      assert ws == [ws[0]] + ws[1..];
    }
  }

  /** A single solid word splits as itself. */
  lemma WordsSingle(w: string)
    requires Solid(w)
    ensures Words(w) == [w]
  {
    WordLenOf(w, []);
    assert w + [] == w;
    assert w[|w|..] == [];
  }

  /** A solid word, a space and more text split as that word followed by the words of the text. */
  lemma WordsFront(w: string, rest: string)
    requires Solid(w)
    ensures Words(w + " " + rest) == [w] + Words(rest)
  {
    var j := w + " " + rest;
    assert j == w + (" " + rest);
    WordLenOf(w, " " + rest);
    assert j[..|w|] == w && j[|w|..] == " " + rest;
    WordsAfterSpace(rest);
    assert Words(j) == [w] + Words(j[|w|..]);
  }

  /** A word followed by whitespace or nothing: the first word is exactly that word. */
  lemma {:induction false} WordLenOf(w: string, x: string)
    requires forall i | 0 <= i < |w| :: !IsSpace(w[i])
    requires x != [] ==> IsSpace(x[0])
    ensures WordLen(w + x) == |w|
  {
    if w == [] {
      assert w + x == x;
    } else {
      assert (w + x)[0] == w[0] && (w + x)[1..] == w[1..] + x;
      WordLenOf(w[1..], x);
    }
  }

  lemma WordsAfterSpace(x: string)
    ensures Words(" " + x) == Words(x)
  {
    assert (" " + x)[1..] == x;
    assert LStrip(" " + x) == LStrip(x);
  }

  /** The non-space characters of a text, in order. */
  function NonSpace(s: string): string
  {
    if s == [] then [] else (if IsSpace(s[0]) then [] else [s[0]]) + NonSpace(s[1..])
  }

  lemma {:induction false} NonSpaceAppend(a: string, b: string)
    ensures NonSpace(a + b) == NonSpace(a) + NonSpace(b)
  {
    if a == [] {
      assert a + b == b;
    } else {
      assert (a + b)[0] == a[0] && (a + b)[1..] == a[1..] + b;
      NonSpaceAppend(a[1..], b);
    }
  }

  lemma {:induction false} NonSpaceBlank(s: string)
    ensures NonSpace(s) == [] <==> AllSpace(s)
  {
    if s != [] {
      NonSpaceBlank(s[1..]);
      assert AllSpace(s) <==> IsSpace(s[0]) && AllSpace(s[1..]);
    }
  }

  /** Stripping only removes whitespace. */
  lemma NonSpaceStrip(s: string)
    ensures NonSpace(Strip(s)) == NonSpace(s)
  {
    StripSlice(s);
    NonSpaceBorder(s, Strip(s), |s| - |LStrip(s)|);
  }

  lemma NonSpaceBorder(s: string, r: string, a: nat)
    requires Border(s, r, a)
    ensures NonSpace(r) == NonSpace(s)
  {
    NonSpaceDrop(s, a);
    var x := s[a..];
    NonSpaceGap(x, |r|, |x|);
    assert x[..|r|] == r;
  }

  lemma ConcatCons(x: string, rest: seq<string>)
    ensures Concat([x] + rest) == x + Concat(rest)
  {
    assert ([x] + rest)[1..] == rest;
  }

  /** A leading whitespace run holds no text. */
  lemma {:induction false} NonSpaceDrop(s: string, e: nat)
    requires e <= |s|
    requires forall j | 0 <= j < e :: IsSpace(s[j])
    ensures NonSpace(s) == NonSpace(s[e..])
  {
    if e > 0 {
      NonSpaceDrop(s[1..], e - 1);
      assert s[1..][e - 1..] == s[e..];
    }
  }

  /** Cutting out a whitespace run loses no text. */
  lemma {:induction false} NonSpaceGap(s: string, i: nat, e: nat)
    requires i <= e <= |s|
    requires forall j | i <= j < e :: IsSpace(s[j])
    ensures NonSpace(s) == NonSpace(s[..i]) + NonSpace(s[e..])
  {
    if i == 0 {
      NonSpaceDrop(s, e);
    } else {
      NonSpaceGap(s[1..], i - 1, e - 1);
      assert s[1..][..i - 1] == s[..i][1..];
      assert s[1..][e - 1..] == s[e..];
    }
  }

  /** Joining with a blank separator adds no text. */
  lemma {:induction false} JoinNonSpace(xs: seq<string>, sep: string)
    requires AllSpace(sep)
    ensures NonSpace(Join(xs, sep)) == NonSpace(Concat(xs))
  {
    if |xs| == 1 {
      assert xs[1..] == [];
      assert Concat(xs) == xs[0] + Concat(xs[1..]);
      assert Concat(xs) == xs[0];
    } else if |xs| > 1 {
      assert Join(xs, sep) == xs[0] + sep + Join(xs[1..], sep);
      JoinNonSpace(xs[1..], sep);
      NonSpaceAppend(xs[0] + sep, Join(xs[1..], sep));
      NonSpaceAppend(xs[0], sep);
      NonSpaceBlank(sep);
      assert NonSpace(xs[0] + sep) == NonSpace(xs[0]);
      NonSpaceAppend(xs[0], Concat(xs[1..]));
    }
  }

  /**
   * Python's `s.replace(pat, rep)`: every non-overlapping occurrence of a
   * non-empty `pat`, scanned left to right, replaced by `rep`.
   */
  function ReplaceAll(s: string, pat: string, rep: string): (r: string)
    requires pat != []
    ensures !Contains(s, pat) ==> r == s
    decreases |s|
  {
    if s == [] then []
    else if StartsWith(s, pat) then rep + ReplaceAll(s[|pat|..], pat, rep)
    else [s[0]] + ReplaceAll(s[1..], pat, rep)
  }

  /** No occurrence of `pat` starts before offset `k`. */
  predicate NoMatchBefore(s: string, pat: string, k: nat)
  {
    forall i | 0 <= i < k && i <= |s| :: !StartsWith(s[i..], pat)
  }

  /** Text in front of the first occurrence is copied as it is. */
  lemma {:induction false} ReplaceAllPrefix(s: string, pat: string, rep: string, k: nat)
    requires pat != [] && k <= |s| && NoMatchBefore(s, pat, k)
    ensures ReplaceAll(s, pat, rep) == s[..k] + ReplaceAll(s[k..], pat, rep)
    decreases k
  {
    if k > 0 {
      assert !StartsWith(s[0..], pat);
      assert s[0..] == s;
      forall i | 0 <= i < k - 1 && i <= |s[1..]| ensures !StartsWith(s[1..][i..], pat) {
        assert s[1..][i..] == s[i + 1..];
      }
      ReplaceAllPrefix(s[1..], pat, rep, k - 1);
      assert s[1..][k - 1..] == s[k..];
      assert s[..k] == [s[0]] + s[1..][..k - 1];
    }
  }

  /** An occurrence is written as `rep`, and the scan goes on after it. */
  lemma ReplaceAllAt(s: string, pat: string, rep: string)
    requires pat != [] && StartsWith(s, pat)
    ensures ReplaceAll(s, pat, rep) == rep + ReplaceAll(s[|pat|..], pat, rep)
  {
  }

  /** A text with one occurrence of `pat`: exactly that occurrence becomes `rep`. */
  lemma ReplaceAllOnce(a: string, pat: string, rep: string, b: string)
    requires pat != [] && NoMatchBefore(a + pat + b, pat, |a|) && !Contains(b, pat)
    ensures ReplaceAll(a + pat + b, pat, rep) == a + rep + b
  {
    var s := a + pat + b;
    ReplaceAllPrefix(s, pat, rep, |a|);
    assert s[..|a|] == a && s[|a|..] == pat + b;
    assert (pat + b)[|pat|..] == b;
    ReplaceAllAt(pat + b, pat, rep);
  }

  // ---------------------------------------------------------------------
  // Decimal numbers

  function DigitValue(c: char): nat requires IsDigit(c) { c as nat - '0' as nat }

  /** Value of a string of decimal digits, most significant first. */
  function DigitsValue(s: string): nat
    requires AllDigits(s)
  {
    if s == [] then 0 else DigitsValue(s[..|s| - 1]) * 10 + DigitValue(s[|s| - 1])
  }

  function DigitChar(d: nat): char requires d < 10 { ('0' as nat + d) as char }

  /** Python's `str(n)` / f-string `{n}` for a natural number. */
  function NatToString(n: nat): (r: string)
    ensures r != [] && AllDigits(r)
    ensures DigitsValue(r) == n
  {
    if n < 10 then [DigitChar(n)]
    else
      var r := NatToString(n / 10) + [DigitChar(n % 10)];
      assert r[..|r| - 1] == NatToString(n / 10);
      r
  }

  lemma NatToStringInjective(a: nat, b: nat)
    requires NatToString(a) == NatToString(b)
    ensures a == b
  {
    assert DigitsValue(NatToString(a)) == a;
  }

  /** f-string `{n:03}`: decimal digits left-padded with zeros to at least three. */
  function Pad3(n: nat): (r: string)
    ensures |r| >= 3 && AllDigits(r) && DigitsValue(r) == n
  {
    var d := NatToString(n);
    var z := if |d| >= 3 then [] else seq(3 - |d|, _ => '0');
    LeadingZeros(z, d);
    z + d
  }

  lemma {:induction false} LeadingZeros(z: string, d: string)
    requires forall i | 0 <= i < |z| :: z[i] == '0'
    requires AllDigits(d)
    ensures AllDigits(z + d) && DigitsValue(z + d) == DigitsValue(d)
    decreases |d|
  {
    if d == [] {
      ZerosValue(z);
      assert z + d == z;
    } else {
      assert (z + d)[..|z + d| - 1] == z + d[..|d| - 1];
      LeadingZeros(z, d[..|d| - 1]);
    }
  }

  lemma {:induction false} ZerosValue(z: string)
    requires forall i | 0 <= i < |z| :: z[i] == '0'
    ensures AllDigits(z) && DigitsValue(z) == 0
    decreases |z|
  {
    if z != [] { ZerosValue(z[..|z| - 1]); }
  }

  /**
   * Digits with single underscores between them, as Python's `int()` accepts
   * (`1_000`); the underscores carry no value.
   */
  predicate UnderscoredDigits(s: string)
  {
    s != [] && IsDigit(s[0]) && IsDigit(s[|s| - 1]) &&
    (forall i | 0 <= i < |s| :: IsDigit(s[i]) || s[i] == '_') &&
    (forall i | 0 <= i < |s| - 1 :: !(s[i] == '_' && s[i + 1] == '_'))
  }

  function DropUnderscores(s: string): (r: string)
    requires forall i | 0 <= i < |s| :: IsDigit(s[i]) || s[i] == '_'
    ensures AllDigits(r)
  {
    if s == [] then [] else (if s[0] == '_' then [] else [s[0]]) + DropUnderscores(s[1..])
  }

  /**
   * Python's `int(s)` on a string: surrounding whitespace, an optional sign and
   * underscore-separated ASCII digits; anything else raises, modelled as None.
   */
  function PyInt(s: string): (r: Option<int>)
    ensures r.Some? ==> exists t :: UnderscoredDigits(t) && Contains(Strip(s), t)
  {
    ParseSigned(Strip(s))
  }

  /** `int()` on text already stripped of whitespace. */
  function ParseSigned(t: string): (r: Option<int>)
    ensures r.Some? ==> exists u :: UnderscoredDigits(u) && Contains(t, u)
  {
    var neg := t != [] && t[0] == '-';
    var body := if t != [] && (t[0] == '-' || t[0] == '+') then t[1..] else t;
    if UnderscoredDigits(body) then
      var v := DigitsValue(DropUnderscores(body));
      SuffixContained(t, body);
      var n: int := if neg then -(v as int) else v;
      Some(n)
    else None
  }

  /**
   * `int()` of a digit string, with an optional sign and whitespace around it,
   * is the number the digits spell.
   */
  lemma PyIntReads(pre: string, sign: string, d: string, post: string)
    requires AllSpace(pre) && AllSpace(post) && d != [] && AllDigits(d)
    requires sign == "" || sign == "-" || sign == "+"
    ensures PyInt(pre + sign + d + post) ==
      Some(if sign == "-" then -(DigitsValue(d) as int) else DigitsValue(d) as int)
  {
    var m := sign + d;
    assert pre + sign + d + post == pre + m + post;
    assert m[|m| - 1] == d[|d| - 1];
    StripPadded(pre, m, post);
    PyIntSigned(pre + m + post, sign, d);
  }

  lemma PyIntSigned(s: string, sign: string, d: string)
    requires d != [] && AllDigits(d) && Strip(s) == sign + d
    requires sign == "" || sign == "-" || sign == "+"
    ensures PyInt(s) == Some(if sign == "-" then -(DigitsValue(d) as int) else DigitsValue(d) as int)
  {
    DigitsUnderscored(d);
    DropNoUnderscores(d);
    if sign == "" {
      assert sign + d == d;
      ParseUnsigned(d);
    } else {
      ParseWithSign(sign[0], d);
      assert sign + d == [sign[0]] + d;
    }
  }

  lemma ParseUnsigned(d: string)
    requires UnderscoredDigits(d) && DropUnderscores(d) == d
    ensures ParseSigned(d) == Some(DigitsValue(d) as int)
  {
    assert IsDigit(d[0]);
  }

  lemma ParseWithSign(c: char, d: string)
    requires UnderscoredDigits(d) && DropUnderscores(d) == d && (c == '-' || c == '+')
    ensures ParseSigned([c] + d) == Some(if c == '-' then -(DigitsValue(d) as int) else DigitsValue(d) as int)
  {
    var t := [c] + d;
    assert t[0] == c && t[1..] == d;
    ParseBody(t, d);
  }

  lemma ParseBody(t: string, d: string)
    requires t != [] && (t[0] == '-' || t[0] == '+') && t[1..] == d
    requires UnderscoredDigits(d) && DropUnderscores(d) == d
    ensures ParseSigned(t) == Some(if t[0] == '-' then -(DigitsValue(d) as int) else DigitsValue(d) as int)
  {
  }

  lemma DigitsUnderscored(d: string)
    requires d != [] && AllDigits(d)
    ensures UnderscoredDigits(d)
  {
  }

  lemma {:induction false} DropNoUnderscores(d: string)
    requires AllDigits(d)
    ensures DropUnderscores(d) == d
  {
    if d != [] {
      DropNoUnderscores(d[1..]);
    }
  }

  /** Whitespace around a text that neither starts nor ends with whitespace is what `strip()` removes. */
  lemma StripPadded(pre: string, m: string, post: string)
    requires AllSpace(pre) && AllSpace(post)
    requires m != [] && !IsSpace(m[0]) && !IsSpace(m[|m| - 1])
    ensures Strip(pre + m + post) == m
  {
    assert pre + m + post == pre + (m + post);
    LStripSpaces(pre, m + post);
    RStripSpaces(m, post);
  }

  lemma {:induction false} LStripSpaces(pre: string, x: string)
    requires AllSpace(pre) && (x != [] ==> !IsSpace(x[0]))
    ensures LStrip(pre + x) == x
  {
    if pre == [] {
      assert pre + x == x;
    } else {
      assert (pre + x)[1..] == pre[1..] + x;
      LStripSpaces(pre[1..], x);
    }
  }

  lemma {:induction false} RStripSpaces(x: string, post: string)
    requires AllSpace(post) && (x != [] ==> !IsSpace(x[|x| - 1]))
    ensures RStrip(x + post) == x
    decreases |post|
  {
    if post == [] {
      assert x + post == x;
    } else {
      var p := post[..|post| - 1];
      assert (x + post)[..|x + post| - 1] == x + p;
      RStripSpaces(x, p);
    }
  }

  lemma {:induction false} SuffixContained(t: string, b: string)
    requires b == t || (t != [] && b == t[1..])
    ensures Contains(t, b)
  {
    if b != t {
      assert StartsWith(t[1..], b);
    }
  }

  // ---------------------------------------------------------------------
  // html.escape / unescape

  /** One character under Python's `html.escape(s, quote=True)`. */
  function EscapeChar(c: char): string
  {
    if c == '&' then "&amp;"
    else if c == '<' then "&lt;"
    else if c == '>' then "&gt;"
    else if c == '"' then "&quot;"
    else if c == '\'' then "&#x27;"
    else [c]
  }

  predicate IsMarkupChar(c: char) { c == '<' || c == '>' || c == '"' || c == '\'' }

  /** Python's `html.escape(s)`: no raw `<`, `>`, `"` or `'` survives. */
  function Escape(s: string): (r: string)
    ensures forall i | 0 <= i < |r| :: !IsMarkupChar(r[i])
    ensures |r| >= |s|
  {
    if s == [] then []
    else
      var h := EscapeChar(s[0]);
      var r := h + Escape(s[1..]);
      assert forall i | 0 <= i < |r| :: r[i] == (if i < |h| then h[i] else Escape(s[1..])[i - |h|]);
      r
  }

  /** Inverse of `Escape`: the five entities `Escape` produces are turned back. */
  function Unescape(s: string): string
    decreases |s|
  {
    if s == [] then []
    else if StartsWith(s, "&amp;") then "&" + Unescape(s[5..])
    else if StartsWith(s, "&lt;") then "<" + Unescape(s[4..])
    else if StartsWith(s, "&gt;") then ">" + Unescape(s[4..])
    else if StartsWith(s, "&quot;") then "\"" + Unescape(s[6..])
    else if StartsWith(s, "&#x27;") then "'" + Unescape(s[6..])
    else [s[0]] + Unescape(s[1..])
  }

  /** Unescaping undoes the escape of one character in front of any text. */
  lemma UnescapeEscapedChar(c: char, rest: string)
    ensures Unescape(EscapeChar(c) + rest) == [c] + Unescape(rest)
  {
    if c == '&' {
      UnescapeAmp(rest);
    } else if c == '<' {
      UnescapeEntity("&lt;", '<', rest);
    } else if c == '>' {
      UnescapeEntity("&gt;", '>', rest);
    } else if c == '"' {
      UnescapeEntity("&quot;", '"', rest);
    } else if c == '\'' {
      UnescapeEntity("&#x27;", '\'', rest);
    } else {
      UnescapePlain(c, rest);
    }
  }

  lemma UnescapePlain(c: char, rest: string)
    requires c != '&'
    ensures Unescape([c] + rest) == [c] + Unescape(rest)
  {
    var e := [c] + rest;
    assert e[0] == c && e[1..] == rest;
    NotEntity(e, "&amp;");
    NotEntity(e, "&lt;");
    NotEntity(e, "&gt;");
    NotEntity(e, "&quot;");
    NotEntity(e, "&#x27;");
  }

  lemma NotEntity(e: string, h: string)
    requires e != [] && e[0] != '&' && h != [] && h[0] == '&'
    ensures !StartsWith(e, h)
  {
    if |h| <= |e| {
      assert e[..|h|][0] != h[0];
    }
  }

  lemma UnescapeAmp(rest: string)
    ensures Unescape("&amp;" + rest) == "&" + Unescape(rest)
  {
    var e := "&amp;" + rest;
    assert e[..5] == "&amp;" && e[5..] == rest;
  }

  /** The four entities after `&amp;` in the test order, each with the character it stands for. */
  lemma UnescapeEntity(h: string, c: char, rest: string)
    requires (h, c) in {("&lt;", '<'), ("&gt;", '>'), ("&quot;", '"'), ("&#x27;", '\'')}
    ensures Unescape(h + rest) == [c] + Unescape(rest)
  {
    var e := h + rest;
    assert e[..|h|] == h && e[|h|..] == rest;
    assert e[1] == h[1] != 'a';
    if h == "&gt;" {
      assert e[1] != 'l';
    } else if h == "&quot;" {
      assert e[1] != 'l' && e[1] != 'g';
    } else if h == "&#x27;" {
      assert e[1] != 'l' && e[1] != 'g' && e[1] != 'q';
    }
  }

  lemma {:induction false} EscapeRoundTrip(s: string)
    ensures Unescape(Escape(s)) == s
  {
    if s != [] {
      assert Escape(s) == EscapeChar(s[0]) + Escape(s[1..]);
      UnescapeEscapedChar(s[0], Escape(s[1..]));
      EscapeRoundTrip(s[1..]);
    }
  }
}
