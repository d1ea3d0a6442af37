/**
 * Natural file-name ordering (`human_sort_key`): a name is split into
 * alternating non-digit and digit runs, digit runs compare as integers and the
 * other runs as lower-cased text, so "x (2)" sorts before "x (10)".
 */
module SortKey {
  import opened Basics

  /** One element of the key tuple: a lower-cased text run or an integer. */
  datatype KeyPart = Word(text: string) | Num(value: nat)

  /** Length of the longest digit-free prefix. */
  function NonDigitRun(s: string): (n: nat)
    ensures n <= |s| && NoDigits(s[..n])
    ensures n < |s| ==> IsDigit(s[n])
  {
    if s == [] || IsDigit(s[0]) then 0
    else
      var n := 1 + NonDigitRun(s[1..]);
      assert s[..n] == [s[0]] + s[1..][..n - 1];
      n
  }

  /** Length of the longest all-digit prefix. */
  function DigitRun(s: string): (n: nat)
    ensures n <= |s| && AllDigits(s[..n])
    ensures n < |s| ==> !IsDigit(s[n])
  {
    if s == [] || !IsDigit(s[0]) then 0
    else
      var n := 1 + DigitRun(s[1..]);
      assert s[..n] == [s[0]] + s[1..][..n - 1];
      n
  }

  /**
   * The shape of `re.split(r"(\d+)", name)`: an odd number of pieces, even
   * positions hold digit-free text (empty only at either end) and odd positions
   * hold non-empty digit runs.
   */
  predicate Alternating(r: seq<string>)
  {
    && |r| % 2 == 1
    && (forall i | 0 <= i < |r| :: i % 2 == 0 ==> NoDigits(r[i]))
    && (forall i | 0 <= i < |r| :: i % 2 == 1 ==> r[i] != [] && AllDigits(r[i]))
    && (forall i | 0 < i < |r| - 1 :: i % 2 == 0 ==> r[i] != [])
  }

  lemma AlternatingCons(x: string, d: string, rest: seq<string>)
    requires NoDigits(x) && d != [] && AllDigits(d)
    requires Alternating(rest) && (|rest| > 1 ==> rest[0] != [])
    ensures Alternating([x, d] + rest)
  {
    var r := [x, d] + rest;
    assert forall i | 2 <= i < |r| :: r[i] == rest[i - 2];
  }

  /**
   * `re.split(r"(\d+)", name)`: the pieces concatenate back to the name and
   * alternate between digit-free text and maximal digit runs.
   */
  function Runs(s: string): (r: seq<string>)
    ensures Alternating(r)
    ensures Concat(r) == s
    decreases |s|
  {
    var a := NonDigitRun(s);
    if a == |s| then
      SingleRun(s);
      [s]
    else
      DigitRunPositive(s[a..]);
      var d := DigitRun(s[a..]);
      var rest := Runs(s[a + d..]);
      RunsStep(s, a, d, rest);
      [s[..a], s[a..a + d]] + rest
  }

  lemma SingleRun(s: string)
    requires NoDigits(s)
    ensures Alternating([s]) && Concat([s]) == s
  {
    assert Concat([s]) == s + Concat([]);
  }

  lemma DigitRunPositive(t: string)
    requires t != [] && IsDigit(t[0])
    ensures DigitRun(t) > 0
  {
  }

  /** One step of the split: a digit-free run, a digit run, then the split of the rest. */
  lemma RunsStep(s: string, a: nat, d: nat, rest: seq<string>)
    requires a < |s| && NoDigits(s[..a]) && 0 < d <= |s| - a
    requires AllDigits(s[a..][..d]) && (d < |s| - a ==> !IsDigit(s[a..][d]))
    requires Alternating(rest) && Concat(rest) == s[a + d..]
    ensures Alternating([s[..a], s[a..a + d]] + rest)
    ensures Concat([s[..a], s[a..a + d]] + rest) == s
  {
    var b := a + d;
    assert s[a..b] == s[a..][..d];
    assert b < |s| ==> !IsDigit(s[b]) by {
      if b < |s| { assert s[a..][d] == s[b]; }
    }
    NextRunNonEmpty(rest, s[b..]);
    AlternatingCons(s[..a], s[a..b], rest);
    ConcatPair(s[..a], s[a..b], rest);
    assert s == s[..a] + s[a..b] + s[b..];
  }

  lemma ConcatPair(x: string, d: string, rest: seq<string>)
    ensures Concat([x, d] + rest) == x + d + Concat(rest)
  {
    var r := [x, d] + rest;
    assert r[1..] == [d] + rest && r[1..][1..] == rest;
  }

  /** Text that does not start with a digit cannot split into "" followed by digits. */
  lemma NextRunNonEmpty(r: seq<string>, s: string)
    requires Alternating(r) && Concat(r) == s
    requires s != [] ==> !IsDigit(s[0])
    ensures |r| > 1 ==> r[0] != []
  {
    if |r| > 1 {
      assert Concat(r) == r[0] + Concat(r[1..]);
      assert Concat(r[1..]) == r[1] + Concat(r[1..][1..]);
    }
  }

  /** `atoi`: a digit run becomes its integer value, anything else its lower-case form. */
  function Atoi(run: string): KeyPart
  {
    if run != [] && AllDigits(run) then Num(DigitsValue(run)) else Word(Lower(run))
  }

  /** `human_sort_key(p)` on the file name. */
  function Key(name: string): (k: seq<KeyPart>)
    ensures |k| == |Runs(name)| && |k| % 2 == 1
    ensures forall i | 0 <= i < |k| :: k[i].Word? <==> i % 2 == 0
    ensures forall i | 0 <= i < |k| :: k[i].Num? ==> k[i].value == DigitsValue(Runs(name)[i])
    ensures forall i | 0 <= i < |k| && i % 2 == 0 :: k[i] == Word(Lower(Runs(name)[i]))
  {
    KeyOfRuns(Runs(name))
  }

  /** The key of already split pieces: each piece through `atoi`. */
  function KeyOfRuns(r: seq<string>): (k: seq<KeyPart>)
    requires Alternating(r)
    ensures |k| == |r|
    ensures forall i | 0 <= i < |k| :: k[i].Word? <==> i % 2 == 0
    ensures forall i | 0 <= i < |k| :: k[i].Num? ==> k[i].value == DigitsValue(r[i])
    ensures forall i | 0 <= i < |k| && i % 2 == 0 :: k[i] == Word(Lower(r[i]))
  {
    seq(|r|, i requires 0 <= i < |r| => Atoi(r[i]))
  }

  /** Python's ordering of two strings: lexicographic by code point. */
  predicate StrLess(x: string, y: string)
  {
    if x == [] then y != []
    else if y == [] then false
    else if x[0] == y[0] then StrLess(x[1..], y[1..])
    else x[0] < y[0]
  }

  /**
   * Python's ordering of two parts; a text run and an integer are not
   * comparable in Python (TypeError), which `KeysComparable` shows never arises.
   */
  predicate PartLess(a: KeyPart, b: KeyPart)
  {
    match (a, b)
    case (Word(x), Word(y)) => StrLess(x, y)
    case (Num(m), Num(n)) => m < n
    case _ => false
  }

  /** Python's lexicographic tuple ordering. */
  predicate KeyLess(a: seq<KeyPart>, b: seq<KeyPart>)
  {
    if a == [] then b != []
    else if b == [] then false
    else if a[0] == b[0] then KeyLess(a[1..], b[1..])
    else PartLess(a[0], b[0])
  }

  /** Two keys only ever compare text with text and integer with integer. */
  lemma KeysComparable(x: string, y: string, i: nat)
    requires i < |Key(x)| && i < |Key(y)|
    ensures Key(x)[i].Word? == Key(y)[i].Word?
  {
  }

  /** A digit-free prefix, then digits, then a non-digit (or nothing) splits as expected. */
  lemma RunsOfNumbered(p: string, d: string, s: string)
    requires NoDigits(p) && d != [] && AllDigits(d)
    requires s == [] || !IsDigit(s[0])
    ensures Runs(p + d + s) == [p, d] + Runs(s)
  {
    var t := p + d + s;
    NonDigitRunOf(p, d + s);
    assert t == p + (d + s);
    DigitRunOf(d, s);
    var a, n := |p|, |d|;
    assert t[..a] == p && t[a..] == d + s && t[a..][..n] == d && t[a + n..] == s;
    assert Runs(t) == [t[..a], t[a..a + n]] + Runs(t[a + n..]);
  }

  lemma {:induction false} NonDigitRunOf(p: string, rest: string)
    requires NoDigits(p) && rest != [] && IsDigit(rest[0])
    ensures NonDigitRun(p + rest) == |p|
  {
    if p != [] {
      assert (p + rest)[0] == p[0];
      assert (p + rest)[1..] == p[1..] + rest;
      NonDigitRunOf(p[1..], rest);
    } else {
      assert p + rest == rest;
    }
  }

  lemma {:induction false} DigitRunOf(d: string, s: string)
    requires AllDigits(d) && (s == [] || !IsDigit(s[0]))
    ensures DigitRun(d + s) == |d|
  {
    if d != [] {
      assert (d + s)[0] == d[0];
      assert (d + s)[1..] == d[1..] + s;
      DigitRunOf(d[1..], s);
    } else {
      assert d + s == s;
    }
  }

  /**
   * Digit runs order numerically: two names that differ only in the number
   * they carry at the same place sort by that number.
   */
  lemma {:induction false} NumericOrder(p: string, a: nat, b: nat, s: string)
    requires NoDigits(p) && (s == [] || !IsDigit(s[0]))
    requires a < b
    ensures KeyLess(Key(p + NatToString(a) + s), Key(p + NatToString(b) + s))
  {
    var ka := Key(p + NatToString(a) + s);
    var kb := Key(p + NatToString(b) + s);
    KeyOfNumbered(p, NatToString(a), s);
    KeyOfNumbered(p, NatToString(b), s);
    assert ka[1..][0] == Num(a) && kb[1..][0] == Num(b);
  }

  /** The first two key parts of a numbered name: its lower-cased prefix and its number. */
  lemma KeyOfNumbered(p: string, d: string, s: string)
    requires NoDigits(p) && d != [] && AllDigits(d)
    requires s == [] || !IsDigit(s[0])
    ensures |Key(p + d + s)| > 1
    ensures Key(p + d + s)[0] == Word(Lower(p)) && Key(p + d + s)[1] == Num(DigitsValue(d))
  {
    RunsOfNumbered(p, d, s);
    var r := Runs(p + d + s);
    assert r[0] == p && r[1] == d;
  }
}
