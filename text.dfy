/**
 * The Python string operations the server relies on: `str.strip()`,
 * `str.split()` without a separator, `str.join` and the decimal rendering
 * of a page number in an f-string. Characters are Unicode scalar values,
 * so `|s|` is Python's `len(s)`.
 */
module Text {

  /** Python's `str.isspace()` for one character: the characters `strip()`
      removes and `split()` splits at. */
  predicate IsSpace(c: char) {
    var n := c as int;
    (9 <= n <= 13) || (28 <= n <= 32) || n == 0x85 || n == 0xA0 || n == 0x1680
    || (0x2000 <= n <= 0x200A) || n == 0x2028 || n == 0x2029 || n == 0x202F
    || n == 0x205F || n == 0x3000
  }

  predicate AllSpace(s: string) {
    forall i :: 0 <= i < |s| ==> IsSpace(s[i])
  }

  predicate NoSpace(s: string) {
    forall i :: 0 <= i < |s| ==> !IsSpace(s[i])
  }

  /** `s.lstrip()`: drops the leading whitespace. */
  function TrimStart(s: string): (r: string)
    ensures |r| <= |s|
  {
    if s != [] && IsSpace(s[0]) then TrimStart(s[1..]) else s
  }

  /** `lstrip()` removes a whitespace prefix and stops at the first
      non-whitespace character. */
  lemma {:induction false} TrimStartParts(s: string)
    ensures TrimStart(s) == s[|s| - |TrimStart(s)|..]
    ensures forall i :: 0 <= i < |s| - |TrimStart(s)| ==> IsSpace(s[i])
    ensures TrimStart(s) == [] || !IsSpace(TrimStart(s)[0])
  {
    if s != [] && IsSpace(s[0]) {
      TrimStartParts(s[1..]);
    }
  }

  /** `s.rstrip()`: drops the trailing whitespace. */
  function TrimEnd(s: string): (r: string)
    ensures |r| <= |s|
  {
    if s != [] && IsSpace(s[|s| - 1]) then TrimEnd(s[..|s| - 1]) else s
  }

  /** `rstrip()` removes a whitespace suffix and stops at the last
      non-whitespace character. */
  lemma {:induction false} TrimEndParts(s: string)
    ensures TrimEnd(s) == s[..|TrimEnd(s)|]
    ensures forall i :: |TrimEnd(s)| <= i < |s| ==> IsSpace(s[i])
    ensures TrimEnd(s) == [] || !IsSpace(TrimEnd(s)[|TrimEnd(s)| - 1])
  {
    if s != [] && IsSpace(s[|s| - 1]) {
      TrimEndParts(s[..|s| - 1]);
    }
  }

  /** `s.strip()`: `s` without its leading and trailing whitespace. */
  function Strip(s: string): (r: string)
    ensures |r| <= |s|
  {
    TrimEnd(TrimStart(s))
  }

  /** How many leading whitespace characters `strip()` removes. */
  function LeadingSpace(s: string): nat {
    |s| - |TrimStart(s)|
  }

  /** `Strip(s)` is the slice of `s` between its leading and its trailing
      whitespace. */
  lemma StripParts(s: string)
    ensures LeadingSpace(s) + |Strip(s)| <= |s|
    ensures Strip(s) == s[LeadingSpace(s)..LeadingSpace(s) + |Strip(s)|]
    ensures forall i :: 0 <= i < LeadingSpace(s) ==> IsSpace(s[i])
    ensures forall i :: LeadingSpace(s) + |Strip(s)| <= i < |s| ==> IsSpace(s[i])
    ensures Strip(s) == [] || (!IsSpace(Strip(s)[0]) && !IsSpace(Strip(s)[|Strip(s)| - 1]))
  {
    var t := TrimStart(s);
    var k := LeadingSpace(s);
    var r := TrimEnd(t);
    TrimStartParts(s);
    TrimEndParts(t);
    forall i | k + |r| <= i < |s| ensures IsSpace(s[i]) {
      assert s[i] == t[i - k];
    }
  }

  /** `strip()` gives the empty string exactly on all-whitespace input. */
  lemma StripEmpty(s: string)
    ensures Strip(s) == [] <==> AllSpace(s)
  {
    var t := TrimStart(s);
    TrimStartParts(s);
    TrimEndParts(t);
    if t != [] {
      assert t[0] == s[|s| - |t|];
    }
  }

  /** The longest prefix of `s` without whitespace. */
  function Token(s: string): (r: string)
    ensures |r| <= |s| && r == s[..|r|] && NoSpace(r)
    ensures |r| == |s| || IsSpace(s[|r|])
  {
    if s == [] || IsSpace(s[0]) then [] else [s[0]] + Token(s[1..])
  }

  /** `s.split()`: the maximal runs of non-whitespace characters, in order. */
  function Split(s: string): (ws: seq<string>)
    ensures forall k :: 0 <= k < |ws| ==> ws[k] != [] && NoSpace(ws[k])
    decreases |s|
  {
    if s == [] then []
    else if IsSpace(s[0]) then Split(s[1..])
    else
      var t := Token(s);
      [t] + Split(s[|t|..])
  }

  /** The word count the server reports: `len(s.split())`. */
  function WordCount(s: string): nat {
    |Split(s)|
  }

  /** `sep.join(xs)`. */
  function Join(xs: seq<string>, sep: string): string {
    if |xs| == 0 then ""
    else if |xs| == 1 then xs[0]
    else xs[0] + sep + Join(xs[1..], sep)
  }

  function Concat(xss: seq<seq<string>>): seq<string> {
    if xss == [] then [] else xss[0] + Concat(xss[1..])
  }

  function SplitEach(xs: seq<string>): (r: seq<seq<string>>)
    ensures |r| == |xs| && forall i :: 0 <= i < |xs| ==> r[i] == Split(xs[i])
  {
    if xs == [] then [] else [Split(xs[0])] + SplitEach(xs[1..])
  }

  /** A token stops at whitespace, so what follows a whitespace boundary
      does not change it. */
  lemma {:induction false} TokenExtend(s: string, x: string)
    requires |Token(s)| < |s| || x == [] || IsSpace(x[0])
    ensures Token(s + x) == Token(s)
  {
    if s == [] {
    } else if IsSpace(s[0]) {
    } else {
      assert (s + x)[1..] == s[1..] + x;
      TokenExtend(s[1..], x);
    }
  }

  lemma {:induction false} SplitAllSpace(w: string)
    requires AllSpace(w)
    ensures Split(w) == []
    decreases |w|
  {
    if w != [] {
      SplitAllSpace(w[1..]);
    }
  }

  /** Leading whitespace yields no token. */
  lemma {:induction false} SplitSpacePrefix(w: string, s: string)
    requires AllSpace(w)
    ensures Split(w + s) == Split(s)
    decreases |w|
  {
    if w != [] {
      assert (w + s)[1..] == w[1..] + s;
      SplitSpacePrefix(w[1..], s);
    } else {
      assert w + s == s;
    }
  }

  /** Splitting at a non-empty whitespace run splits the two sides apart. */
  lemma {:induction false} SplitConcat(a: string, w: string, b: string)
    requires AllSpace(w) && w != []
    ensures Split(a + w + b) == Split(a) + Split(b)
    decreases |a|, 1
  {
    if a == [] {
      assert a + w + b == w + b;
      SplitSpacePrefix(w, b);
    } else if IsSpace(a[0]) {
      SplitConcatSpace(a, w, b);
    } else {
      SplitConcatToken(a, w, b);
    }
  }

  /** `SplitConcat` when `a` starts with whitespace. */
  lemma {:induction false} SplitConcatSpace(a: string, w: string, b: string)
    requires AllSpace(w) && w != [] && a != [] && IsSpace(a[0])
    ensures Split(a + w + b) == Split(a) + Split(b)
    decreases |a|, 0
  {
    assert (a + w + b)[1..] == a[1..] + w + b;
    SplitConcat(a[1..], w, b);
  }

  /** `SplitConcat` when `a` starts with a token. */
  lemma {:induction false} SplitConcatToken(a: string, w: string, b: string)
    requires AllSpace(w) && w != [] && a != [] && !IsSpace(a[0])
    ensures Split(a + w + b) == Split(a) + Split(b)
    decreases |a|, 0
  {
    var x := a + (w + b);
    var t := Token(a);
    assert a + w + b == x;
    assert (w + b)[0] == w[0];
    TokenExtend(a, w + b);
    assert x[0] == a[0];
    assert Split(x) == [t] + Split(x[|t|..]);
    assert x[|t|..] == a[|t|..] + w + b;
    SplitConcat(a[|t|..], w, b);
    assert Split(a) == [t] + Split(a[|t|..]);
  }

  /** Trailing whitespace yields no token. */
  lemma SplitSpaceSuffix(s: string, w: string)
    requires AllSpace(w)
    ensures Split(s + w) == Split(s)
  {
    if w != [] {
      SplitConcat(s, w, []);
      assert s + w + [] == s + w;
      assert Split([]) == [];
    } else {
      assert s + w == s;
    }
  }

  /** Stripping a string does not change its tokens, so the word count of the
      raw OCR text equals that of the stripped text. */
  lemma SplitStrip(s: string)
    ensures Split(Strip(s)) == Split(s)
  {
    StripParts(s);
    var r := Strip(s);
    var k := LeadingSpace(s);
    var lead, trail := s[..k], s[k + |r|..];
    assert AllSpace(lead);
    assert AllSpace(trail);
    assert s == lead + (r + trail);
    SplitSpacePrefix(lead, r + trail);
    SplitSpaceSuffix(r, trail);
  }

  lemma SplitWord(t: string)
    requires t != [] && NoSpace(t)
    ensures Split(t) == [t]
  {
    assert Token(t) == t;
    assert t[|t|..] == [];
  }

  /** The tokens of a joined list are the tokens of its members, in order,
      whenever the separator is non-empty whitespace. */
  lemma {:induction false} SplitJoin(xs: seq<string>, sep: string)
    requires AllSpace(sep) && sep != []
    ensures Split(Join(xs, sep)) == Concat(SplitEach(xs))
  {
    if |xs| == 0 {
    } else if |xs| == 1 {
      assert SplitEach(xs) == [Split(xs[0])] + SplitEach(xs[1..]);
      assert SplitEach(xs[1..]) == [];
    } else {
      SplitConcat(xs[0], sep, Join(xs[1..], sep));
      SplitJoin(xs[1..], sep);
      assert SplitEach(xs) == [Split(xs[0])] + SplitEach(xs[1..]);
    }
  }

  /** Splitting undoes joining words with a space. */
  lemma SplitJoinWords(ws: seq<string>)
    requires forall k :: 0 <= k < |ws| ==> ws[k] != [] && NoSpace(ws[k])
    ensures Split(Join(ws, " ")) == ws
  {
    SplitJoin(ws, " ");
    ConcatOfWords(ws);
  }

  lemma {:induction false} ConcatOfWords(ws: seq<string>)
    requires forall k :: 0 <= k < |ws| ==> ws[k] != [] && NoSpace(ws[k])
    ensures Concat(SplitEach(ws)) == ws
  {
    if ws != [] {
      SplitWord(ws[0]);
      ConcatOfWords(ws[1..]);
      assert SplitEach(ws) == [Split(ws[0])] + SplitEach(ws[1..]);
      assert ws == [ws[0]] + ws[1..];
    }
  }

  lemma {:induction false} JoinEmpty(xs: seq<string>, sep: string)
    ensures Join(xs, sep) == "" <==> (forall i :: 0 <= i < |xs| ==> xs[i] == "") && (|xs| <= 1 || sep == "")
  {
    if |xs| >= 2 {
      JoinEmpty(xs[1..], sep);
      assert forall i :: 1 <= i < |xs| ==> xs[i] == xs[1..][i - 1];
    }
  }

  function DigitChar(d: nat): (c: char)
    requires d < 10
  {
    "0123456789"[d]
  }

  predicate IsDigit(c: char) {
    '0' <= c <= '9'
  }

  /** The value of a string of decimal digits. */
  function DecimalValue(s: string): nat
    requires forall i :: 0 <= i < |s| ==> IsDigit(s[i])
  {
    if s == [] then 0
    else
      var d := (s[|s| - 1] as int) - ('0' as int);
      assert IsDigit(s[|s| - 1]);
      DecimalValue(s[..|s| - 1]) * 10 + d
  }

  /** `str(n)` for a natural number: decimal digits without leading zeros. */
  function NatToString(n: nat): (r: string)
    ensures |r| >= 1 && NoSpace(r)
    ensures forall i :: 0 <= i < |r| ==> IsDigit(r[i])
    ensures r[0] == '0' ==> n == 0
  {
    if n < 10 then [DigitChar(n)] else NatToString(n / 10) + [DigitChar(n % 10)]
  }

  /** Reading the digits back gives the number: the page number in a marker
      is recoverable. */
  lemma {:induction false} NatToStringValue(n: nat)
    ensures DecimalValue(NatToString(n)) == n
  {
    var r := NatToString(n);
    if n >= 10 {
      NatToStringValue(n / 10);
      assert r[..|r| - 1] == NatToString(n / 10);
    }
  }
}
