/** Python string built-ins the lottery ledger relies on: `str.strip()`,
    `str.split('\n')` with its inverse `'\n'.join(...)`, and the decimal
    rendering of a count inside an f-string. */
module Text {

  /** Python's `str.isspace()` on one character: exactly the characters that
      `str.strip()` with no argument removes from both ends. */
  predicate IsSpace(c: char) {
    ('\U{9}' <= c <= '\U{D}') || ('\U{1C}' <= c <= '\U{20}') || c == '\U{85}' || c == '\U{A0}'
    || c == '\U{1680}' || ('\U{2000}' <= c <= '\U{200A}') || c == '\U{2028}' || c == '\U{2029}'
    || c == '\U{202F}' || c == '\U{205F}' || c == '\U{3000}'
  }

  ghost predicate AllSpace(s: string) {
    forall k :: 0 <= k < |s| ==> IsSpace(s[k])
  }

  /** Neither end of `s` is whitespace (vacuously true of the empty string). */
  predicate IsStripped(s: string) {
    s == [] || (!IsSpace(s[0]) && !IsSpace(s[|s| - 1]))
  }

  /** `r` is `s` with `i` whitespace characters taken off the front and
      only whitespace taken off the back. */
  ghost predicate IsTrimAt(r: string, s: string, i: int) {
    0 <= i && i + |r| <= |s| && s[i..i + |r|] == r && AllSpace(s[..i]) && AllSpace(s[i + |r|..])
  }

  function StripLeft(s: string): (r: string)
    ensures |r| <= |s| && r == s[|s| - |r|..]
    ensures AllSpace(s[..|s| - |r|])
    ensures r == [] || !IsSpace(r[0])
  {
    if s != [] && IsSpace(s[0]) then
      var r := StripLeft(s[1..]);
      SkipFirst(s, r);
      r
    else s
  }

  function StripRight(s: string): (r: string)
    ensures |r| <= |s| && r == s[..|r|]
    ensures AllSpace(s[|r|..])
    ensures r == [] || !IsSpace(r[|r| - 1])
  {
    if s != [] && IsSpace(s[|s| - 1]) then
      var r := StripRight(s[..|s| - 1]);
      SkipLast(s, r);
      r
    else s
  }

  /** A suffix left after dropping whitespace from `s[1..]` is one left after
      dropping whitespace from `s`, when `s[0]` is whitespace too. */
  lemma SkipFirst(s: string, r: string)
    requires s != [] && IsSpace(s[0])
    requires |r| <= |s| - 1 && r == s[1..][|s| - 1 - |r|..] && AllSpace(s[1..][..|s| - 1 - |r|])
    ensures r == s[|s| - |r|..] && AllSpace(s[..|s| - |r|])
  {
    assert s[..|s| - |r|] == [s[0]] + s[1..][..|s| - 1 - |r|];
  }

  /** The mirror image of `SkipFirst` at the back of `s`. */
  lemma SkipLast(s: string, r: string)
    requires s != [] && IsSpace(s[|s| - 1])
    requires |r| <= |s| - 1 && r == s[..|s| - 1][..|r|] && AllSpace(s[..|s| - 1][|r|..])
    ensures r == s[..|r|] && AllSpace(s[|r|..])
  {
    assert s[|r|..] == s[..|s| - 1][|r|..] + [s[|s| - 1]];
  }

  /** Python's `s.strip()`. */
  function Strip(s: string): (r: string)
    ensures IsStripped(r)
    ensures |r| <= |s|
  {
    StripRight(StripLeft(s))
  }

  /** `Strip(s)` is obtained from `s` by removing whitespace at both ends. */
  lemma StripIsTrim(s: string)
    ensures IsTrimAt(Strip(s), s, |s| - |StripLeft(s)|)
  {
    var l := StripLeft(s);
    var r := StripRight(l);
    var i := |s| - |l|;
    TrimThenTrim(s, l, r, i);
  }

  /** Trimming the front of `s` down to `l` and then the back of `l` down to
      `r` trims `s` down to `r`. */
  lemma TrimThenTrim(s: string, l: string, r: string, i: int)
    requires 0 <= i <= |s| && l == s[i..] && AllSpace(s[..i])
    requires |r| <= |l| && r == l[..|r|] && AllSpace(l[|r|..])
    ensures IsTrimAt(r, s, i)
  {
    assert s[i..i + |r|] == l[..|r|];
    assert s[i + |r|..] == l[|r|..];
  }

  /** Whitespace in front of a piece that does not start with whitespace is
      exactly what `StripLeft` removes. */
  lemma {:induction false} StripLeftSkips(a: string, x: string)
    requires AllSpace(a)
    requires x == [] || !IsSpace(x[0])
    ensures StripLeft(a + x) == x
  {
    if a == [] {
      assert a + x == x;
    } else {
      assert (a + x)[0] == a[0];
      assert (a + x)[1..] == a[1..] + x;
      StripLeftSkips(a[1..], x);
    }
  }

  /** Whitespace after a piece that does not end with whitespace is exactly
      what `StripRight` removes. */
  lemma {:induction false} StripRightSkips(x: string, b: string)
    requires AllSpace(b)
    requires x == [] || !IsSpace(x[|x| - 1])
    ensures StripRight(x + b) == x
  {
    if b == [] {
      assert x + b == x;
    } else {
      assert (x + b)[|x + b| - 1] == b[|b| - 1];
      assert (x + b)[..|x + b| - 1] == x + b[..|b| - 1];
      StripRightSkips(x, b[..|b| - 1]);
    }
  }

  /** Strip is the ONLY trim of `s` whose ends are not whitespace: Python's
      strip is determined by these two facts. */
  lemma StripUnique(s: string, r: string, i: int)
    requires IsTrimAt(r, s, i) && IsStripped(r)
    ensures r == Strip(s)
  {
    var a, b := s[..i], s[i + |r|..];
    assert s == a + r + b by {
      assert s == s[..i] + s[i..i + |r|] + s[i + |r|..];
    }
    if r == [] {
      assert AllSpace(a + b) by {
        forall j | 0 <= j < |a + b| ensures IsSpace((a + b)[j]) {
          if j < |a| { assert (a + b)[j] == a[j]; } else { assert (a + b)[j] == b[j - |a|]; }
        }
      }
      assert s == (a + b) + [];
      StripLeftSkips(a + b, []);
    } else {
      assert s == a + (r + b);
      StripLeftSkips(a, r + b);
      StripRightSkips(r, b);
    }
  }

  /** Stripping twice is stripping once. */
  lemma StripIdempotent(s: string)
    ensures Strip(Strip(s)) == Strip(s)
  {
    var r := Strip(s);
    assert r[0..0 + |r|] == r;
    assert AllSpace(r[..0]) && AllSpace(r[0 + |r|..]);
    StripUnique(r, r, 0);
  }

  /** Python's `'\n'.join(parts)`. */
  function Join(parts: seq<string>): string {
    if parts == [] then []
    else if |parts| == 1 then parts[0]
    else parts[0] + "\n" + Join(parts[1..])
  }

  /** Python's `s.split('\n')`: the pieces between newline characters,
      always at least one, never containing a newline, and joining back to `s`. */
  function Split(s: string): (parts: seq<string>)
    ensures |parts| >= 1
    ensures forall k :: 0 <= k < |parts| ==> '\n' !in parts[k]
    ensures Join(parts) == s
  {
    if s == [] then [[]]
    else
      var rest := Split(s[1..]);
      if s[0] == '\n' then
        assert Join([[]] + rest) == "\n" + Join(rest);
        [[]] + rest
      else
        var head := [s[0]] + rest[0];
        assert Join([head] + rest[1..]) == [s[0]] + Join(rest) by {
          if |rest| > 1 {
            assert ([head] + rest[1..])[1..] == rest[1..];
          }
        }
        assert s == [s[0]] + s[1..];
        [head] + rest[1..]
  }

  /** Splitting a string whose first character is not a newline extends the
      first piece. */
  lemma SplitCons(c: char, t: string)
    requires c != '\n'
    ensures Split([c] + t) == [[c] + Split(t)[0]] + Split(t)[1..]
  {
    assert ([c] + t)[1..] == t;
  }

  /** Splitting a string that begins with a newline-free piece `p`. */
  lemma {:induction false} SplitAfterPiece(p: string, s: string)
    requires '\n' !in p
    ensures Split(p + s) == [p + Split(s)[0]] + Split(s)[1..]
  {
    var parts := Split(s);
    if p == [] {
      assert p + s == s;
      assert p + parts[0] == parts[0];
      assert [parts[0]] + parts[1..] == parts;
    } else {
      assert p[0] in p;
      var q := p[1..];
      SplitAfterPiece(q, s);
      assert p + s == [p[0]] + (q + s);
      SplitCons(p[0], q + s);
      assert [p[0]] + (q + parts[0]) == p + parts[0];
    }
  }

  /** Round trip: joining newline-free pieces and splitting gives them back. */
  lemma {:induction false} SplitJoin(parts: seq<string>)
    requires |parts| >= 1
    requires forall k :: 0 <= k < |parts| ==> '\n' !in parts[k]
    ensures Split(Join(parts)) == parts
  {
    if |parts| == 1 {
      SplitAfterPiece(parts[0], []);
      assert parts[0] + [] == parts[0];
    } else {
      var rest := Join(parts[1..]);
      SplitJoin(parts[1..]);
      assert Join(parts) == parts[0] + ("\n" + rest);
      SplitAfterPiece(parts[0], "\n" + rest);
      var nl := "\n" + rest;
      assert nl != [] && nl[0] == '\n' && nl[1..] == rest;
      assert Split(nl) == [[]] + Split(rest);
      assert Split(nl)[0] == [] && Split(nl)[1..] == parts[1..];
      assert parts[0] + [] == parts[0];
      assert parts == [parts[0]] + parts[1..];
    }
  }

  /** One decimal digit. */
  function DigitChar(d: nat): char
    requires d < 10
  {
    "0123456789"[d]
  }

  /** Python's `str(n)` for a non-negative integer: the decimal digits of `n`
      without leading zeros. */
  function Decimal(n: nat): (s: string)
    ensures |s| >= 1 && (|s| > 1 ==> s[0] != '0')
    ensures forall k :: 0 <= k < |s| ==> '0' <= s[k] <= '9'
  {
    if n < 10 then [DigitChar(n)] else Decimal(n / 10) + [DigitChar(n % 10)]
  }

  /** The number a string of decimal digits denotes. */
  function DecimalValue(s: string): nat
    requires forall k :: 0 <= k < |s| ==> '0' <= s[k] <= '9'
  {
    if s == [] then 0 else 10 * DecimalValue(s[..|s| - 1]) + (s[|s| - 1] as int - '0' as int)
  }

  /** Round trip: reading back the rendered count gives the count. */
  lemma {:induction false} DecimalRoundTrip(n: nat)
    ensures DecimalValue(Decimal(n)) == n
  {
    var s := Decimal(n);
    if n >= 10 {
      DecimalRoundTrip(n / 10);
      assert s[..|s| - 1] == Decimal(n / 10);
    }
  }

  /** Distinct counts render as distinct strings. */
  lemma DecimalInjective(m: nat, n: nat)
    requires Decimal(m) == Decimal(n)
    ensures m == n
  {
    DecimalRoundTrip(m);
    DecimalRoundTrip(n);
  }
}
