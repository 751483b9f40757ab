/**
 * Character and string helpers used by the handlers: the whitespace trimming
 * performed by Python's `str.strip()` (and JavaScript's `String.prototype.trim()`),
 * decimal rendering of naturals, and the integer parse applied to query strings.
 */
module Text {
  import opened Wrappers

  /** The whitespace characters removed by trimming (the ASCII subset). */
  predicate IsSpace(c: char) {
    c == ' ' || c == '\t' || c == '\n' || c == '\r' || c == '\U{B}' || c == '\U{C}'
  }

  predicate AllSpace(s: string) {
    forall k | 0 <= k < |s| :: IsSpace(s[k])
  }

  /** True when `s` has no leading and no trailing whitespace. */
  predicate IsTrimmed(s: string) {
    s == [] || (!IsSpace(s[0]) && !IsSpace(s[|s| - 1]))
  }

  /** Drops leading whitespace: the result is the suffix of `s` after a whitespace-only prefix. */
  function TrimStart(s: string): (r: string)
    ensures |r| <= |s|
  {
    if s != [] && IsSpace(s[0]) then TrimStart(s[1..]) else s
  }

  lemma {:induction false} TrimStartShape(s: string)
    ensures TrimStart(s) == s[|s| - |TrimStart(s)|..]
    ensures TrimStart(s) == [] || !IsSpace(TrimStart(s)[0])
  {
    if s != [] && IsSpace(s[0]) {
      TrimStartShape(s[1..]);
    }
  }

  /** Drops trailing whitespace: the result is the prefix of `s` before a whitespace-only suffix. */
  function TrimEnd(s: string): (r: string)
    ensures |r| <= |s|
  {
    if s != [] && IsSpace(s[|s| - 1]) then TrimEnd(s[..|s| - 1]) else s
  }

  lemma {:induction false} TrimEndShape(s: string)
    ensures TrimEnd(s) == s[..|TrimEnd(s)|]
    ensures TrimEnd(s) == [] || !IsSpace(TrimEnd(s)[|TrimEnd(s)| - 1])
  {
    if s != [] && IsSpace(s[|s| - 1]) {
      TrimEndShape(s[..|s| - 1]);
    }
  }

  /** Python's `s.strip()`: leading and trailing whitespace removed. */
  function Strip(s: string): (r: string)
    ensures |r| <= |s|
    ensures IsTrimmed(r)
  {
    TrimStartShape(s);
    TrimEndShape(TrimStart(s));
    TrimEnd(TrimStart(s))
  }

  /** What TrimStart drops is whitespace. */
  lemma {:induction false} TrimStartDropsSpace(s: string)
    ensures AllSpace(s[..|s| - |TrimStart(s)|])
  {
    if s != [] && IsSpace(s[0]) {
      TrimStartDropsSpace(s[1..]);
      var n := |s| - |TrimStart(s)|;
      forall k | 0 <= k < n
        ensures IsSpace(s[..n][k])
      {
        if k > 0 {
          assert s[..n][k] == s[1..][..n - 1][k - 1];
        }
      }
    }
  }

  /** What TrimEnd drops is whitespace. */
  lemma {:induction false} TrimEndDropsSpace(s: string)
    ensures AllSpace(s[|TrimEnd(s)|..])
  {
    if s != [] && IsSpace(s[|s| - 1]) {
      var s' := s[..|s| - 1];
      TrimEndDropsSpace(s');
      var m := |TrimEnd(s)|;
      forall k | 0 <= k < |s| - m
        ensures IsSpace(s[m..][k])
      {
        if m + k < |s| - 1 {
          assert s[m..][k] == s'[m..][k];
        }
      }
    }
  }

  /** Strip gives "" exactly for the whitespace-only strings. */
  lemma StripEmptyIff(s: string)
    ensures Strip(s) == [] <==> AllSpace(s)
  {
    var t := TrimStart(s);
    var n := |s| - |t|;
    TrimStartDropsSpace(s);
    TrimEndDropsSpace(t);
    TrimStartShape(s);
    TrimEndShape(t);
    if Strip(s) == [] {
      assert t[0..] == t;
      forall k | 0 <= k < |s|
        ensures IsSpace(s[k])
      {
        assert s[k] == s[..n][k];
      }
    }
  }

  /** A prefix `r` of the suffix of `s` from `i` splits `s` in three. */
  lemma SplitAround(s: string, i: nat, r: string)
    requires i <= |s| && |r| <= |s| - i && r == s[i..][..|r|]
    ensures s == s[..i] + r + s[i + |r|..]
  {
    assert s[i..] == s[i..][..|r|] + s[i..][|r|..];
    assert s[i..][|r|..] == s[i + |r|..];
    assert s == s[..i] + s[i..];
  }

  /** A whitespace tail of a suffix is a whitespace tail of the whole. */
  lemma SpaceTail(s: string, i: nat, m: nat)
    requires i <= |s| && m <= |s| - i && AllSpace(s[i..][m..])
    ensures AllSpace(s[i + m..])
  {
    assert s[i..][m..] == s[i + m..];
  }

  /**
   * What Strip returns: the input is a whitespace prefix, then the result,
   * then a whitespace suffix; with `IsTrimmed` of the result this fixes it.
   */
  lemma StripSplit(s: string)
    ensures var i := |s| - |TrimStart(s)|;
      && i + |Strip(s)| <= |s|
      && s == s[..i] + Strip(s) + s[i + |Strip(s)|..]
      && AllSpace(s[..i])
      && AllSpace(s[i + |Strip(s)|..])
  {
    var t := TrimStart(s);
    var i := |s| - |t|;
    var r := Strip(s);
    TrimStartShape(s);
    TrimEndShape(t);
    TrimStartDropsSpace(s);
    TrimEndDropsSpace(t);
    SplitAround(s, i, r);
    SpaceTail(s, i, |r|);
  }

  /** A string that is already trimmed is its own strip. */
  lemma StripTrimmed(s: string)
    requires IsTrimmed(s)
    ensures Strip(s) == s
  {
    assert TrimStart(s) == s;
  }

  lemma {:induction false} TrimStartPadding(pre: string, s: string)
    requires AllSpace(pre)
    requires s == [] || !IsSpace(s[0])
    ensures TrimStart(pre + s) == s
  {
    if pre != [] {
      assert (pre + s)[1..] == pre[1..] + s;
      TrimStartPadding(pre[1..], s);
    }
  }

  lemma {:induction false} TrimEndPadding(s: string, post: string)
    requires AllSpace(post)
    requires s == [] || !IsSpace(s[|s| - 1])
    ensures TrimEnd(s + post) == s
  {
    if post != [] {
      assert (s + post)[..|s + post| - 1] == s + post[..|post| - 1];
      TrimEndPadding(s, post[..|post| - 1]);
    } else {
      assert s + post == s;
    }
  }

  /** Strip removes exactly the whitespace padding around a trimmed core. */
  lemma StripPadding(pre: string, s: string, post: string)
    requires AllSpace(pre) && AllSpace(post) && IsTrimmed(s) && s != []
    ensures Strip(pre + s + post) == s
  {
    assert pre + s + post == pre + (s + post);
    TrimStartPadding(pre, s + post);
    TrimEndPadding(s, post);
  }

  // Decimal digits

  predicate IsDigit(c: char) {
    '0' <= c <= '9'
  }

  function DigitValue(c: char): nat
    requires IsDigit(c)
  {
    c as int - '0' as int
  }

  function DigitChar(d: nat): (c: char)
    requires d < 10
    ensures IsDigit(c) && DigitValue(c) == d
  {
    ('0' as int + d) as char
  }

  predicate AllDigits(s: string) {
    forall k | 0 <= k < |s| :: IsDigit(s[k])
  }

  /** The value of a run of decimal digits, most significant first. */
  function DigitsValue(s: string): nat
    requires AllDigits(s)
  {
    if s == [] then 0 else 10 * DigitsValue(s[..|s| - 1]) + DigitValue(s[|s| - 1])
  }

  /** The shortest decimal rendering of `n`, as Python's `str(n)` and f-strings give it. */
  function NatToDecimal(n: nat): (r: string)
    ensures r != [] && AllDigits(r)
    ensures |r| > 1 ==> r[0] != '0'
  {
    if n < 10 then [DigitChar(n)] else NatToDecimal(n / 10) + [DigitChar(n % 10)]
  }

  /**
   * The digit part accepted by `int`: digits, where a single `_` may stand
   * between two of them (so not first, not last, never doubled).
   */
  predicate IsDigitPart(s: string)
    decreases |s|
  {
    && s != [] && IsDigit(s[0])
    && (|s| == 1 || if s[1] == '_' then IsDigitPart(s[2..]) else IsDigitPart(s[1..]))
  }

  /** Every character of a digit part is a digit, or a `_` with a digit each side. */
  lemma {:induction false} DigitPartShape(s: string, k: nat)
    requires IsDigitPart(s) && k < |s|
    ensures IsDigit(s[k]) || (s[k] == '_' && 0 < k && k + 1 < |s| && IsDigit(s[k - 1]) && IsDigit(s[k + 1]))
    decreases |s|
  {
    if k > 0 {
      if s[1] == '_' {
        if k >= 2 {
          DigitPartShape(s[2..], k - 2);
          if s[k] == '_' && k > 2 {
            assert s[k - 1] == s[2..][k - 3];
          }
        }
      } else {
        DigitPartShape(s[1..], k - 1);
      }
    }
  }

  /** The digits of `s` with the separators dropped. */
  function DropSeparators(s: string): (r: string)
    ensures AllDigits(s) ==> r == s
  {
    if s == [] then []
    else (if s[0] == '_' then [] else [s[0]]) + DropSeparators(s[1..])
  }

  /** Dropping the separators of a digit part leaves only digits. */
  lemma {:induction false} DigitPartDigits(s: string)
    requires IsDigitPart(s)
    ensures AllDigits(DropSeparators(s))
    decreases |s|
  {
    if |s| > 1 {
      if s[1] == '_' {
        DigitPartDigits(s[2..]);
        assert s[1..][1..] == s[2..];
      } else {
        DigitPartDigits(s[1..]);
      }
    }
  }

  /** The value of an accepted digit part. */
  function DigitPartValue(s: string): nat
    requires IsDigitPart(s)
  {
    DigitPartDigits(s);
    DigitsValue(DropSeparators(s))
  }

  /**
   * The default bound on the number of digits `int` converts from text; with
   * more, it refuses with `ValueError`. Separators are not counted.
   */
  const MaxStrDigits: nat := 4300

  /** A digit part `int` converts: well formed and within the digit bound. */
  predicate Convertible(d: string) {
    IsDigitPart(d) && |DropSeparators(d)| <= MaxStrDigits
  }

  /**
   * The integer read from `s` by `int(s)` on an already stripped string:
   * an optional sign followed by a convertible digit part.
   */
  function ParseInt(s: string): (r: Option<int>)
    ensures r.Some? ==> s != []
  {
    if s == [] then None
    else if s[0] == '-' || s[0] == '+' then
      var digits := s[1..];
      if Convertible(digits) then
        Some(if s[0] == '-' then -(DigitPartValue(digits) as int) else DigitPartValue(digits))
      else None
    else if Convertible(s) then Some(DigitPartValue(s))
    else None
  }

  /** Reading back the rendering of a natural gives that natural. */
  lemma {:induction false} DecimalRoundTrip(n: nat)
    ensures DigitsValue(NatToDecimal(n)) == n
  {
    if n >= 10 {
      var r := NatToDecimal(n);
      assert r[..|r| - 1] == NatToDecimal(n / 10);
      DecimalRoundTrip(n / 10);
    }
  }

  /** A plain run of digits is an accepted digit part with its usual value. */
  lemma {:induction false} PlainDigitPart(d: string)
    requires d != [] && AllDigits(d)
    ensures IsDigitPart(d) && DigitPartValue(d) == DigitsValue(d)
    decreases |d|
  {
    if |d| > 1 {
      assert d[1..][0] == d[1];
      PlainDigitPart(d[1..]);
    }
  }

  /** A convertible digit part parses to its value. */
  lemma ParseDigitPart(d: string)
    requires Convertible(d)
    ensures ParseInt(d) == Some(DigitPartValue(d))
  {
    assert d[0] != '-' && d[0] != '+';
  }

  /** A signed convertible digit part parses to its value, negated after "-". */
  lemma ParseSignedDigitPart(sign: char, d: string)
    requires sign == '-' || sign == '+'
    requires Convertible(d)
    ensures ParseInt([sign] + d) == Some(if sign == '-' then -(DigitPartValue(d) as int) else DigitPartValue(d))
  {
    var s := [sign] + d;
    assert s[0] == sign;
    assert s[1..] == d;
  }

  /**
   * `int(str(n))` is `n`, and so is `int("-" + str(n))` negated, as long as
   * `str(n)` has at most 4300 digits.
   */
  lemma ParseIntRoundTrip(n: nat)
    requires |NatToDecimal(n)| <= MaxStrDigits
    ensures ParseInt(NatToDecimal(n)) == Some(n)
    ensures ParseInt("-" + NatToDecimal(n)) == Some(-(n as int))
    ensures ParseInt("+" + NatToDecimal(n)) == Some(n)
  {
    var d := NatToDecimal(n);
    DecimalRoundTrip(n);
    PlainDigitPart(d);
    ParseDigitPart(d);
    ParseSignedDigitPart('-', d);
    ParseSignedDigitPart('+', d);
  }

  /** A run of more than 4300 digits, signed or not, is refused. */
  lemma ParseIntRejectsLongDigits(d: string)
    requires AllDigits(d) && |d| > MaxStrDigits
    ensures ParseInt(d) == None
    ensures ParseInt("-" + d) == None
    ensures ParseInt("+" + d) == None
  {
    assert d[0] != '-' && d[0] != '+';
    assert ("-" + d)[0] == '-' && ("-" + d)[1..] == d;
    assert ("+" + d)[0] == '+' && ("+" + d)[1..] == d;
  }

  /** A character other than a digit or `_`, except a leading sign, makes the parse fail. */
  lemma ParseIntRejectsNonDigit(s: string, k: nat)
    requires k < |s| && !IsDigit(s[k]) && s[k] != '_' && (k > 0 || (s[0] != '-' && s[0] != '+'))
    ensures ParseInt(s) == None
  {
    if s[0] == '-' || s[0] == '+' {
      if Convertible(s[1..]) {
        DigitPartShape(s[1..], k - 1);
      }
    } else if Convertible(s) {
      DigitPartShape(s, k);
    }
  }

  /** A separator may not lead, trail or be doubled. */
  lemma ParseIntRejectsBadSeparator(s: string, k: nat)
    requires k < |s| && s[k] == '_'
    requires k + 1 == |s| || s[k + 1] == '_' || k == 0 || (k == 1 && (s[0] == '-' || s[0] == '+'))
    ensures ParseInt(s) == None
  {
    if s[0] == '-' || s[0] == '+' {
      if Convertible(s[1..]) {
        DigitPartShape(s[1..], k - 1);
      }
    } else if Convertible(s) {
      DigitPartShape(s, k);
    }
  }

  /** A well-placed separator is ignored: `int("1_0")` is 10. */
  lemma ParseIntSeparatorExample()
    ensures ParseInt("1_0") == Some(10)
  {
    assert IsDigitPart("1_0");
    assert DropSeparators("1_0") == "10";
    assert DigitsValue("10") == 10 by {
      assert "10"[..1] == "1";
    }
  }
}
