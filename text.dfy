/** String helpers the grade engine relies on: substring search, first-occurrence
    replacement, lower-casing, whitespace normalisation, and the decimal-prefix
    readers that stand for JavaScript's `parseFloat` and `parseInt`. */
module Text {
  import opened Wrappers

  // ---------------------------------------------------------------------------
  // Substrings

  /** `s.includes(t)`: t occurs somewhere in s. */
  function Contains(s: string, t: string): bool
    decreases |s|
  {
    t <= s || (s != [] && Contains(s[1..], t))
  }

  /** t occurs in s starting at position i. */
  predicate OccursAt(s: string, t: string, i: nat)
  {
    i + |t| <= |s| && s[i..i + |t|] == t
  }

  lemma {:induction false} ContainsIff(s: string, t: string)
    ensures Contains(s, t) <==> exists i: nat :: OccursAt(s, t, i)
    decreases |s|
  {
    if t <= s {
      assert OccursAt(s, t, 0);
    } else if s == [] {
      forall i: nat ensures !OccursAt(s, t, i) { }
    } else {
      ContainsIff(s[1..], t);
      if Contains(s[1..], t) {
        var i: nat :| OccursAt(s[1..], t, i);
        SliceOfTail(s, i + 1, |t|);
        assert OccursAt(s, t, i + 1);
      } else {
        forall i: nat
          ensures !OccursAt(s, t, i)
        {
          if i == 0 {

          } else if i + |t| <= |s| {
            SliceOfTail(s, i, |t|);
            assert !OccursAt(s[1..], t, i - 1);
          }
        }
      }
    }
  }

  /** A slice of s from i >= 1 is the same slice of s's tail, shifted by one. */
  lemma SliceOfTail<T>(s: seq<T>, i: nat, n: nat)
    requires 1 <= i && i + n <= |s|
    ensures s[i..i + n] == s[1..][i - 1..i - 1 + n]
  {
  }

  /** An occurrence at a known position is found. */
  lemma ContainsAt(s: string, t: string, i: nat)
    requires OccursAt(s, t, i)
    ensures Contains(s, t)
  {
    ContainsIff(s, t);
  }

  /** A pattern with a character absent from `s` does not occur in it. */
  lemma NotContainsChar(s: string, t: string, j: nat)
    requires j < |t| && t[j] !in s
    ensures !Contains(s, t)
  {
    ContainsIff(s, t);
    if Contains(s, t) {
    }
  }

  /** Every string contains itself (so `a.includes(b) || b.includes(a)` holds of equal names). */
  lemma ContainsSelf(s: string)
    ensures Contains(s, s)
  {
    assert OccursAt(s, s, 0);
    ContainsAt(s, s, 0);
  }

  /** A pattern longer than the text never occurs in it. */
  lemma ContainsShorter(s: string, t: string)
    requires Contains(s, t)
    ensures |t| <= |s|
  {
    ContainsIff(s, t);
    var i: nat :| OccursAt(s, t, i);
  }

  // ---------------------------------------------------------------------------
  // Replacing the first occurrence of a character (`s.replace(",", ".")`)

  /** Position of the first occurrence of c in s (`s.indexOf(c)`). */
  function FirstIndex(s: string, c: char): (i: nat)
    requires c in s
    ensures i < |s| && s[i] == c && c !in s[..i]
  {
    if s[0] == c then 0
    else
      var k := FirstIndex(s[1..], c);
      assert s[..k + 1] == [s[0]] + s[1..][..k];
      k + 1
  }

  function ReplaceFirst(s: string, from: char, to: char): (r: string)
    ensures |r| == |s|
    ensures from !in s ==> r == s
    ensures from in s ==> r == s[FirstIndex(s, from) := to]
  {
    if s == [] then []
    else if s[0] == from then [to] + s[1..]
    else
      var rest := ReplaceFirst(s[1..], from, to);
      assert from in s ==> [s[0]] + rest == s[FirstIndex(s, from) := to] by {
        if from in s {
          assert from in s[1..];
          assert FirstIndex(s, from) == FirstIndex(s[1..], from) + 1;
        }
      }
      assert from !in s ==> [s[0]] + rest == s by {
        if from !in s {
          assert from !in s[1..];
        }
      }
      [s[0]] + rest
  }

  // ---------------------------------------------------------------------------
  // Lower-casing

  /** `toLowerCase` on one character, for ASCII and the Latin-1 letters (À..Þ except ×). */
  function LowerChar(c: char): char
  {
    if 'A' <= c <= 'Z' || ('\U{00C0}' <= c <= '\U{00DE}' && c != '\U{00D7}')
    then (c as int + 32) as char
    else c
  }

  function Lower(s: string): (r: string)
    ensures |r| == |s|
    ensures forall i | 0 <= i < |s| :: r[i] == LowerChar(s[i])
  {
    seq(|s|, i requires 0 <= i < |s| => LowerChar(s[i]))
  }

  /** Lower-casing twice is lower-casing once. */
  lemma LowerIdempotent(s: string)
    ensures Lower(Lower(s)) == Lower(s)
  {
  }

  // ---------------------------------------------------------------------------
  // Whitespace (`/\s+/g` and `trim`)

  /** The white-space characters `\s` and `trim` recognise that this model covers. */
  predicate IsSpace(c: char)
  {
    c == ' ' || c == '\t' || c == '\n' || c == '\r' || c == '\U{000B}' || c == '\U{000C}' || c == '\U{00A0}'
  }

  /** Drops leading white space (`trimStart`). */
  function TrimStart(s: string): (r: string)
    ensures |r| <= |s| && r == s[|s| - |r|..]
    ensures r == [] || !IsSpace(r[0])
    decreases |s|
  {
    if s != [] && IsSpace(s[0]) then TrimStart(s[1..]) else s
  }

  /** Drops trailing white space (`trimEnd`). */
  function TrimEnd(s: string): (r: string)
    ensures |r| <= |s| && r == s[..|r|]
    ensures r == [] || !IsSpace(r[|r| - 1])
    decreases |s|
  {
    if s != [] && IsSpace(s[|s| - 1]) then TrimEnd(s[..|s| - 1]) else s
  }

  /** `trim`: drops white space at both ends. */
  function Trim(s: string): (r: string)
    ensures r == [] || (!IsSpace(r[0]) && !IsSpace(r[|r| - 1]))
  {
    TrimEnd(TrimStart(s))
  }

  /** Text made only of white space. */
  predicate AllSpace(s: string)
  {
    forall i | 0 <= i < |s| :: IsSpace(s[i])
  }

  /** `trim`'s result is a slice of the text with only white space before
      and after it. */
  lemma TrimSlice(s: string)
    ensures exists a, b | 0 <= a <= b <= |s| ::
      Trim(s) == s[a..b] && AllSpace(s[..a]) && AllSpace(s[b..])
  {
    var t := TrimStart(s);
    var a, r := |s| - |t|, TrimEnd(t);
    TrimStartDrops(s);
    TrimEndDrops(t);
    assert t == s[a..] && r == t[..|r|];
    assert t[|r|..] == s[a + |r|..];
    assert r == s[a..a + |r|];
  }

  /** `trimStart` drops only white space. */
  lemma {:induction false} TrimStartDrops(s: string)
    ensures AllSpace(s[..|s| - |TrimStart(s)|])
    decreases |s|
  {
    if s != [] && IsSpace(s[0]) {
      TrimStartDrops(s[1..]);
      var n := |s| - |TrimStart(s)|;
      assert s[..n] == [s[0]] + s[1..][..n - 1];
    }
  }

  /** `trimEnd` drops only white space. */
  lemma {:induction false} TrimEndDrops(s: string)
    ensures AllSpace(s[|TrimEnd(s)|..])
    decreases |s|
  {
    if s != [] && IsSpace(s[|s| - 1]) {
      var init := s[..|s| - 1];
      TrimEndDrops(init);
      var n := |TrimEnd(s)|;
      assert s[n..] == init[n..] + [s[|s| - 1]];
    }
  }

  /** Text without white space at its ends is its own trim. */
  lemma TrimFixesTrimmed(s: string)
    requires s == [] || (!IsSpace(s[0]) && !IsSpace(s[|s| - 1]))
    ensures Trim(s) == s
  {
  }

  /** `s.replace(/\s+/g, ' ')`: every maximal run of white space becomes one space. */
  function Collapse(s: string): string
    decreases |s|
  {
    if s == [] then []
    else if IsSpace(s[0]) then [' '] + Collapse(TrimStart(s))
    else [s[0]] + Collapse(s[1..])
  }

  /** `s.replace(/\s+/g, ' ').trim()`. */
  function Normalize(s: string): string
  {
    TrimEnd(TrimStart(Collapse(s)))
  }

  /** No white space other than single spaces between non-blank characters. */
  predicate Collapsed(s: string)
  {
    && (forall i | 0 <= i < |s| :: IsSpace(s[i]) ==> s[i] == ' ')
    && (forall i | 0 <= i < |s| - 1 :: IsSpace(s[i]) ==> !IsSpace(s[i + 1]))
  }

  predicate Normalized(s: string)
  {
    Collapsed(s) && (s == [] || (!IsSpace(s[0]) && !IsSpace(s[|s| - 1])))
  }

  lemma {:induction false} CollapseStartsWith(s: string)
    requires s != [] && !IsSpace(s[0])
    ensures Collapse(s) != [] && Collapse(s)[0] == s[0]
  {
  }

  lemma {:induction false} CollapseCollapsed(s: string)
    ensures Collapsed(Collapse(s))
    decreases |s|
  {
    if s == [] {
    } else if IsSpace(s[0]) {
      var t := TrimStart(s);
      CollapseCollapsed(t);
      if t != [] {
        CollapseStartsWith(t);
      }
    } else {
      CollapseCollapsed(s[1..]);
    }
  }

  lemma {:induction false} CollapseOfCollapsed(s: string)
    requires Collapsed(s)
    ensures Collapse(s) == s
    decreases |s|
  {
    if s == [] {
    } else {
      assert Collapsed(s[1..]);
      if IsSpace(s[0]) {
        assert s[1..] == [] || !IsSpace(s[1]);
        assert TrimStart(s[1..]) == s[1..];
        assert TrimStart(s) == s[1..];
        CollapseOfCollapsed(s[1..]);
      } else {
        CollapseOfCollapsed(s[1..]);
      }
    }
  }

  lemma SuffixCollapsed(s: string, k: nat)
    requires Collapsed(s) && k <= |s|
    ensures Collapsed(s[k..])
  {
    assert forall i | 0 <= i < |s| - k :: s[k..][i] == s[k + i];
  }

  lemma PrefixCollapsed(s: string, k: nat)
    requires Collapsed(s) && k <= |s|
    ensures Collapsed(s[..k])
  {
    assert forall i | 0 <= i < k :: s[..k][i] == s[i];
  }

  /** Trimming collapsed text leaves it normalised. */
  lemma TrimmedCollapsed(c: string)
    requires Collapsed(c)
    ensures Normalized(TrimEnd(TrimStart(c)))
  {
    var a := TrimStart(c);
    SuffixCollapsed(c, |c| - |a|);
    var b := TrimEnd(a);
    PrefixCollapsed(a, |b|);
    if b != [] {
      assert b[0] == a[0];
    }
  }

  /** A normalised name is blank-free at both ends with single inner spaces. */
  lemma NormalizeNormalized(s: string)
    ensures Normalized(Normalize(s))
  {
    CollapseCollapsed(s);
    TrimmedCollapsed(Collapse(s));
  }

  /** Normalising an already normalised name changes nothing. */
  lemma NormalizeFixesNormalized(s: string)
    requires Normalized(s)
    ensures Normalize(s) == s
  {
    CollapseOfCollapsed(s);
  }

  /** Credit lookup normalises once; normalising again cannot change the outcome. */
  lemma NormalizeIdempotent(s: string)
    ensures Normalize(Normalize(s)) == Normalize(s)
  {
    NormalizeNormalized(s);
    NormalizeFixesNormalized(Normalize(s));
  }

  // ---------------------------------------------------------------------------
  // Decimal digits

  predicate IsDigit(c: char)
  {
    '0' <= c <= '9'
  }

  predicate AllDigits(s: string)
  {
    forall i | 0 <= i < |s| :: IsDigit(s[i])
  }

  /** The value of a run of decimal digits, most significant first. */
  function DigitsValue(s: string): nat
    requires AllDigits(s)
    decreases |s|
  {
    if s == [] then 0 else 10 * DigitsValue(s[..|s| - 1]) + (s[|s| - 1] as int - '0' as int)
  }

  function Pow10(k: nat): (p: nat)
    ensures p >= 1
  {
    if k == 0 then 1 else 10 * Pow10(k - 1)
  }

  /** Length of the longest prefix of s made of digits. */
  function DigitRun(s: string): (n: nat)
    ensures n <= |s| && AllDigits(s[..n])
    ensures n < |s| ==> !IsDigit(s[n])
    decreases |s|
  {
    if s != [] && IsDigit(s[0]) then
      var m := DigitRun(s[1..]);
      assert s[..m + 1] == [s[0]] + s[1..][..m];
      m + 1
    else 0
  }

  lemma {:induction false} DigitRunOf(p: string, rest: string)
    requires AllDigits(p)
    requires rest == [] || !IsDigit(rest[0])
    ensures DigitRun(p + rest) == |p|
    decreases |p|
  {
    if p != [] {
      assert (p + rest)[1..] == p[1..] + rest;
      DigitRunOf(p[1..], rest);
    }
  }

  /** The decimal text of a natural number, as `String(n)` writes it. */
  function NatText(n: nat): (s: string)
    ensures s != [] && AllDigits(s) && DigitsValue(s) == n
  {
    if n < 10 then [('0' as int + n) as char]
    else
      var s := NatText(n / 10) + [('0' as int + n % 10) as char];
      assert s[..|s| - 1] == NatText(n / 10);
      s
  }

  // ---------------------------------------------------------------------------
  // parseFloat and parseInt, decimal notation only

  /** 1 when s opens with a sign character, else 0. */
  function SignLength(s: string): (k: nat)
    ensures k <= |s|
  {
    if |s| > 0 && (s[0] == '+' || s[0] == '-') then 1 else 0
  }

  /** The digits after the decimal point that follow the integer digits `body[..n]`. */
  function FractionDigits(body: string, n: nat): (f: string)
    requires n <= |body|
    ensures AllDigits(f)
  {
    if n < |body| && body[n] == '.' then body[n + 1..][..DigitRun(body[n + 1..])] else ""
  }

  /** The number written with integer digits `intDigits` and fraction digits `fracDigits`. */
  function DecimalValue(intDigits: string, fracDigits: string): real
    requires AllDigits(intDigits) && AllDigits(fracDigits)
  {
    DigitsValue(intDigits) as real + DigitsValue(fracDigits) as real / Pow10(|fracDigits|) as real
  }

  /** The number an unsigned decimal prefix of `body` denotes: integer
      digits, then optionally a point and fraction digits; None when neither
      part has a digit. */
  function UnsignedValue(body: string): (r: Option<real>)
    ensures r.Some? ==> body != [] && (IsDigit(body[0]) || (|body| > 1 && IsDigit(body[1])))
  {
    var n := DigitRun(body);
    var fracDigits := FractionDigits(body, n);
    if n == 0 && fracDigits == "" then None
    else Some(DecimalValue(body[..n], fracDigits))
  }

  /** `parseFloat(s)` without leading blanks, exponents or `Infinity`:
      an optional sign, digits, an optional point and digits, and at least
      one digit; whatever follows the longest such prefix is ignored. */
  function ParseFloat(s: string): (r: Option<real>)
    ensures r.Some? ==> exists i | 0 <= i < |s| :: IsDigit(s[i])
  {
    var k := SignLength(s);
    match UnsignedValue(s[k..])
    case None => None
    case Some(m) =>
      assert IsDigit(s[k]) || IsDigit(s[k + 1]);
      Some(if k == 1 && s[0] == '-' then -m else m)
  }

  /** `parseInt(s, 10)` without leading blanks: an optional sign and the
      longest run of digits after it; none means NaN. */
  function ParseInt(s: string): (r: Option<int>)
    ensures r.Some? ==> exists i | 0 <= i < |s| :: IsDigit(s[i])
  {
    var k := SignLength(s);
    var n := DigitRun(s[k..]);
    if n == 0 then None
    else
      assert IsDigit(s[k]);
      var v := DigitsValue(s[k..][..n]);
      Some(if k == 1 && s[0] == '-' then -(v as int) else v)
  }

  /** Text that opens with a digit has no sign to read. */
  lemma ParseFloatUnsigned(s: string)
    requires s != [] && IsDigit(s[0])
    ensures ParseFloat(s) == UnsignedValue(s)
  {
    assert SignLength(s) == 0;
    assert s[0..] == s;
  }

  lemma FractionAfterPoint(p: string, q: string, rest: string)
    requires AllDigits(q)
    requires rest == [] || !IsDigit(rest[0])
    ensures FractionDigits(p + ("." + q + rest), |p|) == q
  {
    var tail := "." + q + rest;
    var s := p + tail;
    assert s[|p|..] == tail;
    assert tail[1..] == q + rest;
    assert s[|p| + 1..] == tail[1..];
    DigitRunOf(q, rest);
    assert (q + rest)[..|q|] == q;
  }

  lemma UnsignedDecimal(p: string, q: string, rest: string)
    requires p != [] && AllDigits(p) && AllDigits(q)
    requires rest == [] || !IsDigit(rest[0])
    ensures UnsignedValue(p + ("." + q + rest)) == Some(DecimalValue(p, q))
  {
    var s := p + ("." + q + rest);
    DigitRunOf(p, "." + q + rest);
    assert s[..|p|] == p;
    FractionAfterPoint(p, q, rest);
    var n := DigitRun(s);
    var f := FractionDigits(s, n);
    assert n == |p| && f == q;
  }

  /** Digits, a point, digits: the value is the integer part plus the
      fraction, and anything after a non-digit is ignored. */
  lemma ParseFloatDecimal(p: string, q: string, rest: string)
    requires p != [] && AllDigits(p) && AllDigits(q)
    requires rest == [] || !IsDigit(rest[0])
    ensures ParseFloat(p + "." + q + rest) == Some(DecimalValue(p, q))
  {
    assert p + "." + q + rest == p + ("." + q + rest);
    ParseFloatUnsigned(p + ("." + q + rest));
    UnsignedDecimal(p, q, rest);
  }

  /** A run of digits not followed by a point or a digit reads as that integer. */
  lemma ParseFloatInteger(p: string, rest: string)
    requires p != [] && AllDigits(p)
    requires rest == [] || (!IsDigit(rest[0]) && rest[0] != '.')
    ensures ParseFloat(p + rest) == Some(DecimalValue(p, ""))
    ensures DecimalValue(p, "") == DigitsValue(p) as real
  {
    var s := p + rest;
    ParseFloatUnsigned(s);
    DigitRunOf(p, rest);
    assert s[..|p|] == p;
    assert FractionDigits(s, |p|) == "";
  }

  /** `parseInt(String(n))` gives back n. */
  lemma ParseIntNatText(n: nat)
    ensures ParseInt(NatText(n)) == Some(n)
  {
    var s := NatText(n);
    assert SignLength(s) == 0;
    assert s[0..] == s;
    DigitRunOf(s, "");
    assert s + "" == s;
    assert s[..|s|] == s;
  }
}
