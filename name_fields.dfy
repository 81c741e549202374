/**
 * The pieces the output-name patterns are made of, over ASCII: the character
 * classes `\w` and `\d`, hyphen-separated fields, decimal numerals as read by
 * Python's `int`, and the last occurrence of a character.
 */
module NameFields {
  import opened Wrappers

  /** `\w`: an ASCII letter, digit or underscore. */
  predicate IsWordChar(c: char) {
    'a' <= c <= 'z' || 'A' <= c <= 'Z' || '0' <= c <= '9' || c == '_'
  }

  /** `\d`: an ASCII decimal digit. */
  predicate IsDigitChar(c: char) {
    '0' <= c <= '9'
  }

  /** `\w+`. */
  predicate IsWord(s: string) {
    |s| > 0 && forall k :: 0 <= k < |s| ==> IsWordChar(s[k])
  }

  /** `\d+`. */
  predicate IsDigits(s: string) {
    |s| > 0 && forall k :: 0 <= k < |s| ==> IsDigitChar(s[k])
  }

  /** The fields of `s` between hyphens, as `s.split("-")` gives them. */
  function Split(s: string): (fields: seq<string>)
    ensures |fields| > 0
    ensures forall k :: 0 <= k < |fields| ==> '-' !in fields[k]
  {
    if s == [] then [[]]
    else
      var rest := Split(s[1..]);
      if s[0] == '-' then [[]] + rest
      else [[s[0]] + rest[0]] + rest[1..]
  }

  /** The fields joined with hyphens, as `"-".join(fields)`. */
  function Join(fields: seq<string>): string
    requires |fields| > 0
  {
    if |fields| == 1 then fields[0] else fields[0] + "-" + Join(fields[1..])
  }

  /** Splitting loses nothing: joining the fields gives the string back. */
  lemma {:induction false} JoinSplit(s: string)
    ensures Join(Split(s)) == s
  {
    if s != [] {
      JoinSplit(s[1..]);
      var rest := Split(s[1..]);
      if s[0] == '-' {
        assert s == "-" + s[1..];
      } else if |rest| > 1 {
        assert Join(rest) == rest[0] + "-" + Join(rest[1..]);
        assert s == [s[0]] + s[1..];
      } else {
        assert s == [s[0]] + s[1..];
      }
    }
  }

  /** Helper: a field without a hyphen followed by a hyphen is split off whole. */
  lemma {:induction false} SplitField(w: string, rest: string)
    requires '-' !in w
    ensures Split(w + "-" + rest) == [w] + Split(rest)
  {
    if w == [] {
      assert w + "-" + rest == "-" + rest;
    } else {
      SplitField(w[1..], rest);
      var s := w + "-" + rest;
      assert s[0] == w[0] && s[1..] == w[1..] + "-" + rest;
      assert [w[0]] + w[1..] == w;
      assert Split(s) == [[w[0]] + w[1..]] + Split(rest);
    }
  }

  /** Helper: a string without a hyphen is one field. */
  lemma {:induction false} SplitWhole(w: string)
    requires '-' !in w
    ensures Split(w) == [w]
  {
    if w != [] {
      SplitWhole(w[1..]);
      assert w == [w[0]] + w[1..];
    }
  }

  /** Fields without hyphens come back unchanged from joining and splitting. */
  lemma {:induction false} SplitJoin(fields: seq<string>)
    requires |fields| > 0
    requires forall k :: 0 <= k < |fields| ==> '-' !in fields[k]
    ensures Split(Join(fields)) == fields
  {
    if |fields| == 1 {
      SplitWhole(fields[0]);
    } else {
      SplitJoin(fields[1..]);
      SplitField(fields[0], Join(fields[1..]));
      assert fields == [fields[0]] + fields[1..];
    }
  }

  /** Helper: `Join` of three fields, unfolded. */
  lemma JoinThree(a: string, b: string, c: string)
    ensures Join([a, b, c]) == a + "-" + b + "-" + c
  {
    assert [a, b, c][1..] == [b, c];
    assert [b, c][1..] == [c];
    assert Join([b, c]) == b + "-" + c;
    assert a + "-" + (b + "-" + c) == a + "-" + b + "-" + c;
  }

  /** Helper: `Join` of four fields, unfolded. */
  lemma JoinFour(a: string, b: string, c: string, d: string)
    ensures Join([a, b, c, d]) == a + "-" + b + "-" + c + "-" + d
  {
    assert [a, b, c, d][1..] == [b, c, d];
    JoinThree(b, c, d);
    assert a + "-" + (b + "-" + c + "-" + d) == a + "-" + b + "-" + c + "-" + d;
  }

  /** The value of one decimal digit. */
  function DigitValue(c: char): (d: nat)
    requires IsDigitChar(c)
  {
    c as int - '0' as int
  }

  /** The digit character for a value below ten. */
  function DigitChar(d: nat): (c: char)
    requires d < 10
  {
    (d + '0' as int) as char
  }

  /** `int(ds)` for a string of decimal digits (leading zeros allowed). */
  function DecimalValue(ds: string): (v: nat)
    requires forall k :: 0 <= k < |ds| ==> IsDigitChar(ds[k])
    ensures |ds| > 0 && ds[0] == '0' ==> v == DecimalValue(ds[1..])
  {
    if ds == [] then 0
    else
      assert |ds| > 1 ==> ds[..|ds| - 1][1..] == ds[1..][..|ds[1..]| - 1];
      DecimalValue(ds[..|ds| - 1]) * 10 + DigitValue(ds[|ds| - 1])
  }

  /** `str(n)`: the decimal numeral of `n`, without leading zeros. */
  function DecimalString(n: nat): (ds: string)
    ensures IsDigits(ds)
    ensures |ds| > 1 ==> ds[0] != '0'
  {
    if n < 10 then [DigitChar(n)] else DecimalString(n / 10) + [DigitChar(n % 10)]
  }

  /** `int(str(n)) == n`. */
  lemma {:induction false} DecimalRoundTrip(n: nat)
    ensures DecimalValue(DecimalString(n)) == n
  {
    if n >= 10 {
      DecimalRoundTrip(n / 10);
      var ds := DecimalString(n);
      assert ds[..|ds| - 1] == DecimalString(n / 10);
    }
  }

  /** A numeral as `str` writes it: digits, no leading zero unless it is "0". */
  predicate IsCanonicalDecimal(ds: string) {
    IsDigits(ds) && (|ds| > 1 ==> ds[0] != '0')
  }

  /** Helper: a numeral that does not start with a zero has a positive value. */
  lemma {:induction false} LeadingNonZeroIsPositive(ds: string)
    requires IsDigits(ds) && ds[0] != '0'
    ensures DecimalValue(ds) > 0
  {
    if |ds| > 1 {
      LeadingNonZeroIsPositive(ds[..|ds| - 1]);
    }
  }

  /** `str(int(ds)) == ds` exactly for canonical numerals. */
  lemma {:induction false} CanonicalDecimalRoundTrip(ds: string)
    requires IsCanonicalDecimal(ds)
    ensures DecimalString(DecimalValue(ds)) == ds
  {
    var init, last := ds[..|ds| - 1], ds[|ds| - 1];
    if |ds| > 1 {
      assert init[0] == ds[0];
      LeadingNonZeroIsPositive(init);
      CanonicalDecimalRoundTrip(init);
      var n := DecimalValue(ds);
      assert n / 10 == DecimalValue(init) && n % 10 == DigitValue(last);
      assert ds == init + [last];
    }
  }

  /** The position of the last `c` in `s`, if there is one. */
  function LastIndexOf(s: string, c: char): (r: Option<nat>)
    ensures r.Some? ==> r.value < |s| && s[r.value] == c && c !in s[r.value + 1..]
    ensures r.None? ==> c !in s
  {
    if s == [] then None
    else if s[|s| - 1] == c then Some(|s| - 1)
    else LastIndexOf(s[..|s| - 1], c)
  }

  /** The last `c` of `u + [c] + t` is the one after `u` when `t` has none. */
  lemma {:induction false} LastIndexOfBeforeTail(u: string, c: char, t: string)
    requires c !in t
    ensures LastIndexOf(u + [c] + t, c) == Some(|u|)
  {
    if t != [] {
      var s := u + [c] + t;
      assert s[|s| - 1] == t[|t| - 1];
      assert s[..|s| - 1] == u + [c] + t[..|t| - 1];
      LastIndexOfBeforeTail(u, c, t[..|t| - 1]);
    }
  }

  /** `s.endswith(suffix)`. */
  predicate EndsWith(s: string, suffix: string) {
    |suffix| <= |s| && s[|s| - |suffix|..] == suffix
  }
}
