/**
 * The two string primitives the command parser is built from: Python's
 * `str.split(sep)` with a one-character separator, and `int(token)` on a
 * decimal token, together with the canonical decimal rendering that `int`
 * inverts.
 */
module Text {
  import opened Wrappers

  /** The separators joined back between the parts: the inverse of `Split`. */
  function Join(parts: seq<string>, sep: char): string
    requires |parts| > 0
    decreases |parts|
  {
    if |parts| == 1 then parts[0] else parts[0] + [sep] + Join(parts[1..], sep)
  }

  /**
   * `s.split(sep)`: always at least one part (the empty string gives `[""]`),
   * one more part than there are separators, and no part holds a separator.
   */
  function Split(s: string, sep: char): (parts: seq<string>)
    ensures |parts| == multiset(s)[sep] + 1
    ensures forall i :: 0 <= i < |parts| ==> sep !in parts[i]
    decreases |s|
  {
    if s == [] then [[]]
    else
      var rest := Split(s[1..], sep);
      SplitConsCount(s, sep, rest);
      SplitConsParts(s[0], sep, rest);
      SplitCons(s[0], sep, rest)
  }

  /** The parts of `[c] + t`, given the parts of `t`: a separator opens a new part, anything else joins the first one. */
  function SplitCons(c: char, sep: char, rest: seq<string>): seq<string>
    requires |rest| > 0
  {
    if c == sep then [[]] + rest else [[c] + rest[0]] + rest[1..]
  }

  lemma SplitConsCount(s: string, sep: char, rest: seq<string>)
    requires s != [] && |rest| == multiset(s[1..])[sep] + 1
    ensures |SplitCons(s[0], sep, rest)| == multiset(s)[sep] + 1
  {
    assert s == [s[0]] + s[1..];
    assert multiset(s) == multiset([s[0]]) + multiset(s[1..]);
  }

  lemma SplitConsParts(c: char, sep: char, rest: seq<string>)
    requires |rest| > 0
    requires forall i :: 0 <= i < |rest| ==> sep !in rest[i]
    ensures forall i :: 0 <= i < |SplitCons(c, sep, rest)| ==> sep !in SplitCons(c, sep, rest)[i]
  {
    var parts := SplitCons(c, sep, rest);
    if c != sep {
      assert forall i :: 1 <= i < |parts| ==> parts[i] == rest[i];
    }
  }

  lemma JoinSplitCons(c: char, sep: char, rest: seq<string>)
    requires |rest| > 0
    ensures Join(SplitCons(c, sep, rest), sep) == [c] + Join(rest, sep)
  {
    var parts := SplitCons(c, sep, rest);
    if c == sep {
      assert parts[1..] == rest;
    } else if |rest| > 1 {
      assert parts[1..] == rest[1..];
    }
  }

  /** Joining the parts of a split with the separator gives the string back. */
  lemma {:induction false} JoinSplit(s: string, sep: char)
    ensures Join(Split(s, sep), sep) == s
    decreases |s|
  {
    if s != [] {
      JoinSplit(s[1..], sep);
      JoinSplitCons(s[0], sep, Split(s[1..], sep));
      assert s == [s[0]] + s[1..];
    }
  }

  /** A string without the separator splits into itself alone. */
  lemma SplitWithoutSeparator(s: string, sep: char)
    requires sep !in s
    ensures Split(s, sep) == [s]
  {
    JoinSplit(s, sep);
    assert multiset(s)[sep] == 0;
  }

  lemma {:induction false} SplitAfterFirst(a: string, b: string, sep: char)
    requires sep !in a
    ensures Split(a + [sep] + b, sep) == [a] + Split(b, sep)
    decreases |a|
  {
    if a == [] {
      assert ([sep] + b)[1..] == b;
    } else {
      assert (a + [sep] + b)[1..] == a[1..] + [sep] + b;
      SplitAfterFirst(a[1..], b, sep);
      assert [a[0]] + a[1..] == a;
    }
  }

  /** Splitting what `Join` built gives back the parts, when no part holds the separator. */
  lemma {:induction false} SplitJoin(parts: seq<string>, sep: char)
    requires |parts| > 0
    requires forall i :: 0 <= i < |parts| ==> sep !in parts[i]
    ensures Split(Join(parts, sep), sep) == parts
    decreases |parts|
  {
    if |parts| == 1 {
      SplitWithoutSeparator(parts[0], sep);
    } else {
      SplitJoin(parts[1..], sep);
      SplitAfterFirst(parts[0], Join(parts[1..], sep), sep);
      assert [parts[0]] + parts[1..] == parts;
    }
  }

  lemma {:induction false} JoinChars(parts: seq<string>, sep: char, c: char)
    requires |parts| > 0
    requires c != sep
    requires forall i :: 0 <= i < |parts| ==> c !in parts[i]
    ensures c !in Join(parts, sep)
    decreases |parts|
  {
    if |parts| > 1 {
      JoinChars(parts[1..], sep, c);
    }
  }

  predicate IsDigit(ch: char)
  {
    '0' <= ch <= '9'
  }

  predicate IsDigits(ds: string)
  {
    |ds| > 0 && forall i :: 0 <= i < |ds| ==> IsDigit(ds[i])
  }

  function DigitValue(ch: char): nat
    requires IsDigit(ch)
  {
    ch as int - '0' as int
  }

  function DigitChar(d: nat): (ch: char)
    requires d < 10
    ensures IsDigit(ch) && DigitValue(ch) == d
  {
    ('0' as int + d) as char
  }

  /** The value of a string of decimal digits, most significant first; leading zeros allowed. */
  function DecimalValue(ds: string): nat
    requires forall i :: 0 <= i < |ds| ==> IsDigit(ds[i])
    decreases |ds|
  {
    if ds == [] then 0 else 10 * DecimalValue(ds[..|ds| - 1]) + DigitValue(ds[|ds| - 1])
  }

  /** The integer tokens: one or more decimal digits, optionally after a `-`. */
  predicate IsIntToken(t: string)
  {
    IsDigits(t) || (|t| > 0 && t[0] == '-' && IsDigits(t[1..]))
  }

  /**
   * `int(token)` on the tokens the parser meets: an optional `-` followed by
   * one or more decimal digits. Anything else is the `ValueError` path.
   * A token is accepted exactly when it is an integer token; its value is
   * the decimal value of its digits, negated after a `-`.
   */
  function ParseInt(token: string): (r: Option<int>)
    ensures r.Some? <==> IsIntToken(token)
    ensures r.Some? && token[0] == '-' ==> r.value == -(DecimalValue(token[1..]) as int)
    ensures r.Some? && token[0] != '-' ==> r.value == DecimalValue(token)
    ensures r.Some? ==> |token| > 0
    ensures r.Some? && r.value < 0 ==> token[0] == '-'
    ensures r.Some? && '-' !in token ==> IsDigits(token) && r.value == DecimalValue(token)
  {
    if |token| > 0 && token[0] == '-' then
      if IsDigits(token[1..]) then Some(0 - DecimalValue(token[1..]) as int) else None
    else if IsDigits(token) then Some(DecimalValue(token))
    else None
  }

  /** The shortest decimal rendering of a natural number (Python's `str` on a non-negative int). */
  function FormatNat(n: nat): (ds: string)
    ensures IsDigits(ds)
    decreases n
  {
    if n < 10 then [DigitChar(n)] else FormatNat(n / 10) + [DigitChar(n % 10)]
  }

  /** Python's `str` on an int: a `-` before the digits of a negative number. */
  function FormatInt(n: int): string
  {
    if n < 0 then ['-'] + FormatNat(-n) else FormatNat(n)
  }

  lemma {:induction false} DecimalValueOfFormatNat(n: nat)
    ensures DecimalValue(FormatNat(n)) == n
    decreases n
  {
    if n >= 10 {
      DecimalValueOfFormatNat(n / 10);
      var ds := FormatNat(n);
      assert ds[..|ds| - 1] == FormatNat(n / 10);
    }
  }

  /** `int(str(n)) == n`: decimal rendering and parsing are inverse. */
  lemma ParseIntFormatInt(n: int)
    ensures ParseInt(FormatInt(n)) == Some(n)
  {
    if n < 0 {
      DecimalValueOfFormatNat(-n);
      assert (['-'] + FormatNat(-n))[1..] == FormatNat(-n);
    } else {
      DecimalValueOfFormatNat(n);
    }
  }

  lemma DigitsHaveNo(ds: string, c: char)
    requires IsDigits(ds) && !IsDigit(c)
    ensures c !in ds
  {
    assert forall i :: 0 <= i < |ds| ==> ds[i] != c;
  }

  lemma FormatIntHasNoSeparator(n: int, c: char)
    requires !IsDigit(c) && c != '-'
    ensures c !in FormatInt(n)
  {
    var ds := FormatNat(if n < 0 then -n else n);
    assert forall i :: 0 <= i < |ds| ==> ds[i] != c;
  }
}
