/**
 * The string operations of Python 2 that the configuration reader relies on,
 * written out over `seq<char>`: `strip`, `split(sep, 1)`, `rsplit(sep, 1)`,
 * `replace(c, "")`, `lower`, `" ".join`, `"%d"`, `int(s)` and
 * `os.path.basename`.
 */
module Text {
  import opened Wrappers

  /** The characters `str.strip()` removes when called without an argument. */
  const Whitespace: set<char> := {' ', '\t', '\n', '\r', '\U{000B}', '\U{000C}'}

  /** The first index at or after `i` whose character is not in `cs`, or `|s|`. */
  function SkipFrom(s: string, cs: set<char>, i: nat): (r: nat)
    requires i <= |s|
    ensures i <= r <= |s|
    decreases |s| - i
  {
    if i < |s| && s[i] in cs then SkipFrom(s, cs, i + 1) else i
  }

  lemma {:induction false} SkipFromSpec(s: string, cs: set<char>, i: nat)
    requires i <= |s|
    ensures var r := SkipFrom(s, cs, i);
      (forall k :: i <= k < r ==> s[k] in cs) && (r < |s| ==> s[r] !in cs)
    decreases |s| - i
  {
    if i < |s| && s[i] in cs {
      SkipFromSpec(s, cs, i + 1);
    }
  }

  /** The end of `s[..j]` once the characters of `cs` at its end are dropped. */
  function SkipBack(s: string, cs: set<char>, j: nat): (r: nat)
    requires j <= |s|
    ensures r <= j
  {
    if j > 0 && s[j - 1] in cs then SkipBack(s, cs, j - 1) else j
  }

  lemma {:induction false} SkipBackSpec(s: string, cs: set<char>, j: nat)
    requires j <= |s|
    ensures var r := SkipBack(s, cs, j);
      (forall k :: r <= k < j ==> s[k] in cs) && (r > 0 ==> s[r - 1] !in cs)
  {
    if j > 0 && s[j - 1] in cs {
      SkipBackSpec(s, cs, j - 1);
    }
  }

  /** `s.lstrip(chars)`. */
  function TrimStart(s: string, cs: set<char>): string
  {
    s[SkipFrom(s, cs, 0)..]
  }

  /** `lstrip` leaves a text that is empty or starts outside `cs`, and only drops characters of `cs`. */
  lemma TrimStartSpec(s: string, cs: set<char>)
    ensures var r := TrimStart(s, cs);
      (r == [] || r[0] !in cs) && |r| <= |s| && r == s[|s| - |r|..] &&
      forall k :: 0 <= k < |s| - |r| ==> s[k] in cs
  {
    SkipFromSpec(s, cs, 0);
  }

  /** `s.strip(chars)`: both ends, characters of `cs` only. */
  function StripChars(s: string, cs: set<char>): string
  {
    var i := SkipFrom(s, cs, 0);
    var j := SkipBack(s, cs, |s|);
    if i < j then s[i..j] else ""
  }

  /**
   * `strip` gives the empty text exactly when every character is in `cs`;
   * otherwise its result starts and ends outside `cs`.
   */
  lemma StripCharsSpec(s: string, cs: set<char>)
    ensures var r := StripChars(s, cs);
      |r| <= |s| &&
      (r == [] <==> forall k :: 0 <= k < |s| ==> s[k] in cs) &&
      (r != [] ==> r[0] !in cs && r[|r| - 1] !in cs)
  {
    SkipFromSpec(s, cs, 0);
    SkipBackSpec(s, cs, |s|);
  }

  /** `s.strip()`. */
  function Strip(s: string): string
  {
    StripChars(s, Whitespace)
  }

  lemma StripUnchanged(s: string, cs: set<char>)
    requires s == [] || (s[0] !in cs && s[|s| - 1] !in cs)
    ensures StripChars(s, cs) == s
  {
    assert s[0..|s|] == s;
  }

  /**
   * `s.split(c, 1)`, padded with an empty second part when `c` does not occur:
   * the text before the first `c` and the text after it.
   */
  function SplitFirst(s: string, c: char): (r: (string, string))
    ensures c !in s ==> r == (s, "")
    ensures c in s ==> s == r.0 + [c] + r.1 && c !in r.0
  {
    if s == [] then ("", "")
    else if s[0] == c then ("", s[1..])
    else
      var rest := SplitFirst(s[1..], c);
      assert s == [s[0]] + s[1..];
      ([s[0]] + rest.0, rest.1)
  }

  /** `s.rsplit(c, 1)`: `None` when the result has one part, else the two parts. */
  function SplitLast(s: string, c: char): (r: Option<(string, string)>)
    ensures r.None? <==> c !in s
    ensures r.Some? ==> s == r.value.0 + [c] + r.value.1 && c !in r.value.1
  {
    if s == [] then None
    else if s[|s| - 1] == c then Some((s[..|s| - 1], ""))
    else
      match SplitLast(s[..|s| - 1], c)
      case None => None
      case Some(parts) =>
        assert s == s[..|s| - 1] + [s[|s| - 1]];
        Some((parts.0, parts.1 + [s[|s| - 1]]))
  }

  /** Removes every occurrence of the characters of `cs` (a chain of `replace(c, "")`). */
  function Remove(s: string, cs: set<char>): (r: string)
    ensures forall k :: 0 <= k < |r| ==> r[k] !in cs && r[k] in s
    ensures r == [] <==> forall k :: 0 <= k < |s| ==> s[k] in cs
  {
    if s == [] then ""
    else
      var rest := Remove(s[1..], cs);
      if s[0] in cs then rest else [s[0]] + rest
  }

  /**
   * Removal keeps exactly the characters outside `cs`, in their order: a
   * single character stays exactly when it is not in `cs`, and the removal
   * from a concatenation is the concatenation of the removals.
   */
  lemma {:induction false} RemoveSpec(a: string, b: string, c: char, cs: set<char>)
    ensures Remove([c], cs) == if c in cs then "" else [c]
    ensures Remove(a + b, cs) == Remove(a, cs) + Remove(b, cs)
    decreases |a|
  {
    assert [c][1..] == "";
    if a == [] {
      assert a + b == b;
    } else {
      RemoveSpec(a[1..], b, c, cs);
      assert (a + b)[0] == a[0] && (a + b)[1..] == a[1..] + b;
    }
  }

  /** Removing one set of characters and then another removes both at once. */
  lemma {:induction false} RemoveTwice(s: string, cs: set<char>, ds: set<char>)
    ensures Remove(Remove(s, cs), ds) == Remove(s, cs + ds)
  {
    if s != [] {
      RemoveTwice(s[1..], cs, ds);
      if s[0] !in cs {
        assert ([s[0]] + Remove(s[1..], cs))[0] == s[0];
        assert ([s[0]] + Remove(s[1..], cs))[1..] == Remove(s[1..], cs);
      }
    }
  }

  function LowerChar(c: char): char
  {
    if 'A' <= c <= 'Z' then (c as int - 'A' as int + 'a' as int) as char else c
  }

  /** `s.lower()` for the ASCII letters (Python 2 byte strings in the C locale). */
  function Lower(s: string): (r: string)
    ensures |r| == |s|
    ensures forall k :: 0 <= k < |s| ==> r[k] == LowerChar(s[k])
  {
    if s == [] then "" else [LowerChar(s[0])] + Lower(s[1..])
  }

  /** `Lower(s) == w` holds exactly when `s` spells the lower-case word `w` in any letter case. */
  lemma {:induction false} LowerMatches(s: string, w: string)
    requires forall k :: 0 <= k < |w| ==> 'a' <= w[k] <= 'z'
    ensures Lower(s) == w <==>
      |s| == |w| && forall k :: 0 <= k < |w| ==> s[k] == w[k] || s[k] as int == w[k] as int - 32
  {
    if Lower(s) == w {
      forall k | 0 <= k < |w| ensures s[k] == w[k] || s[k] as int == w[k] as int - 32 {
        assert LowerChar(s[k]) == w[k];
      }
    }
    if |s| == |w| && forall k :: 0 <= k < |w| ==> s[k] == w[k] || s[k] as int == w[k] as int - 32 {
      forall k | 0 <= k < |w| ensures Lower(s)[k] == w[k] {
        assert LowerChar(s[k]) == w[k];
      }
    }
  }

  /** `sep.join(parts)`. */
  function Join(parts: seq<string>, sep: string): string
  {
    if parts == [] then ""
    else if |parts| == 1 then parts[0]
    else parts[0] + sep + Join(parts[1..], sep)
  }

  // ---- decimal numbers ----

  predicate IsDigit(c: char) { '0' <= c <= '9' }

  predicate AllDigits(s: string) { forall k :: 0 <= k < |s| ==> IsDigit(s[k]) }

  function DigitChar(d: nat): char
    requires d < 10
  {
    ('0' as int + d) as char
  }

  /** The value of a string of decimal digits, most significant first. */
  function DigitsValue(s: string): nat
    requires AllDigits(s)
  {
    if s == [] then 0 else 10 * DigitsValue(s[..|s| - 1]) + (s[|s| - 1] as int - '0' as int)
  }

  /** `"%d" % n` for a non-negative `n`: no sign, no leading zero. */
  function NatToString(n: nat): (r: string)
    ensures r != [] && AllDigits(r)
    ensures r[0] == '0' ==> n == 0
  {
    if n < 10 then [DigitChar(n)] else NatToString(n / 10) + [DigitChar(n % 10)]
  }

  /** `"%d" % i`. */
  function IntToString(i: int): (r: string)
    ensures r != [] && (r[0] == '-' <==> i < 0)
  {
    if i < 0 then "-" + NatToString(-i) else NatToString(i)
  }

  /** Reading back what `NatToString` wrote gives the number. */
  lemma {:induction false} NatToStringValue(n: nat)
    ensures DigitsValue(NatToString(n)) == n
  {
    if n >= 10 {
      var s := NatToString(n);
      assert s[..|s| - 1] == NatToString(n / 10);
      NatToStringValue(n / 10);
    }
  }

  /**
   * Python 2 `int(s)` in base 10: surrounding whitespace, an optional sign
   * that may itself be followed by whitespace, then one or more digits.
   * `None` stands for the `ValueError` it raises otherwise.
   */
  function ParseInt(s: string): Option<int>
  {
    ParseSigned(Strip(s))
  }

  /** A sign, possibly followed by whitespace, then digits; or just digits. */
  function ParseSigned(t: string): Option<int>
  {
    if t == [] then None
    else if t[0] == '-' || t[0] == '+' then
      match ParseDigits(TrimStart(t[1..], Whitespace))
      case None => None
      case Some(v) => Some(if t[0] == '-' then -v else v)
    else ParseDigits(t)
  }

  function ParseDigits(d: string): Option<int>
  {
    if d != [] && AllDigits(d) then Some(DigitsValue(d)) else None
  }

  lemma ParseIntOfNatToString(n: nat)
    ensures ParseInt(NatToString(n)) == Some(n)
  {
    var s := NatToString(n);
    StripUnchanged(s, Whitespace);
    assert Strip(s) == s;
    assert IsDigit(s[0]);
    NatToStringValue(n);
  }

  lemma ParseIntOfNegative(d: string, n: nat)
    requires d != [] && AllDigits(d) && ParseDigits(d) == Some(n)
    ensures ParseInt("-" + d) == Some(-(n as int))
  {
    var s := "-" + d;
    assert s[|s| - 1] == d[|d| - 1];
    StripUnchanged(s, Whitespace);
    ParseNegativeDigits(d);
  }

  lemma ParseNegativeDigits(d: string)
    requires d != [] && IsDigit(d[0])
    ensures ParseSigned("-" + d) == match ParseDigits(d) case None => None case Some(v) => Some(-v)
  {
    var s := "-" + d;
    assert s[0] == '-' && s[1..] == d;
    NegativeSigned(s);
    assert d[0] !in Whitespace;
    StripStartUnchanged(d, Whitespace);
  }

  /** A leading `-` negates whatever the digits after it, past any whitespace, are worth. */
  lemma NegativeSigned(t: string)
    requires t != [] && t[0] == '-'
    ensures ParseSigned(t) == match ParseDigits(TrimStart(t[1..], Whitespace)) case None => None case Some(v) => Some(-v)
  {
  }

  lemma StripStartUnchanged(s: string, cs: set<char>)
    requires s == [] || s[0] !in cs
    ensures TrimStart(s, cs) == s
  {
    assert s[0..] == s;
  }

  /** What `"%d"` prints, `int()` reads back: the integer coercion accepts every rendered integer. */
  lemma ParseIntOfIntToString(i: int)
    ensures ParseInt(IntToString(i)) == Some(i)
  {
    if i < 0 {
      NatToStringValue(-i);
      ParseIntOfNegative(NatToString(-i), -i);
    } else {
      ParseIntOfNatToString(i);
    }
  }

  /** `int()` rejects every text that holds no digit at all. */
  lemma ParseIntNeedsDigit(s: string)
    requires forall k :: 0 <= k < |s| ==> !IsDigit(s[k])
    ensures ParseInt(s) == None
  {
    var t := Strip(s);
    if t != [] {
      assert t[|t| - 1] in s;
      if t[0] == '-' || t[0] == '+' {
        var d := TrimStart(t[1..], Whitespace);
        if d != [] {
          assert d[0] in s;
        }
      }
    }
    assert ParseSigned(t) == None;
  }

  /** `os.path.basename(p)`: the text after the last slash. */
  function BaseName(p: string): (r: string)
    ensures |r| <= |p| && r == p[|p| - |r|..]
    ensures '/' !in r
    ensures |r| < |p| ==> p[|p| - |r| - 1] == '/'
  {
    if p == [] || p[|p| - 1] == '/' then ""
    else BaseName(p[..|p| - 1]) + [p[|p| - 1]]
  }
}
