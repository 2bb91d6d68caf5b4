/**
  The two `std::string` operations the request handlers are built from:
  `find(pattern, pos)` (npos becomes None) and `std::to_string` on an int.
*/
module Text {

  import opened Wrappers

  /** pat occurs in s starting at index i. */
  predicate IsAt(s: string, pat: string, i: nat)
  {
    i + |pat| <= |s| && s[i..i + |pat|] == pat
  }

  predicate Occurs(s: string, pat: string)
  {
    exists i: nat :: i <= |s| && IsAt(s, pat, i)
  }

  /**
    `s.find(pat, from)`: the first index at or after `from` where pat occurs,
    or None (npos) when there is none, in particular when `from` is past the
    end of s.
  */
  function Find(s: string, pat: string, from: nat): (r: Option<nat>)
    ensures r.Some? ==> from <= r.value && IsAt(s, pat, r.value)
    ensures forall j: nat :: from <= j && (r.None? || j < r.value) ==> !IsAt(s, pat, j)
    decreases |s| - from
  {
    if from + |pat| > |s| then None
    else if s[from..from + |pat|] == pat then Some(from)
    else Find(s, pat, from + 1)
  }

  /** Find from the start returns a position exactly when pat occurs at all. */
  lemma FindOccurs(s: string, pat: string)
    ensures Find(s, pat, 0).Some? <==> Occurs(s, pat)
  {
    var r := Find(s, pat, 0);
    if r.Some? {
      assert IsAt(s, pat, r.value);
    }
  }

  predicate IsDecimalString(s: string)
  {
    forall i :: 0 <= i < |s| ==> '0' <= s[i] <= '9'
  }

  function DecimalDigit(d: nat): (c: char)
    requires d < 10
    ensures '0' <= c <= '9' && c as int - '0' as int == d
  {
    (d + '0' as int) as char
  }

  /** The value of a string of decimal digits, most significant first. */
  function ParseDec(s: string): (v: nat)
    requires IsDecimalString(s)
  {
    if s == [] then 0 else ParseDec(s[..|s| - 1]) * 10 + (s[|s| - 1] as int - '0' as int)
  }

  /** The signed value of an optional '-' followed by decimal digits. */
  function ParseInt(s: string): int
    requires |s| > 0 && (if s[0] == '-' then IsDecimalString(s[1..]) else IsDecimalString(s))
  {
    if s[0] == '-' then -(ParseDec(s[1..]) as int) else ParseDec(s) as int
  }

  function NatToString(n: nat): (s: string)
    ensures |s| > 0 && IsDecimalString(s)
    ensures |s| == 1 || s[0] != '0'
  {
    if n < 10 then [DecimalDigit(n)] else NatToString(n / 10) + [DecimalDigit(n % 10)]
  }

  /** The decimal digits of n read back as n. */
  lemma {:induction false} ParseNatToString(n: nat)
    ensures ParseDec(NatToString(n)) == n
  {
    var s := NatToString(n);
    if n < 10 {
      assert s[..0] == [];
    } else {
      assert s[..|s| - 1] == NatToString(n / 10);
      ParseNatToString(n / 10);
    }
  }

  /**
    `std::to_string` of a signed integer: a '-' for negatives, then the
    decimal digits of the magnitude; the text reads back as n.
  */
  function IntToString(n: int): (s: string)
    ensures |s| > 0 && (s[0] == '-' <==> n < 0)
    ensures n < 0 ==> IsDecimalString(s[1..]) && ParseDec(s[1..]) == -n
    ensures n >= 0 ==> IsDecimalString(s) && ParseDec(s) == n
    ensures ParseInt(s) == n
    ensures n >= 0 ==> |s| == 1 || s[0] != '0'
    ensures n < 0 ==> |s| >= 2 && s[1] != '0'
  {
    if n < 0 then
      ParseNatToString(-n);
      assert ("-" + NatToString(-n))[1..] == NatToString(-n);
      "-" + NatToString(-n)
    else
      ParseNatToString(n);
      NatToString(n)
  }
}
