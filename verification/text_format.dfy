/**
 * How .NET renders the two identifier types that end up inside cache keys:
 * an `int` in invariant-culture decimal notation and a `Guid` in its default
 * "D" format (32 lower-case hexadecimal digits in groups 8-4-4-4-12).
 */
module TextFormat {

  predicate IsDigit(c: char) { '0' <= c <= '9' }

  predicate IsHexChar(c: char) { '0' <= c <= '9' || 'a' <= c <= 'f' }

  /** The decimal digit for `d`. */
  function DigitChar(d: nat): (c: char)
    requires d < 10
    ensures IsDigit(c)
    ensures c as int - '0' as int == d
  {
    ('0' as int + d) as char
  }

  /** Decimal text of a natural number, most significant digit first, no leading zeros. */
  function NatText(n: nat): (s: string)
    ensures |s| >= 1
    ensures forall i :: 0 <= i < |s| ==> IsDigit(s[i])
    ensures |s| == 1 <==> n < 10
  {
    if n < 10 then [DigitChar(n)] else NatText(n / 10) + [DigitChar(n % 10)]
  }

  /** `int.ToString()` under the invariant culture: a minus sign, then the magnitude. */
  function IntText(i: int): (s: string)
    ensures |s| >= 1 && IsDigit(s[|s| - 1])
    ensures forall k :: 0 <= k < |s| ==> IsDigit(s[k]) || s[k] == '-'
    ensures s[0] == '-' <==> i < 0
  {
    if i < 0 then "-" + NatText(-i) else NatText(i)
  }

  lemma {:induction false} NatTextInjective(a: nat, b: nat)
    requires NatText(a) == NatText(b)
    ensures a == b
    decreases a
  {
    if a < 10 || b < 10 {
      // |NatText(n)| == 1 exactly for single digits, so both are single digits
      assert [DigitChar(a)] == NatText(a);
      assert DigitChar(a) == NatText(b)[0];
    } else {
      var sa, sb := NatText(a / 10), NatText(b / 10);
      assert NatText(a) == sa + [DigitChar(a % 10)];
      assert NatText(b) == sb + [DigitChar(b % 10)];
      assert |sa| == |sb|;
      assert sa == NatText(a)[..|sa|];
      assert sb == NatText(b)[..|sb|];
      assert DigitChar(a % 10) == NatText(a)[|sa|];
      NatTextInjective(a / 10, b / 10);
    }
  }

  /** Distinct integers have distinct decimal texts. */
  lemma IntTextInjective(a: int, b: int)
    requires IntText(a) == IntText(b)
    ensures a == b
  {
    if a < 0 {
      assert IntText(a)[1..] == NatText(-a);
      assert IntText(b)[1..] == NatText(-b);
      NatTextInjective(-a, -b);
    } else {
      NatTextInjective(a, b);
    }
  }

  /** One lower-case hexadecimal digit. */
  function HexChar(d: nat): (c: char)
    requires d < 16
    ensures IsHexChar(c)
  {
    if d < 10 then ('0' as int + d) as char else ('a' as int + d - 10) as char
  }

  lemma HexCharInjective(d: nat, e: nat)
    requires d < 16 && e < 16 && HexChar(d) == HexChar(e)
    ensures d == e
  {
  }

  predicate IsNibbles(s: seq<nat>) { forall i :: 0 <= i < |s| ==> s[i] < 16 }

  /** A Guid, given by its 32 hexadecimal digits in the order the "D" format prints them. */
  type Guid = s: seq<nat> | |s| == 32 && IsNibbles(s)
    witness seq(32, _ => 0)

  function HexText(s: seq<nat>): (t: string)
    requires IsNibbles(s)
    ensures |t| == |s|
    ensures forall i :: 0 <= i < |t| ==> IsHexChar(t[i])
  {
    if s == [] then [] else [HexChar(s[0])] + HexText(s[1..])
  }

  lemma {:induction false} HexTextInjective(s: seq<nat>, u: seq<nat>)
    requires IsNibbles(s) && IsNibbles(u) && HexText(s) == HexText(u)
    ensures s == u
  {
    if s != [] {
      assert HexText(s)[0] == HexChar(s[0]) && HexText(u)[0] == HexChar(u[0]);
      HexCharInjective(s[0], u[0]);
      assert HexText(s)[1..] == HexText(s[1..]);
      assert HexText(u)[1..] == HexText(u[1..]);
      HexTextInjective(s[1..], u[1..]);
    }
  }

  /** `Guid.ToString()`: "xxxxxxxx-xxxx-xxxx-xxxx-xxxxxxxxxxxx". */
  function GuidText(g: Guid): (t: string)
    ensures |t| == 36
    ensures forall i :: 0 <= i < |t| ==> IsHexChar(t[i]) || t[i] == '-'
  {
    HexText(g[..8]) + "-" + HexText(g[8..12]) + "-" + HexText(g[12..16]) + "-"
      + HexText(g[16..20]) + "-" + HexText(g[20..])
  }

  /** If two concatenations agree and their first parts have the same length, the parts agree. */
  lemma SplitEqual<T>(a: seq<T>, b: seq<T>, c: seq<T>, d: seq<T>)
    requires a + b == c + d && |a| == |c|
    ensures a == c && b == d
  {
    assert a == (a + b)[..|a|] && c == (c + d)[..|c|];
    assert b == (a + b)[|a|..] && d == (c + d)[|c|..];
  }

  /** The five digit groups of a Guid's text, read back by position. */
  lemma GuidTextGroups(g: Guid)
    ensures GuidText(g)[..8] == HexText(g[..8])
    ensures GuidText(g)[9..13] == HexText(g[8..12])
    ensures GuidText(g)[14..18] == HexText(g[12..16])
    ensures GuidText(g)[19..23] == HexText(g[16..20])
    ensures GuidText(g)[24..] == HexText(g[20..])
  {
  }

  /** Distinct Guids have distinct texts. */
  lemma GuidTextInjective(g: Guid, h: Guid)
    requires GuidText(g) == GuidText(h)
    ensures g == h
  {
    GuidTextGroups(g);
    GuidTextGroups(h);
    HexTextInjective(g[..8], h[..8]);
    HexTextInjective(g[8..12], h[8..12]);
    HexTextInjective(g[12..16], h[12..16]);
    HexTextInjective(g[16..20], h[16..20]);
    HexTextInjective(g[20..], h[20..]);
    assert g == g[..8] + g[8..12] + g[12..16] + g[16..20] + g[20..];
    assert h == h[..8] + h[8..12] + h[12..16] + h[16..20] + h[20..];
  }
}
