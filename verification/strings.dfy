/**
 * The handful of JavaScript string primitives the three page controllers rely on:
 * `String.prototype.trim`, `toLowerCase`, `includes`, and the decimal rendering of an integer
 * inside a template literal.
 */
module Strings {

  /** Whitespace as `trim` and the regular-expression class `\s` see it, limited to ASCII. */
  predicate IsSpace(c: char) {
    c == ' ' || c == '\t' || c == '\n' || c == '\r' || c == '\U{B}' || c == '\U{C}'
  }

  predicate AllSpace(s: string) {
    forall k :: 0 <= k < |s| ==> IsSpace(s[k])
  }

  /** The number of whitespace characters `s` starts with. */
  function LeadingSpaces(s: string): (n: nat)
    ensures n <= |s| && AllSpace(s[..n])
    ensures n < |s| ==> !IsSpace(s[n])
  {
    if s != [] && IsSpace(s[0]) then
      LeadingSpaces(s[1..]) + 1
    else
      0
  }

  /** The number of whitespace characters `s` ends with. */
  function TrailingSpaces(s: string): (n: nat)
    ensures n <= |s| && AllSpace(s[|s| - n..])
    ensures n < |s| ==> !IsSpace(s[|s| - n - 1])
  {
    if s != [] && IsSpace(s[|s| - 1]) then
      TrailingSpaces(s[..|s| - 1]) + 1
    else
      0
  }

  /** `String.prototype.trim`: the leading whitespace, then the trailing whitespace of what is left, dropped. */
  function Trim(s: string): (r: string)
    ensures LeadingSpaces(s) + |r| <= |s|
    ensures r != [] ==> !IsSpace(r[0]) && !IsSpace(r[|r| - 1])
  {
    var t := s[LeadingSpaces(s)..];
    t[..|t| - TrailingSpaces(t)]
  }

  /** `trim` yields the empty string exactly when there is nothing but whitespace. */
  lemma TrimEmptyIff(s: string)
    ensures Trim(s) == [] <==> AllSpace(s)
  {
    var a := LeadingSpaces(s);
    if a < |s| {
      assert !IsSpace(s[a]);
      assert s[a..][0] == s[a];
    }
  }

  /** What `trim` keeps is the slice of its input that starts right after the leading whitespace. */
  lemma TrimIsSlice(s: string)
    ensures s[LeadingSpaces(s)..LeadingSpaces(s) + |Trim(s)|] == Trim(s)
  {
  }

  /** Everything after what `trim` keeps is whitespace, as is everything before it (`LeadingSpaces`). */
  lemma TrimDropsOnlySpace(s: string)
    ensures AllSpace(s[LeadingSpaces(s) + |Trim(s)|..])
  {
    var t := s[LeadingSpaces(s)..];
    assert s[LeadingSpaces(s) + |Trim(s)|..] == t[|t| - TrailingSpaces(t)..];
  }

  /** Whitespace before a string that starts with a non-whitespace character is exactly its leading run. */
  lemma {:induction false} LeadingSpacesBefore(a: string, w: string)
    requires AllSpace(a) && w != [] && !IsSpace(w[0])
    ensures LeadingSpaces(a + w) == |a|
  {
    if a == [] {
      assert a + w == w;
    } else {
      assert (a + w)[1..] == a[1..] + w;
      LeadingSpacesBefore(a[1..], w);
    }
  }

  /** Whitespace after a string that ends with a non-whitespace character is exactly its trailing run. */
  lemma {:induction false} TrailingSpacesAfter(w: string, b: string)
    requires AllSpace(b) && w != [] && !IsSpace(w[|w| - 1])
    ensures TrailingSpaces(w + b) == |b|
  {
    if b == [] {
      assert w + b == w;
    } else {
      assert (w + b)[..|w + b| - 1] == w + b[..|b| - 1];
      TrailingSpacesAfter(w, b[..|b| - 1]);
    }
  }

  /** Any whitespace on either side of an already trimmed string is all that `trim` removes. */
  lemma TrimSurrounded(a: string, v: string, b: string)
    requires AllSpace(a) && AllSpace(b)
    requires v != [] ==> !IsSpace(v[0]) && !IsSpace(v[|v| - 1])
    ensures Trim(a + v + b) == v
  {
    var padded := a + v + b;
    if v == [] {
      assert AllSpace(padded) by {
        forall k | 0 <= k < |padded| ensures IsSpace(padded[k]) {
          if k < |a| {
            assert padded[k] == a[k];
          } else {
            assert padded[k] == b[k - |a|];
          }
        }
      }
      TrimEmptyIff(padded);
    } else {
      assert padded == a + (v + b) && (v + b)[0] == v[0];
      LeadingSpacesBefore(a, v + b);
      assert padded[|a|..] == v + b;
      TrailingSpacesAfter(v, b);
      assert (v + b)[..|v|] == v;
    }
  }

  /** Two runs of whitespace put together are one run of whitespace. */
  lemma AllSpaceConcat(x: string, y: string)
    requires AllSpace(x) && AllSpace(y)
    ensures AllSpace(x + y)
  {
    forall k | 0 <= k < |x + y| ensures IsSpace((x + y)[k]) {
      if k < |x| {
        assert (x + y)[k] == x[k];
      } else {
        assert (x + y)[k] == y[k - |x|];
      }
    }
  }

  /** Every string is its trimmed form with a run of whitespace on either side. */
  lemma SplitAroundTrim(v: string) returns (x: string, y: string)
    ensures AllSpace(x) && AllSpace(y) && v == x + Trim(v) + y
  {
    TrimIsSlice(v);
    TrimDropsOnlySpace(v);
    var l := LeadingSpaces(v);
    x, y := v[..l], v[l + |Trim(v)|..];
    assert v == v[..l] + v[l..l + |Trim(v)|] + v[l + |Trim(v)|..];
  }

  /** Whitespace added on either side of any string does not change its trim. */
  lemma TrimPaddedAny(a: string, v: string, b: string)
    requires AllSpace(a) && AllSpace(b)
    ensures Trim(a + v + b) == Trim(v)
  {
    var x, y := SplitAroundTrim(v);
    AllSpaceConcat(a, x);
    AllSpaceConcat(y, b);
    Regroup(a, x, Trim(v), y, b);
    TrimSurrounded(a + x, Trim(v), y + b);
  }

  lemma Regroup(a: string, x: string, t: string, y: string, b: string)
    ensures a + (x + t + y) + b == (a + x) + t + (y + b)
  {
  }

  /** Trimming a string that has no whitespace at either end leaves it as it is. */
  lemma TrimKeepsTrimmed(s: string)
    requires s != [] ==> !IsSpace(s[0]) && !IsSpace(s[|s| - 1])
    ensures Trim(s) == s
  {
  }

  /** `trim` is idempotent. */
  lemma {:induction false} TrimIdempotent(s: string)
    ensures Trim(Trim(s)) == Trim(s)
  {
    TrimKeepsTrimmed(Trim(s));
  }

  predicate IsUpper(c: char) {
    'A' <= c <= 'Z'
  }

  function LowerChar(c: char): char {
    if IsUpper(c) then (c as int + 32) as char else c
  }

  /** `toLowerCase` on ASCII letters: same length, no upper-case letter left, every other character kept. */
  function ToLower(s: string): (r: string)
    ensures |r| == |s|
    ensures forall k :: 0 <= k < |r| ==> !IsUpper(r[k])
    ensures forall k :: 0 <= k < |s| && !IsUpper(s[k]) ==> r[k] == s[k]
    ensures forall k :: 0 <= k < |s| && IsUpper(s[k]) ==> r[k] as int == s[k] as int + 32
  {
    seq(|s|, k requires 0 <= k < |s| => LowerChar(s[k]))
  }

  /** Lower-casing twice is lower-casing once. */
  lemma ToLowerIdempotent(s: string)
    ensures ToLower(ToLower(s)) == ToLower(s)
  {
  }

  predicate StartsWith(s: string, p: string) {
    |p| <= |s| && s[..|p|] == p
  }

  /** `String.prototype.includes`: `p` occurs in `s` at some offset. */
  predicate Includes(s: string, p: string)
    ensures Includes(s, p) ==> |p| <= |s|
    ensures p == [] ==> Includes(s, p)
  {
    StartsWith(s, p) || (s != [] && Includes(s[1..], p))
  }

  ghost predicate OccursAt(s: string, p: string, i: int) {
    0 <= i && i + |p| <= |s| && s[i..i + |p|] == p
  }

  /** The recursive `Includes` is exactly "occurs at some offset". */
  lemma {:induction false} IncludesIff(s: string, p: string)
    ensures Includes(s, p) <==> exists i :: OccursAt(s, p, i)
  {
    if s != [] {
      IncludesIff(s[1..], p);
      if Includes(s, p) {
        if StartsWith(s, p) {
          assert OccursAt(s, p, 0);
        } else {
          var i :| OccursAt(s[1..], p, i);
          assert s[1..][i..i + |p|] == s[i + 1..i + 1 + |p|];
          assert OccursAt(s, p, i + 1);
        }
      }
      if exists i :: OccursAt(s, p, i) {
        var i :| OccursAt(s, p, i);
        if i == 0 {
          assert StartsWith(s, p);
        } else {
          assert s[1..][i - 1..i - 1 + |p|] == s[i..i + |p|];
          assert OccursAt(s[1..], p, i - 1);
        }
      }
    } else {
      if p == [] {
        assert OccursAt(s, p, 0);
      }
    }
  }

  predicate IsDigits(s: string) {
    forall k :: 0 <= k < |s| ==> '0' <= s[k] <= '9'
  }

  /** The value of a string of decimal digits, most significant first. */
  function DecimalValue(s: string): nat
    requires IsDigits(s)
  {
    if s == [] then 0 else DecimalValue(s[..|s| - 1]) * 10 + (s[|s| - 1] as int - '0' as int)
  }

  function DigitChar(d: nat): (c: char)
    requires d < 10
    ensures '0' <= c <= '9' && c as int - '0' as int == d
  {
    ('0' as int + d) as char
  }

  /** The decimal text of a natural number, as a template literal renders it: digits without a leading zero, reading back as the number. */
  function NatText(n: nat): (s: string)
    ensures |s| >= 1 && IsDigits(s)
    ensures |s| > 1 ==> s[0] != '0'
    ensures DecimalValue(s) == n
  {
    if n < 10 then
      [DigitChar(n)]
    else
      var p := NatText(n / 10);
      var s := p + [DigitChar(n % 10)];
      assert s[..|s| - 1] == p;
      s
  }

  /** Distinct numbers have distinct decimal texts. */
  lemma NatTextInjective(m: nat, n: nat)
    requires NatText(m) == NatText(n)
    ensures m == n
  {
  }

  /** The decimal text of an integer: a minus sign before the digits of its magnitude when negative. */
  function IntText(i: int): (s: string)
    ensures |s| >= 1 && (s[0] == '-' <==> i < 0)
    ensures i >= 0 ==> IsDigits(s) && DecimalValue(s) == i
    ensures i < 0 ==> IsDigits(s[1..]) && DecimalValue(s[1..]) == -i
    ensures i >= 0 && |s| > 1 ==> s[0] != '0'
    ensures i < 0 && |s| > 2 ==> s[1] != '0'
  {
    if i < 0 then "-" + NatText(-i) else NatText(i)
  }
}
