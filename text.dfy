/**
 Character and string helpers that the translator relies on: ASCII `tolower`
 and `isspace`, `lowercase`, `std::string::compare` (behind `str_equal`) and
 `std::to_string` for the positive counters appended to colliding names.
 Strings are `seq<char>`; only the ASCII behaviour of the C library is modelled.
 */
module Text {

  /** C `tolower` restricted to ASCII: only 'A'..'Z' change. */
  function ToLower(c: char): char
  {
    if 'A' <= c <= 'Z' then (c as int + 32) as char else c
  }

  /** C `isspace` in the "C" locale. */
  predicate IsSpace(c: char)
  {
    c == ' ' || c == '\t' || c == '\n' || c == '\r' || c == '\U{0B}' || c == '\U{0C}'
  }

  predicate IsDigit(c: char)
  {
    '0' <= c <= '9'
  }

  /** The specification of `lowercase`: every character passed through `tolower`. */
  function Lowered(s: string): string
    decreases |s|
  {
    if s == [] then [] else Lowered(s[..|s| - 1]) + [ToLower(s[|s| - 1])]
  }

  /** `Lowered` keeps the length and lowercases position by position. */
  lemma {:induction false} LoweredCharwise(s: string)
    ensures |Lowered(s)| == |s|
    ensures forall i :: 0 <= i < |s| ==> Lowered(s)[i] == ToLower(s[i])
    decreases |s|
  {
    if s != [] {
      LoweredCharwise(s[..|s| - 1]);
    }
  }

  /** `lowercase`: builds the result one character at a time. */
  method Lowercase(s: string) returns (r: string)
    ensures r == Lowered(s)
    ensures |r| == |s| && forall i :: 0 <= i < |s| ==> r[i] == ToLower(s[i])
  {
    r := "";
    for i := 0 to |s|
      invariant r == Lowered(s[..i])
    {
      assert s[..i + 1][..i] == s[..i];
      r := r + [ToLower(s[i])];
    }
    assert s[..|s|] == s;
    LoweredCharwise(s);
  }

  /** Lowercasing twice is lowercasing once: the field name is lowercased
      before `format_definition_name` lowercases it again. */
  lemma {:induction false} LoweredIdempotent(s: string)
    ensures Lowered(Lowered(s)) == Lowered(s)
    ensures forall i :: 0 <= i < |Lowered(s)| ==> !('A' <= Lowered(s)[i] <= 'Z')
    decreases |s|
  {
    LoweredCharwise(s);
    if s != [] {
      var t := Lowered(s);
      LoweredIdempotent(s[..|s| - 1]);
      assert t[..|t| - 1] == Lowered(s[..|s| - 1]);
    }
  }

  /** Concatenation regroups freely. */
  lemma Associative(a: string, b: string, c: string)
    ensures a + b + c == a + (b + c)
  {
  }

  /** `std::string::compare`: lexicographic by character code, the shorter
      string first when one is a prefix of the other. Only the sign of the
      result is modelled (the library may return any negative or positive
      value; here it is -1 or 1). Since it is zero exactly on equal strings,
      `str_equal` (`a.compare(b) == 0`) is written `==` throughout the
      model. */
  function Compare(a: string, b: string): (r: int)
    ensures -1 <= r <= 1
    ensures r == 0 <==> a == b
    ensures r < 0 <==> (exists k :: 0 <= k <= |a| && k <= |b| && a[..k] == b[..k] && (k == |a| < |b| || (k < |a| && k < |b| && a[k] < b[k])))
    decreases |a|
  {
    if a == [] && b == [] then 0
    else if a == [] then -1
    else if b == [] then 1
    else if a[0] < b[0] then -1
    else if a[0] > b[0] then 1
    else
      var r := Compare(a[1..], b[1..]);
      assert r < 0 ==> exists k :: 0 <= k <= |a| && k <= |b| && a[..k] == b[..k] && (k == |a| < |b| || (k < |a| && k < |b| && a[k] < b[k])) by {
        if r < 0 {
          var k :| 0 <= k <= |a[1..]| && k <= |b[1..]| && a[1..][..k] == b[1..][..k]
                   && (k == |a[1..]| < |b[1..]| || (k < |a[1..]| && k < |b[1..]| && a[1..][k] < b[1..][k]));
          assert a[..k + 1] == [a[0]] + a[1..][..k];
          assert b[..k + 1] == [b[0]] + b[1..][..k];
        }
      }
      assert (exists k :: 0 <= k <= |a| && k <= |b| && a[..k] == b[..k] && (k == |a| < |b| || (k < |a| && k < |b| && a[k] < b[k]))) ==> r < 0 by {
        if exists k :: 0 <= k <= |a| && k <= |b| && a[..k] == b[..k] && (k == |a| < |b| || (k < |a| && k < |b| && a[k] < b[k])) {
          var k :| 0 <= k <= |a| && k <= |b| && a[..k] == b[..k] && (k == |a| < |b| || (k < |a| && k < |b| && a[k] < b[k]));
          if k > 0 {
            assert a[1..][..k - 1] == a[..k][1..];
            assert b[1..][..k - 1] == b[..k][1..];
            assert k - 1 == |a[1..]| < |b[1..]| || (k - 1 < |a[1..]| && k - 1 < |b[1..]| && a[1..][k - 1] < b[1..][k - 1]);
          }
        }
      }
      r
  }

  function DigitChar(d: nat): char
    requires d < 10
  {
    ('0' as int + d) as char
  }

  /** `std::to_string` on a non-negative integer: its decimal digits, no sign,
      no leading zeros. */
  function NatToString(n: nat): (r: string)
    ensures |r| >= 1 && forall i :: 0 <= i < |r| ==> IsDigit(r[i])
    ensures (|r| == 1) == (n < 10)
    ensures |r| > 1 ==> r[0] != '0'
    decreases n
  {
    if n < 10 then [DigitChar(n)] else NatToString(n / 10) + [DigitChar(n % 10)]
  }

  /** The number a string of decimal digits denotes, most significant digit
      first. */
  function DecimalValue(s: string): nat
    requires forall i :: 0 <= i < |s| ==> IsDigit(s[i])
    decreases |s|
  {
    if s == [] then 0
    else
      assert IsDigit(s[|s| - 1]);
      10 * DecimalValue(s[..|s| - 1]) + (s[|s| - 1] as int - '0' as int)
  }

  /** The digits `std::to_string` writes denote the number itself. */
  lemma {:induction false} NatToStringValue(n: nat)
    ensures DecimalValue(NatToString(n)) == n
    decreases n
  {
    var r := NatToString(n);
    if n < 10 {
      assert r == [DigitChar(n)];
      assert r[..0] == [];
    } else {
      assert r[..|r| - 1] == NatToString(n / 10);
      NatToStringValue(n / 10);
    }
  }

  /** Distinct counters give distinct decimal strings. */
  lemma {:induction false} NatToStringInjective(a: nat, b: nat)
    requires NatToString(a) == NatToString(b)
    ensures a == b
    decreases a
  {
    if a < 10 && b < 10 {
      assert DigitChar(a) == NatToString(a)[0] == NatToString(b)[0] == DigitChar(b);
    } else if a >= 10 && b >= 10 {
      var sa, sb := NatToString(a), NatToString(b);
      assert sa[..|sa| - 1] == NatToString(a / 10);
      assert sb[..|sb| - 1] == NatToString(b / 10);
      assert DigitChar(a % 10) == sa[|sa| - 1] == sb[|sb| - 1] == DigitChar(b % 10);
      NatToStringInjective(a / 10, b / 10);
    }
  }
}
