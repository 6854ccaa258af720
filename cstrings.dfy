/** The C string operations the core relies on: reading a buffer as a
    NUL-terminated string, `strstr`, and `%d` formatting. */
module CStrings {
  import opened Assist

  /** A C string holds no NUL before its terminator. */
  predicate NoNul(s: seq<char>)
  {
    Nul !in s
  }

  /** The string a buffer holds when read as a C string: everything before its
      first NUL (the whole buffer if it holds none). */
  function UpToNul(b: seq<char>): (s: string)
    ensures |s| <= |b| && s == b[..|s|] && NoNul(s)
    ensures |s| < |b| ==> b[|s|] == Nul
  {
    if b == [] then []
    else if b[0] == Nul then []
    else [b[0]] + UpToNul(b[1..])
  }

  /** Reading a buffer as a C string stops at the first NUL: what follows it
      does not matter. */
  lemma {:induction false} UpToNulStops(t: seq<char>, u: seq<char>)
    ensures UpToNul(t + [Nul] + u) == UpToNul(t)
  {
    if t != [] && t[0] != Nul {
      assert (t + [Nul] + u)[1..] == t[1..] + [Nul] + u;
      UpToNulStops(t[1..], u);
    }
  }

  /** A buffer without a NUL reads as itself. */
  lemma {:induction false} UpToNulWhole(t: seq<char>)
    requires NoNul(t)
    ensures UpToNul(t) == t
  {
    if t != [] {
      UpToNulWhole(t[1..]);
    }
  }

  /** A buffer that already contains a NUL reads the same whatever follows it. */
  lemma {:induction false} UpToNulPadded(t: seq<char>, u: seq<char>)
    requires Nul in t
    ensures UpToNul(t + u) == UpToNul(t)
  {
    if t[0] != Nul {
      assert (t + u)[1..] == t[1..] + u;
      UpToNulPadded(t[1..], u);
    }
  }

  /** `p` occurs in `s` at position i. */
  predicate OccursAt(s: string, p: string, i: int)
  {
    0 <= i && i + |p| <= |s| && s[i..i + |p|] == p
  }

  /** `strstr(s, p) != NULL`: `p` occurs somewhere in `s`. The empty string
      occurs in every string. */
  predicate Contains(s: string, p: string)
  {
    exists i | 0 <= i <= |s| - |p| :: OccursAt(s, p, i)
  }

  /** `strstr(s, p) != NULL`, trying each position of `s` in turn. */
  method StrStr(s: string, p: string) returns (found: bool)
    ensures found == Contains(s, p)
  {
    var i := 0;
    while i + |p| <= |s|
      invariant 0 <= i && (i == 0 || i - 1 + |p| <= |s|)
      invariant forall j :: 0 <= j < i ==> !OccursAt(s, p, j)
      decreases |s| - i
    {
      if s[i..i + |p|] == p {
        assert OccursAt(s, p, i);
        return true;
      }
      i := i + 1;
    }
    return false;
  }

  /** Every string contains itself. */
  lemma ContainsSelf(p: string)
    ensures Contains(p, p)
  {
    assert p[0..|p|] == p;
    assert OccursAt(p, p, 0);
  }

  /** A string that occurs in a prefix of `s` occurs in `s`. */
  lemma ContainsInPrefix(s: string, k: nat, p: string)
    requires k <= |s| && Contains(s[..k], p)
    ensures Contains(s, p)
  {
    var i :| OccursAt(s[..k], p, i);
    assert OccursAt(s[..k], p, i);
    assert s[..k][i..i + |p|] == s[i..i + |p|];
    assert OccursAt(s, p, i);
  }

  /** A string placed between two others occurs in the result. */
  lemma ContainsMiddle(a: string, p: string, b: string)
    ensures Contains(a + p + b, p)
  {
    assert (a + p + b)[|a|..|a| + |p|] == p;
    assert OccursAt(a + p + b, p, |a|);
  }

  /** A string ending in `p` contains it. */
  lemma ContainsEnd(a: string, p: string)
    ensures Contains(a + p, p)
  {
    ContainsMiddle(a, p, "");
    assert a + p + "" == a + p;
  }

  /** What occurs in a part of `s` occurs in `s`. */
  lemma ContainsTransitive(s: string, t: string, p: string)
    requires Contains(s, t) && Contains(t, p)
    ensures Contains(s, p)
  {
    var i :| OccursAt(s, t, i);
    assert OccursAt(s, t, i);
    var j :| OccursAt(t, p, j);
    assert OccursAt(t, p, j);
    assert s[i..i + |t|] == t;
    assert t[j..j + |p|] == p;
    assert forall k :: 0 <= k < |p| ==> s[i + j + k] == t[j + k] == p[k];
    assert s[i + j..i + j + |p|] == p;
    assert OccursAt(s, p, i + j);
  }

  /** The decimal digit of a value below ten. */
  function Digit(d: nat): (c: char)
    requires d < 10
    ensures '0' <= c <= '9'
  {
    "0123456789"[d]
  }

  /** The value of a decimal digit character. */
  function DigitValue(c: char): (d: nat)
    requires '0' <= c <= '9'
    ensures d < 10
  {
    (c as int - '0' as int) as nat
  }

  predicate IsDigits(s: string)
  {
    forall k :: 0 <= k < |s| ==> '0' <= s[k] <= '9'
  }

  /** `%u` of a natural number, most significant digit first, no leading zeros. */
  function NatToString(n: nat): (s: string)
    ensures |s| >= 1 && IsDigits(s)
    ensures |s| > 1 ==> s[0] != '0'
    decreases n
  {
    if n < 10 then [Digit(n)] else NatToString(n / 10) + [Digit(n % 10)]
  }

  /** `%d` of an integer: a minus sign before the digits of a negative value. */
  function IntToString(n: int): (s: string)
    ensures |s| >= 1 && NoNul(s)
  {
    if n < 0 then "-" + NatToString(-n) else NatToString(n)
  }

  /** The value a string of decimal digits denotes (the reading `atoi` makes). */
  function ParseNat(s: string): nat
    requires IsDigits(s)
  {
    if s == [] then 0 else ParseNat(s[..|s| - 1]) * 10 + DigitValue(s[|s| - 1])
  }

  /** A `%d` text: an optional minus sign followed by at least one digit. */
  predicate IsIntText(s: string)
  {
    |s| >= 1 && if s[0] == '-' then |s| >= 2 && IsDigits(s[1..]) else IsDigits(s)
  }

  /** The value of a `%d` text. */
  function ParseInt(s: string): int
    requires IsIntText(s)
  {
    if s[0] == '-' then 0 - ParseNat(s[1..]) as int else ParseNat(s)
  }

  lemma {:induction false} NatToStringRoundTrip(n: nat)
    ensures ParseNat(NatToString(n)) == n
    decreases n
  {
    if n >= 10 {
      var s := NatToString(n);
      NatToStringRoundTrip(n / 10);
      assert s[..|s| - 1] == NatToString(n / 10);
      assert s[|s| - 1] == Digit(n % 10);
    } else {
      assert NatToString(n) == [Digit(n)];
      assert NatToString(n)[..0] == [];
    }
  }

  /** `%d` loses nothing: reading the text back yields the value printed. */
  lemma IntToStringRoundTrip(n: int)
    ensures IsIntText(IntToString(n)) && ParseInt(IntToString(n)) == n
  {
    var s := IntToString(n);
    if n < 0 {
      var d := NatToString(-n);
      NatToStringRoundTrip(-n);
      assert s == "-" + d && s[1..] == d;
    } else {
      NatToStringRoundTrip(n);
    }
  }

  /** `strlen` of a buffer that holds a NUL. */
  method StrLen(buf: array<char>) returns (n: nat)
    requires Nul in buf[..]
    ensures n < buf.Length && buf[n] == Nul
    ensures n == |UpToNul(buf[..])| && buf[..n] == UpToNul(buf[..])
  {
    n := 0;
    while buf[n] != Nul
      invariant n < buf.Length && NoNul(buf[..n]) && Nul in buf[n..]
      decreases buf.Length - n
    {
      assert buf[n..] == [buf[n]] + buf[n + 1..];
      assert buf[..n + 1] == buf[..n] + [buf[n]];
      n := n + 1;
    }
    assert buf[..] == buf[..n] + [Nul] + buf[n + 1..];
    UpToNulStops(buf[..n], buf[n + 1..]);
    UpToNulWhole(buf[..n]);
  }

  /** `strcat(buf, t)`: `t` and a NUL written over the terminator of the
      string `buf` holds. The buffer must have room for both. */
  method StrCat(buf: array<char>, t: string)
    requires Nul in buf[..] && NoNul(t)
    requires |UpToNul(buf[..])| + |t| < buf.Length
    modifies buf
    ensures Nul in buf[..] && UpToNul(buf[..]) == old(UpToNul(buf[..])) + t
  {
    var n := StrLen(buf);
    ghost var s := buf[..n];
    var i := 0;
    while i < |t|
      invariant 0 <= i <= |t|
      invariant buf[..n] == s && buf[n..n + i] == t[..i]
    {
      buf[n + i] := t[i];
      assert buf[n..n + i + 1] == buf[n..n + i] + [t[i]];
      i := i + 1;
    }
    buf[n + |t|] := Nul;
    Terminated(buf[..], s, t);
  }

  /** A buffer that holds `s + t` and then a NUL reads as `s + t`. */
  lemma Terminated(b: seq<char>, s: string, t: string)
    requires NoNul(s) && NoNul(t) && |s| + |t| < |b|
    requires b[..|s|] == s && b[|s|..|s| + |t|] == t && b[|s| + |t|] == Nul
    ensures Nul in b && UpToNul(b) == s + t
  {
    var n := |s| + |t|;
    assert b[..n] == s + t by {
      assert b[..n] == b[..|s|] + b[|s|..n];
    }
    assert Nul !in s + t;
    NulAt(b, n);
  }

  /** A buffer whose first NUL is at n reads as its first n characters. */
  lemma NulAt(b: seq<char>, n: nat)
    requires n < |b| && b[n] == Nul && NoNul(b[..n])
    ensures Nul in b && UpToNul(b) == b[..n]
  {
    assert b[..n + 1] == b[..n] + [Nul];
    assert b == b[..n + 1] + b[n + 1..];
    UpToNulStops(b[..n], b[n + 1..]);
    UpToNulWhole(b[..n]);
  }
}
