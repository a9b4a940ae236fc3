/**
 * The few Python built-ins over strings and lists that the modelled code relies on:
 * `str.strip`, `str.startswith`, `str.split`, `str.join`, `str(int)` and list indexing
 * with Python's negative-index wrap-around.
 */
module PyText {
  import opened Wrappers

  /** The characters `str.strip()` removes from an ASCII line. */
  predicate IsSpace(c: char) {
    c == ' ' || c == '\t' || c == '\n' || c == '\r' || c as int == 11 || c as int == 12
  }

  /** `s.strip()`: white space is removed from both ends. */
  function Strip(s: string): (r: string)
    ensures |r| <= |s|
    ensures r == [] || (!IsSpace(r[0]) && !IsSpace(r[|r| - 1]))
  {
    if s != [] && IsSpace(s[0]) then Strip(s[1..])
    else if s != [] && IsSpace(s[|s| - 1]) then Strip(s[..|s| - 1])
    else s
  }

  /** `r` is `s` with a run of white space removed at each end. */
  ghost predicate TrimmedFrom(s: string, r: string) {
    exists i, j :: TrimmedAt(s, r, i, j)
  }

  /** `r` is `s[i..j]`, and everything outside `i..j` is white space. */
  predicate TrimmedAt(s: string, r: string, i: int, j: int) {
    0 <= i <= j <= |s| && r == s[i..j] && AllSpace(s[..i]) && AllSpace(s[j..])
  }

  predicate AllSpace(s: string) {
    forall k :: 0 <= k < |s| ==> IsSpace(s[k])
  }

  lemma TrimmedFromDropFirst(s: string, r: string)
    requires s != [] && IsSpace(s[0]) && TrimmedFrom(s[1..], r)
    ensures TrimmedFrom(s, r)
  {
    var t := s[1..];
    var i, j :| TrimmedAt(t, r, i, j);
    var u := s[..i + 1];
    assert AllSpace(u) by {
      forall k | 0 <= k < |u| ensures IsSpace(u[k]) {
        if k > 0 {
          assert u[k] == t[..i][k - 1];
        }
      }
    }
    assert s[j + 1..] == t[j..];
    assert r == s[i + 1..j + 1];
    assert TrimmedAt(s, r, i + 1, j + 1);
  }

  lemma TrimmedFromDropLast(s: string, r: string)
    requires s != [] && IsSpace(s[|s| - 1]) && TrimmedFrom(s[..|s| - 1], r)
    ensures TrimmedFrom(s, r)
  {
    var t := s[..|s| - 1];
    var i, j :| TrimmedAt(t, r, i, j);
    assert s[..i] == t[..i];
    var u := s[j..];
    assert AllSpace(u) by {
      forall k | 0 <= k < |u| ensures IsSpace(u[k]) {
        if k < |t| - j {
          assert u[k] == t[j..][k];
        }
      }
    }
    assert r == s[i..j];
    assert TrimmedAt(s, r, i, j);
  }

  /** What `Strip` removes is exactly a run of white space at each end. */
  lemma {:induction false} StripRemovesOnlyEnds(s: string)
    ensures TrimmedFrom(s, Strip(s))
    decreases |s|
  {
    if s != [] && IsSpace(s[0]) {
      StripRemovesOnlyEnds(s[1..]);
      TrimmedFromDropFirst(s, Strip(s));
    } else if s != [] && IsSpace(s[|s| - 1]) {
      StripRemovesOnlyEnds(s[..|s| - 1]);
      TrimmedFromDropLast(s, Strip(s));
    } else {
      assert s == s[0..|s|] && s[..0] == [] && s[|s|..] == [];
      assert TrimmedAt(s, Strip(s), 0, |s|);
    }
  }

  /** Padding `t` with white space on either side does not change what `Strip` returns. */
  lemma {:induction false} StripPadded(a: string, t: string, b: string)
    requires AllSpace(a) && AllSpace(b)
    requires t == [] || (!IsSpace(t[0]) && !IsSpace(t[|t| - 1]))
    ensures Strip(a + t + b) == t
    decreases |a| + |b|
  {
    var s := a + t + b;
    if a != [] {
      assert s[0] == a[0] && s[1..] == a[1..] + t + b;
      StripPadded(a[1..], t, b);
    } else if t == [] && b != [] {
      assert s == b && s[1..] == [] + [] + b[1..];
      StripPadded([], [], b[1..]);
    } else if b != [] {
      assert s[0] == t[0] && s[|s| - 1] == b[|b| - 1];
      assert s[..|s| - 1] == [] + t + b[..|b| - 1];
      StripPadded([], t, b[..|b| - 1]);
    } else {
      assert s == t;
    }
  }

  predicate StartsWith(s: string, p: string) {
    |p| <= |s| && s[..|p|] == p
  }

  /** `s.split(sep)` for a one-character separator: the pieces between separators, in order. */
  function Split(s: string, sep: char): (r: seq<string>)
    ensures |r| >= 1
    ensures forall k :: 0 <= k < |r| ==> sep !in r[k]
  {
    if s == [] then [[]]
    else
      var rest := Split(s[1..], sep);
      if s[0] == sep then [[]] + rest else [[s[0]] + rest[0]] + rest[1..]
  }

  /** A string without the separator splits into itself alone. */
  lemma {:induction false} SplitWithout(s: string, sep: char)
    requires sep !in s
    ensures Split(s, sep) == [s]
  {
    if s != [] {
      SplitWithout(s[1..], sep);
      assert [s[0]] + s[1..] == s;
    }
  }

  /** `sep.join(parts)` for a one-character separator. */
  function Join(parts: seq<string>, sep: char): string {
    if parts == [] then []
    else if |parts| == 1 then parts[0]
    else parts[0] + [sep] + Join(parts[1..], sep)
  }

  /** Joining what `split` returned gives back the original string. */
  lemma {:induction false} JoinSplit(s: string, sep: char)
    ensures Join(Split(s, sep), sep) == s
  {
    if s != [] {
      var rest := Split(s[1..], sep);
      JoinSplit(s[1..], sep);
      if s[0] == sep {
        assert Split(s, sep) == [[]] + rest;
        assert Join([[]] + rest, sep) == [sep] + Join(rest, sep);
      } else {
        assert Split(s, sep) == [[s[0]] + rest[0]] + rest[1..];
        if |rest| == 1 {
          assert Join(rest, sep) == rest[0];
        } else {
          assert Join(rest, sep) == rest[0] + [sep] + Join(rest[1..], sep);
        }
      }
    }
  }

  /** Python list indexing `s[i]`: negative `i` counts from the end; out of range raises IndexError. */
  function PyIndex<T>(s: seq<T>, i: int): (r: Option<T>)
    ensures r.Some? <==> -|s| <= i < |s|
    ensures 0 <= i < |s| ==> r == Some(s[i])
    ensures -|s| <= i < 0 ==> r == Some(s[|s| + i])
  {
    if 0 <= i < |s| then Some(s[i])
    else if -|s| <= i < 0 then Some(s[|s| + i])
    else None
  }

  function DigitChar(d: nat): char
    requires d < 10
  {
    ('0' as int + d) as char
  }

  /** `s` is a run of decimal digits. */
  predicate IsDigits(s: string) {
    forall k :: 0 <= k < |s| ==> '0' <= s[k] <= '9'
  }

  /** `s` is what `str` gives for an int: digits, optionally after a minus sign. */
  predicate IsIntText(s: string) {
    if s != [] && s[0] == '-' then IsDigits(s[1..]) else IsDigits(s)
  }

  function NatToString(n: nat): (r: string)
    ensures |r| >= 1 && IsDigits(r)
    decreases n
  {
    if n < 10 then [DigitChar(n)] else NatToString(n / 10) + [DigitChar(n % 10)]
  }

  /** `str(i)` for a Python int: optional minus sign followed by the decimal digits. */
  function IntToString(i: int): string {
    if i < 0 then "-" + NatToString(-i) else NatToString(i)
  }

  function DigitsValue(s: string): nat
    requires IsDigits(s)
  {
    if s == [] then 0 else 10 * DigitsValue(s[..|s| - 1]) + (s[|s| - 1] as int - '0' as int)
  }

  /** `int(s)` for the strings `str` produces. */
  function ParseInt(s: string): int
    requires IsIntText(s)
  {
    if s != [] && s[0] == '-' then -(DigitsValue(s[1..]) as int) else DigitsValue(s)
  }

  lemma {:induction false} NatToStringValue(n: nat)
    ensures DigitsValue(NatToString(n)) == n
    decreases n
  {
    if n >= 10 {
      NatToStringValue(n / 10);
      var s := NatToString(n);
      assert s[..|s| - 1] == NatToString(n / 10);
    }
  }

  /** `int(str(i)) == i`: the decimal rendering of an edge index loses nothing. */
  lemma IntToStringRoundTrip(i: int)
    ensures IsIntText(IntToString(i)) && ParseInt(IntToString(i)) == i
  {
    if i < 0 {
      var d := NatToString(-i);
      var s := "-" + d;
      assert s == IntToString(i);
      assert s[0] == '-' && s[1..] == d;
      NatToStringValue(-i);
    } else {
      var s := NatToString(i);
      assert s[0] != '-';
      NatToStringValue(i);
    }
  }
}
