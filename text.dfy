/**
 * The Python string operations the browser relies on, over `string` (`seq<char>`):
 * substring search (`str.find(t) != -1`), `str.lower()`, `str.strip()` and `str(i)`
 * for a non-negative integer.
 */
module Text {

  /** `t` is a prefix of `s`. */
  predicate IsPrefix(t: string, s: string) {
    |t| <= |s| && t == s[..|t|]
  }

  /** `s.find(t) != -1`: `t` occurs somewhere in `s` (the empty string occurs everywhere). */
  predicate Contains(s: string, t: string)
    decreases |s|
  {
    IsPrefix(t, s) || (|s| > 0 && Contains(s[1..], t))
  }

  /** `t` occurs in `s` at offset `i`. */
  predicate OccursAt(s: string, t: string, i: int) {
    0 <= i <= |s| - |t| && s[i..i + |t|] == t
  }

  /** `Contains` is exactly "there is an offset at which `t` occurs". */
  lemma {:induction false} ContainsAt(s: string, t: string)
    ensures Contains(s, t) <==> exists i :: OccursAt(s, t, i)
    decreases |s|
  {
    if Contains(s, t) {
      if IsPrefix(t, s) {
        assert OccursAt(s, t, 0);
      } else {
        ContainsAt(s[1..], t);
        var i :| OccursAt(s[1..], t, i);
        assert s[i + 1..i + 1 + |t|] == s[1..][i..i + |t|];
        assert OccursAt(s, t, i + 1);
      }
    }
    if exists i :: OccursAt(s, t, i) {
      var i :| OccursAt(s, t, i);
      if i == 0 {
        assert IsPrefix(t, s);
      } else {
        assert s[1..][i - 1..i - 1 + |t|] == s[i..i + |t|];
        assert OccursAt(s[1..], t, i - 1);
        ContainsAt(s[1..], t);
      }
    }
  }

  /** A substring of a piece of `s` is a substring of `s`. */
  lemma ContainsSlice(s: string, i: int, j: int, t: string)
    requires 0 <= i <= j <= |s| && Contains(s[i..j], t)
    ensures Contains(s, t)
  {
    ContainsAt(s[i..j], t);
    var k :| OccursAt(s[i..j], t, k);
    assert i + k + |t| <= j;
    var piece := s[i..j];
    assert piece[k..k + |t|] == t;
    forall m | 0 <= m < |t| ensures s[i + k + m] == t[m] {
      assert piece[k..k + |t|][m] == piece[k + m];
      assert piece[k + m] == s[i + k + m];
    }
    assert s[i + k..i + k + |t|] == t;
    assert OccursAt(s, t, i + k);
    ContainsAt(s, t);
  }

  /** Lower-casing of one character; only the ASCII letters are mapped. */
  function LowerChar(c: char): char {
    if 'A' <= c <= 'Z' then (c as int + 32) as char else c
  }

  /** `s.lower()`, character by character. */
  function Lower(s: string): (r: string)
    ensures |r| == |s|
    ensures forall i :: 0 <= i < |s| ==> r[i] == LowerChar(s[i])
  {
    seq(|s|, i requires 0 <= i < |s| => LowerChar(s[i]))
  }

  /** Lower-casing every string of a list. */
  function LowerAll(lst: seq<string>): (r: seq<string>)
    ensures |r| == |lst|
    ensures forall i :: 0 <= i < |lst| ==> r[i] == Lower(lst[i])
  {
    seq(|lst|, i requires 0 <= i < |lst| => Lower(lst[i]))
  }

  /** The characters Python's `str.isspace` accepts (and so `str.strip()` removes). */
  predicate IsSpace(c: char) {
    var n := c as int;
    (0x09 <= n <= 0x0D) || (0x1C <= n <= 0x20) || n == 0x85 || n == 0xA0 || n == 0x1680
    || (0x2000 <= n <= 0x200A) || n == 0x2028 || n == 0x2029 || n == 0x202F || n == 0x205F
    || n == 0x3000
  }

  /** `s.lstrip()`. */
  function TrimStart(s: string): (r: string)
    ensures |r| <= |s|
  {
    if |s| > 0 && IsSpace(s[0]) then TrimStart(s[1..]) else s
  }

  /** `s.rstrip()`. */
  function TrimEnd(s: string): (r: string)
    ensures |r| <= |s|
  {
    if |s| > 0 && IsSpace(s[|s| - 1]) then TrimEnd(s[..|s| - 1]) else s
  }

  /** `s.strip()`. */
  function Strip(s: string): string {
    TrimEnd(TrimStart(s))
  }

  /** `TrimStart` drops the leading white space and nothing else. */
  lemma {:induction false} TrimStartSpec(s: string)
    ensures var r := TrimStart(s);
      && |r| <= |s| && r == s[|s| - |r|..]
      && (forall k :: 0 <= k < |s| - |r| ==> IsSpace(s[k]))
      && (r == [] || !IsSpace(r[0]))
  {
    if |s| > 0 && IsSpace(s[0]) {
      TrimStartSpec(s[1..]);
      var r := TrimStart(s[1..]);
      forall k | 0 <= k < |s| - |r| ensures IsSpace(s[k]) {
        if k > 0 {
          assert s[k] == s[1..][k - 1];
        }
      }
    }
  }

  /** `TrimEnd` drops the trailing white space and nothing else. */
  lemma {:induction false} TrimEndSpec(s: string)
    ensures var r := TrimEnd(s);
      && |r| <= |s| && r == s[..|r|]
      && (forall k :: |r| <= k < |s| ==> IsSpace(s[k]))
      && (r == [] || !IsSpace(r[|r| - 1]))
  {
    if |s| > 0 && IsSpace(s[|s| - 1]) {
      TrimEndSpec(s[..|s| - 1]);
      var r := TrimEnd(s[..|s| - 1]);
      forall k | |r| <= k < |s| ensures IsSpace(s[k]) {
        if k < |s| - 1 {
          assert s[k] == s[..|s| - 1][k];
        }
      }
    }
  }

  /**
   * What `Strip` returns: the piece of `s` that starts after its leading white space,
   * with white space only cut off at either end.
   */
  lemma StripShape(s: string)
    ensures var i, r := |s| - |TrimStart(s)|, Strip(s);
      && i + |r| <= |s| && r == s[i..i + |r|]
      && (forall k :: 0 <= k < i ==> IsSpace(s[k]))
      && (forall k :: i + |r| <= k < |s| ==> IsSpace(s[k]))
      && (r == [] || (!IsSpace(r[0]) && !IsSpace(r[|r| - 1])))
  {
    var t := TrimStart(s);
    var r := TrimEnd(t);
    var i := |s| - |t|;
    assert t == s[i..] && (forall k :: 0 <= k < i ==> IsSpace(s[k])) && (t == [] || !IsSpace(t[0])) by {
      TrimStartSpec(s);
    }
    assert r == t[..|r|] && (forall k :: |r| <= k < |t| ==> IsSpace(t[k])) && (r == [] || !IsSpace(r[|r| - 1])) by {
      TrimEndSpec(t);
    }
    assert r == s[i..i + |r|];
    forall k | i + |r| <= k < |s| ensures IsSpace(s[k]) {
      assert s[k] == t[k - i];
    }
    if r != [] {
      assert r[0] == t[0];
    }
  }

  /** Stripping twice changes nothing more than stripping once. */
  lemma StripIdempotent(s: string)
    ensures Strip(Strip(s)) == Strip(s)
  {
    StripShape(s);
  }

  /** The decimal digit `d` as a character. */
  function DigitChar(d: nat): char
    requires d < 10
  {
    "0123456789"[d]
  }

  /** `str(n)` for a non-negative integer `n`: its decimal digits. */
  function NatToString(n: nat): (r: string)
    ensures |r| >= 1
  {
    if n < 10 then [DigitChar(n)] else NatToString(n / 10) + [DigitChar(n % 10)]
  }

  function Pow10(k: nat): (r: nat)
    ensures r >= 1
  {
    if k == 0 then 1 else 10 * Pow10(k - 1)
  }

  /** A number of at least `10^k` takes more than `k` digits. */
  lemma {:induction false} NatToStringLength(n: nat, k: nat)
    requires n >= Pow10(k)
    ensures |NatToString(n)| > k
  {
    if k > 0 {
      assert n >= 10;
      NatToStringLength(n / 10, k - 1);
    }
  }
}
