/** Optional values, standing for Python's `None`. */
module Wrappers {
  datatype Option<T> = None | Some(value: T)
}

/**
 * Python string operations the scrapers rely on, restricted to ASCII:
 * substring tests (`sub in s`), `str.split(sep)`, `str.rstrip(c)`,
 * `str.replace(c, '')`, `str.isdigit()`, `int(s)`, `str(n)` and `str.lower()`.
 */
module Text {

  /** `s.startswith(p)` */
  predicate StartsWith(s: string, p: string) {
    |p| <= |s| && s[..|p|] == p
  }

  predicate OccursAt(s: string, sub: string, i: int) {
    0 <= i && i + |sub| <= |s| && s[i..i + |sub|] == sub
  }

  /** `sub in s` for two strings */
  predicate Contains(s: string, sub: string) {
    exists i | 0 <= i <= |s| - |sub| :: OccursAt(s, sub, i)
  }

  /** A string occurs inside any string that has it as a piece. */
  lemma ContainsPiece(a: string, sub: string, b: string)
    ensures Contains(a + sub + b, sub)
  {
    var s := a + sub + b;
    assert s[|a|..|a| + |sub|] == sub;
    assert OccursAt(s, sub, |a|);
  }

  /** A substring test that holds of a prefix holds of the whole string. */
  lemma ContainsPrefix(s: string, k: nat, sub: string)
    requires k <= |s| && Contains(s[..k], sub)
    ensures Contains(s, sub)
  {
    var i :| 0 <= i <= k - |sub| && OccursAt(s[..k], sub, i);
    assert s[..k][i..i + |sub|] == s[i..i + |sub|];
    assert OccursAt(s, sub, i);
  }

  /** A string that occurs in `s` has its first character in `s`. */
  lemma ContainsHead(s: string, sub: string)
    requires |sub| > 0
    ensures Contains(s, sub) ==> sub[0] in s
  {
    if Contains(s, sub) {
      var i :| 0 <= i <= |s| - |sub| && OccursAt(s, sub, i);
      assert s[i] == s[i..i + |sub|][0];
    }
  }

  /** A one-character substring test is a membership test. */
  lemma ContainsChar(s: string, c: char)
    ensures Contains(s, [c]) <==> c in s
  {
    if c in s {
      var i :| 0 <= i < |s| && s[i] == c;
      assert OccursAt(s, [c], i);
    }
    if Contains(s, [c]) {
      var i :| 0 <= i <= |s| - 1 && OccursAt(s, [c], i);
      assert s[i] == s[i..i + 1][0] == c;
    }
  }

  // ---------------------------------------------------------------- characters

  predicate IsDigit(c: char) {
    '0' <= c <= '9'
  }

  /** ASCII `str.isdigit()`: non-empty and made only of digits. */
  predicate IsDigits(s: string) {
    |s| > 0 && forall i :: 0 <= i < |s| ==> IsDigit(s[i])
  }

  function LowerChar(c: char): char {
    if 'A' <= c <= 'Z' then (c as int + 32) as char else c
  }

  /** A string of digits holds no other character. */
  lemma OnlyDigits(s: string, c: char)
    requires forall i :: 0 <= i < |s| ==> IsDigit(s[i])
    requires !IsDigit(c)
    ensures c !in s
  {
  }

  /** ASCII `str.lower()` */
  function Lower(s: string): (r: string)
    ensures |r| == |s|
    ensures forall i :: 0 <= i < |s| ==> r[i] == LowerChar(s[i])
  {
    if s == [] then [] else [LowerChar(s[0])] + Lower(s[1..])
  }

  /** Lower-casing leaves no upper-case ASCII letter and is idempotent. */
  lemma LowerIsLower(s: string)
    ensures forall i :: 0 <= i < |s| ==> !('A' <= Lower(s)[i] <= 'Z')
    ensures Lower(Lower(s)) == Lower(s)
  {
  }

  // ---------------------------------------------------------------- decimals

  function DigitChar(d: nat): (c: char)
    requires d < 10
    ensures IsDigit(c)
  {
    ('0' as int + d) as char
  }

  function DigitValue(c: char): (d: nat)
    requires IsDigit(c)
    ensures d < 10 && DigitChar(d) == c
  {
    c as int - '0' as int
  }

  /** `int(s)` for a string of ASCII digits (the empty string reads as 0). */
  function DigitsValue(s: string): nat
    requires forall i :: 0 <= i < |s| ==> IsDigit(s[i])
  {
    if s == [] then 0 else 10 * DigitsValue(s[..|s| - 1]) + DigitValue(s[|s| - 1])
  }

  /** `str(n)`: decimal digits without leading zeros. */
  function Decimal(n: nat): (s: string)
    ensures IsDigits(s)
    ensures s[0] == '0' <==> n == 0
  {
    if n < 10 then [DigitChar(n)] else Decimal(n / 10) + [DigitChar(n % 10)]
  }

  /** `int(str(n)) == n` */
  lemma {:induction false} DecimalRoundTrip(n: nat)
    ensures DigitsValue(Decimal(n)) == n
  {
    if n >= 10 {
      DecimalRoundTrip(n / 10);
      var s := Decimal(n);
      assert s[..|s| - 1] == Decimal(n / 10);
    }
  }

  /** `str(int(s)) == s` for digit strings without a leading zero. */
  lemma {:induction false} DigitsRoundTrip(s: string)
    requires IsDigits(s) && (s[0] == '0' ==> |s| == 1)
    ensures Decimal(DigitsValue(s)) == s
  {
    if |s| > 1 {
      var init := s[..|s| - 1];
      DigitsRoundTrip(init);
      assert DigitsValue(init) > 0 by {
        assert init[0] != '0';
        NonZeroLead(init);
      }
    }
  }

  lemma {:induction false} NonZeroLead(s: string)
    requires IsDigits(s) && s[0] != '0'
    ensures DigitsValue(s) > 0
  {
    if |s| > 1 {
      NonZeroLead(s[..|s| - 1]);
    }
  }

  // ---------------------------------------------------------------- split

  function IndexOf(s: string, c: char): (i: nat)
    requires c in s
    ensures i < |s| && s[i] == c && c !in s[..i]
  {
    if s[0] == c then 0 else 1 + IndexOf(s[1..], c)
  }

  /** `s.split(c)`: the pieces between occurrences of `c`, empty ones kept. */
  function Split(s: string, c: char): (parts: seq<string>)
    ensures |parts| > 0
    ensures forall k :: 0 <= k < |parts| ==> c !in parts[k]
    decreases |s|
  {
    if c !in s then [s]
    else
      var i := IndexOf(s, c);
      [s[..i]] + Split(s[i + 1..], c)
  }

  /** `c.join(parts)` */
  function Join(parts: seq<string>, c: char): string
    requires |parts| > 0
  {
    if |parts| == 1 then parts[0] else parts[0] + [c] + Join(parts[1..], c)
  }

  /** Joining the pieces of a split gives back the original string. */
  lemma {:induction false} SplitJoin(s: string, c: char)
    ensures Join(Split(s, c), c) == s
    decreases |s|
  {
    if c in s {
      var i := IndexOf(s, c);
      SplitJoin(s[i + 1..], c);
      assert s == s[..i] + [c] + s[i + 1..];
    }
  }

  /** `s.split(c)[-1]` */
  function LastPart(s: string, c: char): string {
    var parts := Split(s, c);
    parts[|parts| - 1]
  }

  /**
   * `s.split(c)[-1]` is the text after the last `c`: it holds no `c`, it ends
   * `s`, and when `s` holds a `c` that `c` comes right before it.
   */
  lemma {:induction false} LastPartIsTail(s: string, c: char)
    ensures var r := LastPart(s, c);
      && c !in r
      && |r| <= |s| && s[|s| - |r|..] == r
      && (c in s ==> |r| < |s| && s[|s| - |r| - 1] == c)
      && (c !in s ==> r == s)
    decreases |s|
  {
    if c in s {
      var i := IndexOf(s, c);
      var rest := s[i + 1..];
      LastPartSkipsHead(s, c);
      LastPartIsTail(rest, c);
      var r := LastPart(rest, c);
      assert s[|s| - |r|..] == rest[|rest| - |r|..];
      assert s[|s| - |r| - 1] == c by {
        if c !in rest {
          assert |s| - |r| - 1 == i;
        } else {
          assert s[|s| - |r| - 1] == rest[|rest| - |r| - 1];
        }
      }
    }
  }

  /** When `c` does not occur in `b`, the text after the last `c` of `a + [c] + b` is `b`. */
  lemma LastPartAfter(a: string, c: char, b: string)
    requires c !in b
    ensures LastPart(a + [c] + b, c) == b
  {
    var s := a + [c] + b;
    assert s[|a|] == c;
    LastPartIsTail(s, c);
    var r := LastPart(s, c);
    SuffixHolds(s, r, |a|);
    InTail(a, c, b, |s| - |r| - 1);
    assert s[|a| + 1..] == b;
  }

  /** A position at or after the start of a suffix holds a character of that suffix. */
  lemma SuffixHolds(s: string, r: string, p: nat)
    requires |r| <= |s| && s[|s| - |r|..] == r && p < |s|
    ensures |s| - |r| <= p ==> s[p] in r
  {
    if |s| - |r| <= p {
      assert r[p - (|s| - |r|)] == s[p];
    }
  }

  /** A position after the `c` of `a + [c] + b` lies in `b`. */
  lemma InTail(a: string, c: char, b: string, q: int)
    ensures |a| < q < |a| + 1 + |b| ==> (a + [c] + b)[q] in b
  {
    if |a| < q < |a| + 1 + |b| {
      assert (a + [c] + b)[q] == b[q - |a| - 1];
    }
  }

  lemma LastPartSkipsHead(s: string, c: char)
    requires c in s
    ensures LastPart(s, c) == LastPart(s[IndexOf(s, c) + 1..], c)
  {
    var i := IndexOf(s, c);
    SplitHead(s, c);
    LastOfCons(s[..i], Split(s[i + 1..], c));
  }

  lemma SplitHead(s: string, c: char)
    requires c in s
    ensures Split(s, c) == [s[..IndexOf(s, c)]] + Split(s[IndexOf(s, c) + 1..], c)
  {
  }

  lemma LastOfCons(x: string, tail: seq<string>)
    requires |tail| > 0
    ensures ([x] + tail)[|tail|] == tail[|tail| - 1]
  {
  }

  // ---------------------------------------------------------------- stripping

  /** `s.rstrip(c)` for a single character `c` */
  function RStrip(s: string, c: char): (r: string)
    ensures |r| <= |s| && s[..|r|] == r
    ensures r == [] || r[|r| - 1] != c
    ensures forall i :: |r| <= i < |s| ==> s[i] == c
  {
    if s != [] && s[|s| - 1] == c then RStrip(s[..|s| - 1], c) else s
  }

  /** `s.replace(c, '')` for a single character `c` */
  function Without(s: string, c: char): (r: string)
    ensures c !in r
    ensures |r| <= |s|
  {
    if s == [] then []
    else if s[0] == c then Without(s[1..], c)
    else [s[0]] + Without(s[1..], c)
  }

  /** Removing a character changes a string exactly when the character occurs in it. */
  lemma {:induction false} WithoutIdentity(s: string, c: char)
    ensures Without(s, c) == s <==> c !in s
  {
    if s != [] {
      WithoutIdentity(s[1..], c);
      if s[0] == c {
        assert |Without(s, c)| <= |s[1..]| < |s|;
      }
    }
  }

  /** Removing one character keeps every other character. */
  lemma {:induction false} WithoutKeeps(s: string, c: char, d: char)
    requires d != c
    ensures multiset(Without(s, c))[d] == multiset(s)[d]
  {
    if s != [] {
      WithoutKeeps(s[1..], c, d);
      assert s == [s[0]] + s[1..];
    }
  }
}
