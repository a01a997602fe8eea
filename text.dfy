/** The three Python string builtins the chat endpoint relies on, restricted to
    ASCII: `str.strip()` with no argument, `str.lower()` and the substring test
    `k in s`. Each is given as a recursive definition with a contract that
    characterises it independently of how it is computed. */
module Text {

  /** Python's `str.isspace()` on the ASCII range: tab, line feed, vertical tab,
      form feed, carriage return, the four separators 0x1C-0x1F and space. */
  predicate IsSpace(c: char) {
    c == ' ' || c == '\t' || c == '\n' || c == '\r' ||
    c == '\U{B}' || c == '\U{C}' ||
    c == '\U{1C}' || c == '\U{1D}' || c == '\U{1E}' || c == '\U{1F}'
  }

  predicate AllSpace(s: string) {
    forall k :: 0 <= k < |s| ==> IsSpace(s[k])
  }

  /** Drops leading whitespace: the result is a suffix of `s`, everything
      dropped is whitespace, and the result does not start with whitespace. */
  function TrimStart(s: string): (r: string)
    ensures |r| <= |s| && r == s[|s| - |r|..]
    ensures AllSpace(s[..|s| - |r|])
    ensures r != [] ==> !IsSpace(r[0])
  {
    if s != [] && IsSpace(s[0]) then TrimStart(s[1..]) else s
  }

  /** Drops trailing whitespace: the result is a prefix of `s`, everything
      dropped is whitespace, and the result does not end with whitespace. */
  function TrimEnd(s: string): (r: string)
    ensures |r| <= |s| && r == s[..|r|]
    ensures AllSpace(s[|r|..])
    ensures r != [] ==> !IsSpace(r[|r| - 1])
  {
    if s != [] && IsSpace(s[|s| - 1]) then TrimEnd(s[..|s| - 1]) else s
  }

  /** Python's `s.strip()`. */
  function Strip(s: string): string {
    TrimEnd(TrimStart(s))
  }

  /** Where the stripped text starts inside `s`. */
  function StripOffset(s: string): nat
    ensures StripOffset(s) <= |s|
  {
    |s| - |TrimStart(s)|
  }

  /** `Strip(s)` is the slice of `s` left once the whitespace on both ends is
      removed: it sits at `StripOffset(s)`, all that lies outside it is
      whitespace, and it neither starts nor ends with whitespace. */
  lemma StripIsSlice(s: string)
    ensures StripOffset(s) + |Strip(s)| <= |s|
    ensures Strip(s) == s[StripOffset(s)..StripOffset(s) + |Strip(s)|]
    ensures AllSpace(s[..StripOffset(s)])
    ensures AllSpace(s[StripOffset(s) + |Strip(s)|..])
    ensures Strip(s) != [] ==> !IsSpace(Strip(s)[0]) && !IsSpace(Strip(s)[|Strip(s)| - 1])
  {
    var t := TrimStart(s);
    var i := StripOffset(s);
    var r := Strip(s);
    assert t == s[i..];
    assert r == t[..|r|];
    assert t[|r|..] == s[i + |r|..];
  }

  /** The stripped text is empty exactly when the input is all whitespace
      (the empty string included). */
  lemma StripEmptyIff(s: string)
    ensures Strip(s) == [] <==> AllSpace(s)
  {
    StripIsSlice(s);
    var t := TrimStart(s);
    if Strip(s) == [] {
      assert AllSpace(t[|Strip(s)|..]);
      assert t == [];
      assert s[..StripOffset(s)] == s;
    } else {
      assert Strip(s)[0] == s[StripOffset(s)];
    }
  }

  /** Stripping twice strips nothing more. */
  lemma StripIdempotent(s: string)
    ensures Strip(Strip(s)) == Strip(s)
  {
    var r := Strip(s);
    StripIsSlice(s);
    StripIsSlice(r);
    if r != [] {
      assert TrimStart(r) == r;
      assert TrimEnd(r) == r;
    }
  }

  /** Whitespace in front of text that does not start with whitespace is
      exactly what `TrimStart` drops. */
  lemma {:induction false} TrimStartOf(a: string, x: string)
    requires AllSpace(a)
    requires x != [] ==> !IsSpace(x[0])
    ensures TrimStart(a + x) == TrimStart(x)
  {
    if a != [] {
      assert (a + x)[1..] == a[1..] + x;
      TrimStartOf(a[1..], x);
    }
  }

  /** Whitespace after text that does not end with whitespace is exactly what
      `TrimEnd` drops. */
  lemma {:induction false} TrimEndOf(x: string, b: string)
    requires AllSpace(b)
    requires x != [] ==> !IsSpace(x[|x| - 1])
    ensures TrimEnd(x + b) == TrimEnd(x)
  {
    if b != [] {
      assert (x + b)[..|x + b| - 1] == x + b[..|b| - 1];
      TrimEndOf(x, b[..|b| - 1]);
    }
  }

  /** Conversely to `StripIsSlice`: text with no whitespace at either end,
      surrounded by whitespace only, is what `Strip` returns. */
  lemma StripOf(a: string, x: string, b: string)
    requires AllSpace(a) && AllSpace(b)
    requires x != [] ==> !IsSpace(x[0]) && !IsSpace(x[|x| - 1])
    ensures Strip(a + x + b) == x
  {
    if x == [] {
      assert a + x + b == a + b;
      StripEmptyIff(a + b);
    } else {
      assert a + x + b == a + (x + b);
      TrimStartOf(a, x + b);
      assert TrimStart(x + b) == x + b;
      TrimEndOf(x, b);
    }
  }

  const Capitals: string := "ABCDEFGHIJKLMNOPQRSTUVWXYZ"
  const Smalls: string := "abcdefghijklmnopqrstuvwxyz"

  /** Python's `str.lower()` on one character, for the ASCII letters: each
      capital becomes the small letter at the same place in the alphabet,
      and every other character is kept. */
  function LowerChar(c: char): (d: char)
    ensures forall i :: 0 <= i < |Capitals| && c == Capitals[i] ==> d == Smalls[i]
    ensures c !in Capitals ==> d == c
  {
    if 'A' <= c <= 'Z' then (c as int - 'A' as int + 'a' as int) as char else c
  }

  /** Python's `s.lower()`: each character lowered in place. */
  function Lower(s: string): string {
    seq(|s|, k requires 0 <= k < |s| => LowerChar(s[k]))
  }

  /** Lowering leaves no upper-case ASCII letter and is idempotent. */
  lemma LowerIsLower(s: string)
    ensures forall k :: 0 <= k < |Lower(s)| ==> !('A' <= Lower(s)[k] <= 'Z')
    ensures Lower(Lower(s)) == Lower(s)
  {
  }

  /** Lowering changes nothing exactly when there is no capital to lower. */
  lemma LowerFixedIff(s: string)
    ensures Lower(s) == s <==> forall k :: 0 <= k < |s| ==> s[k] !in Capitals
  {
    if Lower(s) == s {
      forall k | 0 <= k < |s| ensures s[k] !in Capitals {
        assert Lower(s)[k] == s[k];
      }
    }
  }

  /** `k` occurs in `s` starting at index `i`. */
  predicate OccursAt(s: string, k: string, i: nat) {
    i + |k| <= |s| && s[i..i + |k|] == k
  }

  /** `s` begins with `k`, compared character by character. */
  predicate StartsWith(s: string, k: string) {
    k == [] || (s != [] && s[0] == k[0] && StartsWith(s[1..], k[1..]))
  }

  /** `StartsWith` is the prefix relation on sequences. */
  lemma {:induction false} StartsWithIff(s: string, k: string)
    ensures StartsWith(s, k) <==> |k| <= |s| && s[..|k|] == k
  {
    if k != [] && s != [] {
      StartsWithIff(s[1..], k[1..]);
      if |k| <= |s| && s[..|k|] == k {
        assert s[1..][..|k| - 1] == s[..|k|][1..];
      }
    }
  }

  /** Python's `k in s` for strings: is `k` a contiguous piece of `s`?
      The empty string is in every string. */
  function Contains(s: string, k: string): bool {
    StartsWith(s, k) || (s != [] && Contains(s[1..], k))
  }

  /** `Contains` holds exactly when some position of `s` starts an occurrence
      of `k`. */
  lemma {:induction false} ContainsIff(s: string, k: string)
    ensures Contains(s, k) <==> exists i: nat :: OccursAt(s, k, i)
  {
    StartsWithIff(s, k);
    if |k| <= |s| && s[..|k|] == k {
      assert OccursAt(s, k, 0);
    } else if s == [] {
      assert forall i: nat :: !OccursAt(s, k, i);
    } else {
      ContainsIff(s[1..], k);
      forall i: nat ensures OccursAt(s[1..], k, i) <==> OccursAt(s, k, i + 1) {
        OccursShift(s, k, i);
      }
      assert !OccursAt(s, k, 0);
      if exists i: nat :: OccursAt(s, k, i) {
        var i: nat :| OccursAt(s, k, i);
        assert OccursAt(s[1..], k, i - 1);
      }
    }
  }

  /** An occurrence in the tail is an occurrence one place further on. */
  lemma OccursShift(s: string, k: string, i: nat)
    requires s != []
    ensures OccursAt(s[1..], k, i) <==> OccursAt(s, k, i + 1)
  {
    if i + 1 + |k| <= |s| {
      assert s[1..][i..i + |k|] == s[i + 1..i + 1 + |k|];
    }
  }

  /** A piece of a string is contained in it. */
  lemma SliceContained(s: string, i: nat, j: nat)
    requires i <= j <= |s|
    ensures Contains(s, s[i..j])
  {
    assert OccursAt(s, s[i..j], i);
    ContainsIff(s, s[i..j]);
  }

  /** A keyword with a character that `s` lacks is not contained in `s`. */
  lemma AbsentCharNotContained(s: string, k: string, j: nat)
    requires j < |k| && k[j] !in s
    ensures !Contains(s, k)
  {
    ContainsIff(s, k);
  }

  /** Python's `any(k in s for k in keywords)`: true exactly when one of the
      keywords is contained in `s`. */
  function AnyIn(s: string, keywords: seq<string>): (b: bool)
    ensures b <==> exists j :: 0 <= j < |keywords| && Contains(s, keywords[j])
  {
    if keywords == [] then false
    else Contains(s, keywords[0]) || AnyIn(s, keywords[1..])
  }
}
