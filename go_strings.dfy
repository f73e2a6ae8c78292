/** The few operations of Go's `strings` package that the preload lookup uses.
    A Go string is a sequence of bytes; here each `char` stands for one byte. */
module GoStrings {

  /** Number of occurrences of the byte `b` in `s`. */
  function Count(s: string, b: char): (c: nat)
    ensures c <= |s|
    ensures c == 0 <==> b !in s
  {
    if s == [] then 0 else (if s[0] == b then 1 else 0) + Count(s[1..], b)
  }

  /** Counting distributes over concatenation. */
  lemma {:induction false} CountAppend(s: string, t: string, b: char)
    ensures Count(s + t, b) == Count(s, b) + Count(t, b)
  {
    if s != [] {
      assert (s + t)[1..] == s[1..] + t;
      CountAppend(s[1..], t, b);
    } else {
      assert s + t == t;
    }
  }

  /** Splitting `s` at `i` splits its count. */
  lemma CountSplit(s: string, i: nat, b: char)
    requires i <= |s|
    ensures Count(s, b) == Count(s[..i], b) + Count(s[i..], b)
  {
    assert s == s[..i] + s[i..];
    CountAppend(s[..i], s[i..], b);
  }

  /** strings.IndexByte: the index of the first `b` in `s`, or -1 when there is none. */
  function IndexByte(s: string, b: char): (r: int)
    ensures -1 <= r < |s|
    ensures r == -1 <==> b !in s
    ensures r >= 0 ==> s[r] == b && b !in s[..r]
  {
    if s == [] then -1
    else if s[0] == b then 0
    else
      var k := IndexByte(s[1..], b);
      if k < 0 then -1 else k + 1
  }

  /** strings.TrimSuffix: `s` without `suffix` if it ends with it, else `s` unchanged. */
  function TrimSuffix(s: string, suffix: string): (r: string)
    ensures |suffix| <= |s| && s[|s| - |suffix|..] == suffix ==> r + suffix == s
    ensures !(|suffix| <= |s| && s[|s| - |suffix|..] == suffix) ==> r == s
  {
    if |suffix| <= |s| && s[|s| - |suffix|..] == suffix then s[..|s| - |suffix|] else s
  }

  /** ASCII lower-casing of one byte. */
  function LowerByte(c: char): char
  {
    if 'A' <= c <= 'Z' then (c as int + ('a' as int - 'A' as int)) as char else c
  }

  /** strings.ToLower, restricted to ASCII: every upper-case letter becomes lower case,
      every other byte is kept. */
  function ToLower(s: string): (r: string)
    ensures |r| == |s|
    ensures forall i :: 0 <= i < |s| ==> r[i] == LowerByte(s[i])
  {
    seq(|s|, i requires 0 <= i < |s| => LowerByte(s[i]))
  }

  /** Lower-casing keeps every dot where it is and creates no new one. */
  lemma LowerKeepsDots(s: string, i: nat)
    requires i < |s|
    ensures ToLower(s)[i] == '.' <==> s[i] == '.'
  {
  }

  /** Lower-casing is idempotent. */
  lemma LowerIdempotent(s: string)
    ensures ToLower(ToLower(s)) == ToLower(s)
  {
  }

  /** Lower-casing commutes with taking a suffix. */
  lemma LowerSuffix(s: string, i: nat)
    requires i <= |s|
    ensures ToLower(s)[i..] == ToLower(s[i..])
  {
  }

  /** Lower-casing distributes over concatenation. */
  lemma LowerAppend(s: string, t: string)
    ensures ToLower(s + t) == ToLower(s) + ToLower(t)
  {
  }

  /** Lower-casing leaves a leading dot alone. */
  lemma LowerPrependDot(s: string)
    ensures ToLower("." + s) == "." + ToLower(s)
  {
    assert LowerByte('.') == '.';
  }

  /** Lower-casing keeps the number of dots. */
  lemma {:induction false} LowerKeepsDotCount(s: string)
    ensures Count(ToLower(s), '.') == Count(s, '.')
  {
    if s != [] {
      assert ToLower(s)[1..] == ToLower(s[1..]);
      LowerKeepsDotCount(s[1..]);
    }
  }
}
