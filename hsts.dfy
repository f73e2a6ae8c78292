/** The HSTS preload lookup: finding the n-th-from-last occurrence of a byte,
    and deciding whether a host is on the preloaded list. */
module Hsts {
  import opened GoStrings

  /** The two generated preload tables: `domains` holds the entries that cover only
      themselves, `domainsIncludingSubdomains` the entries that also cover every
      subdomain. */
  datatype PreloadList = PreloadList(domains: set<string>, domainsIncludingSubdomains: set<string>)

  /** `i` is the position of the n-th occurrence of `b` counted from the right. */
  ghost predicate IsNthLast(s: string, b: char, n: int, i: int)
  {
    0 <= i < |s| && s[i] == b && Count(s[i..], b) == n
  }

  /** An n-th-from-last occurrence exists as soon as there are n occurrences. */
  lemma {:induction false} NthLastExists(s: string, b: char, n: int)
    requires 1 <= n <= Count(s, b)
    ensures exists i :: IsNthLast(s, b, n, i)
  {
    if Count(s[1..], b) >= n {
      NthLastExists(s[1..], b, n);
      var j :| IsNthLast(s[1..], b, n, j);
      assert s[1..][j..] == s[j + 1..];
      assert IsNthLast(s, b, n, j + 1);
    } else {
      assert s[0..] == s;
      assert IsNthLast(s, b, n, 0);
    }
  }

  /** There is at most one n-th-from-last occurrence. */
  lemma NthLastUnique(s: string, b: char, n: int, i: int, j: int)
    requires IsNthLast(s, b, n, i) && IsNthLast(s, b, n, j)
    ensures i == j
  {
    if i < j {
      NthLastBefore(s, b, i, j);
    } else if j < i {
      NthLastBefore(s, b, j, i);
    }
  }

  /** An occurrence of `b` further left has strictly more occurrences to its right. */
  lemma NthLastBefore(s: string, b: char, i: int, j: int)
    requires 0 <= i < j <= |s| && s[i] == b
    ensures Count(s[i..], b) > Count(s[j..], b)
  {
    CountSplit(s[i..], j - i, b);
    assert s[i..][j - i..] == s[j..];
    assert s[i..][..j - i][0] == b;
  }

  /** The position of the n-th occurrence of `b` from the right, or -1 when `s`
      holds fewer than n occurrences (always -1 for n < 1). */
  ghost function NthLast(s: string, b: char, n: int): (i: int)
    ensures i == -1 || IsNthLast(s, b, n, i)
  {
    if 1 <= n <= Count(s, b) then
      NthLastExists(s, b, n);
      var i :| IsNthLast(s, b, n, i); i
    else -1
  }

  /** NthLastIndexOf scans `s` from the right and decrements `n` at every `b`;
      the index at which `n` reaches 0 is returned, -1 when the scan ends first. */
  method NthLastIndexOf(s: string, b: char, n: int) returns (r: int)
    ensures r == -1 || (0 <= r < |s| && s[r] == b)
    ensures n >= 1 ==> (r >= 0 <==> Count(s, b) >= n)
    ensures r >= 0 ==> Count(s[r..], b) == n
    ensures n <= 0 ==> r == -1
    ensures r == NthLast(s, b, n)
  {
    var k := n;
    var i := |s| - 1;
    while i >= 0
      invariant -1 <= i < |s|
      invariant k == n - Count(s[i + 1..], b)
      invariant n >= 1 ==> k >= 1
    {
      assert s[i..][1..] == s[i + 1..];
      if s[i] == b {
        k := k - 1;
        if k == 0 {
          CountSplit(s, i, b);
          NthLastUnique(s, b, n, i, NthLast(s, b, n));
          return i;
        }
      }
      i := i - 1;
    }
    assert s[0..] == s;
    return -1;
  }

  /** The suffix walk succeeds: some probe of `h` is an inclusive entry. */
  ghost predicate Covered(h: string, inclusive: set<string>)
  {
    h in inclusive || exists i :: 0 <= i < |h| && h[i] == '.' && h[i + 1..] in inclusive
  }

  /** The lookup after trimming and ASCII conversion: a host with four or more dots is
      cut to its suffix from the 4th-from-last dot and never meets the exact table; a
      shorter host is a hit when it is an exact entry as it stands; otherwise the
      lower-cased (possibly cut) host must be covered by an inclusive entry. */
  ghost predicate Lookup(list: PreloadList, h: string)
  {
    h != "" &&
    if Count(h, '.') >= 4 then
      Covered(ToLower(h[NthLast(h, '.', 4)..]), list.domainsIncludingSubdomains)
    else
      h in list.domains || Covered(ToLower(h), list.domainsIncludingSubdomains)
  }

  /** What IsPreloaded answers for `host`, with `toAscii` standing for idna.ToASCII. */
  ghost predicate Preloaded(list: PreloadList, toAscii: string -> string, host: string)
  {
    Lookup(list, toAscii(TrimSuffix(host, ".")))
  }

  /** The suffix walk: probe `host`, then drop everything up to and including the
      first dot, until no dot is left. */
  method WalkSuffixes(host: string, inclusive: set<string>) returns (found: bool)
    ensures found <==> Covered(host, inclusive)
  {
    var h := host;
    ghost var p := 0;
    while true
      invariant 0 <= p <= |host| && h == host[p..]
      invariant p == 0 || host[p - 1] == '.'
      invariant forall q :: 0 <= q < p && (q == 0 || host[q - 1] == '.') ==> host[q..] !in inclusive
      decreases |h|
    {
      if h in inclusive {
        if p > 0 {
          assert host[p - 1] == '.' && host[p - 1 + 1..] in inclusive;
        }
        return true;
      }
      var idx := IndexByte(h, '.');
      if idx < 0 {
        break;
      }
      h := h[idx + 1..];
      p := p + idx + 1;
    }
    return false;
  }

  /** IsPreloaded reports whether `host` is on the preloaded list. `toAscii` stands for
      idna.ToASCII, whose error is discarded. */
  method IsPreloaded(list: PreloadList, toAscii: string -> string, host: string) returns (r: bool)
    ensures toAscii(TrimSuffix(host, ".")) == "" ==> !r
    ensures r == Preloaded(list, toAscii, host)
  {
    var h := TrimSuffix(host, ".");
    h := toAscii(h);
    if h == "" {
      return false;
    }
    ghost var converted := h;
    var extraDotIndex := NthLastIndexOf(h, '.', 4);
    if extraDotIndex >= 0 {
      h := h[extraDotIndex..];
    } else {
      if h in list.domains {
        return true;
      }
    }
    h := ToLower(h);
    r := WalkSuffixes(h, list.domainsIncludingSubdomains);
  }
}
