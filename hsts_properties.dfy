/** Properties of the preload lookup that relate several calls or hold for all inputs. */
module HstsProperties {
  import opened GoStrings
  import opened Hsts

  /** A conversion that leaves every host as it is (a host already in ASCII form). */
  function AsciiIdentity(s: string): string { s }

  /** Without conversion, IsPreloaded looks up the host minus one trailing dot. */
  lemma PreloadedWithoutConversion(list: PreloadList, host: string)
    ensures Preloaded(list, AsciiIdentity, host) == Lookup(list, TrimSuffix(host, "."))
    ensures host == "" || host[|host| - 1] != '.' ==>
      Preloaded(list, AsciiIdentity, host) == Lookup(list, host)
  {
  }

  /** Only a host that is empty after trimming and conversion is cut short:
      with no conversion, "" and "." are never preloaded. */
  lemma EmptyHostsNotPreloaded(list: PreloadList)
    ensures !Preloaded(list, AsciiIdentity, "")
    ensures !Preloaded(list, AsciiIdentity, ".")
  {
  }

  /** The exact table is consulted only for a converted host with fewer than four dots,
      as that host stands, and a hit there is enough. */
  lemma ExactTableBelowFourDots(list: PreloadList, other: set<string>, toAscii: string -> string, host: string)
    ensures var h := toAscii(TrimSuffix(host, "."));
      h != "" && Count(h, '.') < 4 && h in list.domains ==> Preloaded(list, toAscii, host)
    ensures var h := toAscii(TrimSuffix(host, "."));
      Count(h, '.') >= 4 ==>
        Preloaded(list, toAscii, host) == Preloaded(list.(domains := other), toAscii, host)
  {
  }

  /** Once a host has four or more dots, everything left of its 4th-from-last dot is
      ignored: the lookup of `prefix + tail` equals that of `tail`, where `tail` is the
      part from that dot on. */
  lemma LeftOfFourthDotIgnored(list: PreloadList, prefix: string, tail: string)
    requires |tail| > 0 && tail[0] == '.' && Count(tail, '.') == 4
    ensures Lookup(list, prefix + tail) == Lookup(list, tail)
  {
    var h := prefix + tail;
    CountAppend(prefix, tail, '.');
    assert h[|prefix|..] == tail;
    NthLastUnique(h, '.', 4, |prefix|, NthLast(h, '.', 4));
    assert tail[0..] == tail;
    NthLastUnique(tail, '.', 4, 0, NthLast(tail, '.', 4));
  }

  /** A probe that follows a dot of `h` makes the walk succeed. */
  lemma CoveredAfterDot(h: string, i: int, inclusive: set<string>)
    requires 0 <= i < |h| && h[i] == '.' && h[i + 1..] in inclusive
    ensures Covered(h, inclusive)
  {
  }

  /** After conversion, `sub.entry` is found through the inclusive entry `entry`
      whenever the entry has at most three dots, however many labels `sub` has: the cut
      at the 4th-from-last dot never falls inside the entry. */
  lemma SubdomainLookup(list: PreloadList, sub: string, entry: string)
    requires entry in list.domainsIncludingSubdomains && ToLower(entry) == entry
    requires Count(entry, '.') <= 3
    ensures Lookup(list, sub + "." + entry)
  {
    var host := sub + "." + entry;
    var inclusive := list.domainsIncludingSubdomains;
    if Count(host, '.') >= 4 {
      var k := NthLast(host, '.', 4);
      assert host[|sub| + 1..] == entry;
      if k > |sub| {
        CountSuffixMonotone(host, |sub| + 1, k, '.');
      }
      assert host[k..] == sub[k..] + "." + entry;
      CoveredAfterSubdomainDot(sub[k..], entry, inclusive);
    } else {
      CoveredAfterSubdomainDot(sub, entry, inclusive);
    }
  }

  /** Every subdomain `sub.entry` of a lower-case inclusive entry with at most three
      dots is preloaded, whatever `sub` is. */
  lemma SubdomainOfInclusiveEntry(list: PreloadList, sub: string, entry: string)
    requires entry in list.domainsIncludingSubdomains
    requires entry != "" && entry[|entry| - 1] != '.' && ToLower(entry) == entry
    requires Count(entry, '.') <= 3
    ensures Preloaded(list, AsciiIdentity, sub + "." + entry)
  {
    var host := sub + "." + entry;
    SubdomainLookup(list, sub, entry);
    assert host[|host| - 1] == entry[|entry| - 1];
    PreloadedWithoutConversion(list, host);
  }

  /** After conversion, an exact entry does not cover a subdomain of it: the subdomain is
      longer than the entry, and only inclusive entries are probed after its dots. */
  lemma ExactEntryLookup(list: PreloadList, sub: string, entry: string)
    requires list.domains == {entry} && list.domainsIncludingSubdomains == {}
    requires sub != ""
    ensures !Lookup(list, sub + "." + entry)
    ensures entry != "" && Count(entry, '.') < 4 ==> Lookup(list, entry)
  {
  }

  /** An exact entry with at most three dots is preloaded itself, but none of its
      subdomains is. */
  lemma ExactEntryDoesNotCoverSubdomains(list: PreloadList, sub: string, entry: string)
    requires list.domains == {entry} && list.domainsIncludingSubdomains == {}
    requires entry != "" && entry[|entry| - 1] != '.' && Count(entry, '.') < 4
    requires sub != ""
    ensures Preloaded(list, AsciiIdentity, entry)
    ensures !Preloaded(list, AsciiIdentity, sub + "." + entry)
  {
    var host := sub + "." + entry;
    ExactEntryLookup(list, sub, entry);
    assert host[|host| - 1] == entry[|entry| - 1];
    PreloadedWithoutConversion(list, host);
    PreloadedWithoutConversion(list, entry);
  }

  /** The walk over a lower-cased `sub.entry` reaches `entry` right after the first dot. */
  lemma CoveredAfterSubdomainDot(sub: string, entry: string, inclusive: set<string>)
    requires entry in inclusive && ToLower(entry) == entry
    ensures Covered(ToLower(sub + "." + entry), inclusive)
  {
    var lowered := ToLower(sub + "." + entry);
    var prefix := ToLower(sub);
    assert sub + "." + entry == sub + ("." + entry);
    LowerAppend(sub, "." + entry);
    LowerPrependDot(entry);
    assert lowered == prefix + ("." + entry);
    assert lowered[|prefix| + 1..] == entry;
    CoveredAfterDot(lowered, |prefix|, inclusive);
  }

  /** The walk cannot succeed when every inclusive entry is longer than the host. */
  lemma NotCoveredByLongerEntries(h: string, inclusive: set<string>)
    requires forall e :: e in inclusive ==> |e| > |h|
    ensures !Covered(h, inclusive)
  {
  }

  /** Occurrences to the right of a position only grow as the position moves left. */
  lemma CountSuffixMonotone(s: string, i: nat, j: nat, b: char)
    requires i <= j <= |s|
    ensures Count(s[i..], b) >= Count(s[j..], b)
  {
    CountSplit(s[i..], j - i, b);
    assert s[i..][j - i..] == s[j..];
  }

  /** The 4th-from-last dot of `sub.entry` lies inside `entry` when `entry` has four or
      more dots. */
  lemma FourthLastDotInsideEntry(sub: string, entry: string)
    requires '.' !in sub && Count(entry, '.') >= 4
    ensures var h := sub + "." + entry;
      Count(h, '.') >= 4 && |sub| < NthLast(h, '.', 4) < |h|
  {
    var h := sub + "." + entry;
    assert h == sub + ("." + entry);
    CountAppend(sub, "." + entry, '.');
    CountAppend(".", entry, '.');
    assert h[|sub|..] == "." + entry;
  }

  /** An inclusive entry with four or more dots does not cover its subdomains: the cut at
      the 4th-from-last dot falls inside the entry, so every probe is shorter than it. */
  lemma DeepInclusiveEntryNotInherited(list: PreloadList, sub: string, entry: string)
    requires list.domainsIncludingSubdomains == {entry} && Count(entry, '.') >= 4
    requires entry[0] != '.' && entry[|entry| - 1] != '.' && '.' !in sub
    ensures !Preloaded(list, AsciiIdentity, sub + "." + entry)
  {
    var h := sub + "." + entry;
    assert h[|h| - 1] == entry[|entry| - 1];
    assert !Lookup(list, h) by {
      FourthLastDotInsideEntry(sub, entry);
      var k := NthLast(h, '.', 4);
      assert h[|sub| + 1] == entry[0];
      NotCoveredByLongerEntries(ToLower(h[k..]), {entry});
    }
    PreloadedWithoutConversion(list, h);
  }

  /** The exact table is matched before lower-casing, so an exact entry is missed when
      the host differs from it in case only. */
  lemma ExactTableIsCaseSensitive(list: PreloadList, host: string)
    requires list.domainsIncludingSubdomains == {}
    requires host != "" && host[|host| - 1] != '.' && Count(host, '.') < 4
    requires ToLower(host) in list.domains && host !in list.domains
    ensures Preloaded(list, AsciiIdentity, ToLower(host))
    ensures !Preloaded(list, AsciiIdentity, host)
  {
    var l := ToLower(host);
    LowerKeepsDotCount(host);
    LowerKeepsDots(host, |host| - 1);
    NotCoveredByLongerEntries(ToLower(host), {});
    assert TrimSuffix(host, ".") == host;
    assert TrimSuffix(l, ".") == l;
    PreloadedWithoutConversion(list, host);
    PreloadedWithoutConversion(list, l);
  }

  /** Lower-casing keeps the 4th-from-last dot where it is. */
  lemma LowerKeepsNthLast(h: string, n: int)
    ensures NthLast(ToLower(h), '.', n) == NthLast(h, '.', n)
  {
    var l := ToLower(h);
    LowerKeepsDotCount(h);
    var i := NthLast(h, '.', n);
    var j := NthLast(l, '.', n);
    if i >= 0 {
      LowerSuffix(h, i);
      LowerKeepsDotCount(h[i..]);
      NthLastUnique(l, '.', n, i, j);
    }
  }

  /** Outside the exact table, the lookup of a converted host ignores case. */
  lemma LookupIgnoresCase(list: PreloadList, h: string)
    requires list.domains == {}
    ensures Lookup(list, ToLower(h)) == Lookup(list, h)
  {
    LowerKeepsDotCount(h);
    LowerKeepsNthLast(h, 4);
    var k := NthLast(h, '.', 4);
    if k >= 0 {
      LowerSuffix(h, k);
      LowerIdempotent(h[k..]);
    } else {
      LowerIdempotent(h);
    }
  }

  /** Trimming one trailing dot and lower-casing can be done in either order. */
  lemma TrimCommutesWithLower(host: string)
    ensures TrimSuffix(ToLower(host), ".") == ToLower(TrimSuffix(host, "."))
  {
    var h := TrimSuffix(host, ".");
    if |host| > 0 && host[|host| - 1] == '.' {
      assert host == h + ".";
      LowerAppend(h, ".");
      assert ToLower(".") == ".";
    } else if |host| > 0 {
      LowerKeepsDots(host, |host| - 1);
    }
  }

  /** Outside the exact table, matching ignores case. */
  lemma InclusiveMatchIgnoresCase(list: PreloadList, host: string)
    requires list.domains == {}
    ensures Preloaded(list, AsciiIdentity, ToLower(host)) == Preloaded(list, AsciiIdentity, host)
  {
    TrimCommutesWithLower(host);
    LookupIgnoresCase(list, TrimSuffix(host, "."));
    PreloadedWithoutConversion(list, host);
    PreloadedWithoutConversion(list, ToLower(host));
  }

  /** One trailing dot makes no difference, whatever the conversion. */
  lemma TrailingDotIgnored(list: PreloadList, toAscii: string -> string, host: string)
    requires host == "" || host[|host| - 1] != '.'
    ensures Preloaded(list, toAscii, host + ".") == Preloaded(list, toAscii, host)
  {
  }
}
