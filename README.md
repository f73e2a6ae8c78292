# HSTS preload lookup and upgrading transport

A Dafny model of the Go package `hsts`, which answers whether a host is on the
Chromium HSTS preload list and wraps an `http.RoundTripper` so that plain `http`
requests to preloaded hosts are sent as `https`.

- `go_strings.dfy` (module `GoStrings`): the parts of Go's `strings` package the
  lookup calls (`TrimSuffix`, `IndexByte`, `ToLower`), plus `Count`, the number
  of occurrences of a byte, which the specifications use. A Go string is a byte
  sequence; here each `char` stands for one byte.
- `hsts.dfy` (module `Hsts`): `NthLastIndexOf` and `IsPreloaded` as methods with
  loops, proved against the ghost specification `Preloaded`. `Preloaded` trims one
  trailing dot, applies the conversion and then calls `Lookup`. `Lookup` says which
  table is consulted and which suffixes are probed. `Covered` says the suffix walk
  succeeds: the host, or a part that follows one of its dots, is an inclusive entry.
  The two generated tables are one `PreloadList` value. `idna.ToASCII` is the
  function parameter `toAscii`.
- `hsts_properties.dfy` (module `HstsProperties`): lemmas about `Preloaded` and
  `Lookup`. They cover which table is used when, truncation at the 4th-from-last dot,
  subdomain coverage, case and trailing dots.
- `transport.dfy` (module `Transport`): the `Transport` class and the request
  rewrite and base choice in `RoundTrip`. `Request` is a class because the source
  updates a request's fields in place (on a copy). The URL is a value record.

Behaviour worth knowing, proved from the code as written:

- An inclusive entry with at most three dots covers every subdomain, whatever the
  number of labels in front of it (`SubdomainOfInclusiveEntry`). With four or more, the cut at the 4th-from-last dot falls inside the entry, so
  `x.a.b.c.d.e` is not found through the entry `a.b.c.d.e`
  (`DeepInclusiveEntryNotInherited`). So the claim that every subdomain of an
  inclusive entry is covered does not hold in general. The model follows the code.
- The exact table is looked up before lower-casing, so an exact entry is missed
  when the host differs from it only in case (`ExactTableIsCaseSensitive`). The
  inclusive tier ignores case (`InclusiveMatchIgnoresCase`). The code shows no
  intent either way, so this is recorded as behaviour and not as a finding.

## Model

| member | source | states |
|---|---|---|
| `Hsts.NthLastIndexOf` | hsts.go:14-24 | result is -1 or an index holding `b`; for n >= 1 it is an index iff `s` has at least n occurrences of `b`; then exactly n occurrences lie from it to the end; n <= 0 always gives -1 |
| `Hsts.NthLastExists` | hsts.go:14-24 | when `s` has at least n >= 1 occurrences, an n-th-from-last occurrence exists |
| `Hsts.NthLastUnique` | hsts.go:14-24 | at most one index is the n-th occurrence from the right, so the result is determined |
| `Hsts.WalkSuffixes` | hsts.go:44-55 | the walk returns true iff the host, or some part that follows one of its dots, is an inclusive entry; it terminates because each round strictly shortens the host |
| `Hsts.IsPreloaded` | hsts.go:27-56 | result equals `Preloaded`; a host that is empty after trimming one dot and converting is never preloaded |
| `HstsProperties.PreloadedWithoutConversion` | hsts.go:29-30 | with no conversion, the answer is the lookup of the host minus one trailing dot |
| `HstsProperties.EmptyHostsNotPreloaded` | hsts.go:29-33 | with no conversion, `""` and `"."` are not preloaded |
| `HstsProperties.ExactTableBelowFourDots` | hsts.go:35-42 | a non-empty converted host with fewer than four dots that is an exact entry is preloaded; with four or more dots the exact table has no influence |
| `HstsProperties.LeftOfFourthDotIgnored` | hsts.go:35-37 | for a tail that starts with a dot and holds four dots, the lookup of `prefix + tail` equals that of `tail` |
| `HstsProperties.FourthLastDotInsideEntry` | hsts.go:35-37 | in `sub.entry` with dot-free `sub` and an entry of four or more dots, the 4th-from-last dot lies inside the entry |
| `HstsProperties.SubdomainLookup` | hsts.go:35-54 | after conversion, `sub.entry` is found through a lower-case inclusive entry with at most three dots, for any `sub`, dots included: the 4th-from-last dot is never inside the entry |
| `HstsProperties.SubdomainOfInclusiveEntry` | hsts.go:27-56 | with no conversion, `sub.entry` is preloaded for every `sub` and every lower-case inclusive entry with at most three dots |
| `HstsProperties.CountSuffixMonotone` | hsts.go:14-24 | moving a position left never lowers the number of occurrences to its right |
| `HstsProperties.ExactEntryLookup` | hsts.go:35-54 | after conversion, with one exact entry and no inclusive entries, the entry itself is found when it has fewer than four dots, and no `sub.entry` with non-empty `sub` is found |
| `HstsProperties.ExactEntryDoesNotCoverSubdomains` | hsts.go:27-56 | with no conversion, an exact entry with at most three dots is preloaded, but none of its subdomains is |
| `HstsProperties.CoveredAfterSubdomainDot` | hsts.go:44-54 | the walk over lower-cased `sub.entry` succeeds when `entry` is a lower-case inclusive entry |
| `HstsProperties.DeepInclusiveEntryNotInherited` | hsts.go:35-37 | when the only inclusive entry has four or more dots, `sub.entry` is not preloaded |
| `HstsProperties.ExactTableIsCaseSensitive` | hsts.go:39-44 | the lower-case form of a host that is an exact entry is preloaded, while the host itself is not |
| `HstsProperties.LookupIgnoresCase` | hsts.go:44-54 | with an empty exact table, the lookup of a converted host and of its lower-case form agree |
| `HstsProperties.InclusiveMatchIgnoresCase` | hsts.go:27-56 | with an empty exact table and no conversion, a host and its lower-case form get the same answer |
| `HstsProperties.TrailingDotIgnored` | hsts.go:29 | for any conversion, appending one dot to a host that does not end in a dot changes nothing |
| `Transport.Transport.RoundTrip` | hsts.go:68-87 | a request is rewritten iff the scheme is `http`, the port is `""` or `"80"` and the hostname is preloaded; the rewrite is a newly allocated request with scheme `https`, no port and every other field equal; any other request is handed over unchanged; the base is `Base` when non-null, else the default transport; the caller's request is never written |
| `Transport.Request.WithContext` | hsts.go:76 | the copy is a new request with the same method, URL, header and body |
| `Transport.Transport.constructor` | hsts.go:61-65 | the transport keeps the base it is given |
| `Transport.UpgradedRequestIsFinal` | hsts.go:71-78 | for every URL, the rewritten URL does not meet the rewrite condition, so stacked transports upgrade a request at most once |
| `GoStrings.IndexByte` | hsts.go:49 | the index of the first occurrence of the byte, or -1 exactly when there is none |
| `GoStrings.TrimSuffix` | hsts.go:29 | removes the suffix when the string ends with it, else returns the string unchanged |
| `GoStrings.ToLower` | hsts.go:44 | same length; each byte becomes its ASCII lower-case form |
| `GoStrings.LowerKeepsDotCount` | hsts.go:44 | lower-casing keeps the number of dots, so the cut position does not depend on case |

## Left out

- `idna.ToASCII` is the parameter `toAscii`; Punycode is not modelled, and its error is discarded as in the source.
- `GoStrings.ToLower`: ASCII-only lower-casing; the Unicode case mapping of `strings.ToLower` is not modelled. After a successful conversion the host is ASCII, where the two agree.
- The generated tables `domains` and `domainsIncludingSubdomains` (hsts_preload.go) and their generator are not part of this model; they are the `PreloadList` parameter.
- `base.RoundTrip(req)` (hsts.go:86): network I/O and the response are not modelled. `RoundTrip` returns the chosen round tripper and the request it would be given.
- `http.DefaultTransport` is the parameter `defaultTransport`.
- `url.URL` parsing: the URL is a record with the hostname and port already split, as `Hostname()` and `Port()` return them. IPv6 brackets and the `host:port` syntax are not modelled. Path and query stand for every other URL field.
- `Transport.Request.WithContext`: the request context is not modelled. The header map and body are values, so the sharing of the header map and body between a request and its shallow copy is not captured.
- Concurrency: the package has no shared mutable state, so nothing is claimed about it.
