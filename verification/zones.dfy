/** Resolution of a validation record's name to the Route 53 hosted zone that
    owns it (`get_hosted_zone_id` and its nested helpers). */
module Zones {
  import opened Wrappers

  /** One entry of the `HostedZones` listing: `Id` is a path such as
      `/hostedzone/Z123`, `Name` a fully qualified name such as `example.com.`. */
  datatype HostedZone = HostedZone(id: string, name: string)

  /** What the public-suffix extractor reports for a host name, e.g.
      `www.example.co.uk` gives subdomain `www`, domain `example`, suffix `co.uk`. */
  datatype DomainParts = DomainParts(subdomain: string, domain: string, suffix: string)

  /** Python's `str.split(sep)`: the pieces between separators, from left to
      right; there is always at least one piece. */
  function Split(s: string, sep: char): (parts: seq<string>)
    ensures |parts| >= 1
    ensures forall i :: 0 <= i < |parts| ==> sep !in parts[i]
    decreases |s|
  {
    if |s| == 0 then [""]
    else
      var init := Split(s[..|s| - 1], sep);
      if s[|s| - 1] == sep then init + [""]
      else init[..|init| - 1] + [init[|init| - 1] + [s[|s| - 1]]]
  }

  /** The pieces glued back together with the separator between them. */
  function Join(parts: seq<string>, sep: char): string
    requires |parts| >= 1
  {
    if |parts| == 1 then parts[0]
    else Join(parts[..|parts| - 1], sep) + [sep] + parts[|parts| - 1]
  }

  /** Joining one more piece adds a separator and the piece. */
  lemma JoinSnoc(parts: seq<string>, piece: string, sep: char)
    requires |parts| >= 1
    ensures Join(parts + [piece], sep) == Join(parts, sep) + [sep] + piece
  {
    assert (parts + [piece])[..|parts|] == parts;
  }

  /** Extending the last piece by a character extends the joined string by it. */
  lemma JoinExtendLast(parts: seq<string>, c: char, sep: char)
    requires |parts| >= 1
    ensures var m := |parts|;
      Join(parts[..m - 1] + [parts[m - 1] + [c]], sep) == Join(parts, sep) + [c]
  {
    var m := |parts|;
    if m > 1 {
      var front := parts[..m - 1];
      assert parts == front + [parts[m - 1]];
      JoinSnoc(front, parts[m - 1] + [c], sep);
      JoinSnoc(front, parts[m - 1], sep);
    }
  }

  /** Splitting loses nothing: joining the pieces gives the string back. */
  lemma {:induction false} JoinSplit(s: string, sep: char)
    ensures Join(Split(s, sep), sep) == s
    decreases |s|
  {
    if |s| > 0 {
      var n := |s| - 1;
      var init := Split(s[..n], sep);
      JoinSplit(s[..n], sep);
      assert s == s[..n] + [s[n]];
      if s[n] == sep {
        JoinSnoc(init, "", sep);
      } else {
        JoinExtendLast(init, s[n], sep);
      }
    }
  }

  /** The last piece of a split is the longest separator-free suffix. */
  lemma {:induction false} SplitLastPiece(s: string, sep: char)
    ensures var parts := Split(s, sep);
      var last := parts[|parts| - 1];
      && |last| <= |s|
      && last == s[|s| - |last|..]
      && (|last| < |s| ==> s[|s| - |last| - 1] == sep)
    decreases |s|
  {
    if |s| > 0 {
      var n := |s| - 1;
      var p := s[..n];
      SplitLastPiece(p, sep);
      var init := Split(p, sep);
      var parts := Split(s, sep);
      if s[n] == sep {
        assert parts[|parts| - 1] == "";
      } else {
        var l := init[|init| - 1];
        var last := l + [s[n]];
        assert parts == init[..|init| - 1] + [last];
        assert parts[|parts| - 1] == last;
        var start := n - |l|;
        assert l == p[start..];
        assert p[start..] == s[start..n];
        assert s[start..] == s[start..n] + [s[n]];
        assert last == s[|s| - |last|..];
        if |last| < |s| {
          assert |l| < |p|;
          assert p[start - 1] == sep;
        }
      }
    }
  }

  /** `get_zone_id_from_id_string`: the text after the last `/` of a zone's
      `Id` (the whole string when it has no `/`). */
  function ZoneIdFromIdString(idString: string): (zoneId: string)
    ensures '/' !in zoneId
    ensures |zoneId| <= |idString| && zoneId == idString[|idString| - |zoneId|..]
    ensures |zoneId| < |idString| ==> idString[|idString| - |zoneId| - 1] == '/'
    ensures '/' !in idString ==> zoneId == idString
  {
    var parts := Split(idString, '/');
    SplitLastPiece(idString, '/');
    var zoneId := parts[|parts| - 1];
    assert |zoneId| < |idString| ==> idString[|idString| - |zoneId| - 1] in idString;
    zoneId
  }

  /** `get_domain_from_host`: the registrable domain of a host name, as the
      public-suffix extractor reports it, joined as `domain.suffix`. */
  function GetDomainFromHost(extract: string -> DomainParts, host: string): string
  {
    var info := extract(host);
    info.domain + "." + info.suffix
  }

  /** `domain_matches_hosted_zone`: the zone is named after the domain. */
  predicate DomainMatchesHostedZone(domain: string, zone: HostedZone)
  {
    zone.name == domain + "."
  }

  /** A zone matches a domain exactly when its name is the domain followed by
      one trailing dot and nothing else. */
  lemma DomainMatchIffTrailingDot(domain: string, zone: HostedZone)
    ensures DomainMatchesHostedZone(domain, zone) <==>
      && |zone.name| == |domain| + 1
      && zone.name[..|domain|] == domain
      && zone.name[|domain|] == '.'
  {
    if |zone.name| == |domain| + 1 && zone.name[..|domain|] == domain && zone.name[|domain|] == '.' {
      assert zone.name == zone.name[..|domain|] + [zone.name[|domain|]];
    }
  }

  /** The `filter` in `get_hosted_zone_id`: the zones whose name matches the
      domain, in listing order. */
  function MatchingZones(domain: string, zones: seq<HostedZone>): (r: seq<HostedZone>)
    ensures |r| <= |zones|
    ensures forall i :: 0 <= i < |r| ==> r[i] in zones && DomainMatchesHostedZone(domain, r[i])
    ensures forall i :: 0 <= i < |zones| && DomainMatchesHostedZone(domain, zones[i]) ==> zones[i] in r
  {
    if |zones| == 0 then []
    else
      var rest := MatchingZones(domain, zones[1..]);
      assert forall i :: 1 <= i < |zones| ==> zones[i] == zones[1..][i - 1];
      if DomainMatchesHostedZone(domain, zones[0]) then [zones[0]] + rest else rest
  }

  /** Filtering a single zone keeps it exactly when it matches. */
  lemma MatchingZonesOfOne(domain: string, zone: HostedZone)
    ensures MatchingZones(domain, [zone]) == if DomainMatchesHostedZone(domain, zone) then [zone] else []
  {
    assert [zone][1..] == [];
  }

  /** Filtering a concatenated listing filters each part and concatenates the
      results in the same order; with `MatchingZonesOfOne` this fixes the
      filter's result completely: matching zones in listing order, repeats kept. */
  lemma {:induction false} MatchingZonesAppend(domain: string, a: seq<HostedZone>, b: seq<HostedZone>)
    ensures MatchingZones(domain, a + b) == MatchingZones(domain, a) + MatchingZones(domain, b)
    decreases |a|
  {
    if |a| == 0 {
      assert a + b == b;
    } else {
      assert (a + b)[0] == a[0];
      assert (a + b)[1..] == a[1..] + b;
      MatchingZonesAppend(domain, a[1..], b);
    }
  }

  /** Position `k` holds the first zone of the listing that matches the domain. */
  ghost predicate IsFirstMatch(domain: string, zones: seq<HostedZone>, k: int)
  {
    && 0 <= k < |zones|
    && DomainMatchesHostedZone(domain, zones[k])
    && forall j :: 0 <= j < k ==> !DomainMatchesHostedZone(domain, zones[j])
  }

  /** The head of the filtered list is the first matching zone in listing order. */
  lemma {:induction false} MatchingZonesHead(domain: string, zones: seq<HostedZone>)
    ensures var r := MatchingZones(domain, zones);
      |r| > 0 ==> exists k :: IsFirstMatch(domain, zones, k) && zones[k] == r[0]
  {
    if |zones| > 0 {
      if DomainMatchesHostedZone(domain, zones[0]) {
        assert IsFirstMatch(domain, zones, 0);
      } else {
        var rest := zones[1..];
        MatchingZonesHead(domain, rest);
        var r := MatchingZones(domain, rest);
        assert MatchingZones(domain, zones) == r;
        if |r| > 0 {
          var k :| IsFirstMatch(domain, rest, k) && rest[k] == r[0];
          forall j | 0 <= j < k + 1
            ensures !DomainMatchesHostedZone(domain, zones[j])
          {
            if j > 0 {
              assert zones[j] == rest[j - 1];
            }
          }
          assert zones[k + 1] == rest[k];
          assert IsFirstMatch(domain, zones, k + 1);
        }
      }
    }
  }

  /** `get_hosted_zone_id`: filter the listing by the registrable domain of the
      record name and take the id of the first zone left; none when the filter
      leaves nothing (`get_hosted_zone_id` fails on it). */
  function GetHostedZoneId(extract: string -> DomainParts, zones: seq<HostedZone>, recordName: string): Option<string>
  {
    var hostedZoneDomain := GetDomainFromHost(extract, recordName);
    var targetRecord := MatchingZones(hostedZoneDomain, zones);
    if |targetRecord| == 0 then None
    else Some(ZoneIdFromIdString(targetRecord[0].id))
  }

  /** Zone resolution yields the id of the first zone in listing order whose
      name is the record's registrable domain plus a dot, and nothing exactly
      when no zone has that name. */
  lemma HostedZoneIdIsFirstMatch(extract: string -> DomainParts, zones: seq<HostedZone>, recordName: string)
    ensures var domain := GetDomainFromHost(extract, recordName);
      (GetHostedZoneId(extract, zones, recordName).None? <==>
       forall k :: 0 <= k < |zones| ==> !DomainMatchesHostedZone(domain, zones[k]))
    ensures var domain := GetDomainFromHost(extract, recordName);
      GetHostedZoneId(extract, zones, recordName).Some? ==>
        exists k :: && IsFirstMatch(domain, zones, k)
                    && GetHostedZoneId(extract, zones, recordName).value == ZoneIdFromIdString(zones[k].id)
  {
    MatchingZonesHead(GetDomainFromHost(extract, recordName), zones);
  }

  /** The zone id of a Route 53 `Id` path is its last component. */
  lemma ZoneIdExample()
    ensures ZoneIdFromIdString("/hostedzone/Z1") == "Z1"
  {
  }

  /** With zones `example.com.` and `other.com.` listed under Route 53 ids, the record `www.example.com`
      resolves to the first zone's id, and a record of an unknown domain to
      nothing. */
  lemma ZoneResolutionExample()
    ensures var extract := (host: string) =>
        if host == "www.example.com" then DomainParts("www", "example", "com")
        else DomainParts("www", "unknown", "org");
      var zones := [HostedZone("/hostedzone/Z1", "example.com."), HostedZone("/hostedzone/Z2", "other.com.")];
      && GetHostedZoneId(extract, zones, "www.example.com") == Some("Z1")
      && GetHostedZoneId(extract, zones, "www.unknown.org") == None
  {
    var extract := (host: string) =>
      if host == "www.example.com" then DomainParts("www", "example", "com")
      else DomainParts("www", "unknown", "org");
    var zones := [HostedZone("/hostedzone/Z1", "example.com."), HostedZone("/hostedzone/Z2", "other.com.")];
    assert GetDomainFromHost(extract, "www.example.com") == "example.com";
    assert "example.com" + "." == "example.com.";
    assert DomainMatchesHostedZone("example.com", zones[0]);
    assert MatchingZones("example.com", zones)[0] == zones[0];
    ZoneIdExample();
    assert GetDomainFromHost(extract, "www.unknown.org") == "unknown.org";
    assert ("unknown.org" + ".")[0] == 'u';
    assert !DomainMatchesHostedZone("unknown.org", zones[0]) by {
      assert zones[0].name[0] == 'e';
    }
    assert !DomainMatchesHostedZone("unknown.org", zones[1]) by {
      assert zones[1].name[0] == 'o';
    }
    assert MatchingZones("unknown.org", zones) == [];
  }
}
