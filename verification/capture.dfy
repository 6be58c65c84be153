/** The mitmproxy addon's decisions: which configured hosts are allowed, whether the
    configuration is accepted at startup, and whether a captured flow is traced. */
module Capture {
  import opened Wrappers
  import opened Seqs
  import opened Text
  import opened PyStrings

  /** Hosts never accepted in `ALLOWED_HOSTS`. */
  const ExcludedHosts: set<string> := {"localhost", "127.0.0.1", "[::1]", "*"}

  /** At most this many allowed hosts are accepted. */
  const MaxAllowedHosts: nat := 5

  const MaxBodySize: int := 1048576

  function NotExcluded(host: string): bool
  {
    host !in ExcludedHosts
  }

  /** `filter_allowed_hosts`: the hosts other than the excluded ones, compared exactly
      as written, in order, duplicates kept. */
  function FilterAllowedHosts(hosts: seq<string>): (allowed: seq<string>)
    ensures |allowed| <= |hosts|
    ensures forall h :: h in allowed <==> h in hosts && h !in ExcludedHosts
    ensures forall h :: multiset(allowed)[h] == if h in ExcludedHosts then 0 else multiset(hosts)[h]
  {
    Filter(hosts, NotExcluded)
  }

  /** The filter only deletes entries; it never reorders them. */
  lemma FilterAllowedHostsIsSubsequence(hosts: seq<string>)
    ensures IsSubsequence(FilterAllowedHosts(hosts), hosts)
  {
    FilterIsSubsequence(hosts, NotExcluded);
  }

  /** Filtering the filtered list changes nothing. */
  lemma FilterAllowedHostsIdempotent(hosts: seq<string>)
    ensures FilterAllowedHosts(FilterAllowedHosts(hosts)) == FilterAllowedHosts(hosts)
  {
    FilterIdempotent(hosts, NotExcluded);
  }

  function StrippedHost(host: string): Option<string>
  {
    var t := Strip(host);
    if |t| > 0 then Some(t) else None
  }

  /** `domain_filter`: each allowed host stripped of surrounding whitespace, dropping
      the ones that strip to nothing. */
  function DomainFilter(allowed: seq<string>): (domains: seq<string>)
    ensures |domains| <= |allowed|
    ensures forall d :: d in domains <==> exists i :: 0 <= i < |allowed| && |Strip(allowed[i])| > 0 && Strip(allowed[i]) == d
    ensures forall d :: d in domains ==> |d| > 0 && !IsSpace(d[0]) && !IsSpace(d[|d| - 1])
  {
    var domains := FilterMap(allowed, StrippedHost);
    forall d
      ensures d in domains <==> exists i :: 0 <= i < |allowed| && |Strip(allowed[i])| > 0 && Strip(allowed[i]) == d
    {
      if d in domains {
        var i :| 0 <= i < |allowed| && StrippedHost(allowed[i]) == Some(d);
        assert Strip(allowed[i]) == d;
      }
      if exists i :: 0 <= i < |allowed| && |Strip(allowed[i])| > 0 && Strip(allowed[i]) == d {
        var i :| 0 <= i < |allowed| && |Strip(allowed[i])| > 0 && Strip(allowed[i]) == d;
        assert StrippedHost(allowed[i]) == Some(d);
      }
    }
    forall d | d in domains
      ensures |d| > 0 && !IsSpace(d[0]) && !IsSpace(d[|d| - 1])
    {
      var i :| 0 <= i < |allowed| && |Strip(allowed[i])| > 0 && Strip(allowed[i]) == d;
    }
    domains
  }

  /** The domains keep the order of the hosts they come from: the j-th domain is the
      stripped j-th host that does not strip to nothing. */
  lemma DomainFilterInOrder(allowed: seq<string>)
    ensures var domains := DomainFilter(allowed); var idx := Kept(allowed, StrippedHost);
      && |domains| == |idx|
      && (forall j :: 0 <= j < |idx| ==> idx[j] < |allowed| && domains[j] == Strip(allowed[idx[j]]))
      && (forall j, k :: 0 <= j < k < |idx| ==> idx[j] < idx[k])
      && (forall i :: 0 <= i < |allowed| && |Strip(allowed[i])| > 0 ==> i in idx)
  {
    FilterMapAtKept(allowed, StrippedHost);
  }

  /** Every domain is already stripped. */
  lemma DomainsAreStripped(allowed: seq<string>)
    ensures forall d :: d in DomainFilter(allowed) ==> Strip(d) == d
  {
    forall d | d in DomainFilter(allowed)
      ensures Strip(d) == d
    {
      var i :| 0 <= i < |allowed| && Strip(allowed[i]) == d;
      StripIdempotent(allowed[i]);
    }
  }

  /** `" localhost"` has one leading and no trailing whitespace character. */
  lemma PaddedLocalhostSpace()
    ensures LeadingSpace(" localhost") == 1 && TrailingSpace(" localhost") == 0
  {
    var padded := " localhost";
    assert IsSpace(padded[0]) && !IsSpace(padded[1]) && !IsSpace(padded[9]);
    assert padded[1..][0] == 'l';
  }

  /** A padded `localhost` strips to `localhost`. */
  lemma StripPaddedLocalhost()
    ensures Strip(" localhost") == "localhost"
  {
    PaddedLocalhostSpace();
    assert " localhost"[1..10] == "localhost";
  }

  /** Exclusion compares hosts exactly as written, so a padded `localhost` is
      allowed. */
  lemma PaddedLocalhostIsAllowed()
    ensures FilterAllowedHosts([" localhost"]) == [" localhost"]
  {
    var padded := " localhost";
    var hosts: seq<string> := [padded];
    assert padded !in ExcludedHosts by {
      assert |padded| == 10;
    }
    assert hosts[1..] == [];
  }

  /** ... and then becomes the domain `localhost`. */
  lemma PaddedLocalhostBecomesDomain()
    ensures DomainFilter([" localhost"]) == ["localhost"]
  {
    var padded := " localhost";
    var hosts: seq<string> := [padded];
    assert hosts[1..] == [];
    StripPaddedLocalhost();
    assert StrippedHost(padded) == Some("localhost");
  }

  /** Why the addon refuses to start. */
  datatype StartupError = SensorIdInvalid | AllowedHostsCount(count: nat)

  /** The configuration the workers use. */
  datatype Settings = Settings(allowedHosts: seq<string>, domainFilter: seq<string>)

  /** Module start-up: `allowedHostsVar` is `ALLOWED_HOSTS` (nothing when unset) and
      `sensorIdValid` whether `SENSOR_ID` passed `is_valid_uuid`, which is checked first. */
  function Startup(allowedHostsVar: Option<string>, sensorIdValid: bool): (r: Result<Settings, StartupError>)
    ensures !sensorIdValid <==> r == Failure(SensorIdInvalid)
    ensures var allowed := FilterAllowedHosts(Split(if allowedHostsVar.Some? then allowedHostsVar.value else "", ','));
      && (r.Failure? && r.error.AllowedHostsCount? <==> sensorIdValid && (|allowed| == 0 || |allowed| > MaxAllowedHosts))
      && (r.Success? ==> 1 <= |r.value.allowedHosts| <= MaxAllowedHosts && r.value.allowedHosts == allowed)
    ensures r.Success? ==> r.value.domainFilter == DomainFilter(r.value.allowedHosts)
  {
    var raw := match allowedHostsVar case None => "" case Some(v) => v;
    var allowed := FilterAllowedHosts(Split(raw, ','));
    if !sensorIdValid then Failure(SensorIdInvalid)
    else if |allowed| == 0 || |allowed| > MaxAllowedHosts then Failure(AllowedHostsCount(|allowed|))
    else Success(Settings(allowed, DomainFilter(allowed)))
  }

  /** An unset `ALLOWED_HOSTS` splits to one empty entry, which passes the count check
      and leaves no domain to trace. */
  lemma UnsetAllowedHostsStarts()
    ensures Startup(None, true) == Success(Settings([""], []))
  {
    assert Split("", ',') == [""];
    assert FilterAllowedHosts([""]) == [""] by {
      assert "" !in ExcludedHosts;
      assert [""][1..] == [];
    }
    assert Strip("") == "";
    assert DomainFilter([""]) == [] by {
      assert [""][1..] == [];
    }
  }

  /** The parts of a request the worker looks at. */
  datatype Flow = Flow(host: string, httpVersion: string, requestBytes: nat, responseBytes: nat)

  datatype SkipReason = HostNotAllowed | RequestTooLarge | ResponseTooLarge

  /** Whether the worker skips the flow or records a trace, with the `http.flavor`
      attribute it sets, if any. */
  datatype Decision = Skipped(reason: SkipReason) | Traced(flavor: Option<string>)

  /** `http.flavor`: the second `/`-separated part of the HTTP version, when there is one. */
  function Flavor(httpVersion: string): (flavor: Option<string>)
    ensures flavor.Some? <==> '/' in httpVersion
  {
    var parts := Split(httpVersion, '/');
    SplitParts(httpVersion, '/');
    if |parts| > 1 then Some(parts[1]) else None
  }

  /** A version with a `/` splits into at least two parts, the first two free of `/`,
      and the flavor is the second. */
  lemma FlavorParts(httpVersion: string)
    requires '/' in httpVersion
    ensures var parts := Split(httpVersion, '/');
      && |parts| > 1 && '/' !in parts[0] && '/' !in parts[1]
      && Flavor(httpVersion) == Some(parts[1])
  {
    SplitParts(httpVersion, '/');
    assert multiset(httpVersion)['/'] > 0;
  }

  /** In parts joined by `/`, the second part runs from just after the first `/` to
      the next `/` or the end, when neither of the first two parts holds a `/`. */
  lemma SecondOfSlashJoin(v: string, parts: seq<string>)
    requires |parts| > 1 && '/' !in parts[0] && '/' !in parts[1]
    requires Join(parts, "/") == v
    ensures var i := |parts[0]|; var f := parts[1];
      && IndexOf(v, '/') == i && i + 1 + |f| <= |v| && v[i + 1..i + 1 + |f|] == f
      && (i + 1 + |f| == |v| || v[i + 1 + |f|] == '/')
  {
    var tail := Join(parts[1..], "/");
    var i := |parts[0]|;
    var f := parts[1];
    assert v == parts[0] + ("/" + tail);
    IndexOfAfterPrefix(parts[0], "/" + tail, '/');
    assert v[i + 1..] == tail;
    assert |f| <= |tail| && tail[..|f|] == f && (|f| == |tail| || tail[|f|] == '/') by {
      JoinHead(parts[1..], "/");
    }
    assert v[i + 1..i + 1 + |f|] == tail[..|f|];
  }

  /** The flavor is the text between the first `/` and the next one (or the end). */
  lemma FlavorIsSecondSegment(httpVersion: string)
    requires '/' in httpVersion
    ensures var i := IndexOf(httpVersion, '/'); var f := Flavor(httpVersion).value;
      && i < |httpVersion| && i + 1 + |f| <= |httpVersion|
      && httpVersion[i + 1..i + 1 + |f|] == f && '/' !in f
      && (i + 1 + |f| == |httpVersion| || httpVersion[i + 1 + |f|] == '/')
  {
    FlavorParts(httpVersion);
    JoinSplit(httpVersion, '/');
    SecondOfSlashJoin(httpVersion, Split(httpVersion, '/'));
  }

  /** Python compares `True` and `False` as 1 and 0. */
  function AsInt(b: bool): int
  {
    if b then 1 else 0
  }

  /** The size guard as written: `len(content) > 100` is a boolean, then compared with
      the 1 MiB limit. */
  function GuardAsWritten(bytes: nat): bool
  {
    AsInt(bytes > 100) > MaxBodySize
  }

  /** The size guard as its log message describes it. */
  function GuardIntended(bytes: nat): bool
  {
    bytes > MaxBodySize
  }

  /** The guard as written never fires, whatever the body size. */
  lemma GuardAsWrittenNeverFires(bytes: nat)
    ensures !GuardAsWritten(bytes)
  {
  }

  function Decide(flow: Flow, domains: seq<string>, tooLarge: nat -> bool): Decision
  {
    if flow.host !in domains then Skipped(HostNotAllowed)
    else if tooLarge(flow.requestBytes) then Skipped(RequestTooLarge)
    else if tooLarge(flow.responseBytes) then Skipped(ResponseTooLarge)
    else Traced(Flavor(flow.httpVersion))
  }

  /** `Worker.process_request` as written: a flow is skipped exactly when its host is
      not a domain of the filter; otherwise it is traced. */
  function ProcessRequest(flow: Flow, domains: seq<string>): (d: Decision)
    ensures d.Skipped? <==> flow.host !in domains
    ensures d.Skipped? ==> d.reason == HostNotAllowed
    ensures d.Traced? ==> d.flavor == Flavor(flow.httpVersion)
    ensures d.Traced? ==> (d.flavor.Some? <==> '/' in flow.httpVersion)
  {
    Decide(flow, domains, GuardAsWritten)
  }

  /** `Worker.process_request` with the size guards comparing the body length with
      the limit: a flow of an allowed host is skipped exactly when a body exceeds it. */
  function ProcessRequestIntended(flow: Flow, domains: seq<string>): (d: Decision)
    ensures d == Skipped(HostNotAllowed) <==> flow.host !in domains
    ensures d == Skipped(RequestTooLarge) <==> flow.host in domains && flow.requestBytes > MaxBodySize
    ensures d == Skipped(ResponseTooLarge) <==>
      flow.host in domains && flow.requestBytes <= MaxBodySize && flow.responseBytes > MaxBodySize
    ensures d.Traced? ==> flow.requestBytes <= MaxBodySize && flow.responseBytes <= MaxBodySize
    ensures d.Traced? ==> d.flavor == Flavor(flow.httpVersion)
  {
    Decide(flow, domains, GuardIntended)
  }

  /** An allowed flow with a 2 MB request body is traced as written, though the
      guard was meant to skip it. */
  lemma OversizedBodyIsTraced()
    ensures ProcessRequest(Flow("example.com", "HTTP/1.1", 2000000, 0), ["example.com"]).Traced?
    ensures ProcessRequestIntended(Flow("example.com", "HTTP/1.1", 2000000, 0), ["example.com"]) == Skipped(RequestTooLarge)
  {
  }

  /** The two versions agree on every flow whose bodies are within the limit. */
  lemma IntendedAgreesWithinLimit(flow: Flow, domains: seq<string>)
    requires flow.requestBytes <= MaxBodySize && flow.responseBytes <= MaxBodySize
    ensures ProcessRequestIntended(flow, domains) == ProcessRequest(flow, domains)
  {
  }
}
