/**
 * The LogAccess service: the origin whitelist and the two methods a page
 * can call, `get` (host logs) and `getServiceLogs` (logs of named services).
 */
module LogAccess {
  import opened Wrappers
  import opened FileTree
  import opened Versions
  import opened LogDir
  import LogAccessUtil

  /** The calling page's URI as the URL parser reports it. */
  datatype Url = Unparsable | Parsed(scheme: string, host: string)

  /** One element of the `services` argument list. */
  datatype Arg = Str(value: string) | NonString

  /** How a transaction ends: an error with a code and optional detail, or completion with paths. */
  datatype Reply = Error(code: string, detail: Option<string>) | Complete(paths: seq<Path>)

  const PermissionDenied := "bp.permissionDenied"
  const CouldntGetLogs := "bp.couldntGetLogs"
  const MissingServices := "required services parameter missing"

  const Whitelist: seq<string> := ["yahoo.com", "browserplus.org", "browserpl.us", "localhost"]

  /** The whitelist entry `entry` admits `host`: the host is the entry or a dotted subdomain of it. */
  predicate Admits(host: string, entry: string) {
    host == entry || EndsWith(host, "." + entry)
  }

  /** The test applied to one entry: not longer than the host, separated by a dot, equal suffix. */
  predicate EntryMatches(host: string, entry: string) {
    if |entry| > |host| then false
    else if |entry| < |host| && host[|host| - |entry| - 1] != '.' then false
    else host[|host| - |entry|..] == entry
  }

  lemma EntryMatchesIsAdmits(host: string, entry: string)
    ensures EntryMatches(host, entry) <==> Admits(host, entry)
  {
    var dotted := "." + entry;
    if |entry| < |host| {
      var k := |host| - |entry| - 1;
      assert host[k..] == [host[k]] + host[k + 1..];
      if EntryMatches(host, entry) {
        assert host[k..] == dotted;
      }
      if EndsWith(host, dotted) {
        assert host[k + 1..] == host[k..][1..];
      }
    } else if |entry| == |host| {
      assert host[0..] == host;
    }
  }

  /** The search over the whitelist from entry `i` on, returning at the first match. */
  function MatchFrom(host: string, i: nat): (ok: bool)
    requires i <= |Whitelist|
    ensures ok <==> exists j :: i <= j < |Whitelist| && Admits(host, Whitelist[j])
    decreases |Whitelist| - i
  {
    if i == |Whitelist| then false
    else
      EntryMatchesIsAdmits(host, Whitelist[i]);
      if EntryMatches(host, Whitelist[i]) then true else MatchFrom(host, i + 1)
  }

  /**
   * Whether a page at `url` may use the service: the URI must parse, use
   * http or https, and have a host that some whitelist entry admits.
   */
  function CheckWhitelist(url: Url): (ok: bool)
    ensures ok <==> url.Parsed? && (url.scheme == "http" || url.scheme == "https") &&
                    exists e :: e in Whitelist && Admits(url.host, e)
  {
    if url.Unparsable? then false
    else if url.scheme != "http" && url.scheme != "https" then false
    else MatchFrom(url.host, 0)
  }

  /** An entry longer than the host never admits it. */
  lemma LongerEntryNeverMatches(host: string, entry: string)
    requires |entry| > |host|
    ensures !Admits(host, entry)
  {
  }

  /** A host that only ends in an entry, with no dot before it, is rejected. */
  lemma UndottedSuffixRejected()
    ensures !CheckWhitelist(Parsed("http", "suckbrowserplus.org"))
  {
    var host := "suckbrowserplus.org";
    assert host[9] == 'e' && host[3] == 'k' && host[6] == 'o';
    forall j | 0 <= j < |Whitelist|
      ensures !Admits(host, Whitelist[j])
    {
      EntryMatchesIsAdmits(host, Whitelist[j]);
    }
  }

  /** A dotted subdomain of an entry is accepted. */
  lemma DottedSubdomainAccepted()
    ensures CheckWhitelist(Parsed("https", "sub.browserplus.org"))
  {
    var host := "sub.browserplus.org";
    assert host[3..] == "." + Whitelist[1];
    assert Admits(host, Whitelist[1]);
  }

  /**
   * `get`: after the whitelist check, resolves the host logs and completes
   * with their paths, or reports the resolver's message.
   */
  method Get(url: Url, root: PlatformRoot, parse: Parser) returns (reply: Reply)
    ensures !CheckWhitelist(url) ==> reply == Error(PermissionDenied, None)
    ensures CheckWhitelist(url) && LogAccessUtil.HostLogs(root, parse).error != "" ==>
            reply == Error(CouldntGetLogs, Some(LogAccessUtil.HostLogs(root, parse).error))
    ensures CheckWhitelist(url) && LogAccessUtil.HostLogs(root, parse).error == "" ==>
            reply == Complete(LogAccessUtil.HostLogs(root, parse).appended)
  {
    if !CheckWhitelist(url) {
      return Error(PermissionDenied, None);
    }
    var paths := [];
    var error;
    error, paths := LogAccessUtil.GetLogfilePaths(root, parse, paths);
    if error != "" {
      return Error(CouldntGetLogs, Some(error));
    }
    return Complete(paths);
  }

  /** The per-service resolver the service calls, as a function of the service name. */
  function Resolver(root: PlatformRoot, parse: Parser): string -> Resolution {
    service => LogAccessUtil.ServiceLogs(root, parse, service)
  }

  /**
   * The shared accumulation over `services`: each string element's
   * resolution appends to the same list; the first error stops it.
   */
  function Gather(resolve: string -> Resolution, services: seq<Arg>): Resolution
    decreases |services|
  {
    if services == [] then Resolution("", [])
    else
      var before := Gather(resolve, services[..|services| - 1]);
      var last := services[|services| - 1];
      if before.error != "" || last.NonString? then before
      else
        var r := resolve(last.value);
        Resolution(r.error, before.appended + r.appended)
  }

  lemma GatherExtend(resolve: string -> Resolution, services: seq<Arg>, i: nat)
    requires i < |services|
    ensures Gather(resolve, services[..i + 1]) ==
            var before := Gather(resolve, services[..i]);
            if before.error != "" || services[i].NonString? then before
            else Resolution(resolve(services[i].value).error, before.appended + resolve(services[i].value).appended)
  {
    assert services[..i + 1][..i] == services[..i];
  }

  /** What one element of the list contributes when it resolves. */
  function Contribution(resolve: string -> Resolution, a: Arg): seq<Path> {
    if a.Str? then resolve(a.value).appended else []
  }

  /** The concatenation, in list order, of every element's contribution. */
  function Joined(resolve: string -> Resolution, services: seq<Arg>): seq<Path>
    decreases |services|
  {
    if services == [] then [] else Contribution(resolve, services[0]) + Joined(resolve, services[1..])
  }

  lemma {:induction false} JoinedSnoc(resolve: string -> Resolution, services: seq<Arg>, a: Arg)
    ensures Joined(resolve, services + [a]) == Joined(resolve, services) + Contribution(resolve, a)
    decreases |services|
  {
    if services == [] {
      assert [a][1..] == [];
    } else {
      var longer := services + [a];
      assert longer[0] == services[0] && longer[1..] == services[1..] + [a];
      JoinedSnoc(resolve, services[1..], a);
      calc {
        Joined(resolve, longer);
        Contribution(resolve, services[0]) + Joined(resolve, services[1..] + [a]);
        Contribution(resolve, services[0]) + (Joined(resolve, services[1..]) + Contribution(resolve, a));
        (Contribution(resolve, services[0]) + Joined(resolve, services[1..])) + Contribution(resolve, a);
      }
    }
  }

  predicate Fails(resolve: string -> Resolution, a: Arg) {
    a.Str? && resolve(a.value).error != ""
  }

  /** When no named service fails, the result is every service's paths, concatenated in list order. */
  lemma {:induction false} GatherSucceeds(resolve: string -> Resolution, services: seq<Arg>)
    requires forall i :: 0 <= i < |services| ==> !Fails(resolve, services[i])
    ensures Gather(resolve, services) == Resolution("", Joined(resolve, services))
    decreases |services|
  {
    if services != [] {
      var n := |services| - 1;
      GatherSucceeds(resolve, services[..n]);
      JoinedSnoc(resolve, services[..n], services[n]);
      assert services[..n] + [services[n]] == services;
    }
  }

  /** The first failing service decides the error, whatever follows it. */
  lemma {:induction false} GatherStopsAtFirstError(resolve: string -> Resolution, services: seq<Arg>, i: nat)
    requires i < |services| && Fails(resolve, services[i])
    requires forall j :: 0 <= j < i ==> !Fails(resolve, services[j])
    ensures Gather(resolve, services).error == resolve(services[i].value).error
    decreases |services|
  {
    var n := |services| - 1;
    var prefix := services[..n];
    if i < n {
      assert prefix[i] == services[i];
      GatherStopsAtFirstError(resolve, prefix, i);
    } else {
      assert forall j :: 0 <= j < |prefix| ==> prefix[j] == services[j];
      GatherSucceeds(resolve, prefix);
    }
  }

  /**
   * Two services, the first resolving to two paths and the second having
   * no data directory, give exactly the first one's two paths.
   */
  lemma TwoServicesExample(root: PlatformRoot, parse: Parser, a: Path, b: Path)
    requires root.Available? && root.path != []
    requires LogAccessUtil.ServiceLogs(root, parse, "svcA") == Resolution("", [a, b])
    requires var d := Lookup(root.node, CoreletDataDir + ["svcB"]); d.None? || !d.value.Dir?
    ensures Gather(Resolver(root, parse), [Str("svcA"), Str("svcB")]) == Resolution("", [a, b])
  {
    LogAccessUtil.MissingServiceDirIsEmpty(root, parse, "svcB");
    var resolve := Resolver(root, parse);
    assert resolve("svcA") == Resolution("", [a, b]);
    assert resolve("svcB") == Resolution("", []);
    var list := [Str("svcA"), Str("svcB")];
    assert list[..1] == [Str("svcA")] && list[..1][..0] == [];
  }

  /**
   * `getServiceLogs`: after the whitelist check and the check that a
   * `services` list was passed, resolves the services in list order,
   * skipping elements that are not strings, into one list.  The first
   * service that fails ends the call with its message.
   */
  method GetServiceLogs(url: Url, root: PlatformRoot, parse: Parser, services: Option<seq<Arg>>)
    returns (reply: Reply)
    ensures !CheckWhitelist(url) ==> reply == Error(PermissionDenied, None)
    ensures CheckWhitelist(url) && services.None? ==> reply == Error(CouldntGetLogs, Some(MissingServices))
    ensures CheckWhitelist(url) && services.Some? ==>
            var g := Gather(Resolver(root, parse), services.value);
            reply == if g.error != "" then Error(CouldntGetLogs, Some(g.error)) else Complete(g.appended)
  {
    if !CheckWhitelist(url) {
      return Error(PermissionDenied, None);
    }
    if services.None? {
      return Error(CouldntGetLogs, Some(MissingServices));
    }
    var serviceList := services.value;
    var paths: seq<Path> := [];
    var i := 0;
    while i < |serviceList|
      invariant 0 <= i <= |serviceList|
      invariant Gather(Resolver(root, parse), serviceList[..i]) == Resolution("", paths)
    {
      GatherExtend(Resolver(root, parse), serviceList, i);
      var s := serviceList[i];
      if s.Str? {
        var error;
        error, paths := LogAccessUtil.GetServiceLogfilePaths(root, parse, s.value, paths);
        if error != "" {
          FailureIsFinal(Resolver(root, parse), serviceList, i + 1);
          return Error(CouldntGetLogs, Some(error));
        }
      }
      i := i + 1;
    }
    assert serviceList[..i] == serviceList;
    return Complete(paths);
  }

  /** Once the accumulation has an error, the rest of the list leaves it as it is. */
  lemma {:induction false} FailureIsFinal(resolve: string -> Resolution, services: seq<Arg>, i: nat)
    requires i <= |services| && Gather(resolve, services[..i]).error != ""
    ensures Gather(resolve, services) == Gather(resolve, services[..i])
    decreases |services|
  {
    if i < |services| {
      var n := |services| - 1;
      assert services[..n][..i] == services[..i];
      FailureIsFinal(resolve, services[..n], i);
    } else {
      assert services[..i] == services;
    }
  }
}
