/**
 * The current resolver copy, the one the service calls: host logs with the
 * BrowserPlus.config fallback marker, and per-service logs.
 */
module LogAccessUtil {
  import opened Wrappers
  import opened FileTree
  import opened Versions
  import opened Markers
  import opened LogDir

  const NoPluginDir := "couldn't determine plugin writable directory"
  const NoLogfileDir := "logfile directory does not exist!"
  const PluginDirUnreadable := "unable to iterate thru plugin writable dir"
  const VersionDirUnreadable := "unable to iterate thru platform version dir"
  const NoCurrentLogDir := "unable to find current log directory"

  const NoAppSupportDir := "couldn't determine application support directory"
  const ServiceDirUnreadablePrefix := "unable to iterate thru CoreletData dir for service "
  const ServiceVersionDirUnreadable := "unable to iterate thru service version dir"
  const ServiceDataDirUnreadable := "unable to iterate thru service data dir"

  /** The core log's directory when there is one, otherwise the config file's. */
  function Chosen(logDir: Option<Listing>, logDirBackup: Option<Listing>): (d: Option<Listing>)
    ensures logDir.Some? ==> d == logDir
    ensures logDir.None? ==> d == logDirBackup
  {
    if logDir.None? && logDirBackup.Some? then logDirBackup else logDir
  }

  /** What resolving the host logs under `root` yields. */
  function HostLogs(root: PlatformRoot, parse: Parser): Resolution {
    match root
    case Unavailable(f) => Failed(RootMessage(f))
    case Available(path, node) =>
      if path == [] then Failed(NoPluginDir)
      else
        var dir := Lookup(node, BrowserPlusDir);
        if dir.None? || !dir.value.Dir? then Failed(NoLogfileDir)
        else
          var l := ListingOf(path + BrowserPlusDir, dir.value);
          if l.broken then Failed(PluginDirUnreadable)
          else
            var t := AllVisits(Candidates(l, AnyVersion, parse));
            if t.failed then Failed(VersionDirUnreadable)
            else
              var d := Chosen(Winner(t.visits, CoreLog), Winner(t.visits, ConfigFile));
              if d.None? then Failed(NoCurrentLogDir)
              else Resolution(if d.value.broken then PluginDirUnreadable else "",
                              LogFiles(d.value.path, d.value.entries))
  }

  /**
   * One recursive walk of the host scan, with the two markers tracked
   * side by side from the choices made over `seen`.
   */
  method ScanWalkWithBackup(logDir: Option<Listing>, logDirBackup: Option<Listing>, ghost seen: seq<Visit>,
                            visits: seq<Visit>, lastWrite: int)
    returns (next: Option<Listing>, nextBackup: Option<Listing>)
    requires lastWrite == InitialLastWrite
    requires logDir == Winner(seen, CoreLog) && logDirBackup == Winner(seen, ConfigFile)
    ensures next == Winner(seen + visits, CoreLog) && nextBackup == Winner(seen + visits, ConfigFile)
  {
    next, nextBackup := logDir, logDirBackup;
    ghost var done := seen;
    var k := 0;
    while k < |visits|
      invariant 0 <= k <= |visits|
      invariant done == seen + visits[..k]
      invariant next == Winner(done, CoreLog) && nextBackup == Winner(done, ConfigFile)
    {
      var v := visits[k];
      WinnerSnoc(done, v, CoreLog);
      WinnerSnoc(done, v, ConfigFile);
      if v.entry.name == CoreLogName {
        next := Consider(next, v, lastWrite);
      } else if v.entry.name == ConfigName {
        nextBackup := Consider(nextBackup, v, lastWrite);
      }
      TakeOneMore(visits, k);
      done := done + [v];
      k := k + 1;
    }
    assert visits[..k] == visits;
  }

  /**
   * The recursive pass of the host resolver: one walk, two markers, each
   * with its own choice.  `ok` is false when some walk failed.
   */
  method ScanWithBackup(versionDirs: seq<Candidate>) returns (ok: bool, logDir: Option<Listing>, logDirBackup: Option<Listing>)
    ensures ok == !AllVisits(versionDirs).failed
    ensures ok ==> logDir == Winner(AllVisits(versionDirs).visits, CoreLog)
    ensures ok ==> logDirBackup == Winner(AllVisits(versionDirs).visits, ConfigFile)
  {
    logDir, logDirBackup := None, None;
    var lastWrite := InitialLastWrite;
    var i := 0;
    while i < |versionDirs|
      invariant 0 <= i <= |versionDirs|
      invariant !AllVisits(versionDirs[..i]).failed
      invariant logDir == Winner(AllVisits(versionDirs[..i]).visits, CoreLog)
      invariant logDirBackup == Winner(AllVisits(versionDirs[..i]).visits, ConfigFile)
    {
      var vd := versionDirs[i];
      AllVisitsSnoc(versionDirs, i);
      var t := Walk(vd.path, vd.node);
      logDir, logDirBackup := ScanWalkWithBackup(logDir, logDirBackup, AllVisits(versionDirs[..i]).visits,
                                                 t.visits, lastWrite);
      if t.failed {
        FailurePersists(versionDirs, i + 1);
        return false, logDir, logDirBackup;
      }
      i := i + 1;
    }
    assert versionDirs[..i] == versionDirs;
    ok := true;
  }

  /**
   * Resolves the host application's current log directory and appends its
   * `.log` files to `paths`.  `error` is "" on success.
   */
  method GetLogfilePaths(root: PlatformRoot, parse: Parser, paths: seq<Path>) returns (error: string, out: seq<Path>)
    ensures error == HostLogs(root, parse).error
    ensures out == paths + HostLogs(root, parse).appended
  {
    if root.Unavailable? {
      return RootMessage(root.failure), paths;
    }
    if root.path == [] {
      return NoPluginDir, paths;
    }
    var pluginWriteDir := root.path + BrowserPlusDir;
    var dir := Lookup(root.node, BrowserPlusDir);
    if dir.None? || !dir.value.Dir? {
      return NoLogfileDir, paths;
    }
    var listed, versionDirs := CollectVersionDirs(ListingOf(pluginWriteDir, dir.value), AnyVersion, parse);
    if !listed {
      return PluginDirUnreadable, paths;
    }
    var scanned, logDir, logDirBackup := ScanWithBackup(versionDirs);
    if !scanned {
      return VersionDirUnreadable, paths;
    }
    if logDir.None? && logDirBackup.Some? {
      logDir := logDirBackup;
    }
    if logDir.None? {
      return NoCurrentLogDir, paths;
    }
    var complete;
    complete, out := ListLogFiles(logDir.value, paths);
    if !complete {
      return PluginDirUnreadable, out;
    }
    return "", out;
  }

  /** What resolving the logs of `service` under `root` yields. */
  function ServiceLogs(root: PlatformRoot, parse: Parser, service: string): Resolution {
    match root
    case Unavailable(f) => Failed(RootMessage(f))
    case Available(path, node) =>
      if path == [] then Failed(NoAppSupportDir)
      else
        var dir := Lookup(node, CoreletDataDir + [service]);
        if dir.None? || !dir.value.Dir? then Resolution("", [])
        else
          var l := ListingOf(path + CoreletDataDir + [service], dir.value);
          if l.broken then Failed(ServiceDirUnreadablePrefix + service)
          else
            var t := AllVisits(Candidates(l, MajorOnly, parse));
            if t.failed then Failed(ServiceVersionDirUnreadable)
            else
              var d := Winner(t.visits, AnyLog);
              if d.None? then Failed(NoCurrentLogDir)
              else Resolution(if d.value.broken then ServiceDataDirUnreadable else "",
                              LogFiles(d.value.path, d.value.entries))
  }

  /**
   * Resolves the current log directory of `service` (the directory holding
   * the chosen `.log` file, anywhere below a major-only version directory)
   * and appends its `.log` files
   * to `paths`.  A service without a data directory is a success that
   * appends nothing.
   */
  method GetServiceLogfilePaths(root: PlatformRoot, parse: Parser, service: string, paths: seq<Path>)
    returns (error: string, out: seq<Path>)
    ensures error == ServiceLogs(root, parse, service).error
    ensures out == paths + ServiceLogs(root, parse, service).appended
  {
    if root.Unavailable? {
      return RootMessage(root.failure), paths;
    }
    if root.path == [] {
      return NoAppSupportDir, paths;
    }
    var coreletDataDir := root.path + CoreletDataDir + [service];
    var dir := Lookup(root.node, CoreletDataDir + [service]);
    if dir.None? || !dir.value.Dir? {
      return "", paths;
    }
    var listed, versionDirs := CollectVersionDirs(ListingOf(coreletDataDir, dir.value), MajorOnly, parse);
    if !listed {
      return ServiceDirUnreadablePrefix + service, paths;
    }
    var scanned, logDir := ScanOne(versionDirs, AnyLog);
    if !scanned {
      return ServiceVersionDirUnreadable, paths;
    }
    if logDir.None? {
      return NoCurrentLogDir, paths;
    }
    var complete;
    complete, out := ListLogFiles(logDir.value, paths);
    if !complete {
      return ServiceDataDirUnreadable, out;
    }
    return "", out;
  }

  /** A host resolution that fails appends nothing: the chosen directory always lists completely. */
  lemma HostFailureAppendsNothing(root: PlatformRoot, parse: Parser)
    ensures HostLogs(root, parse).error != "" ==> HostLogs(root, parse).appended == []
  {
    if root.Available? && root.path != [] {
      var dir := Lookup(root.node, BrowserPlusDir);
      if dir.Some? && dir.value.Dir? {
        var vds := Candidates(ListingOf(root.path + BrowserPlusDir, dir.value), AnyVersion, parse);
        var t := AllVisits(vds);
        if !t.failed {
          if Winner(t.visits, CoreLog).Some? {
            ChosenIsComplete(vds, CoreLog);
          } else if Winner(t.visits, ConfigFile).Some? {
            ChosenIsComplete(vds, ConfigFile);
          }
        }
      }
    }
  }

  /** A service resolution that fails appends nothing. */
  lemma ServiceFailureAppendsNothing(root: PlatformRoot, parse: Parser, service: string)
    ensures ServiceLogs(root, parse, service).error != "" ==> ServiceLogs(root, parse, service).appended == []
  {
    if root.Available? && root.path != [] {
      var dir := Lookup(root.node, CoreletDataDir + [service]);
      if dir.Some? && dir.value.Dir? {
        var vds := Candidates(ListingOf(root.path + CoreletDataDir + [service], dir.value), MajorOnly, parse);
        var t := AllVisits(vds);
        if !t.failed && Winner(t.visits, AnyLog).Some? {
          ChosenIsComplete(vds, AnyLog);
        }
      }
    }
  }

  /**
   * A service with no data directory (nothing at its path, or something
   * that is not a directory) resolves to success with nothing appended.
   */
  lemma MissingServiceDirIsEmpty(root: PlatformRoot, parse: Parser, service: string)
    requires root.Available? && root.path != []
    requires var d := Lookup(root.node, CoreletDataDir + [service]); d.None? || !d.value.Dir?
    ensures ServiceLogs(root, parse, service) == Resolution("", [])
  {
  }

  /**
   * On success the host resolution appends exactly the regular `.log` files
   * lying directly in the directory of the winning core log, or, when no core
   * log was chosen, in that of the winning config file.
   */
  lemma HostSuccessListsChosenDir(root: PlatformRoot, parse: Parser, p: Path)
    requires HostLogs(root, parse).error == ""
    ensures root.Available? && Lookup(root.node, BrowserPlusDir).Some?
    ensures var l := ListingOf(root.path + BrowserPlusDir, Lookup(root.node, BrowserPlusDir).value);
            var t := AllVisits(Candidates(l, AnyVersion, parse));
            var d := Chosen(Winner(t.visits, CoreLog), Winner(t.visits, ConfigFile));
            d.Some? && !d.value.broken &&
            (p in HostLogs(root, parse).appended <==>
               exists e :: e in d.value.entries && IsLogFile(e) && p == d.value.path + [e.name])
  {
    var l := ListingOf(root.path + BrowserPlusDir, Lookup(root.node, BrowserPlusDir).value);
    var t := AllVisits(Candidates(l, AnyVersion, parse));
    var d := Chosen(Winner(t.visits, CoreLog), Winner(t.visits, ConfigFile));
    LogFilesExactly(d.value.path, d.value.entries, p);
  }

  /**
   * On success the host's log directory lies at or below a version
   * directory of the host data directory.
   */
  lemma HostLogDirBelowVersionDir(root: PlatformRoot, parse: Parser)
    requires HostLogs(root, parse).error == ""
    ensures root.Available? && Lookup(root.node, BrowserPlusDir).Some?
    ensures var l := ListingOf(root.path + BrowserPlusDir, Lookup(root.node, BrowserPlusDir).value);
            var t := AllVisits(Candidates(l, AnyVersion, parse));
            var d := Chosen(Winner(t.visits, CoreLog), Winner(t.visits, ConfigFile));
            d.Some? &&
            exists e :: e in l.entries && Accepts(AnyVersion, parse, e.name) && Below(d.value.path, l.path + [e.name])
  {
    HostSuccessListsChosenDir(root, parse, []);
    var l := ListingOf(root.path + BrowserPlusDir, Lookup(root.node, BrowserPlusDir).value);
    var vds := Candidates(l, AnyVersion, parse);
    var t := AllVisits(vds);
    var m := if Winner(t.visits, CoreLog).Some? then CoreLog else ConfigFile;
    var d := Chosen(Winner(t.visits, CoreLog), Winner(t.visits, ConfigFile));
    assert d == Winner(t.visits, m);
    ChosenLiesBelowCandidate(vds, m);
    var c :| c in vds && Below(d.value.path, c.path);
    CandidatesExactly(l, AnyVersion, parse, c);
    assert c.node in l.entries;
  }

  /**
   * When a service's data directory exists and resolution succeeds, the
   * log directory lies at or below one of its major-only version directories.
   */
  lemma ServiceLogDirBelowVersionDir(root: PlatformRoot, parse: Parser, service: string)
    requires root.Available? && root.path != []
    requires var d := Lookup(root.node, CoreletDataDir + [service]); d.Some? && d.value.Dir?
    requires ServiceLogs(root, parse, service).error == ""
    ensures var l := ListingOf(root.path + CoreletDataDir + [service], Lookup(root.node, CoreletDataDir + [service]).value);
            var d := Winner(AllVisits(Candidates(l, MajorOnly, parse)).visits, AnyLog);
            d.Some? &&
            exists e :: e in l.entries && Accepts(MajorOnly, parse, e.name) && Below(d.value.path, l.path + [e.name])
  {
    var l := ListingOf(root.path + CoreletDataDir + [service], Lookup(root.node, CoreletDataDir + [service]).value);
    var vds := Candidates(l, MajorOnly, parse);
    var d := Winner(AllVisits(vds).visits, AnyLog);
    ChosenLiesBelowCandidate(vds, AnyLog);
    var c :| c in vds && Below(d.value.path, c.path);
    CandidatesExactly(l, MajorOnly, parse, c);
    assert c.node in l.entries;
  }
}
