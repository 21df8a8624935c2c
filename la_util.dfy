/**
 * The older resolver copy: host logs located by BrowserPlusCore.log alone
 * (no config-file fallback), and the same per-service resolver.
 */
module LaUtil {
  import opened Wrappers
  import opened FileTree
  import opened Versions
  import opened Markers
  import opened LogDir
  import LogAccessUtil

  /** What the older copy's host resolution under `root` yields. */
  function HostLogs(root: PlatformRoot, parse: Parser): Resolution {
    match root
    case Unavailable(f) => Failed(RootMessage(f))
    case Available(path, node) =>
      if path == [] then Failed(LogAccessUtil.NoPluginDir)
      else
        var dir := Lookup(node, BrowserPlusDir);
        if dir.None? || !dir.value.Dir? then Failed(LogAccessUtil.NoLogfileDir)
        else
          var l := ListingOf(path + BrowserPlusDir, dir.value);
          if l.broken then Failed(LogAccessUtil.PluginDirUnreadable)
          else
            var t := AllVisits(Candidates(l, AnyVersion, parse));
            if t.failed then Failed(LogAccessUtil.VersionDirUnreadable)
            else
              var d := Winner(t.visits, CoreLog);
              if d.None? then Failed(LogAccessUtil.NoCurrentLogDir)
              else Resolution(if d.value.broken then LogAccessUtil.PluginDirUnreadable else "",
                              LogFiles(d.value.path, d.value.entries))
  }

  /**
   * Resolves the host application's current log directory from the core
   * log markers only and appends its `.log` files to `paths`.
   */
  method GetLogfilePaths(root: PlatformRoot, parse: Parser, paths: seq<Path>) returns (error: string, out: seq<Path>)
    ensures error == HostLogs(root, parse).error
    ensures out == paths + HostLogs(root, parse).appended
  {
    if root.Unavailable? {
      return RootMessage(root.failure), paths;
    }
    if root.path == [] {
      return LogAccessUtil.NoPluginDir, paths;
    }
    var pluginWriteDir := root.path + BrowserPlusDir;
    var dir := Lookup(root.node, BrowserPlusDir);
    if dir.None? || !dir.value.Dir? {
      return LogAccessUtil.NoLogfileDir, paths;
    }
    var listed, versionDirs := CollectVersionDirs(ListingOf(pluginWriteDir, dir.value), AnyVersion, parse);
    if !listed {
      return LogAccessUtil.PluginDirUnreadable, paths;
    }
    var scanned, logDir := ScanOne(versionDirs, CoreLog);
    if !scanned {
      return LogAccessUtil.VersionDirUnreadable, paths;
    }
    if logDir.None? {
      return LogAccessUtil.NoCurrentLogDir, paths;
    }
    var complete;
    complete, out := ListLogFiles(logDir.value, paths);
    if !complete {
      return LogAccessUtil.PluginDirUnreadable, out;
    }
    return "", out;
  }

  /**
   * The older copy's service resolver.  Its text is the same as the current
   * copy's, branch for branch and message for message, so it is that resolver.
   */
  method GetServiceLogfilePaths(root: PlatformRoot, parse: Parser, service: string, paths: seq<Path>)
    returns (error: string, out: seq<Path>)
    ensures error == LogAccessUtil.ServiceLogs(root, parse, service).error
    ensures out == paths + LogAccessUtil.ServiceLogs(root, parse, service).appended
  {
    error, out := LogAccessUtil.GetServiceLogfilePaths(root, parse, service, paths);
  }

  /**
   * The two copies differ only where the older one finds no core log: there
   * it fails, and the current one fails the same way or succeeds from the
   * config file's directory.  Everywhere else they agree.
   */
  lemma CopiesAgreeUnlessNoCoreLog(root: PlatformRoot, parse: Parser)
    ensures HostLogs(root, parse).error != LogAccessUtil.NoCurrentLogDir ==>
            LogAccessUtil.HostLogs(root, parse) == HostLogs(root, parse)
    ensures HostLogs(root, parse).error == LogAccessUtil.NoCurrentLogDir ==>
            LogAccessUtil.HostLogs(root, parse).error in {LogAccessUtil.NoCurrentLogDir, ""}
  {
    if root.Available? && root.path != [] {
      var dir := Lookup(root.node, BrowserPlusDir);
      if dir.Some? && dir.value.Dir? {
        var vds := Candidates(ListingOf(root.path + BrowserPlusDir, dir.value), AnyVersion, parse);
        var t := AllVisits(vds);
        if !t.failed && Winner(t.visits, CoreLog).None? && Winner(t.visits, ConfigFile).Some? {
          ChosenIsComplete(vds, ConfigFile);
        }
      }
    }
  }

  /** The fallback never turns a success of the older copy into anything else. */
  lemma FallbackIsMorePermissive(root: PlatformRoot, parse: Parser)
    requires HostLogs(root, parse).error == ""
    ensures LogAccessUtil.HostLogs(root, parse) == HostLogs(root, parse)
  {
    CopiesAgreeUnlessNoCoreLog(root, parse);
  }
}
