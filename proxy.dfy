/** The twemproxy (nutcracker) proxy in front of the Redis masters (class
    `NutCracker`): the configuration it is deployed with, whose server list
    has one line per master, and `reconfig`, which swaps the masters and
    then stops, redeploys and restarts the proxy. */
module Proxy {
  import opened Text
  import opened Lifecycle
  import opened Redis

  /** The status port is the listening port plus this offset. */
  const StatusPortOffset: nat := 1000

  /** One entry of the `servers:` list: `host:port:weight name`, weight 1. */
  function BackendLine(master: RedisServer): string
  {
    "    - " + master.proc.host + ":" + NatToString(master.proc.port) + ":1 " + master.serverName
  }

  function BackendLines(masters: seq<RedisServer>): (lines: seq<string>)
    ensures |lines| == |masters|
    ensures forall i :: 0 <= i < |masters| ==> lines[i] == BackendLine(masters[i])
  {
    seq(|masters|, i requires 0 <= i < |masters| => BackendLine(masters[i]))
  }

  /** `_gen_conf_section()`: the entries joined by line breaks, with no
      trailing line break. */
  function ConfSection(masters: seq<RedisServer>): string
  {
    Join(BackendLines(masters), "\n")
  }

  /** The fixed pool settings of the configuration template, between the
      listening address and the server list, up to the `servers:` key and
      without the line break that ends it. */
  const PoolSettings: string :=
    "\n  hash: fnv1a_64\n  distribution: modula\n  preconnect: true\n  auto_eject_hosts: false"
    + "\n  redis: true\n  backlog: 512\n  timeout: 400\n  client_connections: 0"
    + "\n  server_connections: 1\n  server_retry_timeout: 2000\n  server_failure_limit: 2"
    + "\n  servers:"

  /** The pool part of the template with the cluster name and the listening
      port filled in, followed by the fixed `settings`. */
  function ConfPool(clusterName: string, port: nat, settings: string): string
  {
    "\n" + clusterName + ":\n  listen: 0.0.0.0:" + NatToString(port) + settings
  }

  /** `_gen_conf()`, with the proxy's fixed pool settings. */
  function GenConf(clusterName: string, port: nat, settings: string, masters: seq<RedisServer>): string
  {
    ConfPool(clusterName, port, settings) + "\n" + ConfSection(masters)
  }

  /** A master whose host and server name are single-line strings. */
  predicate SingleLine(master: RedisServer)
  {
    '\n' !in master.proc.host && '\n' !in master.serverName
  }

  /** The server list has exactly one line per master, in the order of the
      masters, and nothing else. */
  lemma SectionLines(masters: seq<RedisServer>)
    requires masters != []
    requires forall i :: 0 <= i < |masters| ==> SingleLine(masters[i])
    ensures Split(ConfSection(masters), "\n") == BackendLines(masters)
  {
    var lines := BackendLines(masters);
    forall k | 0 <= k < |lines| ensures '\n' !in lines[k] {
      var digits := NatToString(masters[k].proc.port);
      assert '\n' !in digits;
    }
    SplitJoin(lines, "\n");
  }

  /** An empty set of masters renders an empty server list. */
  lemma EmptySection()
    ensures ConfSection([]) == ""
  {
  }

  /** With no masters the configuration is the pool section and its final
      newline, with an empty server list after it. */
  lemma EmptyConf(clusterName: string, port: nat, settings: string)
    ensures GenConf(clusterName, port, settings, []) == ConfPool(clusterName, port, settings) + "\n"
  {
    EmptySection();
    assert ConfPool(clusterName, port, settings) + "\n" + "" == ConfPool(clusterName, port, settings) + "\n";
  }

  /** The rendered configuration, read line by line, is the header's lines
      followed by exactly one line per master, in order. */
  lemma ConfLines(clusterName: string, port: nat, settings: string, masters: seq<RedisServer>)
    requires masters != []
    requires forall i :: 0 <= i < |masters| ==> SingleLine(masters[i])
    ensures Split(GenConf(clusterName, port, settings, masters), "\n")
      == Split(ConfPool(clusterName, port, settings), "\n") + BackendLines(masters)
  {
    SplitAround(ConfPool(clusterName, port, settings), '\n', ConfSection(masters));
    SectionLines(masters);
  }

  /** What the proxy's `_pre_deploy` does: copy the proxy binaries into
      place and write the configuration rendered for `masters`. */
  function PreDeployEvents(proxy: NutCracker, masters: seq<RedisServer>): seq<Event>
  {
    [Command(proxy.copyCommand), WriteFile(proxy.confFile, GenConf(proxy.clusterName, proxy.proc.port, proxy.poolSettings, masters))]
  }

  /** The liveness answers let `reconfig` finish: the check reports the
      proxy down at some point, and up again at some later point. */
  predicate ReconfigFinishes(answers: seq<bool>)
  {
    false in answers && true in answers[FirstIndex(answers, false) + 1..]
  }

  /** Everything `reconfig(masters)` does when the stop finds the proxy
      down at its `down`-th probe and the start finds it alive at its
      `up`-th: stop, deploy with the new masters, start. */
  function ReconfigEvents(proxy: NutCracker, masters: seq<RedisServer>, down: nat, up: nat): seq<Event>
  {
    StopEvents(proxy.proc.stopCommand, down)
    + DeployEvents(proxy.proc.mkdirCommand, PreDeployEvents(proxy, masters), proxy.proc.controlScript)
    + StartEvents(proxy.proc.startCommand, up)
  }

  function FileOf(e: Event): Option<(string, string)>
  {
    if e.WriteFile? then Some((e.file, e.content)) else None
  }

  lemma {:induction false} StartEventsWriteNoFile(cmd: string, k: nat)
    ensures forall i :: 0 <= i < |StartEvents(cmd, k)| ==> !StartEvents(cmd, k)[i].WriteFile?
  {
    if k > 0 {
      StartRoundsWriteNoFile(k - 1);
    }
  }

  lemma {:induction false} StartRoundsWriteNoFile(n: nat)
    ensures forall i :: 0 <= i < |StartRounds(n)| ==> !StartRounds(n)[i].WriteFile?
  {
    if n > 0 {
      StartRoundsWriteNoFile(n - 1);
    }
  }

  lemma {:induction false} StopEventsWriteNoFile(cmd: string, k: nat)
    ensures forall i :: 0 <= i < |StopEvents(cmd, k)| ==> !StopEvents(cmd, k)[i].WriteFile?
  {
    if k > 0 {
      StopRoundsWriteNoFile(k - 1);
    }
  }

  lemma {:induction false} StopRoundsWriteNoFile(n: nat)
    ensures forall i :: 0 <= i < |StopRounds(n)| ==> !StopRounds(n)[i].WriteFile?
  {
    if n > 0 {
      StopRoundsWriteNoFile(n - 1);
    }
  }

  /** Selecting from four events, one at a time. */
  lemma SelectFour<T>(a: Event, b: Event, c: Event, d: Event, pick: Event -> Option<T>)
    ensures Select([a, b, c, d], pick) == Select([a], pick) + Select([b], pick) + Select([c], pick) + Select([d], pick)
  {
    assert [a, b, c, d] == [a] + [b] + [c] + [d];
    SelectAppend([a] + [b] + [c], [d], pick);
    SelectAppend([a] + [b], [c], pick);
    SelectAppend([a], [b], pick);
  }

  /** A `deploy` whose pre-deploy step copies binaries and writes one file
      issues the directory creation and the copy, and writes only that file. */
  lemma DeployPicks(mkdir: string, copy: string, file: string, content: string, script: string)
    ensures var deploy := DeployEvents(mkdir, [Command(copy), WriteFile(file, content)], script);
      Select(deploy, CommandOf) == [mkdir, copy] && Select(deploy, FileOf) == [(file, content)]
  {
    var a, b, c, d := Command(mkdir), Command(copy), WriteFile(file, content), WriteControlScript(script);
    assert DeployEvents(mkdir, [b, c], script) == [a, b, c, d];
    SelectFour(a, b, c, d, CommandOf);
    SelectFour(a, b, c, d, FileOf);
    SelectSingle(a, CommandOf);
    SelectSingle(b, CommandOf);
    SelectSingle(c, CommandOf);
    SelectSingle(d, CommandOf);
    SelectSingle(a, FileOf);
    SelectSingle(b, FileOf);
    SelectSingle(c, FileOf);
    SelectSingle(d, FileOf);
  }

  /** `reconfig` issues the stop command unless the stop found the proxy
      already down (`down` is 0 exactly when the first answer is "down",
      see `FirstIndexZero`), then the directory creation and the binary
      copy, then the start command unless the start found the proxy
      already alive. */
  lemma ReconfigCommands(proxy: NutCracker, masters: seq<RedisServer>, down: nat, up: nat)
    ensures Select(ReconfigEvents(proxy, masters, down, up), CommandOf) ==
      (if down == 0 then [] else [proxy.proc.stopCommand])
      + [proxy.proc.mkdirCommand, proxy.copyCommand]
      + (if up == 0 then [] else [proxy.proc.startCommand])
  {
    var stop := StopEvents(proxy.proc.stopCommand, down);
    var deploy := DeployEvents(proxy.proc.mkdirCommand, PreDeployEvents(proxy, masters), proxy.proc.controlScript);
    var start := StartEvents(proxy.proc.startCommand, up);
    StopIssuesAtMostOneCommand(proxy.proc.stopCommand, down);
    StartIssuesAtMostOneCommand(proxy.proc.startCommand, up);
    DeployPicks(proxy.proc.mkdirCommand, proxy.copyCommand, proxy.confFile,
      GenConf(proxy.clusterName, proxy.proc.port, proxy.poolSettings, masters), proxy.proc.controlScript);
    SelectAppend(stop, deploy, CommandOf);
    SelectAppend(stop + deploy, start, CommandOf);
  }

  /** Whatever the liveness answers, the only file `reconfig` writes is the
      proxy configuration, and it renders exactly the new masters. */
  lemma ReconfigWritesNewConf(proxy: NutCracker, masters: seq<RedisServer>, down: nat, up: nat)
    ensures Select(ReconfigEvents(proxy, masters, down, up), FileOf) ==
      [(proxy.confFile, GenConf(proxy.clusterName, proxy.proc.port, proxy.poolSettings, masters))]
  {
    var stop := StopEvents(proxy.proc.stopCommand, down);
    var deploy := DeployEvents(proxy.proc.mkdirCommand, PreDeployEvents(proxy, masters), proxy.proc.controlScript);
    var start := StartEvents(proxy.proc.startCommand, up);
    StopEventsWriteNoFile(proxy.proc.stopCommand, down);
    SelectNone(stop, FileOf);
    StartEventsWriteNoFile(proxy.proc.startCommand, up);
    SelectNone(start, FileOf);
    DeployPicks(proxy.proc.mkdirCommand, proxy.copyCommand, proxy.confFile,
      GenConf(proxy.clusterName, proxy.proc.port, proxy.poolSettings, masters), proxy.proc.controlScript);
    SelectAppend(stop, deploy, FileOf);
    SelectAppend(stop + deploy, start, FileOf);
  }

  /** The proxy (class `NutCracker`): its lifecycle, the fields derived at
      construction, and the masters it fronts, which `reconfig` replaces.
      The masters are shared references: the proxy only reads them. */
  class NutCracker {
    const proc: Process
    const clusterName: string
    const mbuf: nat
    const verbose: nat
    const confFile: string
    const pidFile: string
    const logFile: string
    const statusPort: nat
    /** `args['startcmd']`: the proxy's own command line, which the control
        script runs; not the call of the control script, `proc.startCommand`. */
    const startCmd: string
    /** `args['runcmd']`: the process name the control script stops by. */
    const runCmd: string
    /** The proxy binaries to copy, from the deployment configuration. */
    const bins: string
    /** `cp <bins> <path>/bin/`, the copy `_pre_deploy` issues. */
    const copyCommand: string
    /** The fixed pool settings its configuration is rendered with. */
    const poolSettings: string
    var masters: seq<RedisServer>

    constructor (host: string, port: nat, path: string, clusterName: string, masters: seq<RedisServer>,
                 bins: string, liveness: seq<bool>, mbuf: nat := 512, verbose: nat := 4)
      ensures fresh(proc)
      ensures proc.name == "nutcracker" && proc.host == host && proc.port == port && proc.path == path
      ensures proc.liveness == liveness && proc.trace == []
      ensures proc.mkdirCommand == MkdirCommand(path)
      ensures proc.controlScript == ControlScriptPath(path, "nutcracker")
      ensures proc.startCommand == ControlCommand(path, "nutcracker", "start")
      ensures proc.stopCommand == ControlCommand(path, "nutcracker", "stop")
      ensures this.clusterName == clusterName && this.masters == masters && this.bins == bins
      ensures this.mbuf == mbuf && this.verbose == verbose
      ensures statusPort == port + StatusPortOffset
      ensures confFile == path + "/conf/nutcracker.conf"
      ensures copyCommand == "cp " + bins + " " + path + "/bin/"
      ensures poolSettings == PoolSettings
      ensures pidFile == path + "/log/nutcracker.pid" && logFile == path + "/log/nutcracker.log"
      ensures runCmd == "bin/nutcracker -d -c " + confFile + " -o " + logFile + " -p " + pidFile
                        + " -s " + NatToString(statusPort)
      ensures startCmd == runCmd + " -v " + NatToString(verbose) + " -m " + NatToString(mbuf)
    {
      proc := new Process("nutcracker", host, port, path, liveness);
      this.masters := masters;
      this.mbuf := mbuf;
      this.verbose := verbose;
      this.bins := bins;
      this.clusterName := clusterName;
      copyCommand := "cp " + bins + " " + path + "/bin/";
      poolSettings := PoolSettings;
      var conf := path + "/conf/nutcracker.conf";
      var pid := path + "/log/nutcracker.pid";
      var log := path + "/log/nutcracker.log";
      var status := port + StatusPortOffset;
      confFile := conf;
      pidFile := pid;
      logFile := log;
      statusPort := status;
      var run := "bin/nutcracker -d -c " + conf + " -o " + log + " -p " + pid + " -s " + NatToString(status);
      runCmd := run;
      startCmd := run + " -v " + NatToString(verbose) + " -m " + NatToString(mbuf);
    }

    /** `deploy()`, with the proxy's `_pre_deploy`. */
    method Deploy()
      modifies proc
      ensures proc.trace == old(proc.trace)
        + DeployEvents(proc.mkdirCommand, PreDeployEvents(this, masters), proc.controlScript)
      ensures proc.liveness == old(proc.liveness)
    {
      proc.Deploy(PreDeployEvents(this, masters));
    }

    /** `reconfig(masters)`: take the new masters, then stop, deploy and
        start. The proxy is down from the stop until the start succeeds. */
    method Reconfig(newMasters: seq<RedisServer>)
      requires ReconfigFinishes(proc.liveness)
      modifies this, proc
      ensures masters == newMasters
      ensures var down := FirstIndex(old(proc.liveness), false);
        var rest := old(proc.liveness)[down + 1..];
        var up := FirstIndex(rest, true);
        && proc.trace == old(proc.trace) + ReconfigEvents(this, newMasters, down, up)
        && proc.liveness == rest[up + 1..]
    {
      ghost var before := proc.trace;
      masters := newMasters;
      ghost var down := FirstIndex(proc.liveness, false);
      proc.Stop();
      ghost var up := FirstIndex(proc.liveness, true);
      Deploy();
      proc.Start();
      AppendThree(before, StopEvents(proc.stopCommand, down),
        DeployEvents(proc.mkdirCommand, PreDeployEvents(this, newMasters), proc.controlScript),
        StartEvents(proc.startCommand, up));
    }
  }
}
