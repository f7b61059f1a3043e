/** A Redis node (class `RedisServer`): parsing the text of its INFO reply
    into a dictionary with '' as the default value, the replica check built
    on it, the uptime report, and the PING-based liveness answer. */
module Redis {
  import opened Text
  import opened Lifecycle

  /** INFO replies separate lines with CR LF. */
  const InfoLineBreak := "\r\n"

  /** Python's `line.split(c, 1)`: the whole line when `c` is absent,
      otherwise the text before its first occurrence and the text after. */
  function SplitOnce(line: string, c: char): (parts: seq<string>)
    ensures |parts| == 1 || |parts| == 2
    ensures |parts| == 1 <==> c !in line
    ensures |parts| == 1 ==> parts[0] == line
    ensures |parts| == 2 ==> parts[0] + [c] + parts[1] == line && c !in parts[0]
  {
    match IndexOf(line, [c])
    case None =>
      assert c !in line by {
        forall j | 0 <= j < |line| ensures line[j] != c {
          OccursAtSingle(line, c, j);
        }
      }
      [line]
    case Some(i) =>
      OccursAtSingle(line, c, i);
      assert c !in line[..i] by {
        forall j | 0 <= j < i ensures line[j] != c {
          OccursAtSingle(line, c, j);
        }
      }
      assert line[..i] + [c] + line[i + 1..] == line;
      [line[..i], line[i + 1..]]
  }

  /** `[line for line in lines if not line.startswith('#')]` */
  function Uncommented(lines: seq<string>): seq<string>
  {
    if lines == [] then []
    else
      var last := lines[|lines| - 1];
      Uncommented(lines[..|lines| - 1]) + (if StartsWith(last, "#") then [] else [last])
  }

  /** `[line.split(':', 1) for line in lines]` */
  function Fields(lines: seq<string>): seq<seq<string>>
  {
    if lines == [] then []
    else Fields(lines[..|lines| - 1]) + [SplitOnce(lines[|lines| - 1], ':')]
  }

  /** `[i for i in fields if len(i) > 1]`, each kept entry a key and a value. */
  function Pairs(fields: seq<seq<string>>): seq<(string, string)>
  {
    if fields == [] then []
    else
      var last := fields[|fields| - 1];
      Pairs(fields[..|fields| - 1]) + (if |last| > 1 then [(last[0], last[1])] else [])
  }

  /** `dict(pairs)`: entries inserted in order, so a later key overwrites. */
  function ToDict(pairs: seq<(string, string)>): map<string, string>
  {
    if pairs == [] then map[]
    else
      var last := pairs[|pairs| - 1];
      ToDict(pairs[..|pairs| - 1])[last.0 := last.1]
  }

  function InfoMap(lines: seq<string>): map<string, string>
  {
    ToDict(Pairs(Fields(Uncommented(lines))))
  }

  /** `_info_dict()` on the text the INFO command printed. */
  function ParseInfo(info: string): map<string, string>
  {
    InfoMap(Split(info, InfoLineBreak))
  }

  /** Looking a key up in a `defaultdict(str)`. */
  function Get(info: map<string, string>, key: string): string
  {
    if key in info then info[key] else ""
  }

  // ---------------------------------------------------------------------
  // What the parser is meant to do, stated line by line.

  /** `line` is a `key:value` line for `key`: not a comment, and `key`
      (which has no colon) is everything before its first colon. */
  predicate HasKey(line: string, key: string)
  {
    !StartsWith(line, "#") && ':' !in key && StartsWith(line, key + ":")
  }

  lemma NotComment(line: string)
    requires line != [] && line[0] != '#'
    ensures !StartsWith(line, "#")
  {
  }

  /** A line for `key` splits into exactly `key` and everything after the
      first colon, colons included. */
  lemma HasKeySplit(line: string, key: string)
    requires HasKey(line, key)
    ensures ':' in line
    ensures SplitOnce(line, ':') == [key, line[|key| + 1..]]
  {
    assert line[..|key| + 1] == key + ":";
    assert line[|key|] == ':';
    OccursAtSingle(line, ':', |key|);
    forall j: nat | j < |key| ensures !OccursAt(line, [':'], j) {
      OccursAtSingle(line, ':', j);
      assert line[j] == key[j];
    }
    IndexOfIs(line, [':'], |key|);
    var parts := SplitOnce(line, ':');
    assert parts[0] == line[..|key|] == key;
    assert parts[1] == line[|key| + 1..];
  }

  /** A non-comment line with a colon is the line for the text before its
      first colon. */
  lemma PairLineHasKey(line: string)
    requires !StartsWith(line, "#") && ':' in line
    ensures HasKey(line, SplitOnce(line, ':')[0])
  {
    var parts := SplitOnce(line, ':');
    assert line[..|parts[0]| + 1] == parts[0] + ":";
  }

  /** Adding one line to the reply: the dictionary gains that line's entry if
      it is a `key:value` line, and is otherwise unchanged. */
  lemma InfoMapStep(lines: seq<string>, line: string)
    ensures InfoMap(lines + [line]) ==
      if !StartsWith(line, "#") && ':' in line
      then InfoMap(lines)[SplitOnce(line, ':')[0] := SplitOnce(line, ':')[1]]
      else InfoMap(lines)
  {
    var all := lines + [line];
    assert all[..|all| - 1] == lines;
    var u := Uncommented(lines);
    if !StartsWith(line, "#") {
      assert Uncommented(all) == u + [line];
      assert (u + [line])[..|u|] == u;
      var f := Fields(u);
      assert Fields(u + [line]) == f + [SplitOnce(line, ':')];
      assert (f + [SplitOnce(line, ':')])[..|f|] == f;
      var p := Pairs(f);
      if ':' in line {
        var parts := SplitOnce(line, ':');
        assert Pairs(f + [parts]) == p + [(parts[0], parts[1])];
        assert (p + [(parts[0], parts[1])])[..|p|] == p;
      } else {
        assert Pairs(f + [SplitOnce(line, ':')]) == p;
      }
    } else {
      assert Uncommented(all) == u;
    }
  }

  /** The last line for a key decides its value: the dictionary holds that
      key, mapped to everything after the line's first colon. */
  lemma {:induction false} LastLineWins(lines: seq<string>, j: nat, key: string)
    requires j < |lines| && HasKey(lines[j], key)
    requires forall i :: j < i < |lines| ==> !HasKey(lines[i], key)
    ensures key in InfoMap(lines) && InfoMap(lines)[key] == lines[j][|key| + 1..]
    decreases |lines|
  {
    var init := lines[..|lines| - 1];
    var line := lines[|lines| - 1];
    assert lines == init + [line];
    InfoMapStep(init, line);
    if j == |lines| - 1 {
      HasKeySplit(line, key);
    } else {
      LastLineWins(init, j, key);
      if !StartsWith(line, "#") && ':' in line {
        PairLineHasKey(line);
      }
    }
  }

  /** A key that no line names is absent, so the lookup gives ''. */
  lemma {:induction false} UnnamedKeyAbsent(lines: seq<string>, key: string)
    requires forall i :: 0 <= i < |lines| ==> !HasKey(lines[i], key)
    ensures key !in InfoMap(lines)
    decreases |lines|
  {
    if lines != [] {
      var init := lines[..|lines| - 1];
      var line := lines[|lines| - 1];
      assert lines == init + [line];
      InfoMapStep(init, line);
      UnnamedKeyAbsent(init, key);
      if !StartsWith(line, "#") && ':' in line {
        PairLineHasKey(line);
      }
    }
  }

  /** Every key of the dictionary comes from some line for it. */
  lemma {:induction false} KeysComeFromLines(lines: seq<string>, key: string)
    requires key in InfoMap(lines)
    ensures exists i :: 0 <= i < |lines| && HasKey(lines[i], key)
  {
    if forall i :: 0 <= i < |lines| ==> !HasKey(lines[i], key) {
      UnnamedKeyAbsent(lines, key);
    }
  }

  const ExampleReply := "uptime_in_seconds:120\r\n#c\r\nrole:master\r\n"

  /** The example reply is its four lines joined with CR LF. */
  lemma ExampleReplyJoin(lines: seq<string>)
    requires lines == ["uptime_in_seconds:120", "#c", "role:master", ""]
    ensures Join(lines, InfoLineBreak) == ExampleReply
  {
    assert Join(lines[3..], InfoLineBreak) == "";
    assert Join(lines[2..], InfoLineBreak) == "role:master\r\n";
    assert Join(lines[1..], InfoLineBreak) == "#c\r\nrole:master\r\n";
  }

  /** No line of the example reply holds a carriage return. */
  lemma ExampleLinesSingle(lines: seq<string>)
    requires lines == ["uptime_in_seconds:120", "#c", "role:master", ""]
    ensures forall k :: 0 <= k < |lines| ==> InfoLineBreak[0] !in lines[k]
  {
    assert InfoLineBreak[0] == '\r';
    assert '\r' !in lines[0] && '\r' !in lines[1] && '\r' !in lines[2];
  }

  lemma ExampleReplyLines(reply: string)
    requires reply == ExampleReply
    ensures Split(reply, InfoLineBreak) == ["uptime_in_seconds:120", "#c", "role:master", ""]
  {
    var lines := ["uptime_in_seconds:120", "#c", "role:master", ""];
    ExampleReplyJoin(lines);
    ExampleLinesSingle(lines);
    SplitJoin(lines, InfoLineBreak);
  }

  lemma ExampleLineFacts()
    ensures HasKey("uptime_in_seconds:120", "uptime_in_seconds")
    ensures "uptime_in_seconds:120"[18..] == "120"
    ensures StartsWith("#c", "#")
    ensures HasKey("role:master", "role") && "role:master"[5..] == "master"
  {
    assert "uptime_in_seconds:120"[..18] == "uptime_in_seconds:";
    NotComment("uptime_in_seconds:120");
    assert "#c"[..1] == "#";
    assert "role:master"[..5] == "role:";
    NotComment("role:master");
  }

  /** A line names at most one key. */
  lemma KeyUnique(line: string, key: string, other: string)
    requires HasKey(line, key) && HasKey(line, other)
    ensures key == other
  {
    HasKeySplit(line, key);
    HasKeySplit(line, other);
  }

  /** In a reply of two `key:value` lines around a comment line, no line
      names a third key. */
  lemma OtherKeyAbsent(lines: seq<string>, first: string, second: string, key: string)
    requires |lines| == 4
    requires HasKey(lines[0], first) && StartsWith(lines[1], "#") && HasKey(lines[2], second)
    requires lines[3] == "" && key != first && key != second
    ensures key !in InfoMap(lines)
  {
    forall i | 0 <= i < |lines| ensures !HasKey(lines[i], key) {
      if i == 0 && HasKey(lines[0], key) {
        KeyUnique(lines[0], first, key);
      } else if i == 2 && HasKey(lines[2], key) {
        KeyUnique(lines[2], second, key);
      }
    }
    UnnamedKeyAbsent(lines, key);
  }

  /** A reply of two `key:value` lines around a comment line, ending with
      a line break: both values are read, every other key gives ''. */
  lemma TwoKeyReply(reply: string, lines: seq<string>, first: string, second: string)
    requires Split(reply, InfoLineBreak) == lines && |lines| == 4
    requires HasKey(lines[0], first) && StartsWith(lines[1], "#") && HasKey(lines[2], second)
    requires lines[3] == "" && first != second
    ensures Get(ParseInfo(reply), first) == lines[0][|first| + 1..]
    ensures Get(ParseInfo(reply), second) == lines[2][|second| + 1..]
    ensures forall key :: key != first && key != second ==> Get(ParseInfo(reply), key) == ""
  {
    assert !HasKey(lines[2], first) by {
      if HasKey(lines[2], first) {
        KeyUnique(lines[2], second, first);
      }
    }
    assert forall i :: 0 < i < |lines| ==> !HasKey(lines[i], first) by {
      assert !HasKey(lines[1], first) && !HasKey(lines[3], first);
    }
    LastLineWins(lines, 0, first);
    LastLineWins(lines, 2, second);
    forall key | key != first && key != second
      ensures Get(ParseInfo(reply), key) == ""
    {
      OtherKeyAbsent(lines, first, second, key);
    }
  }

  /** The worked example: uptime and role are read, the comment line is
      skipped, and every other key gives ''. */
  lemma ExampleReplyParsed(reply: string)
    requires reply == ExampleReply
    ensures Get(ParseInfo(reply), "uptime_in_seconds") == "120"
    ensures Get(ParseInfo(reply), "role") == "master"
    ensures forall key :: key != "uptime_in_seconds" && key != "role" ==> Get(ParseInfo(reply), key) == ""
  {
    ExampleReplyLines(reply);
    ExampleLineFacts();
    TwoKeyReply(reply, Split(reply, InfoLineBreak), "uptime_in_seconds", "role");
  }

  // ---------------------------------------------------------------------
  // `isslaveof` and `status`

  /** What `isslaveof` gives back: True, the implicit None, or the ValueError
      `int()` raises on a port that is not a number. */
  datatype ReplicaAnswer = True | NoneReturned | PortValueError(port: string)

  /** `isslaveof(master_host, master_port)` on the INFO reply `info`. The
      port is converted only once the host has matched. */
  function IsSlaveOf(info: string, masterHost: string, masterPort: int): ReplicaAnswer
  {
    var d := ParseInfo(info);
    if Get(d, "master_host") != masterHost then NoneReturned
    else
      match ParseInt(Get(d, "master_port"))
      case None => PortValueError(Get(d, "master_port"))
      case Some(p) => if p == masterPort then True else NoneReturned
  }

  /** The reply is True exactly when the reported master host is the one
      asked about and the reported master port reads as the number asked
      about; a host mismatch answers None without looking at the port. */
  lemma IsSlaveOfIff(info: string, masterHost: string, masterPort: int)
    ensures var d := ParseInfo(info);
      && (IsSlaveOf(info, masterHost, masterPort) == True <==>
            Get(d, "master_host") == masterHost && ParseInt(Get(d, "master_port")) == Some(masterPort))
      && (Get(d, "master_host") != masterHost ==> IsSlaveOf(info, masterHost, masterPort) == NoneReturned)
      && (IsSlaveOf(info, masterHost, masterPort).PortValueError? <==>
            Get(d, "master_host") == masterHost && ParseInt(Get(d, "master_port")) == None)
  {
  }

  /** `key:value` is the line for `key` when `key` is a name that starts
      with neither '#' nor a colon and holds no colon; its value is `value`. */
  lemma KeyLine(key: string, value: string)
    requires key != [] && key[0] != '#' && ':' !in key
    ensures HasKey(key + ":" + value, key)
    ensures (key + ":" + value)[|key| + 1..] == value
  {
    var line := key + ":" + value;
    assert line[..|key| + 1] == key + ":";
    NotComment(line);
  }

  /** A reply whose last master_host line names the host and whose last
      master_port line holds the port's decimal form is recognised: the
      string "6379" is converted before it is compared with 6379. */
  lemma {:induction false} ReplicaRecognised(info: string, masterHost: string, masterPort: int, h: nat, p: nat)
    requires var lines := Split(info, InfoLineBreak);
      && h < |lines| && p < |lines|
      && lines[h] == "master_host" + ":" + masterHost
      && lines[p] == "master_port" + ":" + IntToString(masterPort)
      && (forall i :: h < i < |lines| ==> !HasKey(lines[i], "master_host"))
      && (forall i :: p < i < |lines| ==> !HasKey(lines[i], "master_port"))
    ensures IsSlaveOf(info, masterHost, masterPort) == True
  {
    var lines := Split(info, InfoLineBreak);
    KeyLine("master_host", masterHost);
    KeyLine("master_port", IntToString(masterPort));
    LastLineWins(lines, h, "master_host");
    LastLineWins(lines, p, "master_port");
    ParseIntOfIntToString(masterPort);
  }

  /** A replica whose reply has no master_port line but the right master
      host makes `isslaveof` raise: `int('')` is a ValueError. */
  lemma {:induction false} MissingPortRaises(info: string, masterHost: string, masterPort: int, h: nat)
    requires var lines := Split(info, InfoLineBreak);
      && h < |lines|
      && lines[h] == "master_host" + ":" + masterHost
      && (forall i :: h < i < |lines| ==> !HasKey(lines[i], "master_host"))
      && (forall i :: 0 <= i < |lines| ==> !HasKey(lines[i], "master_port"))
    ensures IsSlaveOf(info, masterHost, masterPort) == PortValueError("")
  {
    var lines := Split(info, InfoLineBreak);
    KeyLine("master_host", masterHost);
    LastLineWins(lines, h, "master_host");
    UnnamedKeyAbsent(lines, "master_port");
    ParseIntBlank("");
  }

  datatype StatusReport = Uptime(seconds: string) | Down

  /** `status()`: up with its uptime when the reply reports a non-empty
      uptime_in_seconds, down otherwise. */
  function Status(info: string): StatusReport
  {
    var uptime := Get(ParseInfo(info), "uptime_in_seconds");
    if uptime != "" then Uptime(uptime) else Down
  }

  /** A reply without an uptime line, such as the empty output of a node
      that did not answer, reports the node down. */
  lemma {:induction false} StatusDownWithoutUptime(info: string, lines: seq<string>)
    requires lines == Split(info, InfoLineBreak)
    requires forall i :: 0 <= i < |lines| ==> !HasKey(lines[i], "uptime_in_seconds")
    ensures Status(info) == Down
  {
    UnnamedKeyAbsent(lines, "uptime_in_seconds");
  }

  /** Otherwise the report follows the reply's last uptime line. */
  lemma {:induction false} StatusFollowsLastUptimeLine(info: string, j: nat)
    requires var lines := Split(info, InfoLineBreak);
      && j < |lines| && HasKey(lines[j], "uptime_in_seconds")
      && forall i :: j < i < |lines| ==> !HasKey(lines[i], "uptime_in_seconds")
    ensures var uptime := Split(info, InfoLineBreak)[j][18..];
      Status(info) == if uptime == "" then Down else Uptime(uptime)
  {
    LastLineWins(Split(info, InfoLineBreak), j, "uptime_in_seconds");
  }

  /** `_alive()` of a Redis node: its PING reply contains PONG. */
  function PingAlive(reply: string): (alive: bool)
    ensures alive <==> Contains(reply, "PONG")
  {
    IndexOf(reply, "PONG").Some?
  }

  /** A Redis node: its lifecycle, and the fields its constructor derives
      from host, port and path. */
  class RedisServer {
    const proc: Process
    const clusterName: string
    const serverName: string
    /** `args['startcmd']`: the server's own command line, which the control
        script runs; not the call of the control script, `proc.startCommand`. */
    const startCmd: string
    /** `args['runcmd']`: the process name the control script stops by. */
    const runCmd: string
    const confFile: string
    const pidFile: string
    const logFile: string
    const dataDir: string

    constructor (host: string, port: nat, path: string, clusterName: string, serverName: string,
                 liveness: seq<bool>)
      ensures fresh(proc)
      ensures proc.name == "redis" && proc.host == host && proc.port == port && proc.path == path
      ensures proc.liveness == liveness && proc.trace == []
      ensures proc.mkdirCommand == MkdirCommand(path)
      ensures proc.controlScript == ControlScriptPath(path, "redis")
      ensures proc.startCommand == ControlCommand(path, "redis", "start")
      ensures proc.stopCommand == ControlCommand(path, "redis", "stop")
      ensures this.clusterName == clusterName && this.serverName == serverName
      ensures startCmd == "bin/redis-server conf/redis.conf"
      ensures runCmd == "redis-server \\*:" + NatToString(port)
      ensures confFile == path + "/conf/redis.conf" && pidFile == path + "/log/redis.pid"
      ensures logFile == path + "/log/redis.log" && dataDir == path + "/data"
    {
      proc := new Process("redis", host, port, path, liveness);
      this.clusterName := clusterName;
      this.serverName := serverName;
      startCmd := "bin/redis-server conf/redis.conf";
      runCmd := "redis-server \\*:" + NatToString(port);
      confFile := path + "/conf/redis.conf";
      pidFile := path + "/log/redis.pid";
      logFile := path + "/log/redis.log";
      dataDir := path + "/data";
    }
  }
}
