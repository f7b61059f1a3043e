# Redis cluster deployment controller: lifecycle, INFO parsing and proxy reconfiguration

This project models the core of `lib/server_modules.py`, the module that controls the processes of a
Redis deployment fronted by a twemproxy (nutcracker) proxy. It has four parts.

- **Lifecycle** (module `Lifecycle`, class `Process`). This is `Base`: `deploy` creates the
  directories, runs the server-specific pre-deploy step and writes the control script. `start` and
  `stop` are guarded by a liveness probe and issue one control command. `start` then polls with a
  backoff of 100, 200, 400, 800, 1600, 3200, 6400 ms and 5000 ms after that, warning "still not
  alive" on every pause of 5000 ms or more. `stop` polls with a fixed pause. The probe `_alive()` is
  an oracle: the field `liveness` lists the answers it will give, and each probe consumes one. What
  the controller does is appended to the field `trace` as events: probes, commands, sleeps, pauses,
  warnings and file writes.
- **Redis node** (module `Redis`, class `RedisServer`). The INFO parser `_info_dict` splits the reply
  on `\r\n`, drops comment lines, splits each line at its first `:`, keeps the lines that had one,
  and builds a dictionary in which the last line for a key wins and missing keys read as `''`. On
  top of it are `isslaveof`, including the `ValueError` that `int()` raises on a port that is not a
  number, `status` and the PING-based liveness test.
- **Proxy** (module `Proxy`, class `NutCracker`). It covers the derived fields, including
  `status_port = port + 1000`, the rendering of the server list and of the whole configuration,
  the proxy's pre-deploy step, and `reconfig`, which replaces the masters and then runs stop, deploy
  and start. The fixed pool settings of the configuration template, and the commands
  derived from the constructor's arguments, are constant fields that the constructors set.
- **Text** (module `Text`). This holds the Python string and integer primitives the code relies on:
  `find`, `split`, `join`, `strip`, `int()` and `str()`.

Backoff intervals are integer milliseconds. The source's `0.1 * 2**k` floats are exact enough that
every comparison with 5 comes out the same.

## Model

| member | source | states |
|---|---|---|
| Text.IndexFrom | lib/server_modules.py:133 | the first position from a given one at which a substring occurs, with no occurrence between; none exactly when it occurs nowhere from there on |
| Text.IndexOf | lib/server_modules.py:133 | the first position at which a substring occurs, or none when it occurs nowhere (the `strstr` test behind `_alive`) |
| Text.OccursAtSingle | lib/server_modules.py:124 | a one-character substring occurs at j exactly when character j is that character |
| Text.Split | lib/server_modules.py:124 | `str.split(sep)` always gives at least one piece |
| Text.SplitPiecesFree | lib/server_modules.py:124 | no piece of `str.split(sep)` contains the separator |
| Text.SplitAt | lib/server_modules.py:124 | `str.split(sep)` cuts at the first occurrence and continues after the separator |
| Text.JoinSplit | lib/server_modules.py:124 | joining the pieces of a split with the same separator gives back the text |
| Text.Join | lib/server_modules.py:197 | definition of `sep.join(parts)`; its properties are Text.JoinSplit and Text.SplitJoin |
| Text.SplitJoin | lib/server_modules.py:197 | splitting a join gives back the pieces when no piece contains the separator's first character |
| Text.SplitAround | lib/server_modules.py:218 | splitting on a one-character separator cuts at every occurrence independently |
| Text.TrimLeft | lib/server_modules.py:158 | `lstrip()` yields a suffix that does not begin with whitespace, and every character it removes is whitespace |
| Text.TrimRight | lib/server_modules.py:158 | `rstrip()` yields a prefix that does not end with whitespace, and every character it removes is whitespace |
| Text.TrimLeftPadded | lib/server_modules.py:158 | `lstrip()` of whitespace followed by a text that begins with a non-space character is that text |
| Text.TrimRightPadded | lib/server_modules.py:158 | `rstrip()` of a text that ends with a non-space character followed by whitespace is that text |
| Text.StripPadded | lib/server_modules.py:158 | `strip()` removes exactly the whitespace around a text whose ends are not whitespace |
| Text.StripKeeps | lib/server_modules.py:158 | `strip()` leaves a text that neither begins nor ends with whitespace unchanged |
| Text.NatToString | lib/server_modules.py:185-187 | the decimal rendering of a number is a non-empty run of digits with no leading zero; it starts with `0` exactly when the number is 0 |
| Text.IntToString | lib/server_modules.py:196 | definition of `str()` of an integer: a minus sign before the digits of a negative number; its properties are Text.IntToStringEnds and Text.ParseIntOfIntToString |
| Text.IntToStringEnds | lib/server_modules.py:196 | the rendering of an integer neither starts nor ends with whitespace |
| Text.DigitsValueOfNatToString | lib/server_modules.py:158 | the digits of `str(n)` denote n |
| Text.Strip | lib/server_modules.py:158 | definition of `strip()` as `rstrip()` after `lstrip()`; its properties are Text.StripPadded and Text.StripKeeps |
| Text.ParseInt | lib/server_modules.py:158 | definition of Python 2's `int()` in base 10 as `strip()` followed by Text.ParseStripped; its properties are the Text.ParseInt* lemmas below |
| Text.ParseStripped | lib/server_modules.py:158 | definition of `int()` on stripped text: an optional sign, whitespace after the sign, then digits; its properties are Text.ParseStrippedNegative and the Text.ParseInt* lemmas |
| Text.ParseDigits | lib/server_modules.py:158 | definition of the digit run `int()` accepts: non-empty, decimal digits only; its properties are Text.ParseIntOfDigits and Text.ParseIntBlank |
| Text.ParseIntOfStripped | lib/server_modules.py:158 | `int()` of a text whose ends are not whitespace is read as it stands |
| Text.ParseStrippedDigits | lib/server_modules.py:158 | a stripped digit run, having no sign, reads as the number it denotes |
| Text.ParseIntOfDigits | lib/server_modules.py:158 | `int()` of a run of digits is the number they denote |
| Text.ParseIntOfNegative | lib/server_modules.py:158 | `int()` of a minus sign, any whitespace, then digits is the negated number |
| Text.SignThenDigits | lib/server_modules.py:158 | after the minus sign of `-`, whitespace and digits, `lstrip()` leaves exactly the digits |
| Text.ParseStrippedNegative | lib/server_modules.py:158 | stripped text of a minus sign whose remainder, left-stripped, is a digit run reads as the negated number |
| Text.ParseIntOfNatToString | lib/server_modules.py:158 | `int(str(m)) == m` for a natural number m |
| Text.ParseIntOfMinusNatToString | lib/server_modules.py:158 | `int('-' + str(m)) == -m` for every natural number m |
| Text.ParseIntOfIntToString | lib/server_modules.py:158 | `int(str(n)) == n` for every integer n |
| Text.ParseIntIgnoresPadding | lib/server_modules.py:158 | whitespace around a text whose ends are not whitespace does not change what `int()` makes of it |
| Text.ParseIntPadded | lib/server_modules.py:158 | `int()` of the rendering of n with any whitespace before and after it is n, e.g. `int(' 6379\t') == 6379` |
| Text.ParseIntSpaceAfterSign | lib/server_modules.py:158 | `int('-' + spaces + str(m)) == -m`: Python 2 skips whitespace after the sign |
| Text.ParseIntBlank | lib/server_modules.py:158 | `int()` of a blank string, the `''` default included, fails |
| Lifecycle.FirstIndex | lib/server_modules.py:63 | the index of the first probe answering as awaited, with no earlier one |
| Lifecycle.FirstIndexZero | lib/server_modules.py:52 | the first awaited answer is the very first probe exactly when that probe gives it |
| Lifecycle.SelectAppend | lib/server_modules.py:33-86 | the events of one kind in a concatenation are those of each part, in order |
| Lifecycle.SelectNone | lib/server_modules.py:33-86 | a trace without events of a kind yields none |
| Lifecycle.SelectSingle | lib/server_modules.py:33-38 | a single event is selected exactly when it is of the kind asked for |
| Lifecycle.NextInterval | lib/server_modules.py:65-68 | definition of the update of `sleeptime` after a failed probe: doubled below 5000 ms, otherwise 5000 ms; its properties are Lifecycle.IntervalClosedForm and Lifecycle.OnlySeventhIntervalExceedsCap |
| Lifecycle.Interval | lib/server_modules.py:58-68 | definition of the pause of the i-th failed probe of `start`; its properties are Lifecycle.IntervalClosedForm and Lifecycle.OnlySeventhIntervalExceedsCap |
| Lifecycle.IntervalClosedForm | lib/server_modules.py:58-68 | the k-th sleep of `start` is 100·2^k ms for k ≤ 6 and 5000 ms for every later one |
| Lifecycle.OnlySeventhIntervalExceedsCap | lib/server_modules.py:65-68 | only the seventh sleep exceeds 5000 ms; from the seventh on every sleep is at least 5000 ms |
| Lifecycle.Backoff | lib/server_modules.py:64-69 | definition of one pause of `start`: the sleep and, from 5000 ms on, the warning; its properties are Lifecycle.StartRoundSleep and Lifecycle.StartRoundWarning |
| Lifecycle.StartRound | lib/server_modules.py:63-69 | definition of one failed poll of `start`: a probe answering down, then the pause; its properties are the Lifecycle.StartRound* lemmas |
| Lifecycle.StartRounds | lib/server_modules.py:63-69 | definition of n failed polls of `start`; its properties are Lifecycle.StartRoundsSleeps, Lifecycle.StartRoundsWarnings and Lifecycle.StartRoundsIssueNoCommand |
| Lifecycle.StartEvents | lib/server_modules.py:51-69 | definition of the events of `start` when the k-th probe is the first to answer alive; its properties are Lifecycle.StartIssuesAtMostOneCommand and Lifecycle.StartWarnsOnlyWhenRunning |
| Lifecycle.StopRounds | lib/server_modules.py:83-84 | definition of n polls of `stop` that still found the process alive; its properties are Lifecycle.StopRoundsIssueNoCommand and Lifecycle.StopRoundsWithoutWarning |
| Lifecycle.StopEvents | lib/server_modules.py:74-84 | definition of the events of `stop` when the k-th probe is the first to answer down; its properties are Lifecycle.StopIssuesAtMostOneCommand and Lifecycle.StopWarnsOnlyWhenDown |
| Lifecycle.DeployEvents | lib/server_modules.py:33-38 | definition of the events of `deploy`: mkdir, the pre-deploy step, the control script; its property is Proxy.DeployPicks, and Lifecycle.Process.Deploy records exactly these events |
| Lifecycle.StartRoundSleep | lib/server_modules.py:63-66 | one failed poll of `start` sleeps once, for the current interval |
| Lifecycle.StartRoundWarning | lib/server_modules.py:65-69 | one failed poll of `start` warns "still not alive" exactly when the interval had reached 5000 ms |
| Lifecycle.StartRoundNoCommand | lib/server_modules.py:63-69 | one failed poll of `start` issues no command |
| Lifecycle.StartRoundsSleeps | lib/server_modules.py:63-68 | after n failed polls `start` has slept exactly the intervals 0..n-1 of the schedule, in order |
| Lifecycle.StartRoundsWarnings | lib/server_modules.py:65-69 | after n failed polls `start` has warned max(0, n-6) times, from the seventh poll on, each time "still not alive" |
| Lifecycle.StartRoundsWarnStillNotAlive | lib/server_modules.py:69 | every warning of the polling loop of `start` is "still not alive" |
| Lifecycle.StartRoundsIssueNoCommand | lib/server_modules.py:63-69 | the polling loop of `start` issues no command |
| Lifecycle.StopRoundsIssueNoCommand | lib/server_modules.py:83-84 | the polling loop of `stop` issues no command |
| Lifecycle.StopRoundsWithoutWarning | lib/server_modules.py:83-84 | the polling loop of `stop` emits no warning |
| Lifecycle.GuardedCommand | lib/server_modules.py:60-63 | a start or stop that goes ahead issues exactly its one command between the guard probe and the polling |
| Lifecycle.WarnOnlyIssuesNoCommand | lib/server_modules.py:52-54 | a start or stop that finds the process already in the wanted state issues no command |
| Lifecycle.StartIssuesAtMostOneCommand | lib/server_modules.py:51-69 | `start` issues no command when the first probe answers alive; otherwise exactly the one start command, and it ends on a probe that answered alive (the probes' own PING commands are counted as probes, not commands) |
| Lifecycle.StartWarnsOnlyWhenRunning | lib/server_modules.py:52-54 | `start` warns "already running" exactly when the first probe answers alive |
| Lifecycle.StopIssuesAtMostOneCommand | lib/server_modules.py:74-86 | `stop` issues no command when the first probe answers down; otherwise exactly the one stop command, and it ends on a probe that answered down (the probes' own PING commands are counted as probes, not commands) |
| Lifecycle.StopWarnsOnlyWhenDown | lib/server_modules.py:75-77 | `stop` warns "already stopped" exactly when the first probe answers down |
| Lifecycle.MkdirCommand | lib/server_modules.py:35 | definition of the directory-creation command of `deploy` for a path; Lifecycle.Process.constructor and both server constructors fix the process's mkdir command to it |
| Lifecycle.ControlScriptPath | lib/server_modules.py:44 | definition of `${path}/${name}_control`; Lifecycle.Process.constructor and both server constructors fix the control-script path to it |
| Lifecycle.ControlCommand | lib/server_modules.py:60-79 | definition of `cd $path && ./${name}_control start` and its `stop` form; Lifecycle.Process.constructor and both server constructors fix the start and stop commands to it |
| Lifecycle.Process.constructor | lib/server_modules.py:18-28 | a process with its name, host, port and path, its mkdir, control-script and start/stop commands, an empty trace and the given probe answers |
| Lifecycle.Process.Alive | lib/server_modules.py:96-97 | a probe consumes one answer, returns it and records it |
| Lifecycle.Process.Run | lib/server_modules.py:99-102 | a command is recorded and nothing else changes |
| Lifecycle.Process.Deploy | lib/server_modules.py:33-49 | `deploy` records the directory creation, the pre-deploy events and the control-script write at `path/name_control`, in that order, without probing |
| Lifecycle.Process.WaitBeforeRetry | lib/server_modules.py:64-69 | one pause of `start`: sleep the current interval, double it below 5000 ms, otherwise set it to 5000 ms and warn |
| Lifecycle.Process.AwaitAlive | lib/server_modules.py:63-69 | the polling loop of `start` consumes the answers up to the first alive one, with one backoff round per failed probe |
| Lifecycle.Process.Start | lib/server_modules.py:51-72 | `start` consumes the probe answers up to the first alive one and records exactly the events of the guarded start with its backoff |
| Lifecycle.Process.PauseBeforeRetry | lib/server_modules.py:84 | one pause of `stop` is the executor's default pause |
| Lifecycle.Process.RetryDown | lib/server_modules.py:83-84 | one more turn of the polling loop of `stop` after an alive answer: the default pause, then a probe that answers alive exactly when the first down answer is still ahead; it consumes one answer |
| Lifecycle.Process.AwaitDown | lib/server_modules.py:83-84 | the polling loop of `stop` consumes the answers up to the first down one, with one pause per probe that still answered alive |
| Lifecycle.Process.Stop | lib/server_modules.py:74-86 | `stop` consumes the probe answers up to the first down one and records exactly the events of the guarded stop with its fixed pause |
| Redis.SplitOnce | lib/server_modules.py:124 | `line.split(':', 1)`: one piece, the line itself, exactly when there is no colon; otherwise the text before the first colon and everything after it |
| Redis.Uncommented | lib/server_modules.py:124 | definition of dropping the lines that start with `#`; its properties are Redis.PairLineHasKey, Redis.InfoMapStep and Redis.KeysComeFromLines |
| Redis.Fields | lib/server_modules.py:124 | definition of `line.split(':', 1)` over the lines; its properties are Redis.SplitOnce and Redis.HasKeySplit |
| Redis.Pairs | lib/server_modules.py:125 | definition of keeping the split lines that had a colon; its properties are Redis.PairLineHasKey and Redis.InfoMapStep |
| Redis.ToDict | lib/server_modules.py:126 | definition of `dict(pairs)` with later pairs overwriting; its properties are Redis.InfoMapStep and Redis.LastLineWins |
| Redis.InfoMap | lib/server_modules.py:124-126 | definition of the dictionary built from the reply's lines; its properties are Redis.InfoMapStep, Redis.LastLineWins, Redis.UnnamedKeyAbsent and Redis.KeysComeFromLines |
| Redis.ParseInfo | lib/server_modules.py:120-126 | definition of `_info_dict()` on the reply text, split on CR LF; its properties are Redis.LastLineWins, Redis.UnnamedKeyAbsent, Redis.TwoKeyReply and Redis.ExampleReplyParsed |
| Redis.Get | lib/server_modules.py:126 | definition of a `defaultdict(str)` lookup, `''` for a missing key; its properties are Redis.UnnamedKeyAbsent and Redis.MissingPortRaises |
| Redis.NotComment | lib/server_modules.py:124 | a line whose first character is not `#` is not a comment line |
| Redis.HasKeySplit | lib/server_modules.py:124-125 | a non-comment line `key:value` splits into the key and everything after the first colon, colons included |
| Redis.PairLineHasKey | lib/server_modules.py:124-125 | every non-comment line with a colon contributes the key before its first colon |
| Redis.KeyUnique | lib/server_modules.py:124 | a line names at most one key |
| Redis.KeyLine | lib/server_modules.py:124 | `key:value` is the line for `key`, with value `value`, when the key has no colon and does not start with `#` |
| Redis.InfoMapStep | lib/server_modules.py:124-126 | one more line overwrites its key when it is a non-comment line with a colon and leaves the dictionary unchanged otherwise |
| Redis.LastLineWins | lib/server_modules.py:124-126 | the value of a key is taken from the last line that names it, everything after its first colon |
| Redis.UnnamedKeyAbsent | lib/server_modules.py:124-126 | a key that no non-comment line names is absent, so it reads as `''` |
| Redis.KeysComeFromLines | lib/server_modules.py:124-126 | every key of the dictionary is named by some non-comment line |
| Redis.OtherKeyAbsent | lib/server_modules.py:124-126 | in a reply of two keyed lines around a comment, any third key is absent |
| Redis.ExampleReplyJoin | lib/server_modules.py:124 | the sample reply is its lines joined with CR LF |
| Redis.ExampleLinesSingle | lib/server_modules.py:124 | no line of the sample reply holds a carriage return |
| Redis.ExampleReplyLines | lib/server_modules.py:124 | the sample reply splits into its three lines and a trailing empty line |
| Redis.ExampleLineFacts | lib/server_modules.py:124-125 | the sample lines: two keyed lines with their values and one comment |
| Redis.TwoKeyReply | lib/server_modules.py:124-126 | a reply of two keyed lines around a comment gives both values and `''` for every other key |
| Redis.ExampleReplyParsed | lib/server_modules.py:120-126 | `"uptime_in_seconds:120\r\n#c\r\nrole:master\r\n"` gives "120", "master" and `''` for any other key |
| Redis.IsSlaveOf | lib/server_modules.py:156-160 | definition of `isslaveof`, with `int()`'s ValueError as an answer; its properties are Redis.IsSlaveOfIff, Redis.ReplicaRecognised and Redis.MissingPortRaises |
| Redis.IsSlaveOfIff | lib/server_modules.py:156-160 | `isslaveof` is True iff the master host matches and the master port reads as the number asked about; a host mismatch returns None without converting the port; it raises iff the host matches and the port is not a number |
| Redis.ReplicaRecognised | lib/server_modules.py:156-160 | a reply whose last master lines name the host and the port's decimal form is recognised |
| Redis.MissingPortRaises | lib/server_modules.py:156-160 | a matching host with no master_port line raises ValueError on `int('')` |
| Redis.Status | lib/server_modules.py:149-154 | definition of `status()`: up with the uptime when it is non-empty, down otherwise; its properties are Redis.StatusDownWithoutUptime and Redis.StatusFollowsLastUptimeLine |
| Redis.StatusDownWithoutUptime | lib/server_modules.py:149-154 | a reply without an uptime line reports the node down |
| Redis.StatusFollowsLastUptimeLine | lib/server_modules.py:149-154 | otherwise the status is the last uptime line's value, or down when it is empty |
| Redis.PingAlive | lib/server_modules.py:132-133 | a node is alive exactly when its PING reply contains PONG |
| Redis.RedisServer.constructor | lib/server_modules.py:106-118 | a process named `redis` with the given host, port, path and answers; its mkdir command, control script `path/redis_control` and `cd path && ./redis_control start` and `stop` commands; the node's own start and run command lines and file paths derived from its path and port |
| Proxy.BackendLine | lib/server_modules.py:196 | definition of the server line `    - host:port:1 server_name` of one master; its property is Proxy.BackendLines |
| Proxy.ConfSection | lib/server_modules.py:195-198 | definition of `_gen_conf_section()`: the server lines joined with newlines; its properties are Proxy.SectionLines and Proxy.EmptySection |
| Proxy.ConfPool | lib/server_modules.py:200-217 | definition of the rendered pool template before the server list; its property is Proxy.ConfLines |
| Proxy.PoolSettings | lib/server_modules.py:204-215 | the template's fixed settings, from `hash` to `servers:` |
| Proxy.GenConf | lib/server_modules.py:200-218 | definition of `_gen_conf()`: the pool template followed by the server list; its property is Proxy.ConfLines |
| Proxy.BackendLines | lib/server_modules.py:195-197 | one server line per master, in order, line i being `    - host_i:port_i:1 server_name_i` |
| Proxy.SectionLines | lib/server_modules.py:195-198 | the server list read back line by line is exactly the masters' lines, with no trailing newline |
| Proxy.EmptySection | lib/server_modules.py:197 | no masters render an empty server list |
| Proxy.EmptyConf | lib/server_modules.py:200-218 | with no masters `_gen_conf()` is the pool section and its final newline, nothing after it |
| Proxy.ConfLines | lib/server_modules.py:200-218 | the configuration is the pool section's lines followed by exactly one line per master, in order |
| Proxy.StartEventsWriteNoFile | lib/server_modules.py:51-72 | `start` writes no file |
| Proxy.StartRoundsWriteNoFile | lib/server_modules.py:63-69 | the polling loop of `start` writes no file |
| Proxy.StopEventsWriteNoFile | lib/server_modules.py:74-86 | `stop` writes no file |
| Proxy.StopRoundsWriteNoFile | lib/server_modules.py:83-84 | the polling loop of `stop` writes no file |
| Proxy.PreDeployEvents | lib/server_modules.py:220-226 | definition of the proxy's `_pre_deploy`: the binary copy, then the write of `_gen_conf()`; its properties are Proxy.DeployPicks and Proxy.ReconfigWritesNewConf |
| Proxy.DeployPicks | lib/server_modules.py:220-226 | a `deploy` whose pre-deploy step copies the binaries and writes one file issues the mkdir and then the copy, and writes only that file |
| Proxy.ReconfigEvents | lib/server_modules.py:236-240 | definition of the events of `reconfig`: stop, deploy with the new masters, start; its properties are Proxy.ReconfigCommands and Proxy.ReconfigWritesNewConf |
| Proxy.ReconfigCommands | lib/server_modules.py:236-240 | `reconfig` issues the stop command unless the proxy was already down, then mkdir and the binary copy, then the start command unless the proxy already answers alive |
| Proxy.ReconfigWritesNewConf | lib/server_modules.py:236-240 | whatever the probes answer, the only file `reconfig` writes is the proxy configuration, rendering exactly the new masters |
| Proxy.NutCracker.constructor | lib/server_modules.py:175-190 | status port is port + 1000; configuration, pid and log paths; start command with `-v verbose -m mbuf` (defaults 4 and 512) and run command without them; the binary copy command; the template's fixed pool settings; the process is named `nutcracker`, with its mkdir command, control script `path/nutcracker_control` and `cd path && ./nutcracker_control start` and `stop` commands |
| Proxy.NutCracker.Deploy | lib/server_modules.py:220-226 | the proxy's `deploy` records mkdir, the binary copy, the write of `_gen_conf()` for the current masters to `path/conf/nutcracker.conf`, and the control script, in order |
| Proxy.NutCracker.Reconfig | lib/server_modules.py:236-241 | after `reconfig(ms)` the masters are ms, the trace has grown by exactly the events of stop, deploy with ms and start, and the probe answers up to the proxy's return are consumed |

## Left out

- Lifecycle.Process.Start: needs a probe answer of "alive" to be pending (`true in liveness`). A process that never comes up makes the source loop for ever, and that run is not modelled.
- Lifecycle.Process.Stop: needs a probe answer of "down" to be pending, for the same reason.
- Proxy.NutCracker.Reconfig: needs a "down" answer, and after it an "alive" answer, to be pending, for the same reason.
- Command execution (`_run`, `system`) and `lets_sleep` are recorded as trace events; their output and the actual waiting are not modelled.
- File I/O is not modelled. That covers reading the `conf/control.sh` and `conf/redis.conf` templates, the contents of the rendered control script and Redis configuration, and `os.chmod`. A write is recorded with its path (and, for the proxy configuration, its content).
- `TT` template substitution is not modelled in general. The handful of strings this core renders are written out as concatenations.
- `RedisServer._pre_deploy` and `RedisServer._gen_conf` are not modelled, because the configuration they write is the unmodelled template. `Process.Deploy` takes the pre-deploy step's events as a parameter, and the proxy supplies its own.
- `log`, `rediscmd`, `slaveof` and `_ping` are thin command wrappers that print output; they are not modelled. `_alive` of a Redis node is modelled as `PingAlive` on the PING reply. The PING that `_ping` hands to the executor is recorded as a `Probe` event, not a `Command`, so the commands counted by `StartIssuesAtMostOneCommand` and `StopIssuesAtMostOneCommand` are the control and deploy commands, not every executor call.
- The `INFO` command that produces the reply is not modelled; the parser takes the reply text as input.
- `NutCracker._info_dict` (telnet plus JSON decoding) and the truthiness test in `NutCracker._alive` are the liveness oracle.
- `time.time()` measurement and the log messages, which are output only, are not modelled. The warnings are kept as events.
- `conf.BINARYS` lookups are not modelled; the binary list is a constructor parameter.
- The `args` dictionary is flattened into constant fields set by the constructors; `__str__`, `host()` and `port()` are not modelled.
- Text.ParseInt: models Python 2's `int()` of a byte string in base 10 only: surrounding whitespace, an optional sign, whitespace after the sign, then digits. Other bases are not modelled, because the code never passes a base.
- Text.IsSpace: covers the ASCII whitespace that `str.strip()` removes from a byte string, not Unicode whitespace.
- Proxy.ConfLines and Proxy.SectionLines: require host names and server names contain no newline; with one the rendered list has more lines than masters.
- Proxy.ReconfigCommands: is stated in terms of the positions of the first "down" and the following first "alive" answer; Lifecycle.FirstIndexZero relates a position of 0 to the first answer.
- The backoff cap is the code's: one sleep of 6400 ms comes before the interval settles at 5000 ms, because the `< 5` test at lib/server_modules.py:65 looks at the interval just slept, so the doubling from 3200 ms is not capped.
