# Redispot, modelled in Dafny

Redispot starts a throwaway `redis-server` for a test. It does four things:

- it creates a scratch directory;
- it writes a `redis.conf` there from the caller's options merged over two defaults (a unix socket and the data directory);
- it forks the server, polls its log until the server says it is ready, and hands the test the connection info (`{url: …}` or `{path: …}`);
- afterwards it stops the server with TERM, then INT, then KILL, one signal per timed-out wait.

The library also refines `Object` with `blank?`, `present?` and `presence`, and `Hash` with `symbolize_keys`.

This project models that logic and proves its properties:

- `wrappers.dfy`: `Option` and `Result`.
- `ruby_hash.dfy`: Ruby's insertion-ordered `Hash` as a sequence of pairs.
  - `Store` keeps a key's position when it replaces a value and appends a new key.
  - `Merge` folds `Store` over the other hash.
- `ruby_value.dfy`: the Ruby values the library handles, with `to_s`, `inspect` (the format before Ruby 3.4) and `Hash#[]`.
  - `HashRef` is the caller's hash object, which the server shares and does not copy.
- `refinements.dfy`: `blank?`, `present?`, `presence`, `to_sym` and `symbolize_keys`.
- `server_logic.dfy`: the pure rules of `Redispot::Server`:
  - the working-directory paths;
  - `default_config` and `config`;
  - the `inject` fold of `config_file`;
  - `connect_info`;
  - the `loglevel` rewrite;
  - the readiness marker match;
  - the decision of the start loop;
  - the signal escalation of `stop`.
- `server.dfy`: the `Redispot::Server` object.
  - Its constructor rewrites the caller's hash.
  - `Stop` runs the signal loop.
  - `StartRedisServer` runs the poll loop.
  - `Start` chains them.
  - Caller scenarios show what follows from these contracts alone.
- `working_directory.dfy`: `Redispot::WorkingDirectory` and its `Remover` finalizer over a filesystem, which is the set of paths that exist.

The outside world is modelled as observations passed in as parameters:

- **Start loop.** A `Poll` records whether the non-blocking `waitpid` reported an exit and the log text read in that poll. The sequence of polls is the timeout budget.
- **`stop`.** `exitsAt` is the first wait, counted from 0, that sees the child exit. A process that has exited stays exited.
- **Log read in the timeout handler.** `files` holds the file contents when the handler reads the log. `Server.ReadFile` is `File.read` over it: the contents of a path in `files`, or ENOENT naming a missing path.
- **Timeout value.** The `timeout` the server stores is not tied to the polls or the waits. In Ruby, `Timeout.timeout` with 0 or nil sets no limit at all. `executable` is stored but not used, since the model does not exec anything.
- **Process ids.** The process id of the caller is a parameter.
- **Finalizers.** The finalizer `ObjectSpace` registers for a working directory is that object's `finalizer` field.

### Where the model follows the code

The model follows what the code does, including these behaviours:

- **Empty values in `config_file`.**
  - The block of `inject` answers `next` for a value whose `to_s` is empty. That makes the accumulator nil rather than skipping the entry.
  - A later non-empty entry then raises `NoMethodError`. The model returns `Failure(NilAccumulator)`.
  - When only empty entries follow, the file is written empty.
  - `config_file` runs inside the forked child, as the argument of `exec`. There the `rescue` prints the error to standard error, not to the log, and `error.errno` fails in turn, so the child exits. The `NoMethodError` therefore reaches `start` only as an exited child, never as `NoMethodError` itself.
- **Default socket.** The default `unixsocket` is always merged in, even when the caller gives a `port`. No `port 0` is set to switch the socket off.
- **Readiness marker.** The match is case-sensitive. The marker is searched for literally: the pattern has no metacharacters.
- **Escalation runs out.** When all three waits time out, `signals.shift` yields nil. `Process.kill(nil, pid)` then raises (`BadSignal` here) instead of re-raising the timeout, and `@pid` stays set.
- **Startup timeout.** A timed-out startup calls `stop`. When that `stop` confirms the exit, it clears `@workdir`, so the handler reads `/redis.log` rather than the working directory's log. `Server.TimeoutLosesLog` shows the missing-file error that then escapes.
- **Integer ports.** `port.is_a?(Fixnum)` is read as "is an integer".

## Model

| member | source | states |
|---|---|---|
| RubyHash.Lookup | lib/redispot/server.rb:113-114 | `Hash#[]`/`fetch`: a value is found exactly when the key is among the keys, and it is the value stored with it |
| RubyHash.Store | lib/redispot/server.rb:50 | `hash[k] = v`: afterwards `k` reads `v` and every other key reads as before |
| RubyHash.StoreKeys | lib/redispot/server.rb:50 | an existing key keeps its position; a new key is appended at the end |
| RubyHash.StoreUnique | lib/redispot/server.rb:50 | storing keeps the keys free of duplicates |
| RubyHash.MergeLookup | lib/redispot/server.rb:157 | `merge`: a key of the argument reads the argument's value; any other key reads the receiver's |
| RubyHash.MergeKeys | lib/redispot/server.rb:157 | `merge` key order: the receiver's keys in their places, then the argument's new keys in the argument's order |
| RubyHash.MergeUnique | lib/redispot/server.rb:157 | merging keeps the keys free of duplicates |
| RubyHash.Merge | lib/redispot/server.rb:157 | `Hash#merge` as `Store` of each of the argument's entries in order; its properties are `MergeLookup`, `MergeKeys` and `MergeUnique` |
| RubyValue.NatToS | lib/redispot/server.rb:117 | `Integer#to_s` of a natural number is a non-empty string of decimal digits; its value is stated by `NatToSValue` |
| RubyValue.IntToS | lib/redispot/server.rb:117 | `Integer#to_s` is an optional minus sign followed by digits; its value is stated by `IntToSValue` |
| RubyValue.NatToSValue | lib/redispot/server.rb:117 | the digits of the rendering denote `n`; 0 renders as "0", and no other number starts with 0 |
| RubyValue.IntToSValue | lib/redispot/server.rb:117 | the rendering of `Integer#to_s` denotes the integer; it has a minus sign exactly for negative numbers, at least one digit after it, and no leading zero; 0 renders as "0" |
| RubyValue.ToS | lib/redispot/server.rb:147-148 | `to_s` as interpolation uses it; its properties are `ToSEmpty` and `ToSWord` |
| RubyValue.Inspect | lib/redispot/server.rb:148 | `inspect`, which is how arrays and hashes render through `to_s` (format before Ruby 3.4); defined only, no property is stated about it |
| RubyValue.ToSEmpty | lib/redispot/server.rb:147 | `to_s` is empty exactly for nil, `""` and `:""` |
| RubyValue.ToSWord | lib/redispot/server.rb:48 | a value renders as a lower-case word other than true/false exactly when it is that string or that symbol |
| RubyValue.At | lib/redispot/server.rb:113-119 | `Hash#[]` reads the stored value, or nil for a missing key |
| Refinements.Blank | lib/redispot/refinements.rb:4-6 | `blank?`; stated by `BlankValues` and `PresentValues` |
| Refinements.Present | lib/redispot/refinements.rb:8-10 | `present?`; stated by `PresentValues` |
| Refinements.Presence | lib/redispot/refinements.rb:12-14 | `presence` is the receiver when present and nil otherwise, so it is nil or present |
| Refinements.BlankValues | lib/redispot/refinements.rb:4-6 | the blank values are exactly nil, false, `""`, `:""`, `[]` and `{}` |
| Refinements.PresentValues | lib/redispot/refinements.rb:8-10 | `present?` is the negation of `blank?`; integers and true are present; for values with `empty?`, present means non-empty |
| Refinements.PresenceNeverBlank | lib/redispot/refinements.rb:12-14 | `presence` never answers a blank value other than nil, and answers the receiver exactly when it is present or nil |
| Refinements.ToSym | lib/redispot/refinements.rb:20 | `to_sym` exists exactly for strings and symbols, and gives a symbol |
| Refinements.SymbolizeKeys | lib/redispot/refinements.rb:18-22 | `symbolize_keys` as a fold over the keys in order; stated by `SymbolizeKeysFails`, `SymbolizeKeysUnique`, `SymbolizeKeysKeySet` and `SymbolizeKeysLastWins` |
| Refinements.SymbolizeKeysFails | lib/redispot/refinements.rb:18-22 | `symbolize_keys` raises exactly when some key has no `to_sym`, and the error names the first such key |
| Refinements.SymbolizeKeysUnique | lib/redispot/refinements.rb:18-22 | the new hash has no duplicate keys |
| Refinements.SymbolizeKeysKeySet | lib/redispot/refinements.rb:19-21 | the new hash's keys are exactly the symbols of the receiver's keys |
| Refinements.SymbolizeKeysLastWins | lib/redispot/refinements.rb:19-21 | when keys collide on one symbol, the value of the last of them in iteration order wins |
| ServerLogic.WorkdirFilesDistinct | lib/redispot/server.rb:141-165 | socket, log and config are three distinct paths, each starting with `"<workdir>/"` |
| ServerLogic.SocketPath | lib/redispot/server.rb:162 | the default `unixsocket`; stated by `WorkdirFilesDistinct` and `DefaultConnectsBySocket` |
| ServerLogic.Logfile | lib/redispot/server.rb:141-143 | `logfile`; stated by `WorkdirFilesDistinct`, and by `Server.TimeoutLosesLog` for a nil workdir |
| ServerLogic.ConfigPath | lib/redispot/server.rb:151 | the path `config_file` writes; stated by `WorkdirFilesDistinct` and `ConfigFileForCaller` |
| ServerLogic.DefaultConfig | lib/redispot/server.rb:160-165 | `default_config`; stated by `ConfigPrecedence` and `ConfigOrder` |
| ServerLogic.MergedConfig | lib/redispot/server.rb:156-158 | `config`; stated by `ConfigPrecedence` and `ConfigOrder` |
| ServerLogic.Inject | lib/redispot/server.rb:146-149 | the `inject` fold with its `next`; stated by `InjectFromNil` and `InjectFromText` |
| ServerLogic.RenderConfig | lib/redispot/server.rb:146-149 | `config_string`, the fold from `''`; stated by `ConfigFileEmptied` |
| ServerLogic.ConfigFileText | lib/redispot/server.rb:146-152 | the text `File.write` writes; stated by `ConfigFileLines`, `ConfigFileFails` and `ConfigFileEmptied` |
| ServerLogic.ConfigFile | lib/redispot/server.rb:145-153 | `config_file`; stated by `ConfigFileForCaller` |
| ServerLogic.ConfigPrecedence | lib/redispot/server.rb:156-165 | every key the caller gives keeps the caller's value; `unixsocket` and `dir` get their defaults only when missing |
| ServerLogic.ConfigOrder | lib/redispot/server.rb:156-165 | merged order is `unixsocket`, `dir`, then the caller's other keys in the caller's order, without duplicates |
| ServerLogic.InjectFromNil | lib/redispot/server.rb:146-149 | from a nil accumulator the fold fails at the first non-empty entry and stays nil when there is none |
| ServerLogic.InjectFromText | lib/redispot/server.rb:146-149 | from a string accumulator the fold appends one line per entry, fails if an empty entry precedes a non-empty one, and ends nil after a trailing empty entry |
| ServerLogic.ConfigFileLines | lib/redispot/server.rb:146-152 | when no value renders empty, the file holds `"<key> <value>\n"` per entry in order |
| ServerLogic.ConfigFileFails | lib/redispot/server.rb:146-149 | rendering raises exactly when an empty value precedes a non-empty one |
| ServerLogic.ConfigFileEmptied | lib/redispot/server.rb:146-152 | when an empty value is followed only by empty ones, the accumulator ends nil and an empty file is written |
| ServerLogic.ConfigFileForCaller | lib/redispot/server.rb:145-165 | for a caller whose values are all non-empty, `redis.conf` in the working directory holds one line per merged entry in merged order |
| ServerLogic.ConnectInfo | lib/redispot/server.rb:110-121 | `connect_info`; stated by `ConnectInfoShape`, `ConnectInfoFields`, `DefaultConnectsBySocket` and `BoundPortConnectsByUrl` |
| ServerLogic.ConnectInfoShape | lib/redispot/server.rb:110-121 | nil exactly without a pid; otherwise a one-key hash, `url` when the port is a positive integer and `path` otherwise, never both |
| ServerLogic.ConnectInfoFields | lib/redispot/server.rb:113-119 | the URL is `redis://<bind or 0.0.0.0>:<port>/`; the path is the config's `unixsocket` |
| ServerLogic.DefaultConnectsBySocket | lib/redispot/server.rb:110-121 | without `port` and `unixsocket` the caller gets `{path: "<workdir>/redis.sock"}` |
| ServerLogic.BoundPortConnectsByUrl | lib/redispot/server.rb:110-121 | with `bind` and a positive `port` the caller gets `{url: "redis://<bind>:<port>/"}` |
| ServerLogic.RewriteLoglevel | lib/redispot/server.rb:48-51 | the rewrite in `initialize`; stated by `RewriteLoglevelSpec` |
| ServerLogic.RewriteLoglevelSpec | lib/redispot/server.rb:48-51 | `loglevel` `"warning"` or `:warning` becomes `"notice"`; no key moves, other keys keep their values, other loglevels leave the hash as it was |
| ServerLogic.Contains | lib/redispot/server.rb:95 | `=~` with a pattern without metacharacters; stated by `ContainsAt`, `MarkerFound` and `MarkerIsCaseSensitive` |
| ServerLogic.ContainsAt | lib/redispot/server.rb:95 | the log match succeeds exactly when the marker occurs at some offset of the text |
| ServerLogic.MarkerFound | lib/redispot/server.rb:95 | the marker is found wherever it appears in the log |
| ServerLogic.MarkerIsCaseSensitive | lib/redispot/server.rb:95 | the marker in lower case does not match |
| ServerLogic.WatchLog | lib/redispot/server.rb:88-104 | the decision of the poll loop; stated by `WatchExited`, `WatchReady` and `WatchTimedOut`, and `Server.RedisServer.StartRedisServer` is proved against it |
| ServerLogic.WatchExited | lib/redispot/server.rb:90-102 | the loop reports an exit, with that poll's log, exactly when a poll sees the child exit before any poll decided anything |
| ServerLogic.WatchReady | lib/redispot/server.rb:90-102 | the loop returns the connection info exactly when a poll without an exit sees the marker before any poll decided anything |
| ServerLogic.WatchTimedOut | lib/redispot/server.rb:88-104 | the loop times out exactly when no poll sees an exit or the marker |
| ServerLogic.SignalsSent | lib/redispot/server.rb:126-133 | signals go TERM, INT, KILL, one per wait, stopping at the first wait that sees the exit; the exit is confirmed exactly when the last wait sees it, and when no wait sees it all three were sent |
| Server.RedisServer.constructor | lib/redispot/server.rb:39-51 | records the creating process, no pid and no workdir, and rewrites `loglevel warning` in the caller's own hash |
| Server.RedisServer.Config | lib/redispot/server.rb:156-158 | `config` read afresh from the current workdir and the caller's current hash: `MergedConfig` of both |
| Server.RedisServer.Stop | lib/redispot/server.rb:123-139 | no-op without a pid or from another process; otherwise sends the escalation, and on a confirmed exit clears pid and workdir, else raises with the state kept |
| Server.RedisServer.StartRedisServer | lib/redispot/server.rb:76-107 | sets the pid, then returns `connect_info` on the marker, clears the pid and fails on an exit, and on timeout stops the server and fails with the log read afterwards |
| Server.RedisServer.Start | lib/redispot/server.rb:67-73 | sets the workdir; when the server is ready, yields `connect_info` and then stops it, with the state and error `stop` leaves; on a child exit or a timeout nothing is yielded and the error, pid and workdir are those the failed startup leaves |
| Server.StopTwice | lib/redispot/server.rb:123-139 | after a confirmed stop, a second `stop` sends nothing and raises nothing |
| Server.ForeignStop | lib/redispot/server.rb:124 | a process other than the creator cannot stop the server, which keeps running |
| Server.ConnectBySocket | test/basic_test.rb:4-9 | with no options the block receives `{path: "<workdir>/redis.sock"}` and no URL |
| Server.ConnectByUrl | test/basic_test.rb:18-24 | with `bind` and `port` the block receives `{url: "redis://<bind>:<port>/"}` and no path |
| Server.TimeoutLosesLog | lib/redispot/server.rb:104-106 | a startup timeout whose `stop` confirms the exit raises ENOENT for `/redis.log` |
| Server.WarningBecomesNotice | lib/redispot/server.rb:48-51 | `loglevel: :warning` reaches the caller's own hash as `loglevel: "notice"` |
| WorkingDir.FileSystem.RemoveEntrySecure | lib/redispot/working_directory.rb:18 | `remove_entry_secure` removes the path with its subtree, or reports ENOENT and removes nothing when the path is missing |
| WorkingDir.RemovedSpec | lib/redispot/working_directory.rb:17-21 | after a rescued removal the directory and its subtree are gone and every other path is as it was |
| WorkingDir.RemovedIdempotent | lib/redispot/working_directory.rb:17-21 | removing a second time changes nothing |
| WorkingDir.Without | lib/redispot/working_directory.rb:18 | the paths left once a directory and its subtree are removed; stated by `RemovedSpec` |
| WorkingDir.Removed | lib/redispot/working_directory.rb:17-21 | removal with ENOENT rescued; stated by `RemovedSpec` and `RemovedIdempotent` |
| WorkingDir.Remover.constructor | lib/redispot/working_directory.rb:31-34 | records the creating process and the directory |
| WorkingDir.Remover.Call | lib/redispot/working_directory.rb:36-40 | nothing happens outside the creating process; inside it the directory is removed, and a missing directory is no error |
| WorkingDir.WorkingDirectory.constructor | lib/redispot/working_directory.rb:10-13 | the new directory exists and is the object's path, and a `Remover` for it, recording the current process, is registered |
| WorkingDir.WorkingDirectory.Delete | lib/redispot/working_directory.rb:17-21 | the directory is removed; the finalizer is unregistered only when the removal succeeded and stays when ENOENT was rescued |
| WorkingDir.WorkingDirectory.ToS | lib/redispot/working_directory.rb:26-28 | `to_s`, the directory fixed at construction; stated by `Lifecycle` |
| WorkingDir.Lifecycle | test/workingdir_test.rb:4-10 | the directory exists after `new` and not after `delete`, `to_s` is the same before and after, and a second `delete` changes nothing |
| WorkingDir.VanishedDirectory | lib/redispot/working_directory.rb:17-21 | when the directory vanished first, `delete` keeps the finalizer, whose later runs in either process change nothing |
| WorkingDir.ForkedFinalizer | lib/redispot/working_directory.rb:36-38 | the finalizer run in a forked child leaves the directory; the run in the creating process removes it |

## Left out

- Process control: `Process.fork`, `exec` of `redis-server`, the exec-failure `exit`, `Process.kill`, `Process.waitpid` and `sleep` are replaced by the observations described above.
- `Timeout.timeout`: its watcher thread is not modelled. The start loop gets a finite sequence of polls, and each wait of `stop` times out or not.
- File I/O. `File.open` of the log, `File.write` of `redis.conf`, and the path the server receives are not modelled; `config_file` returns the path and the text it would write. `File.expand_path` of `tmpdir` and of the new directory is not modelled: the caller passes expanded paths. The name `Dir.mktmpdir` chooses is a parameter, and the removal of the directory when its block exits is not modelled.
- Server.RedisServer.constructor: `new` with a block, which calls `start`, is the constructor followed by `Start`.
- Server.RedisServer.Start: the caller's block is not run; `Start` returns the value the block would receive (`connect_info`) instead. Block-less `start` and calling the private `stop` from outside are not modelled.
- Server.RedisServer.StartRedisServer: the log text a poll reads is given with the poll. Reads of the same file in successive polls are not tied together.
- Finalizers: `ObjectSpace.define_finalizer` in `start_redis_server`, `undefine_finalizer` in `stop`, GC timing and the unused `Server.destroy` are not modelled. In `WorkingDirectory` the registration is the `finalizer` field.
- The behaviour of `redis-server` itself (readiness, refusing unknown options, the replies to `ping`) is external.
- Standard error warnings (`$stderr.puts`) are not modelled.
- RubyValue.Inspect: string escaping and the Ruby 3.4 hash format are not modelled. Floats and other classes are outside the value model.
- RubyHash: keys are compared with structural equality. For hash-valued keys that compares the entries in insertion order, whereas Ruby's `Hash#eql?` and `Hash#hash` ignore order, so `{a: 1, b: 2}` and `{b: 2, a: 1}` are two keys in the model and one in Ruby. The model has no floats, so `1` against `1.0` does not arise.
- Integers are unbounded: the library performs no fixed-width arithmetic.
