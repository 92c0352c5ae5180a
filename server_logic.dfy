/** The pure rules inside `Redispot::Server`: the default config and its merge
    under the caller's hash, the config-file text, the log path, the
    connection info handed to the caller, the `loglevel` rewrite, the
    per-poll readiness decision and the signal escalation of `stop`. The
    class that sequences them is in module `Server`. */
module ServerLogic {
  import opened Wrappers
  import opened RubyHash
  import opened RubyValue

  const UnixsocketKey: Value := Sym("unixsocket")
  const DirKey: Value := Sym("dir")
  const LoglevelKey: Value := Sym("loglevel")
  const BindKey: Value := Sym("bind")
  const PortKey: Value := Sym("port")
  const UrlKey: Value := Sym("url")
  const PathKey: Value := Sym("path")

  // ---------------------------------------------------------------------------
  // Paths inside the working directory

  /** `"#{@workdir}"`: interpolating a nil working directory gives "". */
  function WorkdirText(workdir: Option<string>): string
  {
    match workdir
    case None => ""
    case Some(dir) => dir
  }

  function SocketPath(workdir: Option<string>): string
  {
    WorkdirText(workdir) + "/redis.sock"
  }

  /** `logfile` */
  function Logfile(workdir: Option<string>): string
  {
    WorkdirText(workdir) + "/redis.log"
  }

  /** The path `config_file` writes to and returns. */
  function ConfigPath(workdir: Option<string>): string
  {
    WorkdirText(workdir) + "/redis.conf"
  }

  /** The three files of a working directory are distinct paths inside it. */
  lemma WorkdirFilesDistinct(workdir: Option<string>)
    ensures SocketPath(workdir) != Logfile(workdir)
    ensures Logfile(workdir) != ConfigPath(workdir)
    ensures SocketPath(workdir) != ConfigPath(workdir)
    ensures SocketPath(workdir)[..|WorkdirText(workdir)| + 1] == WorkdirText(workdir) + "/"
    ensures Logfile(workdir)[..|WorkdirText(workdir)| + 1] == WorkdirText(workdir) + "/"
    ensures ConfigPath(workdir)[..|WorkdirText(workdir)| + 1] == WorkdirText(workdir) + "/"
  {
    var w := WorkdirText(workdir);
    assert SocketPath(workdir)[|w| + 7] == 's';
    assert Logfile(workdir)[|w| + 7] == 'l';
    assert ConfigPath(workdir)[|w| + 7] == 'c';
  }

  // ---------------------------------------------------------------------------
  // Defaults and merge

  /** `default_config` */
  function DefaultConfig(workdir: Option<string>): Entries<Value, Value>
  {
    [(UnixsocketKey, Str(SocketPath(workdir))), (DirKey, Str(WorkdirText(workdir) + "/"))]
  }

  /** `config`: the defaults merged under the caller's hash. */
  function MergedConfig(workdir: Option<string>, caller: Entries<Value, Value>): Entries<Value, Value>
  {
    Merge(DefaultConfig(workdir), caller)
  }

  /** Merge precedence: every key the caller gives keeps the caller's value;
      `unixsocket` and `dir` take their defaults only when the caller lacks them. */
  lemma ConfigPrecedence(workdir: Option<string>, caller: Entries<Value, Value>, k: Value)
    requires UniqueKeys(caller)
    ensures k in Keys(caller) ==> At(MergedConfig(workdir, caller), k) == At(caller, k)
    ensures k !in Keys(caller) && k == UnixsocketKey ==>
              At(MergedConfig(workdir, caller), k) == Str(SocketPath(workdir))
    ensures k !in Keys(caller) && k == DirKey ==>
              At(MergedConfig(workdir, caller), k) == Str(WorkdirText(workdir) + "/")
    ensures k !in Keys(caller) && k != UnixsocketKey && k != DirKey ==>
              At(MergedConfig(workdir, caller), k) == Nil
  {
    MergeLookup(DefaultConfig(workdir), caller, k);
  }

  /** Merge order: `unixsocket`, then `dir` (in their default positions even when
      the caller overrides them), then the caller's other keys in the caller's order. */
  lemma ConfigOrder(workdir: Option<string>, caller: Entries<Value, Value>)
    requires UniqueKeys(caller)
    ensures Keys(MergedConfig(workdir, caller)) ==
              [UnixsocketKey, DirKey] + KeysNotIn(Keys(caller), [UnixsocketKey, DirKey])
    ensures UniqueKeys(MergedConfig(workdir, caller))
  {
    var d := DefaultConfig(workdir);
    assert Keys(d) == [UnixsocketKey, DirKey];
    MergeKeys(d, caller);
    MergeUnique(d, caller);
  }

  // ---------------------------------------------------------------------------
  // Config-file text

  /** The exception `memo += …` raises once the accumulator is nil
      (`NoMethodError`, undefined method `+` for nil). */
  datatype ConfigError = NilAccumulator

  /** The line an entry contributes: `"#{key} #{value}\n"`. */
  function Line(e: (Value, Value)): string
  {
    ToS(e.0) + " " + ToS(e.1) + "\n"
  }

  /** The entry's value renders as the empty string. */
  predicate RendersEmpty(e: (Value, Value))
  {
    ToS(e.1) == ""
  }

  /** The fold in `config_file`: `inject('')` whose block answers `next` (that
      is, nil) for an empty-valued entry and `memo + line` otherwise. */
  function Inject(entries: Entries<Value, Value>, memo: Option<string>): Result<Option<string>, ConfigError>
    decreases |entries|
  {
    if entries == [] then Success(memo)
    else if RendersEmpty(entries[0]) then Inject(entries[1..], None)
    else if memo.None? then Failure(NilAccumulator)
    else Inject(entries[1..], Some(memo.value + Line(entries[0])))
  }

  /** `config_string` in `config_file`. */
  function RenderConfig(entries: Entries<Value, Value>): Result<Option<string>, ConfigError>
  {
    Inject(entries, Some(""))
  }

  /** The text `File.write` puts in the config file: a nil string writes nothing. */
  function ConfigFileText(entries: Entries<Value, Value>): Result<string, ConfigError>
  {
    match RenderConfig(entries)
    case Failure(e) => Failure(e)
    case Success(None) => Success("")
    case Success(Some(text)) => Success(text)
  }

  /** Reference rendering: one line per entry, in order. */
  function Lines(entries: Entries<Value, Value>): string
    decreases |entries|
  {
    if entries == [] then "" else Line(entries[0]) + Lines(entries[1..])
  }

  /** Some empty-valued entry is followed, later on, by a non-empty one. */
  ghost predicate EmptyBeforeFilled(entries: Entries<Value, Value>)
  {
    exists i, j :: 0 <= i < j < |entries| && RendersEmpty(entries[i]) && !RendersEmpty(entries[j])
  }

  ghost predicate SomeEmpty(entries: Entries<Value, Value>)
  {
    exists i :: 0 <= i < |entries| && RendersEmpty(entries[i])
  }

  /** Once the accumulator is nil, the fold fails at the next non-empty entry
      and stays nil otherwise. */
  lemma {:induction false} InjectFromNil(entries: Entries<Value, Value>)
    ensures Inject(entries, None) ==
              if exists j :: 0 <= j < |entries| && !RendersEmpty(entries[j])
              then Failure(NilAccumulator) else Success(None)
    decreases |entries|
  {
    if entries != [] {
      InjectFromNil(entries[1..]);
      assert forall j :: 0 <= j < |entries| - 1 ==> entries[1..][j] == entries[j + 1];
    }
  }

  /** The fold from a string accumulator: it fails when an empty-valued entry
      precedes a non-empty one, ends in nil when the entries end with empty
      ones, and otherwise appends every entry's line. */
  lemma {:induction false} InjectFromText(entries: Entries<Value, Value>, acc: string)
    ensures Inject(entries, Some(acc)) ==
              if EmptyBeforeFilled(entries) then Failure(NilAccumulator)
              else if SomeEmpty(entries) then Success(None)
              else Success(Some(acc + Lines(entries)))
    decreases |entries|
  {
    if entries == [] {
      assert acc + "" == acc;
    } else {
      var rest := entries[1..];
      assert forall j :: 0 <= j < |rest| ==> rest[j] == entries[j + 1];
      if RendersEmpty(entries[0]) {
        InjectFromNil(rest);
        if exists j :: 0 <= j < |rest| && !RendersEmpty(rest[j]) {
          var j :| 0 <= j < |rest| && !RendersEmpty(rest[j]);
          assert !RendersEmpty(entries[j + 1]);
        } else {
          assert !EmptyBeforeFilled(entries) by {
            forall i, j | 0 <= i < j < |entries| && RendersEmpty(entries[i])
              ensures RendersEmpty(entries[j])
            {
              assert entries[j] == rest[j - 1];
            }
          }
        }
      } else {
        InjectFromText(rest, acc + Line(entries[0]));
        EmptyBeforeFilledTail(entries);
        SomeEmptyTail(entries);
        assert acc + Line(entries[0]) + Lines(rest) == acc + Lines(entries);
      }
    }
  }

  lemma EmptyBeforeFilledTail(entries: Entries<Value, Value>)
    requires entries != [] && !RendersEmpty(entries[0])
    ensures EmptyBeforeFilled(entries) <==> EmptyBeforeFilled(entries[1..])
  {
    var rest := entries[1..];
    if EmptyBeforeFilled(entries) {
      var i, j :| 0 <= i < j < |entries| && RendersEmpty(entries[i]) && !RendersEmpty(entries[j]);
      assert rest[i - 1] == entries[i] && rest[j - 1] == entries[j];
    }
    if EmptyBeforeFilled(rest) {
      var i, j :| 0 <= i < j < |rest| && RendersEmpty(rest[i]) && !RendersEmpty(rest[j]);
      assert rest[i] == entries[i + 1] && rest[j] == entries[j + 1];
    }
  }

  lemma SomeEmptyTail(entries: Entries<Value, Value>)
    requires entries != [] && !RendersEmpty(entries[0])
    ensures SomeEmpty(entries) <==> SomeEmpty(entries[1..])
  {
    var rest := entries[1..];
    if SomeEmpty(entries) {
      var i :| 0 <= i < |entries| && RendersEmpty(entries[i]);
      assert rest[i - 1] == entries[i];
    }
    if SomeEmpty(rest) {
      var i :| 0 <= i < |rest| && RendersEmpty(rest[i]);
      assert rest[i] == entries[i + 1];
    }
  }

  /** When every value renders non-empty, the config file holds one
      `"<key> <value>\n"` line per entry, in the merged order. */
  lemma ConfigFileLines(entries: Entries<Value, Value>)
    requires forall i :: 0 <= i < |entries| ==> !RendersEmpty(entries[i])
    ensures ConfigFileText(entries) == Success(Lines(entries))
  {
    InjectFromText(entries, "");
    assert "" + Lines(entries) == Lines(entries);
  }

  /** An empty value followed by a non-empty one makes the rendering raise. */
  lemma ConfigFileFails(entries: Entries<Value, Value>)
    ensures ConfigFileText(entries).Failure? <==> EmptyBeforeFilled(entries)
  {
    InjectFromText(entries, "");
  }

  /** An empty value followed only by empty ones leaves the accumulator nil, so
      the file written is empty: every line before it is lost too. */
  lemma ConfigFileEmptied(entries: Entries<Value, Value>)
    requires SomeEmpty(entries) && !EmptyBeforeFilled(entries)
    ensures RenderConfig(entries) == Success(None)
    ensures ConfigFileText(entries) == Success("")
  {
    InjectFromText(entries, "");
  }

  /** `config_file`: the path it returns and the text it writes there. */
  function ConfigFile(workdir: Option<string>, caller: Entries<Value, Value>): Result<(string, string), ConfigError>
  {
    match ConfigFileText(MergedConfig(workdir, caller))
    case Failure(e) => Failure(e)
    case Success(text) => Success((ConfigPath(workdir), text))
  }

  /** For a caller whose values all render non-empty, `redis.conf` in the working
      directory holds one line per merged entry: `unixsocket`, `dir`, then the
      caller's other keys in the caller's order. */
  lemma ConfigFileForCaller(workdir: Option<string>, caller: Entries<Value, Value>)
    requires UniqueKeys(caller)
    requires forall i :: 0 <= i < |caller| ==> !RendersEmpty(caller[i])
    ensures ConfigFile(workdir, caller) == Success((ConfigPath(workdir), Lines(MergedConfig(workdir, caller))))
    ensures Keys(MergedConfig(workdir, caller)) ==
              [UnixsocketKey, DirKey] + KeysNotIn(Keys(caller), [UnixsocketKey, DirKey])
  {
    var m := MergedConfig(workdir, caller);
    ConfigOrder(workdir, caller);
    forall i | 0 <= i < |m| ensures !RendersEmpty(m[i]) {
      MergedEntryFilled(workdir, caller, i);
    }
    ConfigFileLines(m);
  }

  /** Every merged value comes from the caller or from the defaults. */
  lemma MergedEntryFilled(workdir: Option<string>, caller: Entries<Value, Value>, i: nat)
    requires UniqueKeys(caller)
    requires forall j :: 0 <= j < |caller| ==> !RendersEmpty(caller[j])
    requires i < |MergedConfig(workdir, caller)|
    ensures !RendersEmpty(MergedConfig(workdir, caller)[i])
  {
    var d := DefaultConfig(workdir);
    var m := MergedConfig(workdir, caller);
    ConfigOrder(workdir, caller);
    var k, v := m[i].0, m[i].1;
    LookupEntry(m, i);
    MergeLookup(d, caller, k);
    if k in Keys(caller) {
      assert (k, v) in caller;
    } else {
      assert (k, v) in d;
    }
  }

  // ---------------------------------------------------------------------------
  // Connection info

  /** `connect_info`: nil without a pid; otherwise `{url: …}` for a positive
      integer port and `{path: config[:unixsocket]}` for anything else. */
  function ConnectInfo(pid: Option<int>, config: Entries<Value, Value>): Value
  {
    if pid.None? then Nil
    else
      var bind := At(config, BindKey);
      var host := if bind == Nil then Str("0.0.0.0") else bind;
      var port := At(config, PortKey);
      if port.Int? && port.i > 0 then Hash([(UrlKey, Str("redis://" + ToS(host) + ":" + ToS(port) + "/"))])
      else Hash([(PathKey, At(config, UnixsocketKey))])
  }

  /** Exactly one of the two shapes: a hash with the single key `:url` when the
      port is a positive integer, with the single key `:path` otherwise; the
      other key reads as nil. Without a pid there is no connection info. */
  lemma ConnectInfoShape(pid: Option<int>, config: Entries<Value, Value>)
    ensures pid.None? <==> ConnectInfo(pid, config) == Nil
    ensures pid.Some? ==>
              var r := ConnectInfo(pid, config);
              var port := At(config, PortKey);
              && r.Hash?
              && Keys(r.entries) == (if port.Int? && port.i > 0 then [UrlKey] else [PathKey])
              && (port.Int? && port.i > 0 ==> At(r.entries, PathKey) == Nil && At(r.entries, UrlKey).Str?)
              && (!(port.Int? && port.i > 0) ==> At(r.entries, UrlKey) == Nil)
  {
  }

  /** The URL is `redis://<host>:<port>/`, the host being `bind`, or "0.0.0.0"
      only when `bind` is nil; the path is the config's `unixsocket`. */
  lemma ConnectInfoFields(pid: int, config: Entries<Value, Value>)
    ensures var port := At(config, PortKey);
            var bind := At(config, BindKey);
            var r := ConnectInfo(Some(pid), config).entries;
            if port.Int? && port.i > 0 then
              At(r, UrlKey) == Str("redis://" + (if bind == Nil then "0.0.0.0" else ToS(bind)) + ":" + IntToS(port.i) + "/")
            else
              At(r, PathKey) == At(config, UnixsocketKey)
  {
  }

  /** A caller that gives neither `port` nor `unixsocket` is told to connect
      through the socket `<workdir>/redis.sock`. */
  lemma DefaultConnectsBySocket(pid: int, workdir: Option<string>, caller: Entries<Value, Value>)
    requires UniqueKeys(caller)
    requires PortKey !in Keys(caller) && UnixsocketKey !in Keys(caller)
    ensures ConnectInfo(Some(pid), MergedConfig(workdir, caller)) == Hash([(PathKey, Str(SocketPath(workdir)))])
  {
    ConfigPrecedence(workdir, caller, PortKey);
    ConfigPrecedence(workdir, caller, UnixsocketKey);
  }

  /** A caller that gives `bind` and a positive `port` is told to connect to
      `redis://<bind>:<port>/`. */
  lemma BoundPortConnectsByUrl(pid: int, workdir: Option<string>, caller: Entries<Value, Value>, host: string, port: int)
    requires UniqueKeys(caller)
    requires port > 0
    requires Lookup(caller, BindKey) == Some(Str(host)) && Lookup(caller, PortKey) == Some(Int(port))
    ensures ConnectInfo(Some(pid), MergedConfig(workdir, caller)) ==
              Hash([(UrlKey, Str("redis://" + host + ":" + IntToS(port) + "/"))])
  {
    ConfigPrecedence(workdir, caller, PortKey);
    ConfigPrecedence(workdir, caller, BindKey);
  }

  // ---------------------------------------------------------------------------
  // The loglevel rewrite of `initialize`

  /** `loglevel warning` is replaced by `notice`, in the caller's hash. */
  function RewriteLoglevel(config: Entries<Value, Value>): Entries<Value, Value>
  {
    if ToS(At(config, LoglevelKey)) == "warning" then Store(config, LoglevelKey, Str("notice"))
    else config
  }

  /** The rewrite fires exactly on a `loglevel` that is the string or the
      symbol `warning`; it changes that value only, and no key moves. */
  lemma RewriteLoglevelSpec(config: Entries<Value, Value>, k: Value)
    ensures var r := RewriteLoglevel(config);
            var level := At(config, LoglevelKey);
            && Keys(r) == Keys(config)
            && (k != LoglevelKey ==> Lookup(r, k) == Lookup(config, k))
            && (level == Str("warning") || level == Sym("warning") ==> At(r, LoglevelKey) == Str("notice"))
            && (level != Str("warning") && level != Sym("warning") ==> r == config)
  {
    var level := At(config, LoglevelKey);
    ToSWord(level, "warning");
    if level == Str("warning") || level == Sym("warning") {
      StoreKeys(config, LoglevelKey, Str("notice"));
    }
  }

  // ---------------------------------------------------------------------------
  // Readiness

  /** The line redis-server logs once it accepts connections. */
  const ReadyMarker: string := "The server is now ready to accept connections"

  /** `text =~ /pattern/` for a pattern without metacharacters: a
      case-sensitive substring search. */
  predicate Contains(text: string, pattern: string)
    decreases |text|
  {
    |pattern| <= |text| && (text[..|pattern|] == pattern || Contains(text[1..], pattern))
  }

  /** `pattern` occurs in `text` at offset `i`. */
  ghost predicate OccursAt(text: string, pattern: string, i: int)
  {
    0 <= i <= |text| - |pattern| && text[i..i + |pattern|] == pattern
  }

  /** The search finds the pattern exactly when it occurs at some offset. */
  lemma {:induction false} ContainsAt(text: string, pattern: string)
    ensures Contains(text, pattern) <==> exists i :: OccursAt(text, pattern, i)
    decreases |text|
  {
    if |pattern| <= |text| && text != [] {
      ContainsAt(text[1..], pattern);
      if exists i :: OccursAt(text, pattern, i) {
        var i :| OccursAt(text, pattern, i);
        if i > 0 {
          assert text[1..][i - 1..i - 1 + |pattern|] == text[i..i + |pattern|];
          assert OccursAt(text[1..], pattern, i - 1);
        } else {
          assert text[..|pattern|] == pattern;
        }
      }
      if Contains(text[1..], pattern) {
        var i :| OccursAt(text[1..], pattern, i);
        assert text[1..][i..i + |pattern|] == text[i + 1..i + 1 + |pattern|];
        assert OccursAt(text, pattern, i + 1);
      }
      if text[..|pattern|] == pattern {
        assert OccursAt(text, pattern, 0);
      }
    } else if |pattern| <= |text| {
      assert OccursAt(text, pattern, 0);
    }
  }

  /** The marker is found wherever it appears in the log. */
  lemma MarkerFound(before: string, after: string)
    ensures Contains(before + ReadyMarker + after, ReadyMarker)
  {
    var text := before + ReadyMarker + after;
    assert text[|before|..|before| + |ReadyMarker|] == ReadyMarker;
    assert OccursAt(text, ReadyMarker, |before|);
    ContainsAt(text, ReadyMarker);
  }

  /** The match is case-sensitive: the marker in lower case does not count. */
  lemma MarkerIsCaseSensitive()
    ensures !Contains("the server is now ready to accept connections", ReadyMarker)
  {
    var text := "the server is now ready to accept connections";
    assert text == "the server is now ready" + " to accept connections";
    assert ReadyMarker == "The server is now ready" + " to accept connections";
    assert |text| == |ReadyMarker|;
    assert text[0] == 't' && ReadyMarker[0] == 'T';
    assert text[..|ReadyMarker|] != ReadyMarker;
    assert !Contains(text[1..], ReadyMarker);
  }

  /** What one poll of the start loop observes: whether the non-blocking
      `waitpid` reported the child's exit, and the log text read afterwards. */
  datatype Poll = Poll(exited: bool, log: string)

  /** How the start loop ends. */
  datatype Watch = ChildExited(log: string) | MarkerSeen | TimedOut

  /** The start loop's decision over the polls that fit in the timeout: exit is
      checked before the log, and the loop times out when the polls run out. */
  function WatchLog(polls: seq<Poll>): Watch
    decreases |polls|
  {
    if polls == [] then TimedOut
    else if polls[0].exited then ChildExited(polls[0].log)
    else if Contains(polls[0].log, ReadyMarker) then MarkerSeen
    else WatchLog(polls[1..])
  }

  /** No poll before `j` decided anything. */
  ghost predicate Undecided(polls: seq<Poll>, j: nat)
  {
    j <= |polls| && forall i :: 0 <= i < j ==> !polls[i].exited && !Contains(polls[i].log, ReadyMarker)
  }

  /** The loop reports an exited child, with the log read in that poll, exactly
      when a poll sees the exit before any poll sees the marker. */
  lemma {:induction false} WatchExited(polls: seq<Poll>, log: string)
    ensures WatchLog(polls) == ChildExited(log) <==>
              exists j: nat :: j < |polls| && Undecided(polls, j) && polls[j].exited && polls[j].log == log
    decreases |polls|
  {
    if polls != [] {
      WatchExited(polls[1..], log);
      if exists j: nat :: j < |polls| && Undecided(polls, j) && polls[j].exited && polls[j].log == log {
        var j: nat :| j < |polls| && Undecided(polls, j) && polls[j].exited && polls[j].log == log;
        if j > 0 {
          UndecidedShift(polls, j - 1);
          assert Undecided(polls[1..], j - 1) && polls[1..][j - 1] == polls[j];
        }
      }
      if WatchLog(polls[1..]) == ChildExited(log) && !polls[0].exited && !Contains(polls[0].log, ReadyMarker) {
        var j: nat :| j < |polls| - 1 && Undecided(polls[1..], j) && polls[1..][j].exited && polls[1..][j].log == log;
        UndecidedShift(polls, j);
        assert Undecided(polls, j + 1) && polls[j + 1] == polls[1..][j];
      }
    }
  }

  /** The loop returns the connection info exactly when a poll sees the marker
      in the log of a child not seen to exit, before any poll sees an exit. */
  lemma {:induction false} WatchReady(polls: seq<Poll>)
    ensures WatchLog(polls) == MarkerSeen <==>
              exists j: nat :: j < |polls| && Undecided(polls, j) && !polls[j].exited && Contains(polls[j].log, ReadyMarker)
    decreases |polls|
  {
    if polls != [] {
      WatchReady(polls[1..]);
      if exists j: nat :: j < |polls| && Undecided(polls, j) && !polls[j].exited && Contains(polls[j].log, ReadyMarker) {
        var j: nat :| j < |polls| && Undecided(polls, j) && !polls[j].exited && Contains(polls[j].log, ReadyMarker);
        if j > 0 {
          UndecidedShift(polls, j - 1);
          assert Undecided(polls[1..], j - 1) && polls[1..][j - 1] == polls[j];
        }
      }
      if WatchLog(polls[1..]) == MarkerSeen && !polls[0].exited && !Contains(polls[0].log, ReadyMarker) {
        var j: nat :| j < |polls| - 1 && Undecided(polls[1..], j) && !polls[1..][j].exited && Contains(polls[1..][j].log, ReadyMarker);
        UndecidedShift(polls, j);
        assert Undecided(polls, j + 1) && polls[j + 1] == polls[1..][j];
      }
    }
  }

  /** The loop times out exactly when no poll sees an exit or the marker. */
  lemma {:induction false} WatchTimedOut(polls: seq<Poll>)
    ensures WatchLog(polls) == TimedOut <==> Undecided(polls, |polls|)
    decreases |polls|
  {
    if polls != [] {
      WatchTimedOut(polls[1..]);
      UndecidedShift(polls, |polls| - 1);
    }
  }

  lemma UndecidedShift(polls: seq<Poll>, j: nat)
    requires j < |polls|
    ensures Undecided(polls, j + 1) <==>
              !polls[0].exited && !Contains(polls[0].log, ReadyMarker) && Undecided(polls[1..], j)
  {
    if Undecided(polls, j + 1) {
      forall i | 0 <= i < j ensures !polls[1..][i].exited && !Contains(polls[1..][i].log, ReadyMarker) {
        assert polls[1..][i] == polls[i + 1];
      }
    }
    if !polls[0].exited && !Contains(polls[0].log, ReadyMarker) && Undecided(polls[1..], j) {
      forall i | 0 <= i < j + 1 ensures !polls[i].exited && !Contains(polls[i].log, ReadyMarker) {
        if i > 0 {
          assert polls[i] == polls[1..][i - 1];
        }
      }
    }
  }

  // ---------------------------------------------------------------------------
  // Signal escalation of `stop`

  datatype Signal = TERM | INT | KILL

  /** The signals `stop` shifts off its list, in order. */
  const Escalation: seq<Signal> := [TERM, INT, KILL]

  /** Whether the `k`-th wait (from 0) sees the process exit, when the process
      exits during wait `exitsAt` (never, for None): a process that has
      exited stays exited. */
  predicate SeesExit(exitsAt: Option<nat>, k: nat)
  {
    exitsAt.Some? && exitsAt.value <= k
  }

  /** `stop` confirms the exit: some wait after one of the three signals sees it. */
  predicate ExitConfirmed(exitsAt: Option<nat>)
  {
    exists k :: 0 <= k < |Escalation| && SeesExit(exitsAt, k)
  }

  /** The signals `stop` sends: one per wait up to and including the first wait
      that sees the exit, or all three when every wait times out. */
  function SignalsSent(exitsAt: Option<nat>): (sent: seq<Signal>)
    ensures 1 <= |sent| <= |Escalation| && sent == Escalation[..|sent|]
    ensures forall k :: 0 <= k < |sent| - 1 ==> !SeesExit(exitsAt, k)
    ensures ExitConfirmed(exitsAt) <==> SeesExit(exitsAt, |sent| - 1)
    ensures !ExitConfirmed(exitsAt) ==> sent == Escalation
  {
    if exitsAt.Some? && exitsAt.value < |Escalation| then Escalation[..exitsAt.value + 1]
    else Escalation
  }
}
