/** `Redispot::Server`: the object that owns one redis-server child. Process
    control is observed rather than performed: the caller of a method supplies
    the pid the fork returned, what each poll of the start loop saw, and during
    which wait of `stop` the child is seen to exit. */
module Server {
  import opened Wrappers
  import opened RubyHash
  import opened RubyValue
  import opened ServerLogic

  /** The exceptions that escape `start_redis_server` and `stop`. */
  datatype ServerError =
    | LaunchFailed(log: string)   // RuntimeError "failed to launch redis-server\n<log>"
    | BadSignal                   // from `Process.kill(nil, pid)` once the signals are used up
    | NoSuchFile(path: string)    // Errno::ENOENT from `File.read`

  /** `File.read(path)` over the file contents at the time of the read. */
  function ReadFile(files: map<string, string>, path: string): (r: Result<string, ServerError>)
    ensures r.Success? <==> path in files
    ensures r.Success? ==> r.value == files[path]
    ensures r.Failure? ==> r.error == NoSuchFile(path)
  {
    if path in files then Success(files[path]) else Failure(NoSuchFile(path))
  }

  /** What the timeout handler raises: the launch failure with the log read
      from `path`, or the error of that read. */
  function TimeoutError(files: map<string, string>, path: string): ServerError
  {
    match ReadFile(files, path)
    case Success(log) => LaunchFailed(log)
    case Failure(e) => e
  }

  class RedisServer {
    const executable: string
    const ownerPid: int
    var pid: Option<int>
    var workdir: Option<string>
    /** The caller's own hash object, shared, not copied. */
    const config: HashRef
    const timeout: int
    const tmpdir: Option<string>

    /** `initialize` (without the optional block): records the creating
        process and rewrites `loglevel warning` to `notice` in the caller's hash. */
    constructor (config: HashRef, timeout: int, tmpdir: Option<string>, currentPid: int)
      modifies config
      ensures this.config == config && this.timeout == timeout && this.tmpdir == tmpdir
      ensures executable == "redis-server" && ownerPid == currentPid
      ensures pid == None && workdir == None
      ensures config.entries == RewriteLoglevel(old(config.entries))
    {
      executable := "redis-server";
      ownerPid := currentPid;
      pid := None;
      workdir := None;
      this.config := config;
      this.timeout := timeout;
      this.tmpdir := tmpdir;
      new;
      if ToS(At(config.entries, LoglevelKey)) == "warning" {
        config.entries := Store(config.entries, LoglevelKey, Str("notice"));
      }
    }

    /** `config`: read afresh on every call, so it sees later changes of the
        caller's hash and of the working directory. */
    function Config(): Entries<Value, Value>
      reads this, config
    {
      MergedConfig(workdir, config.entries)
    }

    /** `stop`. `exitsAt` is the index of the first wait (0 for the wait after
        TERM) that sees the child exit, or None when no wait does. */
    method Stop(currentPid: int, exitsAt: Option<nat>) returns (sent: seq<Signal>, raised: Option<ServerError>)
      modifies this
      ensures old(pid).None? || ownerPid != currentPid ==>
                sent == [] && raised == None && pid == old(pid) && workdir == old(workdir)
      ensures old(pid).Some? && ownerPid == currentPid ==> sent == SignalsSent(exitsAt)
      ensures old(pid).Some? && ownerPid == currentPid && ExitConfirmed(exitsAt) ==>
                raised == None && pid == None && workdir == None
      ensures old(pid).Some? && ownerPid == currentPid && !ExitConfirmed(exitsAt) ==>
                raised == Some(BadSignal) && pid == old(pid) && workdir == old(workdir)
    {
      if pid.None? || ownerPid != currentPid {
        return [], None;
      }
      var signals := Escalation;
      sent := [];
      var waits: nat := 0;
      while true
        invariant sent + signals == Escalation
        invariant waits == |sent|
        invariant forall k :: 0 <= k < waits ==> !SeesExit(exitsAt, k)
        invariant pid == old(pid) && workdir == old(workdir)
        decreases |signals|
      {
        if signals == [] {
          // `signals.shift` gave nil and `Process.kill(nil, pid)` raises
          assert sent == Escalation;
          assert !ExitConfirmed(exitsAt);
          return sent, Some(BadSignal);
        }
        var signal := signals[0];
        signals := signals[1..];
        sent := sent + [signal];
        // `Process.kill(signal, pid)`, then `waitpid` under the timeout
        if SeesExit(exitsAt, waits) {
          assert sent == Escalation[..waits + 1];
          assert waits > 0 ==> !SeesExit(exitsAt, waits - 1);
          assert exitsAt == Some(waits);
          break;
        }
        // `Timeout::Error`: retry with the next signal
        waits := waits + 1;
      }
      pid := None;
      workdir := None;
      raised := None;
    }

    /** `start_redis_server` after the fork that returned `childPid`. `polls`
        are the observations of the polls that fit in the timeout; `files`
        the file contents when the timeout handler reads the log; `stopExitsAt`
        the observation of the `stop` the timeout handler runs. */
    method StartRedisServer(childPid: int, polls: seq<Poll>, files: map<string, string>,
                            currentPid: int, stopExitsAt: Option<nat>)
      returns (r: Result<Value, ServerError>)
      modifies this
      ensures WatchLog(polls) == MarkerSeen ==>
                pid == Some(childPid) && workdir == old(workdir) &&
                r == Success(ConnectInfo(Some(childPid), Config()))
      ensures WatchLog(polls).ChildExited? ==>
                pid == None && workdir == old(workdir) && r == Failure(LaunchFailed(WatchLog(polls).log))
      ensures WatchLog(polls) == TimedOut && ownerPid != currentPid ==>
                pid == Some(childPid) && workdir == old(workdir) &&
                r == Failure(TimeoutError(files, Logfile(workdir)))
      ensures WatchLog(polls) == TimedOut && ownerPid == currentPid && ExitConfirmed(stopExitsAt) ==>
                pid == None && workdir == None &&
                r == Failure(TimeoutError(files, Logfile(None)))
      ensures WatchLog(polls) == TimedOut && ownerPid == currentPid && !ExitConfirmed(stopExitsAt) ==>
                pid == Some(childPid) && workdir == old(workdir) && r == Failure(BadSignal)
    {
      pid := Some(childPid);
      var i := 0;
      while i < |polls|
        invariant 0 <= i <= |polls|
        invariant WatchLog(polls) == WatchLog(polls[i..])
        invariant pid == Some(childPid) && workdir == old(workdir)
      {
        assert polls[i..][1..] == polls[i + 1..];
        if polls[i].exited {
          pid := None;
          return Failure(LaunchFailed(polls[i].log));
        } else if Contains(polls[i].log, ReadyMarker) {
          return Success(ConnectInfo(pid, Config()));
        }
        i := i + 1;
      }
      // `Timeout::Error`
      if pid.Some? {
        var _, raised := Stop(currentPid, stopExitsAt);
        if raised.Some? {
          return Failure(raised.value);
        }
      }
      var log := ReadFile(files, Logfile(workdir));
      if log.Failure? {
        return Failure(log.error);
      }
      return Failure(LaunchFailed(log.value));
    }

    /** `start`, with `dir` the directory `Dir.mktmpdir` created. The caller's
        block is not modelled: it receives `yielded`, and `stop` (observed by
        `endExitsAt`) runs once it returns. */
    method Start(dir: string, childPid: int, polls: seq<Poll>, files: map<string, string>,
                 currentPid: int, timeoutExitsAt: Option<nat>, endExitsAt: Option<nat>)
      returns (yielded: Option<Value>, raised: Option<ServerError>)
      modifies this
      // the server became ready: the block gets `connect_info`, then `stop` runs
      ensures WatchLog(polls) == MarkerSeen ==>
                yielded == Some(ConnectInfo(Some(childPid), MergedConfig(Some(dir), config.entries)))
      ensures WatchLog(polls) == MarkerSeen && ownerPid == currentPid && ExitConfirmed(endExitsAt) ==>
                raised == None && pid == None && workdir == None
      ensures WatchLog(polls) == MarkerSeen && ownerPid == currentPid && !ExitConfirmed(endExitsAt) ==>
                raised == Some(BadSignal) && pid == Some(childPid) && workdir == Some(dir)
      ensures WatchLog(polls) == MarkerSeen && ownerPid != currentPid ==>
                raised == None && pid == Some(childPid) && workdir == Some(dir)
      // startup failed: nothing is yielded
      ensures WatchLog(polls) != MarkerSeen ==> yielded == None && raised.Some?
      ensures WatchLog(polls).ChildExited? ==>
                raised == Some(LaunchFailed(WatchLog(polls).log)) && pid == None && workdir == Some(dir)
      ensures WatchLog(polls) == TimedOut && ownerPid != currentPid ==>
                raised == Some(TimeoutError(files, Logfile(Some(dir)))) &&
                pid == Some(childPid) && workdir == Some(dir)
      ensures WatchLog(polls) == TimedOut && ownerPid == currentPid && ExitConfirmed(timeoutExitsAt) ==>
                raised == Some(TimeoutError(files, Logfile(None))) && pid == None && workdir == None
      ensures WatchLog(polls) == TimedOut && ownerPid == currentPid && !ExitConfirmed(timeoutExitsAt) ==>
                raised == Some(BadSignal) && pid == Some(childPid) && workdir == Some(dir)
    {
      workdir := Some(dir);
      var r := StartRedisServer(childPid, polls, files, currentPid, timeoutExitsAt);
      if r.Failure? {
        return None, Some(r.error);
      }
      yielded := Some(r.value);
      var sent, err := Stop(currentPid, endExitsAt);
      raised := err;
    }
  }

  // ---------------------------------------------------------------------------
  // Scenarios: what a caller can conclude from the contracts above alone

  /** A child that logs the marker on its first poll and exits on TERM. */
  const ReadyAtOnce: seq<Poll> := [Poll(false, ReadyMarker)]

  /** A second `stop` after a confirmed one sends nothing and raises nothing. */
  method StopTwice(me: int, child: int, dir: string, exitsAt: Option<nat>)
    returns (first: seq<Signal>, second: seq<Signal>, raised: Option<ServerError>)
    requires ExitConfirmed(exitsAt)
    ensures first == SignalsSent(exitsAt) && |first| >= 1
    ensures second == [] && raised == None
  {
    var caller := new HashRef([]);
    var server := new RedisServer(caller, 3, None, me);
    assert WatchLog(ReadyAtOnce) == MarkerSeen by {
      MarkerFound("", "");
      assert "" + ReadyMarker + "" == ReadyMarker;
    }
    // as in `start`, the working directory is set before the launch
    server.workdir := Some(dir);
    var _ := server.StartRedisServer(child, ReadyAtOnce, map[], me, None);
    var firstRaised;
    first, firstRaised := server.Stop(me, exitsAt);
    second, raised := server.Stop(me, exitsAt);
  }

  /** A process other than the creator (a forked child) cannot stop the server. */
  method ForeignStop(me: int, other: int, child: int, dir: string, exitsAt: Option<nat>)
    returns (sent: seq<Signal>, raised: Option<ServerError>, stillRunning: bool)
    requires other != me
    ensures sent == [] && raised == None && stillRunning
  {
    var caller := new HashRef([]);
    var server := new RedisServer(caller, 3, None, me);
    assert WatchLog(ReadyAtOnce) == MarkerSeen by {
      MarkerFound("", "");
      assert "" + ReadyMarker + "" == ReadyMarker;
    }
    // as in `start`, the working directory is set before the launch
    server.workdir := Some(dir);
    var _ := server.StartRedisServer(child, ReadyAtOnce, map[], me, None);
    sent, raised := server.Stop(other, exitsAt);
    stillRunning := server.pid == Some(child);
  }

  /** With no options the caller is handed `{path: "<workdir>/redis.sock"}`. */
  method ConnectBySocket(me: int, child: int, dir: string) returns (info: Option<Value>)
    ensures info == Some(Hash([(PathKey, Str(dir + "/redis.sock"))]))
  {
    var caller := new HashRef([]);
    var server := new RedisServer(caller, 3, None, me);
    assert WatchLog(ReadyAtOnce) == MarkerSeen by {
      MarkerFound("", "");
      assert "" + ReadyMarker + "" == ReadyMarker;
    }
    var stopRaised;
    info, stopRaised := server.Start(dir, child, ReadyAtOnce, map[], me, None, Some(0));
    DefaultConnectsBySocket(child, Some(dir), []);
  }

  /** With `bind` and a positive `port` among the options (and no `loglevel`),
      the caller is handed `{url: "redis://<bind>:<port>/"}`. */
  method ConnectByUrl(me: int, child: int, dir: string, options: Entries<Value, Value>, host: string, port: int)
    returns (info: Option<Value>)
    requires UniqueKeys(options) && port > 0
    requires Lookup(options, BindKey) == Some(Str(host)) && Lookup(options, PortKey) == Some(Int(port))
    requires Lookup(options, LoglevelKey) == None
    ensures info == Some(Hash([(UrlKey, Str("redis://" + host + ":" + IntToS(port) + "/"))]))
  {
    var caller := new HashRef(options);
    var server := new RedisServer(caller, 3, None, me);
    assert caller.entries == options;
    assert WatchLog(ReadyAtOnce) == MarkerSeen by {
      MarkerFound("", "");
      assert "" + ReadyMarker + "" == ReadyMarker;
    }
    var stopRaised;
    info, stopRaised := server.Start(dir, child, ReadyAtOnce, map[], me, None, Some(0));
    BoundPortConnectsByUrl(child, Some(dir), options, host, port);
  }

  /** When startup times out and `stop` then confirms the exit, the handler
      reads `/redis.log`, because `stop` has already cleared the working
      directory: a missing file, not the launch failure, is what escapes. */
  method TimeoutLosesLog(me: int, child: int) returns (raised: Option<ServerError>)
    ensures raised == Some(NoSuchFile("/redis.log"))
  {
    var caller := new HashRef([]);
    var server := new RedisServer(caller, 3, None, me);
    var files := map["/tmp/d/redis.log" := "no marker"];
    assert WatchLog([]) == TimedOut;
    assert SeesExit(Some(0), 0);
    assert Logfile(None) == "/redis.log" && "/redis.log" !in files;
    var info, r := server.Start("/tmp/d", child, [], files, me, Some(0), None);
    raised := r;
  }

  /** `loglevel: :warning` reaches the caller's own hash as `loglevel: "notice"`. */
  method WarningBecomesNotice(me: int) returns (seen: Entries<Value, Value>)
    ensures seen == [(LoglevelKey, Str("notice"))]
  {
    var caller := new HashRef([(LoglevelKey, Sym("warning"))]);
    var server := new RedisServer(caller, 3, None, me);
    seen := caller.entries;
  }
}
