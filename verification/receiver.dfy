/** `ReceiverFunc`: choose interfaces, write Suricata's working configuration, launch
    Suricata under `stdbuf`, and forward its event lines until the loop ends. */
module Receiver {
  import opened Wrappers
  import opened Interfaces
  import opened SuricataConfig
  import opened Forwarder

  /** The configuration Suricata ships with, and the working copy the receiver edits. */
  const OriginalConfigPath: string := "/root/obs-integ/suricata.yaml"
  const WorkingConfigPath: string := "/root/obs-integ/temp-suricata.yaml"

  /** The program launched; Suricata is its first argument. */
  const Launcher: string := "stdbuf"

  /** One `-i <name>` pair per interface, in order. */
  function InterfaceFlags(ifaces: seq<string>): (flags: seq<string>)
    ensures |flags| == 2 * |ifaces|
    ensures forall i :: 0 <= i < |ifaces| ==> flags[2 * i] == "-i" && flags[2 * i + 1] == ifaces[i]
  {
    if |ifaces| == 0 then []
    else
      var rest := InterfaceFlags(ifaces[1..]);
      var flags := ["-i", ifaces[0]] + rest;
      assert forall i :: 1 <= i < |ifaces| ==> flags[2 * i] == "-i" && flags[2 * i + 1] == ifaces[i] by {
        forall i | 1 <= i < |ifaces|
          ensures flags[2 * i] == "-i" && flags[2 * i + 1] == ifaces[i]
        {
          var j := i - 1;
          assert 2 * i == 2 * j + 2;
          assert flags[2 * j + 2] == rest[2 * j] && flags[2 * j + 3] == rest[2 * j + 1];
          assert ifaces[1..][j] == ifaces[i];
        }
      }
      flags
  }

  /** The arguments given to `stdbuf`: line-buffered output, Suricata, the working
      configuration, then one `-i` flag per interface. */
  function Argv(configPath: string, ifaces: seq<string>): (args: seq<string>)
    ensures |args| == 4 + 2 * |ifaces|
    ensures args[..4] == ["-oL", "suricata", "-c", configPath]
    ensures forall i :: 0 <= i < |ifaces| ==> args[4 + 2 * i] == "-i" && args[5 + 2 * i] == ifaces[i]
  {
    var flags := InterfaceFlags(ifaces);
    var args := ["-oL", "suricata", "-c", configPath] + flags;
    assert forall i :: 0 <= i < |ifaces| ==> args[4 + 2 * i] == flags[2 * i] && args[5 + 2 * i] == flags[2 * i + 1];
    args
  }

  /** The values of the flags in a run of flag pairs. */
  function FlagValues(flags: seq<string>): seq<string>
  {
    if |flags| < 2 then [] else [flags[1]] + FlagValues(flags[2..])
  }

  /** The interfaces an argument vector asks Suricata to capture on. */
  function ArgvInterfaces(args: seq<string>): seq<string>
  {
    if |args| < 4 then [] else FlagValues(args[4..])
  }

  lemma {:induction false} FlagValuesOfFlags(ifaces: seq<string>)
    ensures FlagValues(InterfaceFlags(ifaces)) == ifaces
  {
    if |ifaces| > 0 {
      var flags := InterfaceFlags(ifaces);
      assert flags[2..] == InterfaceFlags(ifaces[1..]);
      FlagValuesOfFlags(ifaces[1..]);
    }
  }

  /** The argument vector names each interface once, in order, and nothing else. */
  lemma ArgvRoundTrip(configPath: string, ifaces: seq<string>)
    ensures ArgvInterfaces(Argv(configPath, ifaces)) == ifaces
  {
    var args := Argv(configPath, ifaces);
    assert args[4..] == InterfaceFlags(ifaces);
    FlagValuesOfFlags(ifaces);
  }

  /** What the host does when `ReceiverFunc` asks, in the order it asks. */
  datatype Host = Host(
    table: Option<seq<NetInterface>>,  // `net.Interfaces()`, nothing when it fails
    original: Option<string>,          // the configuration copied, nothing when the copy fails
    readOk: bool,                      // reading the working copy back
    writeOk: bool,                     // writing the updated working copy
    pipeOk: bool,                      // `cmd.StdoutPipe()`
    startOk: bool)                     // `cmd.Start()`

  /** The changes `ReceiverFunc` makes to the world, in order. */
  datatype Effect =
    | CopiedConfig(source: string, target: string, text: string)
    | WroteConfig(path: string, text: string)
    | Started(program: string, args: seq<string>)
    | Killed

  /** The errors `ReceiverFunc` returns. */
  datatype ReceiverError =
    | DiscoveryFailed(cause: DiscoveryError)
    | ConfigCopyFailed
    | ConfigReadFailed
    | ConfigWriteFailed
    | PipeFailed
    | StartFailed
    | ContextDone
    | ScannerFailed

  /** A whole call: what it changed, the events it sent, and the error it returned. */
  datatype Run<E> = Run(effects: seq<Effect>, events: seq<E>, error: Option<ReceiverError>)

  function LoopError(outcome: LoopOutcome): Option<ReceiverError>
  {
    match outcome
    case Finished => None
    case Cancelled => Some(ContextDone)
    case ReadFailed => Some(ScannerFailed)
  }

  /** `ReceiverFunc(ctx, ch, supplied)` on `host`, with `scanned` the lines Suricata
      prints and `end` how its output ends. */
  function Receive<L, E>(supplied: seq<string>, host: Host, scanned: seq<Scanned<L>>, end: StreamEnd,
                         decode: L -> Option<E>): (run: Run<E>)
    ensures |supplied| == 0 && host.table.None? ==>
      run == Run([], [], Some(DiscoveryFailed(EnumerationFailed)))
    ensures ChooseInterfaces(supplied, host.table).Failure? ==> run.effects == [] && run.events == []
    ensures forall k :: 0 <= k < |run.effects| && run.effects[k].Started? ==> run.effects[|run.effects| - 1] == Killed
    ensures |run.events| > 0 ==> exists k :: 0 <= k < |run.effects| && run.effects[k].Started?
  {
    match ChooseInterfaces(supplied, host.table)
    case Failure(cause) => Run([], [], Some(DiscoveryFailed(cause)))
    case Success(ifaces) =>
      match host.original
      case None => Run([], [], Some(ConfigCopyFailed))
      case Some(text) =>
        var copied := [CopiedConfig(OriginalConfigPath, WorkingConfigPath, text)];
        if !host.readOk then Run(copied, [], Some(ConfigReadFailed))
        else if !host.writeOk then Run(copied, [], Some(ConfigWriteFailed))
        else
          var written := copied + [WroteConfig(WorkingConfigPath, Splice(text, Render(ifaces)))];
          if !host.pipeOk then Run(written, [], Some(PipeFailed))
          else if !host.startOk then Run(written, [], Some(StartFailed))
          else
            var loop := Forward(scanned, end, decode);
            var effects := written + [Started(Launcher, Argv(WorkingConfigPath, ifaces)), Killed];
            assert effects[2].Started?;
            Run(effects, loop.events, LoopError(loop.outcome))
  }

  /** Suricata is only started with a configuration that binds the same non-empty
      interface list as its `-i` flags: the working copy is the original with the block
      for exactly those interfaces spliced in. */
  lemma LaunchMatchesConfig<L, E>(supplied: seq<string>, host: Host, scanned: seq<Scanned<L>>, end: StreamEnd,
                                  decode: L -> Option<E>, k: nat)
    requires var run := Receive(supplied, host, scanned, end, decode);
      k < |run.effects| && run.effects[k].Started?
    ensures var run := Receive(supplied, host, scanned, end, decode);
      var args := run.effects[k].args;
      var ifaces := ArgvInterfaces(args);
      && k == 2 && host.original.Some?
      && run.effects[..2] == [CopiedConfig(OriginalConfigPath, WorkingConfigPath, host.original.value),
                              WroteConfig(args[3], Splice(host.original.value, Render(ifaces)))]
      && run.effects[k].program == Launcher
      && args == Argv(WorkingConfigPath, ifaces)
      && |ifaces| > 0
      && (|supplied| > 0 ==> ifaces == supplied)
  {
    StartedRun(supplied, host, scanned, end, decode, k);
    ArgvRoundTrip(WorkingConfigPath, ChooseInterfaces(supplied, host.table).value);
  }

  /** A run that starts Suricata is one in which every step before the launch
      succeeded, and its effects are the copy, the write, the start and the kill. */
  lemma StartedRun<L, E>(supplied: seq<string>, host: Host, scanned: seq<Scanned<L>>, end: StreamEnd,
                         decode: L -> Option<E>, k: nat)
    requires var run := Receive(supplied, host, scanned, end, decode);
      k < |run.effects| && run.effects[k].Started?
    ensures && ChooseInterfaces(supplied, host.table).Success? && host.original.Some?
      && host.readOk && host.writeOk && host.pipeOk && host.startOk
    ensures var ifaces := ChooseInterfaces(supplied, host.table).value; var text := host.original.value;
      Receive(supplied, host, scanned, end, decode).effects
        == [CopiedConfig(OriginalConfigPath, WorkingConfigPath, text), WroteConfig(WorkingConfigPath, Splice(text, Render(ifaces))),
            Started(Launcher, Argv(WorkingConfigPath, ifaces)), Killed]
  {
  }

  /** A non-empty supplied list is used as is: the host's interface table is never
      consulted. */
  lemma SuppliedListSkipsDiscovery<L, E>(supplied: seq<string>, host: Host, table: Option<seq<NetInterface>>,
                                         scanned: seq<Scanned<L>>, end: StreamEnd, decode: L -> Option<E>)
    requires |supplied| > 0
    ensures Receive(supplied, host, scanned, end, decode) == Receive(supplied, host.(table := table), scanned, end, decode)
  {
  }

  /** The call ends without error exactly when every host step succeeds and the loop
      reaches a clean end of Suricata's output without seeing the context done; the
      events are then those of the loop. */
  lemma ReceiveSucceeds<L, E>(supplied: seq<string>, host: Host, scanned: seq<Scanned<L>>, end: StreamEnd,
                              decode: L -> Option<E>)
    ensures var run := Receive(supplied, host, scanned, end, decode);
      run.error.None? <==>
        && ChooseInterfaces(supplied, host.table).Success?
        && host.original.Some? && host.readOk && host.writeOk && host.pipeOk && host.startOk
        && end == EndOfStream
        && (forall i :: 0 <= i < |scanned| ==> !scanned[i].ctxDone)
    ensures var run := Receive(supplied, host, scanned, end, decode);
      run.error.None? ==> run.events == Forward(scanned, end, decode).events
  {
  }

  /** Once Suricata is started, the call sends exactly the loop's events and returns
      the loop's error. */
  lemma StartedRunForwards<L, E>(supplied: seq<string>, host: Host, scanned: seq<Scanned<L>>, end: StreamEnd,
                                 decode: L -> Option<E>)
    ensures var run := Receive(supplied, host, scanned, end, decode); var loop := Forward(scanned, end, decode);
      (exists k :: 0 <= k < |run.effects| && run.effects[k].Started?) ==>
        run.events == loop.events && run.error == LoopError(loop.outcome)
  {
  }

  /** Each step that fails ends the call with its own error, after the effects of the
      steps before it and without sending any event. */
  lemma FailingStep<L, E>(supplied: seq<string>, host: Host, scanned: seq<Scanned<L>>, end: StreamEnd,
                          decode: L -> Option<E>)
    ensures var run := Receive(supplied, host, scanned, end, decode);
      var chosen := ChooseInterfaces(supplied, host.table);
      && (chosen.Failure? ==> run == Run([], [], Some(DiscoveryFailed(chosen.error))))
      && (chosen.Success? && host.original.None? ==> run == Run([], [], Some(ConfigCopyFailed)))
      && (chosen.Success? && host.original.Some? ==>
            var copied := [CopiedConfig(OriginalConfigPath, WorkingConfigPath, host.original.value)];
            var written := copied + [WroteConfig(WorkingConfigPath, Splice(host.original.value, Render(chosen.value)))];
            && (!host.readOk ==> run == Run(copied, [], Some(ConfigReadFailed)))
            && (host.readOk && !host.writeOk ==> run == Run(copied, [], Some(ConfigWriteFailed)))
            && (host.readOk && host.writeOk && !host.pipeOk ==> run == Run(written, [], Some(PipeFailed)))
            && (host.readOk && host.writeOk && host.pipeOk && !host.startOk ==> run == Run(written, [], Some(StartFailed))))
  {
  }
}
