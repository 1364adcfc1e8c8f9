/** `tor_rotate.py`: a supervisor that keeps asking Tor for a new identity,
    probes the exit address through the Tor proxy and, whenever the address
    differs from the last one seen, runs the dependent command with the proxy
    variables pointing at Tor. The Tor controller, the address probe, the
    command and the clock are recorded as effects; the endless loop is run
    over a finite sequence of probe outcomes. */
module TorRotate {
  import opened Text

  datatype Option<T> = None | Some(value: T)

  /** The Tor SOCKS proxy every request and the dependent command go through. */
  const TorSocks: string := "socks5h://127.0.0.1:9050"
  /** The Tor control port. */
  const ControlPort: int := 9051
  /** The service that answers with the caller's address. */
  const CheckIp: string := "https://api.ipify.org"
  /** The dependent command. */
  const AfterRotateCmd: seq<string> := ["py", "search_once_google.py", "queries.csv"]
  /** The variables set in the dependent command's environment. */
  const ProxyVariables: set<string> := {"ALL_PROXY", "HTTP_PROXY", "HTTPS_PROXY"}
  /** Seconds waited after asking for a new identity. */
  const RotateWait: int := 5
  /** Seconds waited after a failed probe before the next iteration. */
  const BackoffWait: int := 10
  /** Seconds waited at the end of an iteration with an answered probe. */
  const IdleWait: int := 10

  /** What the address probe did: it raised (with the exception's text), or it
      answered with a body, whatever its status code. */
  datatype Probe = ProbeRaised(error: string) | ProbeAnswered(body: string)

  /** One iteration's inputs: the probe outcome, and the exit status the
      dependent command would end with if it is run. */
  datatype Outcome = Outcome(probe: Probe, exitCode: int)

  /** The lines the supervisor prints. */
  datatype Message =
    | CouldNotGetIp(error: string)   // "[!] Could not get IP: ..."
    | NewTorIp(ip: string)           // "[+] New Tor IP: ..."
    | ScriptFinished                 // "[✓] Script finished."
    | ScriptError(exitCode: int)     // "[!] Error running script: ..."
    | IpUnchanged                    // "[=] IP unchanged. Skipping run."

  /** What the supervisor does to the outside world, in order. */
  datatype Effect =
    | Connect(port: int)                           // `Controller.from_port`
    | Authenticate                                 // `c.authenticate()`
    | NewIdentity                                  // `c.signal(Signal.NEWNYM)`
    | Sleep(seconds: int)                          // `time.sleep`
    | GetIp(url: string, proxy: string)            // the address probe
    | RunCommand(cmd: seq<string>, env: map<string, string>)   // `subprocess.run`
    | Log(message: Message)                        // `print`

  // ---------------------------------------------------------------------------
  // One iteration

  /** The dependent command's environment: the base environment with the
      three proxy variables set to the Tor proxy. */
  function ChildEnv(base: map<string, string>): (env: map<string, string>)
    ensures env.Keys == base.Keys + ProxyVariables
    ensures forall k :: k in ProxyVariables ==> env[k] == TorSocks
    ensures forall k :: k in base && k !in ProxyVariables ==> env[k] == base[k]
  {
    base["ALL_PROXY" := TorSocks]["HTTP_PROXY" := TorSocks]["HTTPS_PROXY" := TorSocks]
  }

  /** Whether an iteration sees a new address: the probe answered and its
      trimmed body is not the last address. */
  predicate Changed(last: Option<string>, p: Probe)
  {
    p.ProbeAnswered? && Some(Strip(p.body)) != last
  }

  /** `last_ip` after one iteration. */
  function NextLastIp(last: Option<string>, p: Probe): (next: Option<string>)
    ensures next != last <==> Changed(last, p)
    ensures p.ProbeAnswered? ==> next == Some(Strip(p.body))
    ensures p.ProbeRaised? ==> next == last
  {
    match p
    case ProbeRaised(_) => last
    case ProbeAnswered(body) =>
      var ip := Strip(body);
      if Some(ip) != last then Some(ip) else last
  }

  /** The effects every iteration starts with. */
  const Prologue: seq<Effect> := [NewIdentity, Sleep(RotateWait), GetIp(CheckIp, TorSocks)]

  /** The effects of one iteration of the loop, from the last address seen
      before it. */
  function IterationEffects(last: Option<string>, o: Outcome, base: map<string, string>): seq<Effect>
  {
    match o.probe
    case ProbeRaised(e) => Prologue + [Log(CouldNotGetIp(e))] + [Sleep(BackoffWait)]
    case ProbeAnswered(body) =>
      var ip := Strip(body);
      if Some(ip) != last then
        Prologue
        + [Log(NewTorIp(ip)), RunCommand(AfterRotateCmd, ChildEnv(base)),
           Log(if o.exitCode == 0 then ScriptFinished else ScriptError(o.exitCode))]
        + [Sleep(IdleWait)]
      else Prologue + [Log(IpUnchanged)] + [Sleep(IdleWait)]
  }

  /** The supervisor's state: the last address seen, and the environment it
      was started in. */
  class Supervisor {
    var lastIp: Option<string>
    const baseEnv: map<string, string>

    constructor (baseEnv: map<string, string>)
      ensures lastIp == None && this.baseEnv == baseEnv
    {
      lastIp := None;
      this.baseEnv := baseEnv;
    }

    /** One pass of the loop body: a new identity, the probe, and then the
        back-off, the run or the log line. */
    method Step(o: Outcome) returns (effects: seq<Effect>)
      modifies this
      ensures lastIp == NextLastIp(old(lastIp), o.probe)
      ensures effects == IterationEffects(old(lastIp), o, baseEnv)
    {
      effects := [NewIdentity, Sleep(RotateWait)];
      effects := effects + [GetIp(CheckIp, TorSocks)];
      match o.probe {
        case ProbeRaised(e) =>
          effects := effects + [Log(CouldNotGetIp(e))];
          effects := effects + [Sleep(BackoffWait)];
          return;
        case ProbeAnswered(body) =>
          var newIp := Strip(body);
          if Some(newIp) != lastIp {
            effects := effects + [Log(NewTorIp(newIp))];
            lastIp := Some(newIp);
            var env := baseEnv;
            env := env["ALL_PROXY" := TorSocks];
            env := env["HTTP_PROXY" := TorSocks];
            env := env["HTTPS_PROXY" := TorSocks];
            effects := effects + [RunCommand(AfterRotateCmd, env)];
            if o.exitCode == 0 {
              effects := effects + [Log(ScriptFinished)];
            } else {
              effects := effects + [Log(ScriptError(o.exitCode))];
            }
          } else {
            effects := effects + [Log(IpUnchanged)];
          }
          effects := effects + [Sleep(IdleWait)];
      }
    }
  }

  // ---------------------------------------------------------------------------
  // Many iterations

  /** `last_ip` after the iterations for `os`, starting from `last`. */
  function LastIpAfter(last: Option<string>, os: seq<Outcome>): Option<string>
  {
    if os == [] then last else NextLastIp(LastIpAfter(last, os[..|os| - 1]), os[|os| - 1].probe)
  }

  /** The effects of the iterations for `os`, starting from `last`. */
  function Iterations(last: Option<string>, os: seq<Outcome>, base: map<string, string>): seq<Effect>
  {
    if os == [] then []
    else
      var init := os[..|os| - 1];
      Iterations(last, init, base) + IterationEffects(LastIpAfter(last, init), os[|os| - 1], base)
  }

  /** The supervisor over the outcomes `os`: it connects to the controller,
      authenticates, and runs one iteration per outcome. */
  method Supervise(baseEnv: map<string, string>, os: seq<Outcome>)
    returns (trace: seq<Effect>, lastIp: Option<string>)
    ensures trace == [Connect(ControlPort), Authenticate] + Iterations(None, os, baseEnv)
    ensures lastIp == LastIpAfter(None, os)
  {
    var s := new Supervisor(baseEnv);
    var iterations := [];
    var i := 0;
    while i < |os|
      invariant 0 <= i <= |os|
      invariant fresh(s) && s.baseEnv == baseEnv
      invariant s.lastIp == LastIpAfter(None, os[..i])
      invariant iterations == Iterations(None, os[..i], baseEnv)
    {
      ghost var done := os[..i];
      assert os[..i + 1][..i] == done;
      assert os[..i + 1][i] == os[i];
      var effects := s.Step(os[i]);
      iterations := iterations + effects;
      i := i + 1;
      assert iterations == Iterations(None, done, baseEnv) + IterationEffects(LastIpAfter(None, done), os[i - 1], baseEnv);
    }
    assert os[..i] == os;
    trace := [Connect(ControlPort), Authenticate] + iterations;
    lastIp := s.lastIp;
  }

  // ---------------------------------------------------------------------------
  // Views of a trace

  /** A class of effects. */
  datatype Kind = Sleeps | Runs | Logs | NotLogs

  predicate OfKind(e: Effect, k: Kind)
  {
    match k
    case Sleeps => e.Sleep?
    case Runs => e.RunCommand?
    case Logs => e.Log?
    case NotLogs => !e.Log?
  }

  /** The effects of kind `k` in a trace, in order. */
  function Only(t: seq<Effect>, k: Kind): seq<Effect>
  {
    if t == [] then []
    else Only(t[..|t| - 1], k) + (if OfKind(t[|t| - 1], k) then [t[|t| - 1]] else [])
  }

  lemma {:induction false} OnlyAppend(s: seq<Effect>, t: seq<Effect>, k: Kind)
    ensures Only(s + t, k) == Only(s, k) + Only(t, k)
  {
    if t == [] {
      assert s + t == s;
    } else {
      var init := t[..|t| - 1];
      OnlyAppend(s, init, k);
      assert (s + t)[..|s + t| - 1] == s + init;
      assert (s + t)[|s + t| - 1] == t[|t| - 1];
    }
  }

  /** The effects of kind `k` among one, two or three effects. */
  function Pick(e: Effect, k: Kind): seq<Effect>
  {
    if OfKind(e, k) then [e] else []
  }

  lemma OnlyOne(a: Effect, k: Kind)
    ensures Only([a], k) == Pick(a, k)
  {
    assert [a][..0] == [];
  }

  lemma OnlyThree(a: Effect, b: Effect, c: Effect, k: Kind)
    ensures Only([a, b, c], k) == Pick(a, k) + Pick(b, k) + Pick(c, k)
  {
    assert [a, b, c] == [a] + [b] + [c];
    OnlyAppend([a] + [b], [c], k);
    OnlyAppend([a], [b], k);
    OnlyOne(a, k);
    OnlyOne(b, k);
    OnlyOne(c, k);
  }

  /** An iteration's effects, split into its kinds. */
  lemma IterationParts(last: Option<string>, o: Outcome, base: map<string, string>, k: Kind)
    ensures Only(IterationEffects(last, o, base), k) ==
      Pick(NewIdentity, k) + Pick(Sleep(RotateWait), k) + Pick(GetIp(CheckIp, TorSocks), k)
      + (if o.probe.ProbeRaised? then Pick(Log(CouldNotGetIp(o.probe.error)), k)
         else if Changed(last, o.probe) then
           Pick(Log(NewTorIp(Strip(o.probe.body))), k) + Pick(RunCommand(AfterRotateCmd, ChildEnv(base)), k)
           + Pick(Log(if o.exitCode == 0 then ScriptFinished else ScriptError(o.exitCode)), k)
         else Pick(Log(IpUnchanged), k))
      + Pick(Sleep(10), k)
  {
    OnlyThree(NewIdentity, Sleep(RotateWait), GetIp(CheckIp, TorSocks), k);
    OnlyOne(Sleep(10), k);
    match o.probe
    case ProbeRaised(e) =>
      OnlyOne(Log(CouldNotGetIp(e)), k);
      OnlyAppend(Prologue, [Log(CouldNotGetIp(e))], k);
      OnlyAppend(Prologue + [Log(CouldNotGetIp(e))], [Sleep(10)], k);
    case ProbeAnswered(body) =>
      var ip := Strip(body);
      if Some(ip) != last {
        var mid := [Log(NewTorIp(ip)), RunCommand(AfterRotateCmd, ChildEnv(base)),
                    Log(if o.exitCode == 0 then ScriptFinished else ScriptError(o.exitCode))];
        OnlyThree(mid[0], mid[1], mid[2], k);
        OnlyAppend(Prologue, mid, k);
        OnlyAppend(Prologue + mid, [Sleep(10)], k);
      } else {
        OnlyOne(Log(IpUnchanged), k);
        OnlyAppend(Prologue, [Log(IpUnchanged)], k);
        OnlyAppend(Prologue + [Log(IpUnchanged)], [Sleep(10)], k);
      }
  }

  // ---------------------------------------------------------------------------
  // Properties of one iteration

  /** Every iteration asks for a new identity, waits 5, probes the address
      through the Tor proxy, runs the command only if the address changed,
      and waits 10; everything else it does is logging. */
  lemma IterationShape(last: Option<string>, o: Outcome, base: map<string, string>)
    ensures Only(IterationEffects(last, o, base), NotLogs) ==
      [NewIdentity, Sleep(5), GetIp(CheckIp, TorSocks)]
      + (if Changed(last, o.probe) then [RunCommand(AfterRotateCmd, ChildEnv(base))] else [])
      + [Sleep(10)]
  {
    IterationParts(last, o, base, NotLogs);
  }

  /** The command runs in an iteration exactly when `last_ip` changes in it,
      and at most once. */
  lemma RunIffChanged(last: Option<string>, o: Outcome, base: map<string, string>)
    ensures |Only(IterationEffects(last, o, base), Runs)| == if NextLastIp(last, o.probe) != last then 1 else 0
  {
    IterationParts(last, o, base, Runs);
  }

  /** A failed probe leaves `last_ip` alone, runs nothing, logs only the
      failure, and backs off for 10 without a further wait. */
  lemma FailedProbe(last: Option<string>, o: Outcome, base: map<string, string>)
    requires o.probe.ProbeRaised?
    ensures NextLastIp(last, o.probe) == last
    ensures Only(IterationEffects(last, o, base), Runs) == []
    ensures Only(IterationEffects(last, o, base), Logs) == [Log(CouldNotGetIp(o.probe.error))]
    ensures Only(IterationEffects(last, o, base), Sleeps) == [Sleep(5), Sleep(10)]
  {
    IterationParts(last, o, base, Runs);
    IterationParts(last, o, base, Logs);
    IterationParts(last, o, base, Sleeps);
  }

  /** An answered probe with the last address again runs nothing and logs that
      the address is unchanged. */
  lemma UnchangedAddress(last: Option<string>, o: Outcome, base: map<string, string>)
    requires o.probe.ProbeAnswered? && last == Some(Strip(o.probe.body))
    ensures NextLastIp(last, o.probe) == last
    ensures Only(IterationEffects(last, o, base), Runs) == []
    ensures Only(IterationEffects(last, o, base), Logs) == [Log(IpUnchanged)]
    ensures Only(IterationEffects(last, o, base), Sleeps) == [Sleep(5), Sleep(10)]
  {
    IterationParts(last, o, base, Runs);
    IterationParts(last, o, base, Logs);
    IterationParts(last, o, base, Sleeps);
  }

  /** A new address is logged, the command is run with the Tor environment,
      and its outcome is reported: a finish on exit status 0, the error with
      its status otherwise; `last_ip` is the new address whatever the command
      did, and the iteration still ends with the idle wait. */
  lemma NewAddress(last: Option<string>, o: Outcome, base: map<string, string>)
    requires Changed(last, o.probe)
    ensures NextLastIp(last, o.probe) == Some(Strip(o.probe.body))
    ensures Only(IterationEffects(last, o, base), Runs) == [RunCommand(AfterRotateCmd, ChildEnv(base))]
    ensures Only(IterationEffects(last, o, base), Logs) ==
      [Log(NewTorIp(Strip(o.probe.body))), Log(if o.exitCode == 0 then ScriptFinished else ScriptError(o.exitCode))]
    ensures Only(IterationEffects(last, o, base), Sleeps) == [Sleep(5), Sleep(10)]
  {
    IterationParts(last, o, base, Runs);
    IterationParts(last, o, base, Logs);
    IterationParts(last, o, base, Sleeps);
  }

  // ---------------------------------------------------------------------------
  // Properties of many iterations

  /** The trimmed addresses of the answered probes, in order. */
  function Successes(os: seq<Outcome>): seq<string>
  {
    if os == [] then []
    else
      var o := os[|os| - 1];
      Successes(os[..|os| - 1]) + (if o.probe.ProbeAnswered? then [Strip(o.probe.body)] else [])
  }

  /** The positions where a maximal block of equal consecutive values starts. */
  function BlockStarts(s: seq<string>): set<nat>
  {
    set i: nat | i < |s| && StartsBlock(s, i)
  }

  /** A maximal block of equal consecutive values of `s` starts at `i`. */
  predicate StartsBlock(s: seq<string>, i: nat)
  {
    i < |s| && (i == 0 || s[i] != s[i - 1])
  }

  /** `last_ip` is the address of the last answered probe, or None before the
      first one. */
  lemma {:induction false} LastIpIsLastSuccess(os: seq<Outcome>)
    ensures LastIpAfter(None, os) ==
      if Successes(os) == [] then None else Some(Successes(os)[|Successes(os)| - 1])
  {
    if os != [] {
      LastIpIsLastSuccess(os[..|os| - 1]);
    }
  }

  /** The first answered probe always counts as a change. */
  lemma FirstAnswerRuns(os: seq<Outcome>, k: nat, base: map<string, string>)
    requires k < |os| && os[k].probe.ProbeAnswered?
    requires forall j :: 0 <= j < k ==> os[j].probe.ProbeRaised?
    ensures Changed(LastIpAfter(None, os[..k]), os[k].probe)
    ensures |Only(IterationEffects(LastIpAfter(None, os[..k]), os[k], base), Runs)| == 1
  {
    NoSuccesses(os[..k]);
    LastIpIsLastSuccess(os[..k]);
    RunIffChanged(LastIpAfter(None, os[..k]), os[k], base);
  }

  lemma {:induction false} NoSuccesses(os: seq<Outcome>)
    requires forall j :: 0 <= j < |os| ==> os[j].probe.ProbeRaised?
    ensures Successes(os) == []
  {
    if os != [] {
      NoSuccesses(os[..|os| - 1]);
    }
  }

  /** One more value opens a new block exactly when it differs from the one
      before it. */
  lemma BlockStartsAppend(s: seq<string>, x: string)
    ensures |BlockStarts(s + [x])| ==
      |BlockStarts(s)| + (if s == [] || s[|s| - 1] != x then 1 else 0)
  {
    var t := s + [x];
    var extra: set<nat> := if s == [] || s[|s| - 1] != x then {|s|} else {};
    forall i: nat ensures i in BlockStarts(t) <==> i in BlockStarts(s) + extra {
      if i < |s| {
        assert t[i] == s[i];
        if i > 0 {
          assert t[i - 1] == s[i - 1];
        }
      }
    }
    assert BlockStarts(t) == BlockStarts(s) + extra;
    assert |s| !in BlockStarts(s);
  }

  /** Over any finite sequence of outcomes the command runs once per maximal
      block of equal consecutive addresses among the answered probes. */
  lemma {:induction false} RunsCountBlocks(os: seq<Outcome>, base: map<string, string>)
    ensures |Only(Iterations(None, os, base), Runs)| == |BlockStarts(Successes(os))|
  {
    if os != [] {
      var init := os[..|os| - 1];
      var o := os[|os| - 1];
      var last := LastIpAfter(None, init);
      var before := Successes(init);
      RunsCountBlocks(init, base);
      assert Iterations(None, os, base) == Iterations(None, init, base) + IterationEffects(last, o, base);
      OnlyAppend(Iterations(None, init, base), IterationEffects(last, o, base), Runs);
      RunIffChanged(last, o, base);
      LastIpIsLastSuccess(init);
      assert last == if before == [] then None else Some(before[|before| - 1]);
      if o.probe.ProbeAnswered? {
        var ip := Strip(o.probe.body);
        assert Successes(os) == before + [ip];
        assert Changed(last, o.probe) <==> (before == [] || before[|before| - 1] != ip);
        BlockStartsAppend(before, ip);
      } else {
        assert Successes(os) == before;
      }
    }
  }

  /** Every run is the dependent command with the Tor environment. */
  lemma {:induction false} RunsUseTorEnv(last: Option<string>, os: seq<Outcome>, base: map<string, string>)
    ensures forall e :: e in Only(Iterations(last, os, base), Runs) ==>
      e == RunCommand(AfterRotateCmd, ChildEnv(base))
  {
    if os != [] {
      var init := os[..|os| - 1];
      var prev := LastIpAfter(last, init);
      RunsUseTorEnv(last, init, base);
      OnlyAppend(Iterations(last, init, base), IterationEffects(prev, os[|os| - 1], base), Runs);
      IterationParts(prev, os[|os| - 1], base, Runs);
    }
  }
}
