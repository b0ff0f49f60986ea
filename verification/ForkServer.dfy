/** The fork server protocol: the fuzzer on one side, the server living in the
    target on the other, the child between them and a timer that may go off at any
    moment at which it is armed. Every interleaving is a sequence of steps. */
module ForkServer {
  import Loops
  import opened Constants
  import opened Counting

  const SIGKILL := 9
  const SIGSTOP := 19

  datatype Status = Exited(code: nat) | Signaled(signal: nat) | StoppedBy(signal: nat)

  datatype Verdict = Fine | Timeout | Crash

  /** What a waiting parent can see of a child. A stop is announced once. */
  datatype ProcState = Running | Parked(announced: bool) | Zombie(status: Status)

  /** `doomed`: SIGKILL was sent. It lands in a later step of its own. */
  datatype Proc = Proc(state: ProcState, doomed: bool, loop: Loops.Progress)

  /** What the server writes; `about` is the child a status was collected from. */
  datatype Reply = PidReply(pid: int) | StatusReply(status: Status, about: int)

  datatype FuzzerPc =
    | Idle
    | AwaitPid
    | GotPid
    | AwaitStatus
    | GotStatus(status: Status)
    | Disarming(status: Status)
    | Judging(status: Status)
    | Misled

  datatype ServerPc =
    | ReadRequest
    | GotRequest(wasKilled: bool)
    | WaitOld
    | Decide
    | WritePid
    | WaitChild
    | WriteStatus(status: Status)
    | Dead

  datatype Fuzzer = Fuzzer(pc: FuzzerPc, childPid: int, timedOut: bool, prevTimedOut: bool, armed: bool)

  datatype Server = Server(pc: ServerPc, childPid: int, childStopped: bool)

  /** `relaysPrev` is false only for the defective fuzzer of `StaleKillLooksLikeCrash`. */
  datatype Config = Config(persistent: bool, maxCnt: nat, msan: bool, relaysPrev: bool)

  /** `asked`, `log`, `killedByUs` and `verdicts` only record what happened. */
  datatype State = State(
    fuzzer: Fuzzer,
    server: Server,
    requests: seq<bool>,
    replies: seq<Reply>,
    procs: map<int, Proc>,
    nextPid: int,
    asked: nat,
    log: seq<Reply>,
    killedByUs: bool,
    verdicts: seq<Verdict>)

  datatype Step =
    | Ask
    | ReadPid
    | Arm
    | ReadStatus
    | Forget
    | Disarm
    | Judge
    | TimerFires
    | KillLands(pid: int)
    | ServerReads
    | ServerChecks
    | ServerReapsOld
    | ServerDecides
    | ServerWritesPid
    | ServerWaits
    | ServerWritesStatus
    | ChildEnds(pid: int, status: Status)
    | ChildStopsItself(pid: int)
    | ChildLoops(pid: int)

  predicate IsChildStep(t: Step) {
    t.ChildEnds? || t.ChildStopsItself? || t.ChildLoops?
  }

  predicate IsFuzzerStep(t: Step) {
    t in {Ask, ReadPid, Arm, ReadStatus, Forget, Disarm, Judge}
  }

  predicate IsServerStep(t: Step) {
    t in {ServerReads, ServerChecks, ServerReapsOld, ServerDecides, ServerWritesPid, ServerWaits, ServerWritesStatus}
  }

  function Start(): State {
    State(Fuzzer(Idle, -1, false, false, false), Server(ReadRequest, 0, false),
          [], [], map[], 1, 0, [], false, [])
  }

  predicate Live(s: State, p: int) {
    p in s.procs && !s.procs[p].state.Zombie?
  }

  predicate Executing(s: State, p: int) {
    p in s.procs && s.procs[p].state.Running?
  }

  /** Whether a wait for `p` would return: the child is gone, dead, or newly stopped. */
  predicate WaitReturns(s: State, p: int, untraced: bool) {
    p in s.procs ==>
      s.procs[p].state.Zombie? || (untraced && s.procs[p].state == Parked(false))
  }

  predicate Enabled(c: Config, s: State, t: Step) {
    match t
    case Ask => s.fuzzer.pc.Idle?
    case ReadPid => s.fuzzer.pc.AwaitPid? && s.replies != []
    case Arm => s.fuzzer.pc.GotPid?
    case ReadStatus => s.fuzzer.pc.AwaitStatus? && s.replies != []
    case Forget => s.fuzzer.pc.GotStatus?
    case Disarm => s.fuzzer.pc.Disarming?
    case Judge => s.fuzzer.pc.Judging?
    case TimerFires => s.fuzzer.armed
    case KillLands(p) => Live(s, p) && s.procs[p].doomed
    case ServerReads => s.server.pc.ReadRequest? && s.requests != []
    case ServerChecks => s.server.pc.GotRequest?
    case ServerReapsOld => s.server.pc.WaitOld? && WaitReturns(s, s.server.childPid, false)
    case ServerDecides => s.server.pc.Decide?
    case ServerWritesPid => s.server.pc.WritePid?
    case ServerWaits => s.server.pc.WaitChild? && WaitReturns(s, s.server.childPid, c.persistent)
    case ServerWritesStatus => s.server.pc.WriteStatus?
    case ChildEnds(p, status) => Executing(s, p) && !status.StoppedBy?
    case ChildStopsItself(p) => Executing(s, p)
    case ChildLoops(p) => Executing(s, p)
  }

  function VerdictOf(c: Config, status: Status, timedOut: bool): Verdict {
    match status
    case Signaled(signal) => if timedOut && signal == SIGKILL then Timeout else Crash
    case Exited(code) => if c.msan && code == MSAN_ERROR then Crash else Fine
    case StoppedBy(signal) => if c.msan && signal == MSAN_ERROR then Crash else Fine
  }

  // ---- The fuzzer's steps ----

  function DoAsk(c: Config, s: State): State {
    var flag := c.relaysPrev && s.fuzzer.prevTimedOut;
    s.(fuzzer := s.fuzzer.(pc := AwaitPid, timedOut := false),
       requests := s.requests + [flag], asked := s.asked + 1)
  }

  /** The four bytes read are taken for a process number, whatever they are. */
  function DoReadPid(s: State): State
    requires s.replies != []
  {
    var m := s.replies[0];
    var t := s.(replies := s.replies[1..], log := s.log + [m]);
    if m.PidReply? && m.pid > 0
    then t.(fuzzer := s.fuzzer.(pc := GotPid, childPid := m.pid))
    else t.(fuzzer := s.fuzzer.(pc := Misled))
  }

  function DoReadStatus(s: State): State
    requires s.replies != []
  {
    var m := s.replies[0];
    var t := s.(replies := s.replies[1..], log := s.log + [m]);
    if m.StatusReply?
    then t.(fuzzer := s.fuzzer.(pc := GotStatus(m.status)))
    else t.(fuzzer := s.fuzzer.(pc := Misled))
  }

  function DoForget(s: State): State
    requires s.fuzzer.pc.GotStatus?
  {
    var status := s.fuzzer.pc.status;
    s.(fuzzer := s.fuzzer.(pc := Disarming(status),
                           childPid := if status.StoppedBy? then s.fuzzer.childPid else 0))
  }

  function DoJudge(c: Config, s: State): State
    requires s.fuzzer.pc.Judging?
  {
    s.(fuzzer := s.fuzzer.(pc := Idle, prevTimedOut := s.fuzzer.timedOut),
       verdicts := s.verdicts + [VerdictOf(c, s.fuzzer.pc.status, s.fuzzer.timedOut)])
  }

  function Doom(procs: map<int, Proc>, p: int): map<int, Proc> {
    if p in procs then procs[p := procs[p].(doomed := true)] else procs
  }

  /** The handler kills the child it knows of, or the server when it knows of none yet. */
  function DoTimer(s: State): State {
    var fired := s.(fuzzer := s.fuzzer.(armed := false));
    if s.fuzzer.childPid > 0 then
      fired.(fuzzer := fired.fuzzer.(timedOut := true), procs := Doom(s.procs, s.fuzzer.childPid))
    else if s.fuzzer.childPid == -1 then
      fired.(fuzzer := fired.fuzzer.(timedOut := true), server := s.server.(pc := Dead))
    else fired
  }

  // ---- The server's steps ----

  function DoReads(s: State): State
    requires s.requests != []
  {
    s.(server := s.server.(pc := GotRequest(s.requests[0])), requests := s.requests[1..])
  }

  function DoChecks(s: State): State
    requires s.server.pc.GotRequest?
  {
    if s.server.childStopped && s.server.pc.wasKilled
    then s.(server := s.server.(pc := WaitOld, childStopped := false))
    else s.(server := s.server.(pc := Decide))
  }

  function DoReapsOld(s: State): State {
    if s.server.childPid in s.procs
    then s.(server := s.server.(pc := Decide), procs := s.procs - {s.server.childPid})
    else s.(server := s.server.(pc := Dead))
  }

  function Continued(p: Proc): Proc {
    if p.state.Parked? then p.(state := Running) else p
  }

  function DoDecides(s: State): State {
    if !s.server.childStopped then
      s.(server := s.server.(pc := WritePid, childPid := s.nextPid),
         procs := s.procs[s.nextPid := Proc(Running, false, Loops.Fresh())],
         nextPid := s.nextPid + 1)
    else
      var p := s.server.childPid;
      s.(server := s.server.(pc := WritePid, childStopped := false),
         procs := if p in s.procs then s.procs[p := Continued(s.procs[p])] else s.procs)
  }

  function DoWritesPid(s: State): State {
    s.(server := s.server.(pc := WaitChild), replies := s.replies + [PidReply(s.server.childPid)])
  }

  function DoWaits(s: State): State {
    var p := s.server.childPid;
    if p !in s.procs then s.(server := s.server.(pc := Dead))
    else
      match s.procs[p].state
      case Zombie(status) =>
        s.(server := s.server.(pc := WriteStatus(status), childStopped := s.server.childStopped || status.StoppedBy?),
           procs := s.procs - {p}, killedByUs := s.procs[p].doomed && status == Signaled(SIGKILL))
      case _ =>
        s.(server := s.server.(pc := WriteStatus(StoppedBy(SIGSTOP)), childStopped := true),
           procs := s.procs[p := s.procs[p].(state := Parked(true))], killedByUs := false)
  }

  function DoWritesStatus(s: State): State
    requires s.server.pc.WriteStatus?
  {
    s.(server := s.server.(pc := ReadRequest),
       replies := s.replies + [StatusReply(s.server.pc.status, s.server.childPid)])
  }

  // ---- The child's steps ----

  function With(s: State, p: int, proc: Proc): State {
    s.(procs := s.procs[p := proc])
  }

  function DoLoops(c: Config, s: State, p: int): State
    requires p in s.procs
  {
    var (loop, stops) := Loops.Called(s.procs[p].loop, c.persistent, c.maxCnt);
    With(s, p, s.procs[p].(loop := loop, state := if stops then Parked(false) else s.procs[p].state))
  }

  function Do(c: Config, s: State, t: Step): State
    requires Enabled(c, s, t)
  {
    match t
    case Ask => DoAsk(c, s)
    case ReadPid => DoReadPid(s)
    case Arm => s.(fuzzer := s.fuzzer.(pc := AwaitStatus, armed := true))
    case ReadStatus => DoReadStatus(s)
    case Forget => DoForget(s)
    case Disarm => s.(fuzzer := s.fuzzer.(pc := Judging(s.fuzzer.pc.status), armed := false))
    case Judge => DoJudge(c, s)
    case TimerFires => DoTimer(s)
    case KillLands(p) => With(s, p, s.procs[p].(state := Zombie(Signaled(SIGKILL))))
    case ServerReads => DoReads(s)
    case ServerChecks => DoChecks(s)
    case ServerReapsOld => DoReapsOld(s)
    case ServerDecides => DoDecides(s)
    case ServerWritesPid => DoWritesPid(s)
    case ServerWaits => DoWaits(s)
    case ServerWritesStatus => DoWritesStatus(s)
    case ChildEnds(p, status) => With(s, p, s.procs[p].(state := Zombie(status)))
    case ChildStopsItself(p) => With(s, p, s.procs[p].(state := Parked(false)))
    case ChildLoops(p) => DoLoops(c, s, p)
  }

  // ---- Runs ----

  /** Whether the steps can be taken one after the other. */
  predicate Possible(c: Config, s: State, steps: seq<Step>)
    decreases |steps|
  {
    steps == [] || (Enabled(c, s, steps[0]) && Possible(c, Do(c, s, steps[0]), steps[1..]))
  }

  function After(c: Config, s: State, steps: seq<Step>): State
    requires Possible(c, s, steps)
    decreases |steps|
  {
    if steps == [] then s else After(c, Do(c, s, steps[0]), steps[1..])
  }

  // ---- The invariant ----

  /** A status collected from the server's child: it says "stopped" exactly when the
      server keeps that child, and only a timed out run ends by the fuzzer's own kill. */
  predicate Collected(s: State, status: Status) {
    && (status.StoppedBy? <==> s.server.childStopped)
    && (status.StoppedBy? ==> status.signal == SIGSTOP)
    && (s.killedByUs ==> status == Signaled(SIGKILL) && s.fuzzer.timedOut)
  }

  predicate IsPid(s: State, m: Reply) {
    m == PidReply(s.server.childPid) && s.server.childPid > 0
  }

  predicate IsStatus(s: State, m: Reply) {
    m.StatusReply? && m.about == s.server.childPid && Collected(s, m.status)
  }

  /** What is in the pipes, by the places the two sides have reached. */
  predicate Pipes(s: State) {
    match s.fuzzer.pc
    case AwaitPid => Requested(s)
    case GotPid => Started(s)
    case AwaitStatus => Started(s)
    case Misled => false
    case Idle => s.requests == [] && s.replies == [] && s.server.pc.ReadRequest?
    case _ => s.requests == [] && s.replies == [] && s.server.pc.ReadRequest? && Collected(s, s.fuzzer.pc.status)
  }

  predicate Requested(s: State) {
    match s.server.pc
    case ReadRequest =>
      if s.requests == [] then |s.replies| == 2 && IsPid(s, s.replies[0]) && IsStatus(s, s.replies[1])
      else |s.requests| == 1 && s.replies == []
    case WaitChild => s.requests == [] && |s.replies| == 1 && IsPid(s, s.replies[0])
    case WriteStatus(_) => s.requests == [] && |s.replies| == 1 && IsPid(s, s.replies[0])
    case Dead => false
    case _ => s.requests == [] && s.replies == []
  }

  predicate Started(s: State) {
    s.requests == [] &&
    match s.server.pc
    case ReadRequest => |s.replies| == 1 && IsStatus(s, s.replies[0])
    case WaitChild => s.replies == []
    case WriteStatus(_) => s.replies == []
    case _ => false
  }

  /** What the fuzzer knows about the child it is to kill. */
  predicate Knows(s: State) {
    var f := s.fuzzer;
    match f.pc
    case AwaitPid => !f.armed && !f.timedOut
    case GotPid => !f.armed && !f.timedOut && f.childPid == s.server.childPid
    case AwaitStatus => (f.armed || f.timedOut) && f.childPid == s.server.childPid
    case GotStatus(_) => f.childPid == s.server.childPid > 0
    case Disarming(status) => if status.StoppedBy? then f.childPid == s.server.childPid > 0 else f.childPid == 0
    case _ => !f.armed
  }

  /** The word "the last run timed out", wherever it is on its way to the server;
      once a new run is under way, whether that one has timed out. */
  predicate TimedOut(s: State) {
    if s.server.pc.GotRequest? then s.server.pc.wasKilled
    else if s.requests != [] then s.requests[0]
    else if s.fuzzer.pc.Idle? then s.fuzzer.prevTimedOut
    else s.fuzzer.timedOut
  }

  predicate OnlyChild(s: State) {
    s.procs.Keys == {s.server.childPid} && s.server.childPid > 0
  }

  /** A child that announced its stop: only the fuzzer's kill can end it. */
  predicate Held(s: State)
    requires OnlyChild(s)
  {
    var p := s.procs[s.server.childPid];
    p.state == Parked(true) || (p.doomed && p.state == Zombie(Signaled(SIGKILL)))
  }

  predicate Doomed(s: State)
    requires OnlyChild(s)
  {
    s.procs[s.server.childPid].doomed
  }

  /** The server keeps a stopped child exactly when it says so, and that child is
      condemned exactly when the word on its way says so. */
  predicate HoldsChild(s: State) {
    if s.server.childStopped then OnlyChild(s) && Held(s) && (Doomed(s) <==> TimedOut(s))
    else s.procs == map[]
  }

  predicate Children(s: State) {
    match s.server.pc
    case ReadRequest => HoldsChild(s)
    case GotRequest(_) => HoldsChild(s)
    case WaitOld => OnlyChild(s) && Held(s) && Doomed(s) && !s.server.childStopped
    case Decide => HoldsChild(s)
    case WritePid => Active(s)
    case WaitChild => Active(s)
    case WriteStatus(status) => HoldsChild(s) && Collected(s, status)
    case Dead => false
  }

  predicate Active(s: State) {
    && !s.server.childStopped && OnlyChild(s)
    && s.procs[s.server.childPid].state != Parked(true)
    && (s.procs[s.server.childPid].state.Zombie? ==> !s.procs[s.server.childPid].state.status.StoppedBy?)
    && (Doomed(s) <==> s.fuzzer.timedOut)
  }

  predicate Processes(c: Config, s: State) {
    && 0 < s.nextPid && s.server.childPid < s.nextPid
    && forall p <- s.procs :: p < s.nextPid && Loops.Ok(s.procs[p].loop, c.persistent, c.maxCnt)
  }

  /** The replies taken so far: each request was answered by one process number and
      then by one status of that same process. */
  predicate Alternates(log: seq<Reply>) {
    forall i | 0 <= i < |log| :: AlternatesAt(log, i)
  }

  predicate AlternatesAt(log: seq<Reply>, i: nat)
    requires i < |log|
  {
    if i % 2 == 0 then log[i].PidReply?
    else log[i].StatusReply? && log[i - 1] == PidReply(log[i].about)
  }

  predicate Log(s: State) {
    && Alternates(s.log)
    && match s.fuzzer.pc
       case AwaitPid => s.asked > 0 && |s.log| == 2 * s.asked - 2 && |s.verdicts| == s.asked - 1
       case GotPid => LogsPid(s)
       case AwaitStatus => LogsPid(s)
       case Idle => |s.log| == 2 * s.asked && |s.verdicts| == s.asked
       case _ => s.asked > 0 && |s.log| == 2 * s.asked && |s.verdicts| == s.asked - 1
  }

  predicate LogsPid(s: State) {
    && s.asked > 0 && |s.log| == 2 * s.asked - 1 && |s.verdicts| == s.asked - 1
    && IsPid(s, s.log[|s.log| - 1])
  }

  predicate Parts(c: Config, s: State) {
    Pipes(s) && Knows(s) && Children(s) && Processes(c, s) && Log(s)
  }

  /** The parts, kept folded except where a proof names `SeeParts`. */
  ghost predicate Inv(c: Config, s: State) {
    forall k | SeeParts(k) :: Parts(c, s)
  }

  predicate SeeParts(k: int) { k == 0 }

  lemma StartInv(c: Config)
    ensures Inv(c, Start())
  {
  }

  lemma AlternatesOn(log: seq<Reply>, m: Reply)
    requires Alternates(log)
    requires if |log| % 2 == 0 then m.PidReply? else m.StatusReply? && log[|log| - 1] == PidReply(m.about)
    ensures Alternates(log + [m])
  {
    forall i | 0 <= i < |log + [m]| ensures AlternatesAt(log + [m], i) {
      if i < |log| { assert AlternatesAt(log, i); }
    }
  }

  lemma ReadKeepsInv(c: Config, s: State, t: Step)
    requires c.relaysPrev && Inv(c, s) && Enabled(c, s, t) && t in {ReadPid, ReadStatus}
    ensures Inv(c, Do(c, s, t))
  {
    assert SeeParts(0);
    AlternatesOn(s.log, s.replies[0]);
  }

  lemma FuzzerKeepsInv(c: Config, s: State, t: Step)
    requires c.relaysPrev && Inv(c, s) && Enabled(c, s, t)
    requires IsFuzzerStep(t)
    ensures Inv(c, Do(c, s, t))
  {
    if t.ReadPid? || t.ReadStatus? {
      ReadKeepsInv(c, s, t);
    } else {
      assert SeeParts(0);
    }
  }

  lemma TimerKeepsInv(c: Config, s: State)
    requires Inv(c, s) && Enabled(c, s, TimerFires)
    ensures Inv(c, Do(c, s, TimerFires))
  {
    assert SeeParts(0);
  }

  lemma RequestKeepsInv(c: Config, s: State, t: Step)
    requires Inv(c, s) && Enabled(c, s, t)
    requires t in {ServerReads, ServerChecks, ServerReapsOld}
    ensures Inv(c, Do(c, s, t))
  {
    assert SeeParts(0);
    if t == ServerReapsOld {
      assert s.procs - {s.server.childPid} == map[];
    }
  }

  lemma DecideKeepsInv(c: Config, s: State)
    requires Inv(c, s) && Enabled(c, s, ServerDecides)
    ensures Inv(c, Do(c, s, ServerDecides))
  {
    assert SeeParts(0);
    assert Do(c, s, ServerDecides).procs.Keys == {Do(c, s, ServerDecides).server.childPid};
  }

  lemma WaitKeepsInv(c: Config, s: State)
    requires Inv(c, s) && Enabled(c, s, ServerWaits)
    ensures Inv(c, Do(c, s, ServerWaits))
  {
    assert SeeParts(0);
    assert s.procs - {s.server.childPid} == map[];
    if s.server.childPid in Do(c, s, ServerWaits).procs {
      assert Do(c, s, ServerWaits).procs.Keys == s.procs.Keys;
    }
  }

  lemma WritesKeepInv(c: Config, s: State, t: Step)
    requires Inv(c, s) && Enabled(c, s, t)
    requires t in {ServerWritesPid, ServerWritesStatus}
    ensures Inv(c, Do(c, s, t))
  {
    assert SeeParts(0);
  }

  lemma KillKeepsInv(c: Config, s: State, p: int)
    requires Inv(c, s) && Enabled(c, s, KillLands(p))
    ensures Inv(c, Do(c, s, KillLands(p)))
  {
    assert SeeParts(0);
    assert p == s.server.childPid;
    assert Do(c, s, KillLands(p)).procs.Keys == s.procs.Keys;
  }

  lemma OnlyChildExecutes(c: Config, s: State, p: int)
    requires Inv(c, s) && Executing(s, p)
    ensures p == s.server.childPid && (s.server.pc.WritePid? || s.server.pc.WaitChild?)
  {
    assert SeeParts(0);
  }

  lemma ChildKeepsInv(c: Config, s: State, t: Step)
    requires Inv(c, s) && Enabled(c, s, t) && IsChildStep(t)
    ensures Inv(c, Do(c, s, t))
  {
    assert SeeParts(0);
    OnlyChildExecutes(c, s, t.pid);
    assert Do(c, s, t).procs.Keys == s.procs.Keys;
    if t.ChildLoops? {
      Loops.CalledKeepsOk(s.procs[t.pid].loop, c.persistent, c.maxCnt);
    }
  }

  lemma StepKeepsInv(c: Config, s: State, t: Step)
    requires c.relaysPrev && Inv(c, s) && Enabled(c, s, t)
    ensures Inv(c, Do(c, s, t))
  {
    match t
    case TimerFires => TimerKeepsInv(c, s);
    case KillLands(p) => KillKeepsInv(c, s, p);
    case ServerDecides => DecideKeepsInv(c, s);
    case ServerWaits => WaitKeepsInv(c, s);
    case _ =>
      if IsChildStep(t) {
        ChildKeepsInv(c, s, t);
      } else if t in {ServerReads, ServerChecks, ServerReapsOld} {
        RequestKeepsInv(c, s, t);
      } else if t in {ServerWritesPid, ServerWritesStatus} {
        WritesKeepInv(c, s, t);
      } else {
        FuzzerKeepsInv(c, s, t);
      }
  }

  lemma {:induction false} RunKeepsInv(c: Config, s: State, steps: seq<Step>)
    requires c.relaysPrev && Inv(c, s) && Possible(c, s, steps)
    ensures Inv(c, After(c, s, steps))
    decreases |steps|
  {
    if steps != [] {
      StepKeepsInv(c, s, steps[0]);
      RunKeepsInv(c, Do(c, s, steps[0]), steps[1..]);
    }
  }

  // ---- What every run keeps ----

  ghost predicate Reaches(c: Config, steps: seq<Step>, s: State) {
    Possible(c, Start(), steps) && After(c, Start(), steps) == s
  }

  lemma ReachableInv(c: Config, steps: seq<Step>, s: State)
    requires c.relaysPrev && Reaches(c, steps, s)
    ensures Parts(c, s)
  {
    StartInv(c);
    RunKeepsInv(c, Start(), steps);
    assert SeeParts(0);
  }

  /** The server never gives up: none of its waits fails and the timer never hits it;
      and the fuzzer never takes one kind of answer for the other. */
  lemma NobodyGivesUp(c: Config, steps: seq<Step>, s: State)
    requires c.relaysPrev && Reaches(c, steps, s)
    ensures !s.server.pc.Dead? && !s.fuzzer.pc.Misled?
  {
    ReachableInv(c, steps, s);
  }

  /** The server forks only when there is no child at all, and otherwise resumes a
      child that is alive, stopped, and not condemned. */
  lemma ResumesOnlyStoppedChildren(c: Config, steps: seq<Step>, s: State)
    requires c.relaysPrev && Reaches(c, steps, s) && s.server.pc.Decide?
    ensures !s.server.childStopped ==> s.procs == map[]
    ensures s.server.childStopped ==>
              && Live(s, s.server.childPid)
              && s.procs[s.server.childPid].state == Parked(true)
              && !s.procs[s.server.childPid].doomed
              && s.procs.Keys == {s.server.childPid}
  {
    ReachableInv(c, steps, s);
  }

  /** There is never more than one child that was not collected. */
  lemma OneChildAtATime(c: Config, steps: seq<Step>, s: State)
    requires c.relaysPrev && Reaches(c, steps, s)
    ensures forall p, q :: p in s.procs && q in s.procs ==> p == q
  {
    ReachableInv(c, steps, s);
  }

  /** A wait for a written-off child cannot block for good: that child was killed. */
  lemma WrittenOffChildIsDoomed(c: Config, steps: seq<Step>, s: State)
    requires c.relaysPrev && Reaches(c, steps, s) && s.server.pc.WaitOld?
    ensures s.server.childPid in s.procs && s.procs[s.server.childPid].doomed
  {
    ReachableInv(c, steps, s);
  }

  /** Between two runs every request was answered by one process number and then one
      status of that process, and earned one verdict. */
  lemma OneAnswerPerRequest(c: Config, steps: seq<Step>, s: State, i: nat)
    requires c.relaysPrev && Reaches(c, steps, s) && s.fuzzer.pc.Idle? && i < s.asked
    ensures |s.log| == 2 * s.asked && |s.verdicts| == s.asked
    ensures s.log[2 * i].PidReply? && s.log[2 * i + 1].StatusReply?
    ensures s.log[2 * i].pid == s.log[2 * i + 1].about
  {
    ReachableInv(c, steps, s);
    assert AlternatesAt(s.log, 2 * i) && AlternatesAt(s.log, 2 * i + 1);
  }

  /** A run that the fuzzer itself ended is judged a timeout, and a timeout is a run that ended by
      SIGKILL after the timer had gone off. */
  lemma OwnKillIsTimeout(c: Config, steps: seq<Step>, s: State)
    requires c.relaysPrev && Reaches(c, steps, s) && Enabled(c, s, Judge)
    ensures var verdict := Do(c, s, Judge).verdicts[|s.verdicts|];
            && (s.killedByUs ==> verdict == Timeout)
            && (verdict == Timeout <==> s.fuzzer.pc.status == Signaled(SIGKILL) && s.fuzzer.timedOut)
  {
    ReachableInv(c, steps, s);
  }

  /** When a run is over, a child is left over exactly when it reported its stop, and
      it is condemned exactly when the timer went off in that run. */
  lemma LeftOverChild(c: Config, steps: seq<Step>, s: State)
    requires c.relaysPrev && Reaches(c, steps, s) && s.fuzzer.pc.Idle?
    ensures s.procs != map[] <==> s.server.childStopped
    ensures s.server.childStopped ==>
              s.server.childPid in s.procs && (s.procs[s.server.childPid].doomed <==> s.fuzzer.prevTimedOut)
  {
    ReachableInv(c, steps, s);
  }

  /** A child is let into the loop body no more often than the limit says exactly if it never asks
      again after it was told to end; without persistent mode it serves one input. */
  lemma LimitIfNotAskedAgain(c: Config, steps: seq<Step>, s: State, p: int)
    requires c.relaysPrev && Reaches(c, steps, s) && p in s.procs
    ensures c.persistent ==> (s.procs[p].loop.served <= Loops.Limit(c.maxCnt) <==> !s.procs[p].loop.again)
    ensures c.persistent && s.procs[p].loop.ends > 0 && !s.procs[p].loop.again ==>
              s.procs[p].loop.served == Loops.Limit(c.maxCnt)
    ensures !c.persistent ==> s.procs[p].loop.served <= 1
  {
    ReachableInv(c, steps, s);
    Loops.LimitExact(s.procs[p].loop, c.persistent, c.maxCnt);
  }

  /** A run in which the first child, with a limit of one, is let in a second time. */
  lemma SecondTimeIn(c: Config) returns (steps: seq<Step>, s: State)
    requires c.persistent && c.maxCnt == 1
    ensures Reaches(c, steps, s) && 1 in s.procs && s.procs[1].loop.served == 2
  {
    steps, s := OpenRound(c, [], Start());
    steps, s := Take(c, steps, s, ChildLoops(1));
    steps, s := Take(c, steps, s, ChildLoops(1));
    steps, s := Take(c, steps, s, ChildLoops(1));
  }

  // ---- Only a child can make a crash, and each one it makes is reported ----

  /** The memory sanitizer's way to say that it found something. */
  predicate SaysSanitizer(c: Config, status: Status) {
    c.msan && status == Exited(MSAN_ERROR)
  }

  predicate Harmless(c: Config, status: Status) {
    !status.Signaled? && !SaysSanitizer(c, status)
  }

  /** A crash whatever the timer did: a signal other than SIGKILL, or the sanitizer's exit code. */
  predicate Harmful(c: Config, status: Status) {
    (status.Signaled? && status.signal != SIGKILL) || SaysSanitizer(c, status)
  }

  function Crashes(verdicts: seq<Verdict>): nat {
    if verdicts == [] then 0
    else Crashes(verdicts[..|verdicts| - 1]) + One(verdicts[|verdicts| - 1] == Crash)
  }

  lemma CrashesNext(verdicts: seq<Verdict>, v: Verdict)
    ensures Crashes(verdicts + [v]) == Crashes(verdicts) + One(v == Crash)
  {
    assert (verdicts + [v])[..|verdicts|] == verdicts;
  }

  lemma {:induction false} NoCrashes(verdicts: seq<Verdict>)
    requires Crashes(verdicts) == 0
    ensures Crash !in verdicts
  {
    if verdicts != [] {
      var n := |verdicts| - 1;
      NoCrashes(verdicts[..n]);
      assert verdicts == verdicts[..n] + [verdicts[n]];
    }
  }

  /** A harmful status is on its way: from the dead child over the server to the verdict. */
  predicate Pending(c: Config, s: State) {
    || (s.server.childPid in s.procs && s.procs[s.server.childPid].state.Zombie?
        && Harmful(c, s.procs[s.server.childPid].state.status))
    || (s.server.pc.WriteStatus? && Harmful(c, s.server.pc.status))
    || (exists m <- s.replies :: m.StatusReply? && Harmful(c, m.status))
    || match s.fuzzer.pc
       case GotStatus(status) => Harmful(c, status)
       case Disarming(status) => Harmful(c, status)
       case Judging(status) => Harmful(c, status)
       case _ => false
  }

  function Reported(c: Config, s: State): nat {
    Crashes(s.verdicts) + One(Pending(c, s))
  }

  predicate Ours(s: State, status: Status) {
    status == Signaled(SIGKILL) ==> s.killedByUs
  }

  /** Every SIGKILL that a status tells of was sent by the fuzzer. */
  predicate KillsAreOurs(s: State) {
    && (forall p <- s.procs | s.procs[p].state.Zombie? ::
          s.procs[p].state.status == Signaled(SIGKILL) ==> s.procs[p].doomed)
    && (s.server.pc.WriteStatus? ==> Ours(s, s.server.pc.status))
    && (forall m <- s.replies | m.StatusReply? :: Ours(s, m.status))
    && match s.fuzzer.pc
       case GotStatus(status) => Ours(s, status)
       case Disarming(status) => Ours(s, status)
       case Judging(status) => Ours(s, status)
       case _ => true
  }

  /** What a step must do to the count: `own` says that a child ends itself harmfully in it. */
  predicate Counts(c: Config, s: State, next: State, own: bool) {
    && Reported(c, next) >= Reported(c, s) + One(own)
    && (KillsAreOurs(s) ==> Reported(c, next) == Reported(c, s) + One(own))
  }

  lemma JudgeCounts(c: Config, s: State)
    requires c.relaysPrev && Inv(c, s) && Enabled(c, s, Judge)
    ensures Counts(c, s, Do(c, s, Judge), false) && (KillsAreOurs(s) ==> KillsAreOurs(Do(c, s, Judge)))
  {
    assert SeeParts(0);
    CrashesNext(s.verdicts, VerdictOf(c, s.fuzzer.pc.status, s.fuzzer.timedOut));
  }

  lemma ReadCounts(c: Config, s: State, t: Step)
    requires c.relaysPrev && Inv(c, s) && Enabled(c, s, t) && t in {ReadPid, ReadStatus}
    ensures Counts(c, s, Do(c, s, t), false) && (KillsAreOurs(s) ==> KillsAreOurs(Do(c, s, t)))
  {
    assert SeeParts(0);
  }

  lemma FuzzerCounts(c: Config, s: State, t: Step)
    requires c.relaysPrev && Inv(c, s) && Enabled(c, s, t) && IsFuzzerStep(t)
    ensures Counts(c, s, Do(c, s, t), false) && (KillsAreOurs(s) ==> KillsAreOurs(Do(c, s, t)))
  {
    if t.Judge? {
      JudgeCounts(c, s);
    } else if t.ReadPid? || t.ReadStatus? {
      ReadCounts(c, s, t);
    } else {
      assert SeeParts(0);
    }
  }

  lemma StatusCounts(c: Config, s: State, t: Step)
    requires c.relaysPrev && Inv(c, s) && Enabled(c, s, t) && t in {ServerWaits, ServerWritesStatus}
    ensures Counts(c, s, Do(c, s, t), false) && (KillsAreOurs(s) ==> KillsAreOurs(Do(c, s, t)))
  {
    assert SeeParts(0);
  }

  lemma ServerCounts(c: Config, s: State, t: Step)
    requires c.relaysPrev && Inv(c, s) && Enabled(c, s, t) && IsServerStep(t)
    ensures Counts(c, s, Do(c, s, t), false) && (KillsAreOurs(s) ==> KillsAreOurs(Do(c, s, t)))
  {
    if t.ServerWaits? || t.ServerWritesStatus? {
      StatusCounts(c, s, t);
    } else {
      assert SeeParts(0);
    }
  }

  lemma ChildCounts(c: Config, s: State, t: Step)
    requires c.relaysPrev && Inv(c, s) && Enabled(c, s, t) && IsChildStep(t)
    ensures Counts(c, s, Do(c, s, t), EndsHarmfully(c, t))
    ensures KillsAreOurs(s) && !KillsItself(t) ==> KillsAreOurs(Do(c, s, t))
  {
    assert SeeParts(0);
    OnlyChildExecutes(c, s, t.pid);
  }

  lemma KillCounts(c: Config, s: State, t: Step)
    requires c.relaysPrev && Inv(c, s) && Enabled(c, s, t) && (t.KillLands? || t.TimerFires?)
    ensures Counts(c, s, Do(c, s, t), false) && (KillsAreOurs(s) ==> KillsAreOurs(Do(c, s, t)))
  {
    assert SeeParts(0);
  }

  predicate EndsHarmfully(c: Config, t: Step) { t.ChildEnds? && Harmful(c, t.status) }

  predicate KillsItself(t: Step) { t.ChildEnds? && t.status == Signaled(SIGKILL) }

  /** How often a child ended itself harmfully. */
  function HarmfulEnds(c: Config, steps: seq<Step>): nat {
    if steps == [] then 0 else One(EndsHarmfully(c, steps[0])) + HarmfulEnds(c, steps[1..])
  }

  lemma StepCounts(c: Config, s: State, t: Step)
    requires c.relaysPrev && Inv(c, s) && Enabled(c, s, t)
    ensures Counts(c, s, Do(c, s, t), EndsHarmfully(c, t))
    ensures KillsAreOurs(s) && !KillsItself(t) ==> KillsAreOurs(Do(c, s, t))
  {
    if IsFuzzerStep(t) {
      FuzzerCounts(c, s, t);
    } else if IsServerStep(t) {
      ServerCounts(c, s, t);
    } else if IsChildStep(t) {
      ChildCounts(c, s, t);
    } else {
      KillCounts(c, s, t);
    }
  }

  lemma {:induction false} RunCounts(c: Config, s: State, steps: seq<Step>)
    requires c.relaysPrev && Inv(c, s) && Possible(c, s, steps)
    ensures Reported(c, After(c, s, steps)) >= Reported(c, s) + HarmfulEnds(c, steps)
    ensures KillsAreOurs(s) && (forall t <- steps :: !KillsItself(t)) ==>
              Reported(c, After(c, s, steps)) == Reported(c, s) + HarmfulEnds(c, steps)
    decreases |steps|
  {
    if steps != [] {
      StepKeepsInv(c, s, steps[0]);
      StepCounts(c, s, steps[0]);
      RunCounts(c, Do(c, s, steps[0]), steps[1..]);
    }
  }

  /** Whatever the timer does: each child that ends itself by a signal other than SIGKILL, or with
      the sanitizer's exit code, earns a crash verdict, except that one may still be on its way; and
      if no child sends itself SIGKILL, there are no other crash verdicts. */
  lemma CrashesAreCounted(c: Config, steps: seq<Step>, s: State)
    requires c.relaysPrev && Reaches(c, steps, s)
    ensures Crashes(s.verdicts) + One(Pending(c, s)) >= HarmfulEnds(c, steps)
    ensures (forall t <- steps :: !KillsItself(t)) ==> Crashes(s.verdicts) + One(Pending(c, s)) == HarmfulEnds(c, steps)
    ensures s.fuzzer.pc.Idle? ==> !Pending(c, s)
  {
    StartInv(c);
    RunCounts(c, Start(), steps);
    ReachableInv(c, steps, s);
    NothingPendingAtRest(c, s);
  }

  lemma NothingPendingAtRest(c: Config, s: State)
    requires Inv(c, s)
    ensures s.fuzzer.pc.Idle? ==> !Pending(c, s)
  {
    assert SeeParts(0);
  }

  lemma {:induction false} HarmlessEnds(c: Config, steps: seq<Step>)
    requires forall t <- steps | t.ChildEnds? :: Harmless(c, t.status)
    ensures HarmfulEnds(c, steps) == 0 && forall t <- steps :: !KillsItself(t)
  {
    if steps != [] {
      HarmlessEnds(c, steps[1..]);
    }
  }

  /** However the timer goes off, no run is judged a crash as long as no child ends by a
      signal of its own or with the sanitizer's exit code. */
  lemma CrashesAreReal(c: Config, steps: seq<Step>, s: State)
    requires c.relaysPrev && Reaches(c, steps, s)
    requires forall t <- steps | t.ChildEnds? :: Harmless(c, t.status)
    ensures Crash !in s.verdicts
  {
    HarmlessEnds(c, steps);
    CrashesAreCounted(c, steps, s);
    NoCrashes(s.verdicts);
  }

  // ---- Each verdict is about the status that answered the request ----

  /** What a verdict says about the status that it was given for. */
  predicate Fits(c: Config, status: Status, v: Verdict) {
    && (v == Fine <==> Harmless(c, status))
    && (Harmful(c, status) ==> v == Crash)
    && (v == Timeout ==> status == Signaled(SIGKILL))
    && (status.StoppedBy? ==> status.signal == SIGSTOP)
  }

  predicate FitsAt(c: Config, log: seq<Reply>, verdicts: seq<Verdict>, j: nat) {
    && j < |verdicts| && 2 * j + 1 < |log| && log[2 * j + 1].StatusReply?
    && Fits(c, log[2 * j + 1].status, verdicts[j])
  }

  predicate LastRead(log: seq<Reply>, status: Status) {
    log != [] && log[|log| - 1].StatusReply? && log[|log| - 1].status == status
  }

  /** So far every verdict fits its status, and the status now at hand is the last one read. */
  ghost predicate Judged(c: Config, s: State) {
    && (forall j: nat | j < |s.verdicts| :: FitsAt(c, s.log, s.verdicts, j))
    && match s.fuzzer.pc
       case GotStatus(status) => LastRead(s.log, status)
       case Disarming(status) => LastRead(s.log, status)
       case Judging(status) => LastRead(s.log, status)
       case _ => true
  }

  lemma ReadKeepsJudged(c: Config, s: State, t: Step)
    requires Judged(c, s) && Enabled(c, s, t) && t in {ReadPid, ReadStatus}
    ensures Judged(c, Do(c, s, t))
  {
    var next := Do(c, s, t);
    forall j: nat | j < |next.verdicts| ensures FitsAt(c, next.log, next.verdicts, j) {
      assert FitsAt(c, s.log, s.verdicts, j);
    }
  }

  lemma VerdictFits(c: Config, status: Status, timedOut: bool)
    requires status.StoppedBy? ==> status.signal == SIGSTOP
    ensures Fits(c, status, VerdictOf(c, status, timedOut))
  {
  }

  lemma JudgeKeepsJudged(c: Config, s: State)
    requires Inv(c, s) && Judged(c, s) && Enabled(c, s, Judge)
    ensures Judged(c, Do(c, s, Judge))
  {
    assert SeeParts(0);
    var next := Do(c, s, Judge);
    VerdictFits(c, s.fuzzer.pc.status, s.fuzzer.timedOut);
    forall j: nat | j < |next.verdicts| ensures FitsAt(c, next.log, next.verdicts, j) {
      assert j < |s.verdicts| ==> FitsAt(c, s.log, s.verdicts, j);
    }
  }

  lemma StepKeepsJudged(c: Config, s: State, t: Step)
    requires Inv(c, s) && Judged(c, s) && Enabled(c, s, t)
    ensures Judged(c, Do(c, s, t))
  {
    if t.Judge? {
      JudgeKeepsJudged(c, s);
    } else if t.ReadPid? || t.ReadStatus? {
      ReadKeepsJudged(c, s, t);
    }
  }

  lemma {:induction false} RunKeepsJudged(c: Config, s: State, steps: seq<Step>)
    requires c.relaysPrev && Inv(c, s) && Judged(c, s) && Possible(c, s, steps)
    ensures Judged(c, After(c, s, steps))
    decreases |steps|
  {
    if steps != [] {
      StepKeepsInv(c, s, steps[0]);
      StepKeepsJudged(c, s, steps[0]);
      RunKeepsJudged(c, Do(c, s, steps[0]), steps[1..]);
    }
  }

  /** In every run the i-th verdict is about the i-th status read: it is neither a crash nor a
      timeout exactly if that status is an exit, other than with the sanitizer's code, or a stop by
      SIGSTOP;
      any signal but SIGKILL is a crash; and only SIGKILL may be a timeout. */
  lemma VerdictsFit(c: Config, steps: seq<Step>, s: State, i: nat)
    requires c.relaysPrev && Reaches(c, steps, s) && i < |s.verdicts|
    ensures 2 * i + 1 < |s.log| && s.log[2 * i + 1].StatusReply?
    ensures var status := s.log[2 * i + 1].status;
            && (s.verdicts[i] == Fine <==>
                  (status.Exited? && !(c.msan && status.code == 86)) || status == StoppedBy(19))
            && (status.Signaled? && status.signal != 9 ==> s.verdicts[i] == Crash)
            && (s.verdicts[i] == Timeout ==> status == Signaled(9))
  {
    StartInv(c);
    RunKeepsJudged(c, Start(), steps);
    assert FitsAt(c, s.log, s.verdicts, i);
  }

  // ---- Each verdict is for one end or stop of a child ----

  /** A child that was running no longer does, by its own doing or by a signal. */
  predicate Halts(s: State, t: Step, next: State) {
    (IsChildStep(t) || t.KillLands?) && exists p <- s.procs :: Executing(s, p) && !Executing(next, p)
  }

  function CountHalts(c: Config, s: State, steps: seq<Step>): nat
    requires Possible(c, s, steps)
    decreases |steps|
  {
    if steps == [] then 0
    else One(Halts(s, steps[0], Do(c, s, steps[0]))) + CountHalts(c, Do(c, s, steps[0]), steps[1..])
  }

  /** Whether the child of the round under way has halted; between rounds, that of the last one. */
  predicate RoundHalted(s: State) {
    match s.fuzzer.pc
    case AwaitPid => ServerHalted(s)
    case GotPid => ServerHalted(s)
    case AwaitStatus => ServerHalted(s)
    case _ => true
  }

  predicate ServerHalted(s: State) {
    match s.server.pc
    case ReadRequest => s.requests == []
    case WritePid => s.server.childPid in s.procs && !s.procs[s.server.childPid].state.Running?
    case WaitChild => s.server.childPid in s.procs && !s.procs[s.server.childPid].state.Running?
    case WriteStatus(_) => true
    case _ => false
  }

  function Halted(s: State): int {
    s.asked - One(!RoundHalted(s))
  }

  predicate HaltCounts(s: State, t: Step, next: State) {
    Halted(next) == Halted(s) + One(Halts(s, t, next))
  }

  lemma FuzzerHalts(c: Config, s: State, t: Step)
    requires c.relaysPrev && Inv(c, s) && Enabled(c, s, t) && IsFuzzerStep(t)
    ensures HaltCounts(s, t, Do(c, s, t))
  {
    assert SeeParts(0);
  }

  lemma ServerHalts(c: Config, s: State, t: Step)
    requires c.relaysPrev && Inv(c, s) && Enabled(c, s, t) && IsServerStep(t)
    ensures HaltCounts(s, t, Do(c, s, t))
  {
    assert SeeParts(0);
  }

  lemma TimerHalts(c: Config, s: State)
    requires c.relaysPrev && Inv(c, s) && Enabled(c, s, TimerFires)
    ensures HaltCounts(s, TimerFires, Do(c, s, TimerFires))
  {
    assert SeeParts(0);
  }

  lemma ChildHalts(c: Config, s: State, t: Step)
    requires c.relaysPrev && Inv(c, s) && Enabled(c, s, t) && (IsChildStep(t) || t.KillLands?)
    ensures HaltCounts(s, t, Do(c, s, t))
  {
    assert SeeParts(0);
    assert t.pid in s.procs && t.pid == s.server.childPid;
  }

  lemma StepHalts(c: Config, s: State, t: Step)
    requires c.relaysPrev && Inv(c, s) && Enabled(c, s, t)
    ensures HaltCounts(s, t, Do(c, s, t))
  {
    if IsFuzzerStep(t) {
      FuzzerHalts(c, s, t);
    } else if IsServerStep(t) {
      ServerHalts(c, s, t);
    } else if t.TimerFires? {
      TimerHalts(c, s);
    } else {
      ChildHalts(c, s, t);
    }
  }

  lemma {:induction false} RunHalts(c: Config, s: State, steps: seq<Step>)
    requires c.relaysPrev && Inv(c, s) && Possible(c, s, steps)
    ensures Halted(After(c, s, steps)) == Halted(s) + CountHalts(c, s, steps)
    decreases |steps|
  {
    if steps != [] {
      StepKeepsInv(c, s, steps[0]);
      StepHalts(c, s, steps[0]);
      RunHalts(c, Do(c, s, steps[0]), steps[1..]);
    }
  }

  /** In every run no verdict is given before a running child has ended, been killed or stopped; and
      between two rounds there are exactly as many verdicts as children that did so. */
  lemma OneVerdictPerHalt(c: Config, steps: seq<Step>, s: State)
    requires c.relaysPrev && Reaches(c, steps, s)
    ensures |s.verdicts| <= CountHalts(c, Start(), steps) <= |s.verdicts| + 1
    ensures s.fuzzer.pc.Idle? ==> CountHalts(c, Start(), steps) == |s.verdicts|
  {
    StartInv(c);
    RunHalts(c, Start(), steps);
    ReachableInv(c, steps, s);
  }

  /** A timer that goes off when the child is known to have ended changes nothing: the run is not taken
      for a timeout, and nothing is killed. */
  lemma LateTimerIsHarmless(c: Config, steps: seq<Step>, s: State)
    requires c.relaysPrev && Reaches(c, steps, s) && Enabled(c, s, TimerFires) && s.fuzzer.pc.Disarming?
    ensures !s.fuzzer.pc.status.StoppedBy? ==>
              Do(c, s, TimerFires) == s.(fuzzer := s.fuzzer.(armed := false))
    ensures s.fuzzer.pc.status.StoppedBy? ==> Do(c, s, TimerFires).fuzzer.timedOut
  {
    ReachableInv(c, steps, s);
  }

  // ---- No round hangs ----

  function ServerLeft(s: State): nat {
    match s.server.pc
    case ReadRequest => if s.requests != [] then 7 else 0
    case GotRequest(_) => 6
    case WaitOld => 5
    case Decide => 4
    case WritePid => 3
    case WaitChild => 2
    case WriteStatus(_) => 1
    case Dead => 0
  }

  function FuzzerLeft(s: State): nat {
    match s.fuzzer.pc
    case AwaitPid => 8
    case GotPid => 7
    case AwaitStatus => 4
    case GotStatus(_) => 3
    case Disarming(_) => 2
    case Judging(_) => 1
    case Idle => 0
    case Misled => 0
  }

  predicate Condemned(s: State) {
    Live(s, s.server.childPid) && s.procs[s.server.childPid].doomed
  }

  /** An upper bound on the steps left in the round, not counting the child's own. */
  function Left(s: State): nat {
    ServerLeft(s) + FuzzerLeft(s) + (if s.fuzzer.armed then 2 else 0) + (if Condemned(s) then 1 else 0)
  }

  lemma LeftShrinks(c: Config, s: State, t: Step)
    requires c.relaysPrev && Inv(c, s) && Enabled(c, s, t) && t != Ask
    ensures IsChildStep(t) ==> Left(Do(c, s, t)) <= Left(s)
    ensures !IsChildStep(t) ==> Left(Do(c, s, t)) < Left(s)
  {
    if IsServerStep(t) {
      ServerLeftShrinks(c, s, t);
    } else if IsFuzzerStep(t) {
      FuzzerLeftShrinks(c, s, t);
    } else {
      assert SeeParts(0);
    }
  }

  lemma ServerLeftShrinks(c: Config, s: State, t: Step)
    requires Inv(c, s) && Enabled(c, s, t) && IsServerStep(t)
    ensures Left(Do(c, s, t)) < Left(s)
  {
    assert SeeParts(0);
  }

  lemma FuzzerLeftShrinks(c: Config, s: State, t: Step)
    requires Inv(c, s) && Enabled(c, s, t) && IsFuzzerStep(t) && t != Ask
    ensures Left(Do(c, s, t)) < Left(s)
  {
    assert SeeParts(0);
  }

  /** While a round is open some step other than the child's own can be taken. */
  ghost function NextStep(c: Config, s: State): (t: Step)
    requires c.relaysPrev && Inv(c, s) && !s.fuzzer.pc.Idle?
    ensures Enabled(c, s, t) && t != Ask && !IsChildStep(t)
  {
    assert SeeParts(0);
    match s.fuzzer.pc
    case GotPid => Arm
    case GotStatus(_) => Forget
    case Disarming(_) => Disarm
    case Judging(_) => Judge
    case AwaitPid =>
      if s.replies != [] then ReadPid else ServerStep(s)
    case AwaitStatus =>
      if s.replies != [] then ReadStatus
      else if s.fuzzer.armed then TimerFires
      else ServerStep(s)
  }

  function ServerStep(s: State): Step {
    match s.server.pc
    case ReadRequest => ServerReads
    case GotRequest(_) => ServerChecks
    case WaitOld => if Live(s, s.server.childPid) then KillLands(s.server.childPid) else ServerReapsOld
    case Decide => ServerDecides
    case WritePid => ServerWritesPid
    case WaitChild => if Live(s, s.server.childPid) then KillLands(s.server.childPid) else ServerWaits
    case _ => ServerWritesStatus
  }

  function OwnSteps(steps: seq<Step>): nat {
    if steps == [] then 0
    else (if IsChildStep(steps[0]) then 0 else 1) + OwnSteps(steps[1..])
  }

  /** Within one round at most 18 steps are taken by anyone but the child, whatever
      the child does; so a child that hangs, stops or spins cannot hold up the fuzzer. */
  lemma {:induction false} RoundsAreShort(c: Config, s: State, steps: seq<Step>)
    requires c.relaysPrev && Inv(c, s) && Possible(c, s, steps) && Ask !in steps
    ensures OwnSteps(steps) + Left(After(c, s, steps)) <= Left(s) <= 18
    decreases |steps|
  {
    if steps != [] {
      StepKeepsInv(c, s, steps[0]);
      LeftShrinks(c, s, steps[0]);
      RoundsAreShort(c, Do(c, s, steps[0]), steps[1..]);
    }
  }

  /** From any moment the round can be brought to its verdict without the child's help. */
  lemma {:induction false} RoundCanEnd(c: Config, s: State) returns (steps: seq<Step>)
    requires c.relaysPrev && Inv(c, s)
    ensures Possible(c, s, steps) && After(c, s, steps).fuzzer.pc.Idle?
    ensures forall t <- steps :: t != Ask && !IsChildStep(t)
    decreases Left(s)
  {
    if s.fuzzer.pc.Idle? {
      steps := [];
    } else {
      var t := NextStep(c, s);
      StepKeepsInv(c, s, t);
      LeftShrinks(c, s, t);
      var rest := RoundCanEnd(c, Do(c, s, t));
      steps := [t] + rest;
      assert steps[0] == t && steps[1..] == rest;
    }
  }

  // ---- Why the flag is sent ----

  lemma {:induction false} Extend(c: Config, s: State, steps: seq<Step>, t: Step)
    requires Possible(c, s, steps) && Enabled(c, After(c, s, steps), t)
    ensures Possible(c, s, steps + [t])
    ensures After(c, s, steps + [t]) == Do(c, After(c, s, steps), t)
    decreases |steps|
  {
    if steps == [] {
      assert steps + [t] == [t];
    } else {
      Extend(c, Do(c, s, steps[0]), steps[1..], t);
      assert (steps + [t])[1..] == steps[1..] + [t];
    }
  }

  lemma Take(c: Config, steps: seq<Step>, s: State, t: Step) returns (longer: seq<Step>, next: State)
    requires Reaches(c, steps, s) && Enabled(c, s, t)
    ensures longer == steps + [t] && next == Do(c, s, t) && Reaches(c, longer, next)
  {
    Extend(c, Start(), steps, t);
    longer, next := steps + [t], Do(c, s, t);
  }

  /** From a request to the process number in the pipe. */
  lemma StartRound(c: Config, before: seq<Step>, from: State) returns (steps: seq<Step>, s: State)
    requires Reaches(c, before, from) && from.fuzzer.pc.Idle? && from.server.pc.ReadRequest?
    requires from.requests == [] && from.replies == [] && !(c.relaysPrev && from.fuzzer.prevTimedOut)
    ensures Reaches(c, steps, s)
    ensures var decided := DoDecides(from);
            s == decided.(asked := from.asked + 1,
                          server := decided.server.(pc := WaitChild),
                          replies := [PidReply(decided.server.childPid)],
                          fuzzer := from.fuzzer.(pc := AwaitPid, timedOut := false))
    ensures forall t <- steps :: t in before || !t.ChildEnds?
  {
    steps, s := Take(c, before, from, Ask);
    steps, s := Take(c, steps, s, ServerReads);
    steps, s := Take(c, steps, s, ServerChecks);
    steps, s := Take(c, steps, s, ServerDecides);
    steps, s := Take(c, steps, s, ServerWritesPid);
  }

  /** From a request to an armed timer. */
  lemma OpenRound(c: Config, before: seq<Step>, from: State) returns (steps: seq<Step>, s: State)
    requires Reaches(c, before, from) && from.fuzzer.pc.Idle? && from.server.pc.ReadRequest?
    requires from.requests == [] && from.replies == [] && !(c.relaysPrev && from.fuzzer.prevTimedOut)
    requires 0 < from.nextPid && 0 < (if from.server.childStopped then from.server.childPid else 1)
    ensures Reaches(c, steps, s)
    ensures var decided := DoDecides(from);
            s == decided.(asked := from.asked + 1,
                          server := decided.server.(pc := WaitChild),
                          log := from.log + [PidReply(decided.server.childPid)],
                          fuzzer := Fuzzer(AwaitStatus, decided.server.childPid, false, from.fuzzer.prevTimedOut, true))
    ensures forall t <- steps :: t in before || !t.ChildEnds?
  {
    steps, s := StartRound(c, before, from);
    steps, s := Take(c, steps, s, ReadPid);
    steps, s := Take(c, steps, s, Arm);
  }

  /** From a status about to be written to its verdict. */
  lemma CloseRound(c: Config, before: seq<Step>, from: State) returns (steps: seq<Step>, s: State)
    requires Reaches(c, before, from) && from.fuzzer.pc.AwaitStatus? && from.server.pc.WriteStatus?
    requires from.requests == [] && from.replies == []
    ensures Reaches(c, steps, s)
    ensures s == from.(server := from.server.(pc := ReadRequest),
                       log := from.log + [StatusReply(from.server.pc.status, from.server.childPid)],
                       fuzzer := Fuzzer(Idle, if from.server.pc.status.StoppedBy? then from.fuzzer.childPid else 0,
                                        from.fuzzer.timedOut, from.fuzzer.timedOut, false),
                       verdicts := from.verdicts + [VerdictOf(c, from.server.pc.status, from.fuzzer.timedOut)])
    ensures forall t <- steps :: t in before || !t.ChildEnds?
  {
    steps, s := Take(c, before, from, ServerWritesStatus);
    steps, s := Take(c, steps, s, ReadStatus);
    steps, s := Take(c, steps, s, Forget);
    steps, s := Take(c, steps, s, Disarm);
    steps, s := Take(c, steps, s, Judge);
  }

  /** Without the word about the last timeout, a child killed after it stopped is
      resumed as if nothing had happened, and its death is then reported as a crash,
      though no child ever ended by itself. */
  lemma StaleKillLooksLikeCrash(c: Config) returns (steps: seq<Step>, s: State)
    requires !c.relaysPrev && c.persistent && !c.msan
    ensures Reaches(c, steps, s) && s.verdicts == [Fine, Crash]
    ensures forall t <- steps :: !t.ChildEnds?
  {
    steps, s := KilledAfterStop(c);
    steps, s := OpenRound(c, steps, s);
    steps, s := Take(c, steps, s, KillLands(1));
    steps, s := Take(c, steps, s, ServerWaits);
    steps, s := CloseRound(c, steps, s);
  }

  /** The timer goes off after the server collected the stop and before the fuzzer hears of it. */
  lemma KilledAfterStop(c: Config) returns (steps: seq<Step>, s: State)
    requires c.persistent && !c.msan
    ensures Reaches(c, steps, s) && s.verdicts == [Fine]
    ensures s.fuzzer == Fuzzer(Idle, 1, true, true, false) && s.server == Server(ReadRequest, 1, true)
    ensures s.requests == [] && s.replies == [] && s.nextPid == 2
    ensures s.procs == map[1 := Proc(Parked(true), true, Loops.Fresh())]
    ensures forall t <- steps :: !t.ChildEnds?
  {
    steps, s := OpenRound(c, [], Start());
    steps, s := Take(c, steps, s, ChildStopsItself(1));
    steps, s := Take(c, steps, s, ServerWaits);
    steps, s := Take(c, steps, s, TimerFires);
    steps, s := CloseRound(c, steps, s);
  }
}
