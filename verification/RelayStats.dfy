// The DHCPv4 handlers, their counters and the receive loops that share them (src/lib.rs).
module RelayStats {
  import opened Bytes
  import opened V4Message
  import opened V4Pipeline
  import opened V4Relay
  import opened Vss

  // ----- Counters -------------------------------------------------------------------------------

  datatype Counters = Counters(
    packetsReceived: nat, packetsForwarded: nat, packetsDroppedParseError: nat, packetsDroppedSpoof: nat,
    option82Inserted: nat, option82Stripped: nat, vssNotSupported: nat, smfDuplicatesDetected: nat,
    smfForwarded: nat)

  const ZERO: Counters := Counters(0, 0, 0, 0, 0, 0, 0, 0, 0)

  // The counters in the order snapshot() loads them.
  function InOrder(c: Counters): (s: seq<nat>)
    ensures |s| == 9
  {
    [c.packetsReceived, c.packetsForwarded, c.packetsDroppedParseError, c.packetsDroppedSpoof,
     c.option82Inserted, c.option82Stripped, c.vssNotSupported, c.smfDuplicatesDetected, c.smfForwarded]
  }

  // ----- One packet, from reception to the end of its handler ----------------------------------------

  predicate IsClientKind(k: Kind) {
    k in {Discover, Request, Inform, Decline, Release}
  }

  predicate IsClientMessage(m: Message) {
    && OPTION_MESSAGE_TYPE in m.opts && m.opts[OPTION_MESSAGE_TYPE].MessageType?
    && IsClientKind(m.opts[OPTION_MESSAGE_TYPE].kind)
  }

  datatype Outcome =
    | Undecodable
    | ClientForwarded(sent: Buffer, dst: Option<SocketAddr>)
    | ClientHalted
    | ClientError(error: RelayError)
    | ServerForwarded(sent: Buffer, dst: Option<SocketAddr>)
    | ServerHalted
    | ServerError(error: RelayError)

  // The interface tasks always run with an untrusted circuit; replies use the VSS and Option 82
  // settings of the same configuration.
  function Route(cfg: RequestConfig, data: Buffer): Outcome {
    if data.Garbage? then Undecodable
    else if IsClientMessage(data.msg) then
      var (c, v) := RelayRequest(cfg, data, false);
      match v
      case Ok(true) => ClientForwarded(c.buffer, c.dstAddr)
      case Ok(false) => ClientHalted
      case Err(e) => ClientError(e)
    else
      var (c, v) := LiveReply(cfg.vss, cfg.enableOption82, data.msg);
      match v
      case Ok(true) => ServerForwarded(c.buffer, c.dstAddr)
      case Ok(false) => ServerHalted
      case Err(e) => ServerError(e)
  }

  function Count(c: Counters, o: Outcome): Counters {
    match o
    case ClientForwarded(_, _) => c.(packetsForwarded := c.packetsForwarded + 1)
    case ClientError(_) => c.(packetsDroppedSpoof := c.packetsDroppedSpoof + 1)
    case ServerForwarded(_, _) =>
      c.(packetsForwarded := c.packetsForwarded + 1, option82Stripped := c.option82Stripped + 1)
    case _ => c
  }

  class RelayStats {
    var packetsReceived: nat
    var packetsForwarded: nat
    var packetsDroppedParseError: nat
    var packetsDroppedSpoof: nat
    var option82Inserted: nat
    var option82Stripped: nat
    var vssNotSupported: nat
    var smfDuplicatesDetected: nat
    var smfForwarded: nat

    function View(): Counters
      reads this
    {
      Counters(packetsReceived, packetsForwarded, packetsDroppedParseError, packetsDroppedSpoof,
               option82Inserted, option82Stripped, vssNotSupported, smfDuplicatesDetected, smfForwarded)
    }

    constructor ()
      ensures View() == ZERO
    {
      packetsReceived, packetsForwarded, packetsDroppedParseError := 0, 0, 0;
      packetsDroppedSpoof, option82Inserted, option82Stripped := 0, 0, 0;
      vssNotSupported, smfDuplicatesDetected, smfForwarded := 0, 0, 0;
    }

    method HandleV4Client(data: Buffer, src: SocketAddr, iface: string, cfg: RequestConfig)
      returns (o: Outcome)
      modifies this
      ensures var (c, v) := RelayRequest(cfg, data, false);
              o == match v
                   case Ok(true) => ClientForwarded(c.buffer, c.dstAddr)
                   case Ok(false) => ClientHalted
                   case Err(e) => ClientError(e)
      ensures View() == Count(old(View()), o)
    {
      var ctx := new PipelineContext(data, src, iface);
      var pipeline := BuildRequest(cfg);
      var v := pipeline.Execute(ctx);
      match v {
        case Ok(true) =>
          packetsForwarded := packetsForwarded + 1;
          o := ClientForwarded(ctx.buffer, ctx.dstAddr);
        case Ok(false) => o := ClientHalted;
        case Err(e) =>
          packetsDroppedSpoof := packetsDroppedSpoof + 1;
          o := ClientError(e);
      }
    }

    method HandleV4Server(data: Buffer, src: SocketAddr, iface: string, expected: Option<seq<SubOption>>,
                          vss: Option<VssConfig>, enableOption82: bool) returns (o: Outcome)
      modifies this
      ensures var (c, v) := RelayReply(expected, vss, enableOption82, data);
              o == match v
                   case Ok(true) => ServerForwarded(c.buffer, c.dstAddr)
                   case Ok(false) => ServerHalted
                   case Err(e) => ServerError(e)
      ensures View() == Count(old(View()), o)
    {
      var ctx := new PipelineContext(data, src, iface);
      var pipeline := BuildReply(expected, vss, enableOption82);
      var v := pipeline.Execute(ctx);
      match v {
        case Ok(true) =>
          packetsForwarded := packetsForwarded + 1;
          option82Stripped := option82Stripped + 1;
          o := ServerForwarded(ctx.buffer, ctx.dstAddr);
        case Ok(false) => o := ServerHalted;
        case Err(e) => o := ServerError(e);
      }
    }

    // The body of an interface task's receive loop.
    method OnPacket(data: Buffer, src: SocketAddr, iface: string, cfg: RequestConfig) returns (o: Outcome)
      modifies this
      ensures o == Route(cfg, data)
      ensures View() == Count(old(View()).(packetsReceived := old(packetsReceived) + 1), o)
    {
      packetsReceived := packetsReceived + 1;
      if data.Garbage? {
        return Undecodable;
      }
      if IsClientMessage(data.msg) {
        o := HandleV4Client(data, src, iface, cfg);
      } else {
        var info := AgentInfoOf(data.msg);
        var expected := if info.Some? then Some(SubOpts(info.value)) else None;
        o := HandleV4Server(data, src, iface, expected, cfg.vss, cfg.enableOption82);
      }
    }

    method Snapshot() returns (s: Counters)
      ensures s == View()
    {
      s := Counters(packetsReceived, packetsForwarded, packetsDroppedParseError, packetsDroppedSpoof,
                    option82Inserted, option82Stripped, vssNotSupported, smfDuplicatesDetected, smfForwarded);
    }
  }

  // Main result: a client error is counted as a spoof although only some errors are one. The
  // others are packets of a relay that inserts Option 82 without having an identifier to put in
  // it, and, with unusable VSS, every packet that validation lets through.
  lemma SpoofCountedIff(cfg: RequestConfig, m: Message)
    requires IsClientMessage(m)
    ensures Route(cfg, Wire(m)).ClientError? <==>
              || IsSpoof(cfg, m)
              || (m.giaddr == UNSPECIFIED_V4 && !HasOption82(m) && cfg.enableOption82 && !HasIdentifier(cfg))
              || (!VssUsable(cfg) && (m.giaddr != UNSPECIFIED_V4 || !HasOption82(m)))
    ensures Route(cfg, Wire(m)) == ClientError(GiaddrSpoof(m.giaddr)) <==> IsSpoof(cfg, m)
  {
    RequestOutcome(cfg, m, false);
  }

  // Main result: what becomes of every decodable packet. A discover, request, inform, decline or
  // release that the request pipeline lets through goes to the server as Sent; anything else is
  // taken for a reply and goes to ciaddr or broadcast at port 68, without option 82 when that is
  // enabled.
  lemma RouteExact(cfg: RequestConfig, m: Message)
    ensures var client := && 53 in m.opts && m.opts[53].MessageType?
                          && m.opts[53].kind in {Discover, Request, Inform, Decline, Release};
            var verdict := RelayRequest(cfg, Wire(m), false).1;
            var stripped := if cfg.enableOption82 then m.(opts := m.opts - {82}) else m;
            var broadcast: Ipv4 := [255, 255, 255, 255];
            var addr := if m.ciaddr != [0, 0, 0, 0] then m.ciaddr else broadcast;
            Route(cfg, Wire(m)) ==
              if !client then ServerForwarded(Wire(stripped), Some(SocketAddr(V4(addr), 68)))
              else if verdict.Err? then ClientError(verdict.error)
              else if verdict.value then ClientForwarded(Wire(Sent(cfg, m)), Some(cfg.serverAddr))
              else ClientHalted
  {
    RequestOutcome(cfg, m, false);
    LiveReplyNeverRefuses(cfg.vss, cfg.enableOption82, m);
  }

  // What each packet adds to the counters: a forwarded one to forwarded, a reply also to stripped,
  // a refused client packet to spoof; halted and undecodable ones nothing.
  lemma CountExact(cfg: RequestConfig, m: Message, c: Counters)
    ensures var o := Route(cfg, Wire(m));
            && Count(c, o).packetsForwarded ==
                 c.packetsForwarded + (if o.ClientForwarded? || o.ServerForwarded? then 1 else 0)
            && Count(c, o).option82Stripped == c.option82Stripped + (if o.ServerForwarded? then 1 else 0)
            && Count(c, o).packetsDroppedSpoof == c.packetsDroppedSpoof + (if o.ClientError? then 1 else 0)
            && Count(c, o) == c.(packetsForwarded := Count(c, o).packetsForwarded,
                                 option82Stripped := Count(c, o).option82Stripped,
                                 packetsDroppedSpoof := Count(c, o).packetsDroppedSpoof)
    ensures Route(cfg, Garbage) == Undecodable && Count(c, Route(cfg, Garbage)) == c
  {
  }

  // No reply ever halts or errs on its way through the task loop.
  lemma RepliesAlwaysForwarded(cfg: RequestConfig, data: Buffer)
    ensures !Route(cfg, data).ServerError? && !Route(cfg, data).ServerHalted?
  {
    if data.Wire? && !IsClientMessage(data.msg) {
      LiveReplyNeverRefuses(cfg.vss, cfg.enableOption82, data.msg);
    }
  }

  // ----- Interleaved tasks ------------------------------------------------------------------------------

  // Where an interface task stands: waiting, holding a counted packet, or between the two
  // increments of the DHCPv4 reply handler.
  datatype Task = Waiting | Holding(data: Buffer) | Stripping | HoldingV6

  // The last four are tallies no counter of the source keeps: packets that vanish without a count
  // (undecodable, halted, lost by a DHCPv6 task) and forwarded packets that strip nothing.
  datatype State = State(counters: Counters, tasks: seq<Task>,
                         undecodable: nat, halted: nat, lostV6: nat, unstripped: nat)

  datatype Action =
    | Receive(task: nat, data: Buffer)
    | Decide(task: nat)
    | CountStripped(task: nat)
    | ReceiveV6(task: nat)
    | FinishV6(task: nat, forwarded: bool)

  // Each interface task has a configuration of its own: its address and, without a default, its
  // server.
  predicate Enabled(cfgs: seq<RequestConfig>, s: State, a: Action) {
    && a.task < |s.tasks| && a.task < |cfgs|
    && match a
       case Receive(i, _) => s.tasks[i].Waiting?
       case Decide(i) => s.tasks[i].Holding?
       case CountStripped(i) => s.tasks[i].Stripping?
       case ReceiveV6(i) => s.tasks[i].Waiting?
       case FinishV6(i, _) => s.tasks[i].HoldingV6?
  }

  // One shared increment at a time; pipelines touch nothing shared. A DHCPv4 reply that failed
  // would leave no trace in any counter; a DHCPv6 task either counts a packet as forwarded or not
  // at all.
  function Next(cfgs: seq<RequestConfig>, s: State, a: Action): State
    requires Enabled(cfgs, s, a)
  {
    var c := s.counters;
    match a
    case Receive(i, data) =>
      s.(counters := c.(packetsReceived := c.packetsReceived + 1), tasks := s.tasks[i := Holding(data)])
    case Decide(i) =>
      (match Route(cfgs[i], s.tasks[i].data)
       case Undecodable => s.(tasks := s.tasks[i := Waiting], undecodable := s.undecodable + 1)
       case ClientForwarded(_, _) =>
         s.(counters := c.(packetsForwarded := c.packetsForwarded + 1), tasks := s.tasks[i := Waiting],
            unstripped := s.unstripped + 1)
       case ClientHalted => s.(tasks := s.tasks[i := Waiting], halted := s.halted + 1)
       case ClientError(_) =>
         s.(counters := c.(packetsDroppedSpoof := c.packetsDroppedSpoof + 1), tasks := s.tasks[i := Waiting])
       case ServerForwarded(_, _) =>
         s.(counters := c.(packetsForwarded := c.packetsForwarded + 1), tasks := s.tasks[i := Stripping])
       case ServerHalted => s.(tasks := s.tasks[i := Waiting])
       case ServerError(_) => s.(tasks := s.tasks[i := Waiting]))
    case CountStripped(i) =>
      s.(counters := c.(option82Stripped := c.option82Stripped + 1), tasks := s.tasks[i := Waiting])
    case ReceiveV6(i) =>
      s.(counters := c.(packetsReceived := c.packetsReceived + 1), tasks := s.tasks[i := HoldingV6])
    case FinishV6(i, forwarded) =>
      if forwarded
      then s.(counters := c.(packetsForwarded := c.packetsForwarded + 1), tasks := s.tasks[i := Waiting],
              unstripped := s.unstripped + 1)
      else s.(tasks := s.tasks[i := Waiting], lostV6 := s.lostV6 + 1)
  }

  // One for a task that holds a packet, or (when not holding) for one that has still to strip.
  function Weight(t: Task, holding: bool): nat {
    if (if holding then t.Holding? || t.HoldingV6? else t.Stripping?) then 1 else 0
  }

  function Tally(tasks: seq<Task>, holding: bool): nat {
    if tasks == [] then 0 else Weight(tasks[0], holding) + Tally(tasks[1..], holding)
  }

  lemma {:induction false} TallyUpdate(tasks: seq<Task>, i: nat, t: Task, holding: bool)
    requires i < |tasks|
    ensures Tally(tasks[i := t], holding) == Tally(tasks, holding) - Weight(tasks[i], holding) + Weight(t, holding)
    decreases i
  {
    if i == 0 {
      assert tasks[0 := t][1..] == tasks[1..];
    } else {
      assert tasks[i := t][1..] == tasks[1..][i - 1 := t];
      TallyUpdate(tasks[1..], i - 1, t, holding);
    }
  }

  // Received packets that were not forwarded, or not yet.
  function Outstanding(s: State): nat {
    s.counters.packetsDroppedSpoof + s.undecodable + s.halted + s.lostV6 + Tally(s.tasks, true)
  }

  // Forwarded packets that stripped nothing, or have not counted it yet.
  function Unstripped(s: State): nat {
    s.unstripped + Tally(s.tasks, false)
  }

  // The counters that no code writes.
  predicate UnusedAreZero(c: Counters) {
    && c.packetsDroppedParseError == 0 && c.option82Inserted == 0 && c.vssNotSupported == 0
    && c.smfDuplicatesDetected == 0 && c.smfForwarded == 0
  }

  // Every received packet and every forwarded packet is accounted for.
  ghost predicate Conserved(s: State) {
    && s.counters.packetsReceived == s.counters.packetsForwarded + Outstanding(s)
    && s.counters.packetsForwarded == s.counters.option82Stripped + Unstripped(s)
    && UnusedAreZero(s.counters)
  }

  ghost predicate Initial(s: State) {
    && s == State(ZERO, s.tasks, 0, 0, 0, 0)
    && forall t :: t in s.tasks ==> t.Waiting?
  }

  // A state made from another by some enabled action.
  ghost predicate StepTo(cfgs: seq<RequestConfig>, s: State, s': State) {
    exists a :: Enabled(cfgs, s, a) && s' == Next(cfgs, s, a)
  }

  // The first n steps of the sequence are steps of a run.
  ghost predicate RunsTo(cfgs: seq<RequestConfig>, states: seq<State>, n: nat) {
    n < |states| && (n == 0 || (RunsTo(cfgs, states, n - 1) && StepTo(cfgs, states[n - 1], states[n])))
  }

  lemma ConservedStep(cfgs: seq<RequestConfig>, s: State, a: Action)
    requires Conserved(s) && Enabled(cfgs, s, a)
    ensures Conserved(Next(cfgs, s, a))
  {
    if a.Decide? {
      RepliesAlwaysForwarded(cfgs[a.task], s.tasks[a.task].data);
    }
    var s' := Next(cfgs, s, a);
    var t := s'.tasks[a.task];
    assert s'.tasks == s.tasks[a.task := t];
    TallyUpdate(s.tasks, a.task, t, true);
    TallyUpdate(s.tasks, a.task, t, false);
  }

  lemma {:induction false} AllWaiting(tasks: seq<Task>)
    requires forall t :: t in tasks ==> t.Waiting?
    ensures Tally(tasks, true) == 0 && Tally(tasks, false) == 0
  {
    if tasks != [] {
      assert tasks[0] in tasks;
      AllWaiting(tasks[1..]);
    }
  }

  // Main result: over every interleaving of any number of tasks, each with a configuration of its
  // own, a received packet is forwarded, counted as spoof, undecodable, halted, lost or still
  // held; a forwarded one is counted as stripped, strips nothing or is about to be counted; the
  // other counters stay zero.
  lemma {:induction false} CountersConserved(cfgs: seq<RequestConfig>, states: seq<State>, n: nat)
    requires RunsTo(cfgs, states, n) && Initial(states[0])
    ensures Conserved(states[n])
    ensures states[n].counters.option82Stripped <= states[n].counters.packetsForwarded
                                                <= states[n].counters.packetsReceived
    decreases n
  {
    if n == 0 {
      AllWaiting(states[0].tasks);
    } else {
      CountersConserved(cfgs, states, n - 1);
      var a :| Enabled(cfgs, states[n - 1], a) && states[n] == Next(cfgs, states[n - 1], a);
      ConservedStep(cfgs, states[n - 1], a);
    }
  }

  // A packet whose steps run without interference changes the counters as the loop body does.
  lemma UninterruptedIsOnPacket(cfgs: seq<RequestConfig>, s: State, i: nat, data: Buffer)
    requires i < |s.tasks| && i < |cfgs| && s.tasks[i].Waiting?
    ensures var s1 := Next(cfgs, s, Receive(i, data));
            var s2 := Next(cfgs, s1, Decide(i));
            var s3 := if s2.tasks[i].Stripping? then Next(cfgs, s2, CountStripped(i)) else s2;
            && s3.counters == Count(s.counters.(packetsReceived := s.counters.packetsReceived + 1), Route(cfgs[i], data))
            && s3.tasks == s.tasks
  {
    var s1 := Next(cfgs, s, Receive(i, data));
    assert s1.tasks[i := Waiting] == s.tasks;
    assert s1.tasks[i := Stripping][i := Waiting] == s.tasks;
  }

  // ----- Snapshots -----------------------------------------------------------------------------------------

  predicate AtMost(a: Counters, b: Counters) {
    && a.packetsReceived <= b.packetsReceived && a.packetsForwarded <= b.packetsForwarded
    && a.packetsDroppedParseError <= b.packetsDroppedParseError && a.packetsDroppedSpoof <= b.packetsDroppedSpoof
    && a.option82Inserted <= b.option82Inserted && a.option82Stripped <= b.option82Stripped
    && a.vssNotSupported <= b.vssNotSupported && a.smfDuplicatesDetected <= b.smfDuplicatesDetected
    && a.smfForwarded <= b.smfForwarded
  }

  lemma NextGrows(cfgs: seq<RequestConfig>, s: State, a: Action)
    requires Enabled(cfgs, s, a)
    ensures AtMost(s.counters, Next(cfgs, s, a).counters)
  {
  }

  lemma NeighboursGrow(cfgs: seq<RequestConfig>, s: State, s': State)
    requires StepTo(cfgs, s, s')
    ensures AtMost(s.counters, s'.counters)
  {
    var a :| Enabled(cfgs, s, a) && s' == Next(cfgs, s, a);
    NextGrows(cfgs, s, a);
  }

  lemma {:induction false} CountersGrow(cfgs: seq<RequestConfig>, states: seq<State>, m: nat, n: nat)
    requires RunsTo(cfgs, states, n) && m <= n
    ensures AtMost(states[m].counters, states[n].counters)
    decreases n
  {
    if m < n {
      CountersGrow(cfgs, states, m, n - 1);
      NeighboursGrow(cfgs, states[n - 1], states[n]);
    }
  }

  lemma {:induction false} RunPrefix(cfgs: seq<RequestConfig>, states: seq<State>, m: nat, n: nat)
    requires RunsTo(cfgs, states, n) && m <= n
    ensures RunsTo(cfgs, states, m)
    decreases n
  {
    if m < n {
      RunPrefix(cfgs, states, m, n - 1);
    }
  }

  // A snapshot that loads counter f when the run is at state at[f].
  ghost predicate SnapshotTaken(states: seq<State>, at: seq<nat>, shot: Counters) {
    && |at| == 9
    && (forall f :: 0 <= f < 9 ==> at[f] < |states| && InOrder(shot)[f] == InOrder(states[at[f]].counters)[f])
    && (forall f, g :: 0 <= f < g < 9 ==> at[f] <= at[g])
  }

  // Main result: each field of a snapshot lies between its values when the snapshot began and ended.
  lemma SnapshotBetween(cfgs: seq<RequestConfig>, states: seq<State>, at: seq<nat>, shot: Counters, f: nat)
    requires SnapshotTaken(states, at, shot) && f < 9 && RunsTo(cfgs, states, at[8])
    ensures InOrder(states[at[0]].counters)[f] <= InOrder(shot)[f] <= InOrder(states[at[8]].counters)[f]
  {
    RunPrefix(cfgs, states, at[f], at[8]);
    CountersGrow(cfgs, states, at[0], at[f]);
    CountersGrow(cfgs, states, at[f], at[8]);
  }

  // Main result: the fields need not fit each other. A snapshot shows no more forwarded than
  // received exactly when no more packets were forwarded between those two loads than were
  // outstanding at the first; likewise for stripped and forwarded. Received, forwarded and stripped
  // are the first, second and sixth load.
  lemma SnapshotCoherentIff(cfgs: seq<RequestConfig>, states: seq<State>, at: seq<nat>, shot: Counters)
    requires SnapshotTaken(states, at, shot) && RunsTo(cfgs, states, at[8]) && Initial(states[0])
    ensures var first, second := states[at[0]], states[at[1]];
            shot.packetsForwarded <= shot.packetsReceived <==>
              second.counters.packetsForwarded - first.counters.packetsForwarded <= Outstanding(first)
    ensures var first, second := states[at[1]], states[at[5]];
            shot.option82Stripped <= shot.packetsForwarded <==>
              second.counters.option82Stripped - first.counters.option82Stripped <= Unstripped(first)
    ensures UnusedAreZero(shot)
  {
    forall f | 0 <= f < 9
      ensures Conserved(states[at[f]]) && InOrder(shot)[f] == InOrder(states[at[f]].counters)[f]
    {
      RunPrefix(cfgs, states, at[f], at[8]);
      CountersConserved(cfgs, states, at[f]);
    }
    assert Conserved(states[at[2]]) && Conserved(states[at[4]]) && Conserved(states[at[6]]);
    assert Conserved(states[at[7]]) && Conserved(states[at[8]]);
    assert forall f :: f in {2, 4, 6, 7, 8} ==> InOrder(shot)[f] == 0;
    assert InOrder(shot)[2] == InOrder(shot)[4] == InOrder(shot)[6] == InOrder(shot)[7] == InOrder(shot)[8] == 0;
  }

  // One task that receives and forwards one packet, and counts the strip if there is one.
  lemma OnePacketRun(cfg: RequestConfig, data: Buffer) returns (states: seq<State>)
    requires Route(cfg, data).ClientForwarded? || Route(cfg, data).ServerForwarded?
    ensures |states| == (if Route(cfg, data).ServerForwarded? then 4 else 3)
    ensures RunsTo([cfg], states, |states| - 1) && Initial(states[0])
    ensures states[2].counters == ZERO.(packetsReceived := 1, packetsForwarded := 1)
    ensures |states| == 4 ==>
              states[3].counters == ZERO.(packetsReceived := 1, packetsForwarded := 1, option82Stripped := 1)
  {
    var s0 := State(ZERO, [Waiting], 0, 0, 0, 0);
    var s1 := Next([cfg], s0, Receive(0, data));
    var s2 := Next([cfg], s1, Decide(0));
    assert StepTo([cfg], s0, s1) && StepTo([cfg], s1, s2);
    states := [s0, s1, s2];
    if s2.tasks[0].Stripping? {
      var s3 := Next([cfg], s2, CountStripped(0));
      assert StepTo([cfg], s2, s3);
      states := [s0, s1, s2, s3];
      assert RunsTo([cfg], states, 0) && RunsTo([cfg], states, 1) && RunsTo([cfg], states, 2);
    } else {
      assert RunsTo([cfg], states, 0) && RunsTo([cfg], states, 1);
    }
  }

  // A packet that is received and forwarded during a snapshot can show up as forwarded only.
  lemma TornSnapshot(cfg: RequestConfig, data: Buffer) returns (states: seq<State>, at: seq<nat>, shot: Counters)
    requires Route(cfg, data).ClientForwarded? || Route(cfg, data).ServerForwarded?
    ensures |states| > 0 && RunsTo([cfg], states, |states| - 1) && SnapshotTaken(states, at, shot)
    ensures Initial(states[0])
    ensures shot.packetsForwarded > shot.packetsReceived
  {
    states := OnePacketRun(cfg, data);
    at := [0, 2, 2, 2, 2, 2, 2, 2, 2];
    shot := ZERO.(packetsForwarded := 1);
  }

  // And a reply forwarded and stripped during a snapshot as stripped only.
  lemma TornStripped(cfg: RequestConfig, data: Buffer) returns (states: seq<State>, at: seq<nat>, shot: Counters)
    requires Route(cfg, data).ServerForwarded?
    ensures |states| > 0 && RunsTo([cfg], states, |states| - 1) && SnapshotTaken(states, at, shot)
    ensures Initial(states[0])
    ensures shot.option82Stripped > shot.packetsForwarded
  {
    states := OnePacketRun(cfg, data);
    at := [0, 0, 0, 0, 0, 3, 3, 3, 3];
    shot := ZERO.(option82Stripped := 1);
  }
}
