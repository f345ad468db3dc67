// What the DHCPv4 pipelines do as wholes: outcomes, chains of relays, and a request, its echo and
// the reply put together.
module V4Relay {
  import opened Bytes
  import opened V4Message
  import opened V4Pipeline
  import opened Vss

  // ----- The request pipeline on one packet ----------------------------------------------------

  function RelayRequest(cfg: RequestConfig, data: Buffer, trusted: bool): (Ctx, Verdict) {
    RunStages(RequestStages(cfg), Received(data, trusted))
  }

  predicate VssOn(cfg: RequestConfig) {
    cfg.vss.Some? && cfg.vss.value.enabled
  }

  predicate VssUsable(cfg: RequestConfig) {
    VssOn(cfg) ==> ValidVss(cfg.vss.value)
  }

  predicate HasIdentifier(cfg: RequestConfig) {
    cfg.circuitId.Some? || cfg.remoteId.Some?
  }

  predicate HasOption82(m: Message) {
    OPTION_RELAY_AGENT in m.opts
  }

  // A real spoof: a non-zero giaddr that is one of ours.
  predicate IsSpoof(cfg: RequestConfig, m: Message) {
    m.giaddr != UNSPECIFIED_V4 && m.giaddr in cfg.localAddrs
  }

  // Option 82 on a packet no relay has marked, from a circuit that is not trusted.
  predicate IsUntrusted(m: Message, trusted: bool) {
    m.giaddr == UNSPECIFIED_V4 && HasOption82(m) && !trusted
  }

  // Configurations that turn a packet into an error: unusable VSS, or an Option 82 that cannot
  // be inserted (nothing to put in it, or one is there already).
  predicate IsMisconfigured(cfg: RequestConfig, m: Message) {
    || !VssUsable(cfg)
    || (m.giaddr == UNSPECIFIED_V4 && cfg.enableOption82
        && (HasOption82(m) || !HasIdentifier(cfg)))
  }

  // The message as the insert stages leave it.
  function WithOption82(cfg: RequestConfig, m: Message): Message {
    if m.giaddr == UNSPECIFIED_V4 && cfg.enableOption82 && Insert(m, cfg.circuitId, cfg.remoteId).Ok?
    then Insert(m, cfg.circuitId, cfg.remoteId).value else m
  }

  function WithVss(cfg: RequestConfig, m: Message): Message {
    if VssOn(cfg) then AddVss(m, cfg.vss.value) else m
  }

  function Sent(cfg: RequestConfig, m: Message): Message {
    SetGiaddr(WithVss(cfg, WithOption82(cfg, m)), cfg.ifaceIp)
  }

  function InsertStages(cfg: RequestConfig): seq<Stage> {
    if cfg.enableOption82 then [Option82InsertStage(cfg.circuitId, cfg.remoteId)] else []
  }

  function VssStages(cfg: RequestConfig): seq<Stage> {
    if cfg.vss.Some? then [VssInsertStage(cfg.vss.value)] else []
  }

  lemma InsertStagesRun(cfg: RequestConfig, m: Message, c: Ctx)
    requires c.buffer == Wire(m) && c.isReforwarded == (m.giaddr != UNSPECIFIED_V4)
    ensures var (c', v) := RunStages(InsertStages(cfg), c);
            var refused := m.giaddr == UNSPECIFIED_V4 && cfg.enableOption82
                           && (HasOption82(m) || !HasIdentifier(cfg));
            && v == (if refused then Err(Config) else Ok(true))
            && (v == Ok(true) ==>
                  c'.buffer == Wire(WithOption82(cfg, m)) && c'.isReforwarded == c.isReforwarded
                  && c'.dstAddr == c.dstAddr
                  && c'.metadata == if m.giaddr == UNSPECIFIED_V4 && cfg.enableOption82
                                    then c.metadata["option82_inserted" := "true"] else c.metadata)
  {
    if cfg.enableOption82 {
      RunOne(Option82InsertStage(cfg.circuitId, cfg.remoteId), c);
    }
  }

  lemma VssStagesRun(cfg: RequestConfig, m: Message, c: Ctx)
    requires c.buffer == Wire(m)
    ensures var (c', v) := RunStages(VssStages(cfg), c);
            && v == (if VssUsable(cfg) then Ok(true) else Err(Config))
            && (v == Ok(true) ==>
                  c'.buffer == Wire(WithVss(cfg, m)) && c'.isReforwarded == c.isReforwarded
                  && c'.dstAddr == c.dstAddr
                  && c'.metadata == if VssOn(cfg) then c.metadata["vss_inserted" := "true"] else c.metadata)
  {
    if cfg.vss.Some? {
      RunOne(VssInsertStage(cfg.vss.value), c);
    }
  }

  lemma LastStagesRun(cfg: RequestConfig, m: Message, c: Ctx)
    requires c.buffer == Wire(m) && c.isReforwarded == (m.giaddr != UNSPECIFIED_V4)
    ensures var (c', v) := RunStages([GiaddrStage(cfg.ifaceIp)] + [ForwardStage(cfg.serverAddr)], c);
            && v == Ok(true) && c'.buffer == Wire(SetGiaddr(m, cfg.ifaceIp)) && c'.dstAddr == Some(cfg.serverAddr)
            && c'.isReforwarded == c.isReforwarded && c'.metadata == c.metadata
  {
    var c1 := Apply(GiaddrStage(cfg.ifaceIp), c).0;
    RunInPieces([GiaddrStage(cfg.ifaceIp)], [ForwardStage(cfg.serverAddr)], c);
    RunOne(GiaddrStage(cfg.ifaceIp), c);
    RunOne(ForwardStage(cfg.serverAddr), c1);
  }

  lemma StagesGrouped(cfg: RequestConfig)
    ensures RequestStages(cfg) ==
              [ParseStage] + ([ValidateStage(cfg.localAddrs)] + (InsertStages(cfg) + (VssStages(cfg)
              + ([GiaddrStage(cfg.ifaceIp)] + [ForwardStage(cfg.serverAddr)]))))
  {
  }

  lemma FirstStagesRun(cfg: RequestConfig, m: Message, trusted: bool, rest: seq<Stage>)
    ensures var c := Received(Wire(m), trusted);
            RunStages([ParseStage] + ([ValidateStage(cfg.localAddrs)] + rest), c) ==
              if IsSpoof(cfg, m) then (c, Err(GiaddrSpoof(m.giaddr)))
              else if IsUntrusted(m, trusted) then (c, Ok(false))
              else RunStages(rest, c.(isReforwarded := m.giaddr != UNSPECIFIED_V4))
  {
    var c := Received(Wire(m), trusted);
    RunInPieces([ParseStage], [ValidateStage(cfg.localAddrs)] + rest, c);
    RunOne(ParseStage, c);
    RunInPieces([ValidateStage(cfg.localAddrs)], rest, c);
    RunOne(ValidateStage(cfg.localAddrs), c);
  }

  // Main result: every decodable packet meets exactly one of four outcomes, decided by the
  // packet, the circuit and the configuration; a forwarded packet goes to the server as Sent.
  lemma RequestOutcome(cfg: RequestConfig, m: Message, trusted: bool)
    ensures var (c, v) := RelayRequest(cfg, Wire(m), trusted);
            && (v == Err(GiaddrSpoof(m.giaddr)) <==> IsSpoof(cfg, m))
            && (v == Ok(false) <==> IsUntrusted(m, trusted))
            && (v == Err(Config) <==> !IsSpoof(cfg, m) && !IsUntrusted(m, trusted) && IsMisconfigured(cfg, m))
            && (v == Ok(true) <==> !IsSpoof(cfg, m) && !IsUntrusted(m, trusted) && !IsMisconfigured(cfg, m))
            && (v == Ok(true) ==> c.buffer == Wire(Sent(cfg, m)) && c.dstAddr == Some(cfg.serverAddr))
            && (v == Ok(true) ==>
                  && c.isReforwarded == (m.giaddr != UNSPECIFIED_V4)
                  && ("option82_inserted" in c.metadata <==> m.giaddr == UNSPECIFIED_V4 && cfg.enableOption82)
                  && ("vss_inserted" in c.metadata <==> VssOn(cfg)))
  {
    StagesGrouped(cfg);
    var last := [GiaddrStage(cfg.ifaceIp)] + [ForwardStage(cfg.serverAddr)];
    FirstStagesRun(cfg, m, trusted, InsertStages(cfg) + (VssStages(cfg) + last));
    if !IsSpoof(cfg, m) && !IsUntrusted(m, trusted) {
      var c0 := Received(Wire(m), trusted).(isReforwarded := m.giaddr != UNSPECIFIED_V4);
      RunInPieces(InsertStages(cfg), VssStages(cfg) + last, c0);
      InsertStagesRun(cfg, m, c0);
      var (c1, v1) := RunStages(InsertStages(cfg), c0);
      if v1 == Ok(true) {
        var m1 := WithOption82(cfg, m);
        RunInPieces(VssStages(cfg), last, c1);
        VssStagesRun(cfg, m1, c1);
        var (c2, v2) := RunStages(VssStages(cfg), c1);
        if v2 == Ok(true) {
          LastStagesRun(cfg, WithVss(cfg, m1), c2);
        }
      }
    }
  }

  // Main result: the same four outcomes from the fields of the packet and the configuration alone.
  lemma RequestDecision(cfg: RequestConfig, m: Message, trusted: bool)
    ensures var first := m.giaddr == [0, 0, 0, 0];
            var nothing := cfg.circuitId.None? && cfg.remoteId.None?;
            var badVss := cfg.vss.Some? && cfg.vss.value.enabled && (
                match cfg.vss.value.vssType
                case 0 => false
                case 1 => |cfg.vss.value.vssInfo| != 7
                case 255 => |cfg.vss.value.vssInfo| != 0
                case _ => true);
            RelayRequest(cfg, Wire(m), trusted).1 ==
              if !first && m.giaddr in cfg.localAddrs then Err(GiaddrSpoof(m.giaddr))
              else if first && 82 in m.opts && !trusted then Ok(false)
              else if (first && cfg.enableOption82 && (82 in m.opts || nothing)) || badVss then Err(Config)
              else Ok(true)
  {
    RequestOutcome(cfg, m, trusted);
    if cfg.vss.Some? {
      ValidVssIff(cfg.vss.value);
    }
  }

  // An undecodable packet fails at the first stage.
  lemma GarbageOutcome(cfg: RequestConfig, trusted: bool)
    ensures RelayRequest(cfg, Garbage, trusted).1 == Err(Parse)
  {
    var c := Received(Garbage, trusted);
    StagesGrouped(cfg);
    RunOne(ParseStage, c);
    RunInPieces([ParseStage], RequestStages(cfg)[1..], c);
    assert RequestStages(cfg) == [ParseStage] + RequestStages(cfg)[1..];
  }

  // What forwarding may touch: giaddr when it was zero, and option 82; nothing else.
  lemma SentTouchesOnly(cfg: RequestConfig, m: Message)
    ensures var s := Sent(cfg, m);
            && s.giaddr == (if m.giaddr == UNSPECIFIED_V4 then cfg.ifaceIp else m.giaddr)
            && s.ciaddr == m.ciaddr && s.rest == m.rest
            && s.opts - {OPTION_RELAY_AGENT} == m.opts - {OPTION_RELAY_AGENT}
            && (HasOption82(s) <==>
                  HasOption82(m)
                  || (m.giaddr == UNSPECIFIED_V4 && cfg.enableOption82
                      && HasIdentifier(cfg)))
  {
  }

  lemma InsertedTable(m: Message, circuitId: Option<seq<byte>>, remoteId: Option<seq<byte>>)
    requires Insert(m, circuitId, remoteId).Ok?
    ensures AgentInfoOf(Insert(m, circuitId, remoteId).value).Some?
    ensures var info := AgentInfoOf(Insert(m, circuitId, remoteId).value).value;
            && WellFormed(info) && info.Keys <= {1, 2}
            && (1 in info <==> circuitId.Some?) && (1 in info ==> info[1] == AgentCircuitId(circuitId.value))
            && (2 in info <==> remoteId.Some?) && (2 in info ==> info[2] == AgentRemoteId(remoteId.value))
  {
  }

  lemma VssTable(m: Message, cfg: VssConfig)
    requires AgentInfoOf(m).Some?
    ensures AgentInfoOf(AddVss(m, cfg)) == Some(
              AgentInfoOf(m).value[VSS_SUBOPT_CODE := Unknown(VSS_SUBOPT_CODE, [cfg.vssType] + cfg.vssInfo)]
                                  [VSS_CONTROL_SUBOPT_CODE := Unknown(VSS_CONTROL_SUBOPT_CODE, [])])
  {
    assert VssBytes(cfg)[2..] == [cfg.vssType] + cfg.vssInfo;
  }

  // The agent information a first relay sends holds exactly the configured entries, each under
  // its own code: circuit id, remote id and, with VSS on, the selection and its control.
  lemma FirstRelayTable(cfg: RequestConfig, m: Message)
    requires m.giaddr == UNSPECIFIED_V4 && cfg.enableOption82 && !HasOption82(m)
    requires HasIdentifier(cfg)
    ensures AgentInfoOf(Sent(cfg, m)).Some?
    ensures var info := AgentInfoOf(Sent(cfg, m)).value;
            && WellFormed(info)
            && (1 in info <==> cfg.circuitId.Some?) && (1 in info ==> info[1] == AgentCircuitId(cfg.circuitId.value))
            && (2 in info <==> cfg.remoteId.Some?) && (2 in info ==> info[2] == AgentRemoteId(cfg.remoteId.value))
            && (VSS_SUBOPT_CODE in info <==> VssOn(cfg))
            && (VSS_SUBOPT_CODE in info ==>
                  info[VSS_SUBOPT_CODE] == Unknown(VSS_SUBOPT_CODE, [cfg.vss.value.vssType] + cfg.vss.value.vssInfo))
            && (VSS_CONTROL_SUBOPT_CODE in info <==> VssOn(cfg))
            && (VSS_CONTROL_SUBOPT_CODE in info ==>
                  info[VSS_CONTROL_SUBOPT_CODE] == Unknown(VSS_CONTROL_SUBOPT_CODE, []))
            && info.Keys <= {1, 2, VSS_SUBOPT_CODE, VSS_CONTROL_SUBOPT_CODE}
  {
    var m1 := Insert(m, cfg.circuitId, cfg.remoteId).value;
    InsertedTable(m, cfg.circuitId, cfg.remoteId);
    if VssOn(cfg) {
      VssTable(m1, cfg.vss.value);
    }
    assert AgentInfoOf(Sent(cfg, m)) == AgentInfoOf(WithVss(cfg, m1));
  }

  // The message carries agent information with exactly the VSS entries of this configuration.
  predicate HoldsVss(m: Message, cfg: VssConfig) {
    && AgentInfoOf(m).Some?
    && VSS_SUBOPT_CODE in AgentInfoOf(m).value && VSS_CONTROL_SUBOPT_CODE in AgentInfoOf(m).value
    && AgentInfoOf(m).value[VSS_SUBOPT_CODE] == Unknown(VSS_SUBOPT_CODE, [cfg.vssType] + cfg.vssInfo)
    && AgentInfoOf(m).value[VSS_CONTROL_SUBOPT_CODE] == Unknown(VSS_CONTROL_SUBOPT_CODE, [])
  }

  lemma AddVssUnchangedIff(m: Message, cfg: VssConfig)
    ensures AddVss(m, cfg) == m <==> AgentInfoOf(m).None? || HoldsVss(m, cfg)
    ensures AgentInfoOf(m).Some? ==> HoldsVss(AddVss(m, cfg), cfg)
  {
    if AgentInfoOf(m).Some? {
      VssTable(m, cfg);
      var info, info' := AgentInfoOf(m).value, AgentInfoOf(AddVss(m, cfg)).value;
      if HoldsVss(m, cfg) {
        assert info' == info;
        assert AddVss(m, cfg).opts == m.opts;
      }
    }
  }

  // Main result: a reforwarded packet is left equal exactly when VSS is off, or it carries no
  // agent information, or the information already holds these very VSS entries. Option 82 is
  // never added to it.
  lemma ReforwardedUnchangedIff(cfg: RequestConfig, m: Message)
    requires m.giaddr != UNSPECIFIED_V4
    ensures HasOption82(Sent(cfg, m)) <==> HasOption82(m)
    ensures Sent(cfg, m) == m <==> !VssOn(cfg) || AgentInfoOf(m).None? || HoldsVss(m, cfg.vss.value)
  {
    if VssOn(cfg) {
      AddVssUnchangedIff(m, cfg.vss.value);
    }
  }

  // ----- Chains of relays ------------------------------------------------------------------------

  datatype Node = Node(cfg: RequestConfig, trusted: bool)

  function Forwarded(node: Node, m: Message): Option<Message> {
    var (c, v) := RelayRequest(node.cfg, Wire(m), node.trusted);
    if v == Ok(true) && c.buffer.Wire? then Some(c.buffer.msg) else None
  }

  // The message after every relay of the chain forwarded it, if they all did.
  function Chain(nodes: seq<Node>, m: Message): Option<Message> {
    if nodes == [] then Some(m)
    else
      match Forwarded(nodes[0], m)
      case None => None
      case Some(m') => Chain(nodes[1..], m')
  }

  ghost predicate NoneOwns(nodes: seq<Node>, giaddr: Ipv4) {
    forall n :: n in nodes ==> giaddr !in n.cfg.localAddrs
  }

  ghost predicate AllUsable(nodes: seq<Node>) {
    forall n :: n in nodes ==> VssUsable(n.cfg)
  }

  // The VSS configuration of the last relay that has one switched on.
  function LastVss(nodes: seq<Node>): Option<VssConfig> {
    if nodes == [] then None
    else if VssOn(nodes[|nodes| - 1].cfg) then nodes[|nodes| - 1].cfg.vss
    else LastVss(nodes[..|nodes| - 1])
  }

  function Stamped(m: Message, vss: Option<VssConfig>): Message {
    if vss.Some? then AddVss(m, vss.value) else m
  }

  lemma {:induction false} ChainAppend(a: seq<Node>, b: seq<Node>, m: Message)
    ensures Chain(a + b, m) == if Chain(a, m).Some? then Chain(b, Chain(a, m).value) else None
    decreases |a|
  {
    if a == [] {
      assert a + b == b;
    } else {
      assert (a + b)[1..] == a[1..] + b;
      if Forwarded(a[0], m).Some? {
        ChainAppend(a[1..], b, Forwarded(a[0], m).value);
      }
    }
  }

  lemma ForwardedIs(node: Node, m: Message)
    ensures Forwarded(node, m) ==
              if IsSpoof(node.cfg, m) || IsUntrusted(m, node.trusted) || IsMisconfigured(node.cfg, m)
              then None else Some(Sent(node.cfg, m))
  {
    RequestOutcome(node.cfg, m, node.trusted);
  }

  lemma ChainOfOne(node: Node, m: Message)
    ensures Chain([node], m) == Forwarded(node, m)
  {
    assert [node][1..] == [];
  }

  lemma OverwriteTwice<K, V>(m: map<K, V>, k: K, l: K, a: V, b: V, c: V)
    requires k != l
    ensures m[k := a][l := c][k := b][l := c] == m[k := b][l := c]
  {
  }

  // A later VSS relay overwrites what an earlier one wrote.
  lemma StampTwice(m: Message, first: Option<VssConfig>, second: VssConfig)
    ensures AddVss(Stamped(m, first), second) == AddVss(m, second)
    ensures Stamped(m, first).giaddr == m.giaddr
  {
    if first.Some? && AgentInfoOf(m).Some? {
      var once := AddVss(m, first.value);
      VssTable(m, first.value);
      VssTable(once, second);
      VssTable(m, second);
      var info := AgentInfoOf(m).value;
      var a, b := [first.value.vssType] + first.value.vssInfo, [second.vssType] + second.vssInfo;
      OverwriteTwice(info, VSS_SUBOPT_CODE, VSS_CONTROL_SUBOPT_CODE, Unknown(VSS_SUBOPT_CODE, a),
                     Unknown(VSS_SUBOPT_CODE, b), Unknown(VSS_CONTROL_SUBOPT_CODE, []));
      assert AgentInfoOf(AddVss(once, second)) == AgentInfoOf(AddVss(m, second));
      assert AddVss(once, second).opts == AddVss(m, second).opts;
    }
  }

  // Main result: whatever the VSS settings, a packet that carries a giaddr passes a chain exactly
  // when no relay in it owns the giaddr and every VSS configuration is usable; it then differs by
  // the VSS entries of the last VSS relay at most.
  lemma {:induction false} ChainOfReforwarded(nodes: seq<Node>, m: Message)
    requires m.giaddr != UNSPECIFIED_V4
    ensures Chain(nodes, m) ==
              if NoneOwns(nodes, m.giaddr) && AllUsable(nodes) then Some(Stamped(m, LastVss(nodes))) else None
    ensures Stamped(m, LastVss(nodes)).giaddr == m.giaddr
    decreases |nodes|
  {
    if nodes != [] {
      var front, last := nodes[..|nodes| - 1], nodes[|nodes| - 1];
      assert nodes == front + [last];
      var vss := LastVss(front);
      ChainOfReforwarded(front, m);
      ChainAppend(front, [last], m);
      ChainOfOne(last, Stamped(m, vss));
      ForwardedIs(last, Stamped(m, vss));
      if VssOn(last.cfg) {
        StampTwice(m, vss, last.cfg.vss.value);
      }
    }
  }

  // The packet comes out equal exactly when no VSS relay changes it.
  lemma ChainLeavesEqualIff(nodes: seq<Node>, m: Message)
    requires m.giaddr != UNSPECIFIED_V4
    ensures Chain(nodes, m) == Some(m) <==>
              && NoneOwns(nodes, m.giaddr) && AllUsable(nodes)
              && (LastVss(nodes).None? || AgentInfoOf(m).None? || HoldsVss(m, LastVss(nodes).value))
  {
    ChainOfReforwarded(nodes, m);
    if LastVss(nodes).Some? {
      AddVssUnchangedIff(m, LastVss(nodes).value);
    }
  }

  // With VSS off on every relay there is nothing to stamp.
  lemma {:induction false} VssOffStampsNothing(nodes: seq<Node>)
    ensures LastVss(nodes).None? <==> forall n :: n in nodes ==> !VssOn(n.cfg)
    ensures LastVss(nodes).None? ==> AllUsable(nodes)
    decreases |nodes|
  {
    if nodes != [] {
      var front, last := nodes[..|nodes| - 1], nodes[|nodes| - 1];
      assert nodes == front + [last];
      VssOffStampsNothing(front);
    }
  }

  // What a stamp may touch: the two VSS entries of existing agent information.
  lemma StampTouchesOnly(m: Message, vss: Option<VssConfig>)
    ensures var s := Stamped(m, vss);
            && s.giaddr == m.giaddr && s.ciaddr == m.ciaddr && s.rest == m.rest
            && s.opts.Keys == m.opts.Keys
            && s.opts - {OPTION_RELAY_AGENT} == m.opts - {OPTION_RELAY_AGENT}
            && (AgentInfoOf(s).Some? <==> AgentInfoOf(m).Some?)
            && (AgentInfoOf(m).Some? ==>
                  AgentInfoOf(s).value - {VSS_SUBOPT_CODE, VSS_CONTROL_SUBOPT_CODE}
                  == AgentInfoOf(m).value - {VSS_SUBOPT_CODE, VSS_CONTROL_SUBOPT_CODE})
  {
    if vss.Some? && AgentInfoOf(m).Some? {
      VssTable(m, vss.value);
    }
  }

  // Main result: the first relay sets giaddr and Option 82, once; of the later ones only the last
  // VSS relay leaves a trace, its VSS entries.
  lemma FirstRelayMarksOnce(first: Node, later: seq<Node>, m: Message)
    requires m.giaddr == UNSPECIFIED_V4 && first.cfg.ifaceIp != UNSPECIFIED_V4
    ensures Chain([first] + later, m) ==
              if !IsUntrusted(m, first.trusted) && !IsMisconfigured(first.cfg, m)
                 && NoneOwns(later, first.cfg.ifaceIp) && AllUsable(later)
              then Some(Stamped(Sent(first.cfg, m), LastVss(later))) else None
    ensures Stamped(Sent(first.cfg, m), LastVss(later)).giaddr == first.cfg.ifaceIp
  {
    ForwardedIs(first, m);
    SentTouchesOnly(first.cfg, m);
    assert ([first] + later)[1..] == later;
    ChainOfReforwarded(later, Sent(first.cfg, m));
  }

  // With VSS off on the later relays the message leaves the chain as the first relay sent it.
  lemma FirstRelayAloneMarks(first: Node, later: seq<Node>, m: Message)
    requires m.giaddr == UNSPECIFIED_V4 && first.cfg.ifaceIp != UNSPECIFIED_V4
    requires forall n :: n in later ==> !VssOn(n.cfg)
    ensures Chain([first] + later, m) ==
              if !IsUntrusted(m, first.trusted) && !IsMisconfigured(first.cfg, m)
                 && NoneOwns(later, first.cfg.ifaceIp)
              then Some(Sent(first.cfg, m)) else None
  {
    FirstRelayMarksOnce(first, later, m);
    VssOffStampsNothing(later);
  }

  // Main result: a packet that gets back to a relay owning its giaddr is refused there as a
  // spoof, so no loop leads through the first relay again.
  lemma NoForwardingLoop(first: Node, between: seq<Node>, again: Node, m: Message)
    requires m.giaddr == UNSPECIFIED_V4
    requires first.cfg.ifaceIp != UNSPECIFIED_V4 && first.cfg.ifaceIp in again.cfg.localAddrs
    ensures Chain([first] + between, m).Some? ==>
              RelayRequest(again.cfg, Wire(Chain([first] + between, m).value), again.trusted).1
              == Err(GiaddrSpoof(first.cfg.ifaceIp))
    ensures Chain([first] + between + [again], m) == None
  {
    FirstRelayMarksOnce(first, between, m);
    ChainAppend([first] + between, [again], m);
    if Chain([first] + between, m).Some? {
      RequestOutcome(again.cfg, Chain([first] + between, m).value, again.trusted);
    }
  }

  function Rounds(loop: seq<Node>, n: nat): seq<Node> {
    if n == 0 then [] else loop + Rounds(loop, n - 1)
  }

  lemma {:induction false} NodesOfRounds(loop: seq<Node>, n: nat)
    ensures forall node :: node in Rounds(loop, n) <==> n > 0 && node in loop
  {
    if n > 0 {
      NodesOfRounds(loop, n - 1);
    }
  }

  lemma {:induction false} LastVssAppend(a: seq<Node>, b: seq<Node>)
    ensures LastVss(a + b) == if LastVss(b).Some? then LastVss(b) else LastVss(a)
    decreases |b|
  {
    if b == [] {
      assert a + b == a;
    } else {
      assert (a + b)[..|a + b| - 1] == a + b[..|b| - 1];
      LastVssAppend(a, b[..|b| - 1]);
    }
  }

  lemma {:induction false} LastVssOfRounds(loop: seq<Node>, n: nat)
    ensures LastVss(Rounds(loop, n)) == if n == 0 then None else LastVss(loop)
  {
    if n > 0 {
      LastVssOfRounds(loop, n - 1);
      LastVssAppend(loop, Rounds(loop, n - 1));
    }
  }

  lemma RoundsOfReforwarded(loop: seq<Node>, n: nat, m: Message)
    requires m.giaddr != UNSPECIFIED_V4
    ensures Chain(Rounds(loop, n), m) ==
              if n == 0 then Some(m)
              else if NoneOwns(loop, m.giaddr) && AllUsable(loop) then Some(Stamped(m, LastVss(loop)))
              else None
  {
    ChainOfReforwarded(Rounds(loop, n), m);
    NodesOfRounds(loop, n);
    LastVssOfRounds(loop, n);
  }

  // Main result: a loop among the later relays is another matter: nothing counts hops, so a packet
  // with a giaddr goes round any number of times exactly when none of them owns the giaddr and
  // their VSS configurations are usable; every round after the first leaves it equal.
  lemma LaterLoopIsEndlessIff(first: Node, loop: seq<Node>, m: Message)
    requires m.giaddr == UNSPECIFIED_V4 && first.cfg.ifaceIp != UNSPECIFIED_V4
    requires Forwarded(first, m).Some?
    ensures (forall n: nat :: Chain([first] + Rounds(loop, n), m).Some?)
            <==> NoneOwns(loop, first.cfg.ifaceIp) && AllUsable(loop)
    ensures forall n: nat :: n > 0 && Chain([first] + Rounds(loop, n), m).Some? ==>
              Chain([first] + Rounds(loop, n), m).value == Stamped(Sent(first.cfg, m), LastVss(loop))
  {
    ForwardedIs(first, m);
    SentTouchesOnly(first.cfg, m);
    forall n: nat
      ensures Chain([first] + Rounds(loop, n), m) ==
                if n == 0 then Some(Sent(first.cfg, m))
                else if NoneOwns(loop, first.cfg.ifaceIp) && AllUsable(loop)
                then Some(Stamped(Sent(first.cfg, m), LastVss(loop))) else None
    {
      assert ([first] + Rounds(loop, n))[1..] == Rounds(loop, n);
      RoundsOfReforwarded(loop, n, Sent(first.cfg, m));
    }
    assert Chain([first] + Rounds(loop, 1), m).Some? <==> NoneOwns(loop, first.cfg.ifaceIp) && AllUsable(loop);
  }

  // ----- Relays without an address of their own ------------------------------------------------------
  //
  // An interface bound to the wildcard, or to an IPv6 literal, hands 0.0.0.0 to the pipeline
  // (src/lib.rs:347-360): the relay leaves giaddr zero and the next one takes itself for the first.

  // When the next relay stops a packet that a relay forwarded without a giaddr of its own.
  lemma NextRelayStrandsIff(first: Node, next: Node, m: Message)
    requires m.giaddr == UNSPECIFIED_V4 && Forwarded(first, m).Some?
    ensures RelayRequest(next.cfg, Wire(Forwarded(first, m).value), next.trusted).1 == Ok(false) <==>
              && first.cfg.ifaceIp == UNSPECIFIED_V4 && !next.trusted
              && (first.cfg.enableOption82 || HasOption82(m))
  {
    ForwardedIs(first, m);
    SentTouchesOnly(first.cfg, m);
    RequestOutcome(next.cfg, Sent(first.cfg, m), next.trusted);
  }

  // Every relay but possibly the last is without an address.
  ghost predicate Unaddressed(nodes: seq<Node>) {
    forall i :: 0 <= i < |nodes| - 1 ==> nodes[i].cfg.ifaceIp == UNSPECIFIED_V4
  }

  // Whether the packet carries Option 82 when it gets to node i.
  ghost predicate MarkedAt(nodes: seq<Node>, i: nat, marked: bool) {
    marked || exists j :: 0 <= j < i && j < |nodes| && nodes[j].cfg.enableOption82
  }

  // A relay that sees a zero giaddr forwards a packet with Option 82 only when it is trusted and
  // inserts none; one that inserts needs an identifier.
  predicate Passes(node: Node, marked: bool) {
    && VssUsable(node.cfg)
    && (marked ==> node.trusted && !node.cfg.enableOption82)
    && (node.cfg.enableOption82 ==> HasIdentifier(node.cfg))
  }

  ghost predicate Passable(nodes: seq<Node>, marked: bool) {
    forall i :: 0 <= i < |nodes| ==> Passes(nodes[i], MarkedAt(nodes, i, marked))
  }

  lemma MarkedAtLater(nodes: seq<Node>, i: nat, marked: bool)
    requires nodes != []
    ensures MarkedAt(nodes, i + 1, marked) <==> MarkedAt(nodes[1..], i, marked || nodes[0].cfg.enableOption82)
    ensures MarkedAt(nodes, 0, marked) <==> marked
  {
    if j :| 0 <= j < i + 1 && j < |nodes| && nodes[j].cfg.enableOption82 {
      assert j > 0 ==> nodes[1..][j - 1] == nodes[j];
    }
    if j :| 0 <= j < i && j < |nodes[1..]| && nodes[1..][j].cfg.enableOption82 {
      assert nodes[1..][j] == nodes[j + 1];
    }
  }

  lemma PassableStep(nodes: seq<Node>, marked: bool)
    requires nodes != []
    ensures Passable(nodes, marked) <==>
              Passes(nodes[0], marked) && Passable(nodes[1..], marked || nodes[0].cfg.enableOption82)
  {
    var rest, marked' := nodes[1..], marked || nodes[0].cfg.enableOption82;
    MarkedAtLater(nodes, 0, marked);
    forall i | 0 <= i < |rest|
      ensures Passes(nodes[i + 1], MarkedAt(nodes, i + 1, marked)) == Passes(rest[i], MarkedAt(rest, i, marked'))
    {
      MarkedAtLater(nodes, i, marked);
    }
    if Passes(nodes[0], marked) && Passable(rest, marked') {
      forall i | 0 <= i < |nodes|
        ensures Passes(nodes[i], MarkedAt(nodes, i, marked))
      {
        assert i > 0 ==> Passes(rest[i - 1], MarkedAt(rest, i - 1, marked'));
      }
    }
    if Passable(nodes, marked) {
      assert Passes(nodes[0], MarkedAt(nodes, 0, marked));
    }
  }

  // Main result: which packets without a giaddr pass a chain of relays without an address, the
  // last of which may have one; giaddr is then that last relay's.
  lemma {:induction false} UnaddressedChainIff(nodes: seq<Node>, m: Message)
    requires m.giaddr == UNSPECIFIED_V4 && Unaddressed(nodes)
    ensures Chain(nodes, m).Some? <==> Passable(nodes, HasOption82(m))
    ensures Chain(nodes, m).Some? && nodes != [] ==>
              && Chain(nodes, m).value.giaddr == nodes[|nodes| - 1].cfg.ifaceIp
              && (HasOption82(Chain(nodes, m).value) <==> MarkedAt(nodes, |nodes|, HasOption82(m)))
    decreases |nodes|
  {
    if nodes != [] {
      var rest := nodes[1..];
      PassableStep(nodes, HasOption82(m));
      MarkedAtLater(nodes, |rest|, HasOption82(m));
      ForwardedIs(nodes[0], m);
      SentTouchesOnly(nodes[0].cfg, m);
      if rest != [] {
        assert Unaddressed(rest);
        if Forwarded(nodes[0], m).Some? {
          UnaddressedChainIff(rest, Sent(nodes[0].cfg, m));
        }
      }
    }
  }

  // Main result: any chain at all. It starts with relays without an address up to the first that
  // has one; that one's address is the giaddr the rest of the chain sees.
  lemma {:induction false} AnyChainIff(start: seq<Node>, later: seq<Node>, m: Message)
    requires m.giaddr == UNSPECIFIED_V4 && Unaddressed(start)
    requires start != [] && start[|start| - 1].cfg.ifaceIp != UNSPECIFIED_V4
    ensures var giaddr := start[|start| - 1].cfg.ifaceIp;
            && (Chain(start + later, m).Some? <==>
                  Passable(start, HasOption82(m)) && NoneOwns(later, giaddr) && AllUsable(later))
            && (Chain(start + later, m).Some? ==>
                  && Chain(start, m).Some?
                  && Chain(start + later, m).value == Stamped(Chain(start, m).value, LastVss(later))
                  && Chain(start + later, m).value.giaddr == giaddr)
  {
    UnaddressedChainIff(start, m);
    ChainAppend(start, later, m);
    if Chain(start, m).Some? {
      ChainOfReforwarded(later, Chain(start, m).value);
    }
  }

  // No chain touches more than giaddr and option 82.
  lemma {:induction false} ChainTouchesOnly(nodes: seq<Node>, m: Message)
    ensures Chain(nodes, m).Some? ==>
              var s := Chain(nodes, m).value;
              && (m.giaddr != UNSPECIFIED_V4 ==> s.giaddr == m.giaddr)
              && s.ciaddr == m.ciaddr && s.rest == m.rest
              && s.opts - {OPTION_RELAY_AGENT} == m.opts - {OPTION_RELAY_AGENT}
              && (HasOption82(m) ==> HasOption82(s))
    decreases |nodes|
  {
    if nodes != [] {
      ForwardedIs(nodes[0], m);
      SentTouchesOnly(nodes[0].cfg, m);
      if Forwarded(nodes[0], m).Some? {
        ChainTouchesOnly(nodes[1..], Sent(nodes[0].cfg, m));
      }
    }
  }

  // ----- Replies ---------------------------------------------------------------------------------

  function RelayReply(expected: Option<seq<SubOption>>, vss: Option<VssConfig>, enableOption82: bool,
                      data: Buffer): (Ctx, Verdict) {
    RunStages(ReplyStages(expected, vss, enableOption82), Received(data, false))
  }

  lemma VssCheckPasses(vss: Option<VssConfig>, c: Ctx)
    requires c.buffer.Wire?
    ensures RunStages(if vss.Some? then [VssCheckStage(vss.value)] else [], c) == (c, Ok(true))
  {
    if vss.Some? {
      RunOne(VssCheckStage(vss.value), c);
    }
  }

  // A decodable reply is refused only by the echo check; otherwise it goes to ciaddr or broadcast.
  lemma ReplyOutcome(expected: Option<seq<SubOption>>, vss: Option<VssConfig>, enableOption82: bool, m: Message)
    ensures var (c, v) := RelayReply(expected, vss, enableOption82, Wire(m));
            var checked := if enableOption82 then StripChecked(m, expected) else Ok(m);
            && (v == Ok(true) <==> checked.Ok?)
            && (v != Ok(true) ==> v == Err(Option82Mismatch))
            && (v == Ok(true) ==>
                  c.buffer == Wire(checked.value)
                  && c.dstAddr == Some(SocketAddr(V4(if m.ciaddr != UNSPECIFIED_V4 then m.ciaddr else BROADCAST_V4), 68)))
  {
    var c := Received(Wire(m), false);
    var check := if vss.Some? then [VssCheckStage(vss.value)] else [];
    var strip := if enableOption82 then [Option82StripStage(expected)] else [];
    var rest := check + (strip + [ReplyAddrStage]);
    assert ReplyStages(expected, vss, enableOption82) == [ParseStage] + rest;
    RunInPieces([ParseStage], rest, c);
    RunOne(ParseStage, c);
    RunInPieces(check, strip + [ReplyAddrStage], c);
    VssCheckPasses(vss, c);
    RunInPieces(strip, [ReplyAddrStage], c);
    if enableOption82 {
      RunOne(Option82StripStage(expected), c);
    }
    RunOne(ReplyAddrStage, RunStages(strip, c).0);
  }

  lemma EchoIsEquality(echoed: AgentInfo, sent: AgentInfo)
    requires WellFormed(echoed) && WellFormed(sent) && FLAGS_CODE !in sent
    ensures ValidateEcho(SubOpts(echoed), SubOpts(sent)) <==> echoed == sent
  {
    EchoDecidesEquality(echoed, sent);
    if SameExceptFlags(echoed, sent) {
      assert FLAGS_CODE !in sent.Keys;
      assert echoed == sent;
    }
  }

  // Main result: a first-relay packet goes out with a table, and the reply pipeline given that
  // table accepts a reply exactly when its own table is equal to it; the accepted reply loses
  // option 82 and nothing else.
  lemma RequestEchoReply(cfg: RequestConfig, m: Message, trusted: bool, reply: Message)
    requires m.giaddr == UNSPECIFIED_V4 && cfg.enableOption82 && !HasOption82(m)
    requires HasIdentifier(cfg) && VssUsable(cfg)
    requires AgentInfoOf(reply).Some? ==> WellFormed(AgentInfoOf(reply).value)
    ensures RelayRequest(cfg, Wire(m), trusted).1 == Ok(true)
    ensures RelayRequest(cfg, Wire(m), trusted).0.buffer == Wire(Sent(cfg, m)) && AgentInfoOf(Sent(cfg, m)).Some?
    ensures var sent := AgentInfoOf(Sent(cfg, m));
            var (c, v) := RelayReply(Some(SubOpts(sent.value)), cfg.vss, true, Wire(reply));
            && v == (if AgentInfoOf(reply) == sent then Ok(true) else Err(Option82Mismatch))
            && (v == Ok(true) ==>
                  && c.buffer == Wire(reply.(opts := reply.opts - {OPTION_RELAY_AGENT}))
                  && c.dstAddr == Some(SocketAddr(V4(if reply.ciaddr != UNSPECIFIED_V4 then reply.ciaddr else BROADCAST_V4), 68)))
  {
    RequestOutcome(cfg, m, trusted);
    FirstRelayTable(cfg, m);
    var sent := AgentInfoOf(Sent(cfg, m)).value;
    ReplyOutcome(Some(SubOpts(sent)), cfg.vss, true, reply);
    if AgentInfoOf(reply).Some? {
      assert FLAGS_CODE !in sent.Keys;
      EchoIsEquality(AgentInfoOf(reply).value, sent);
    }
  }

  lemma SameTableIff(m: Message, cfg: VssConfig)
    requires AgentInfoOf(m).Some?
    ensures AgentInfoOf(AddVss(m, cfg)) == AgentInfoOf(m) <==> HoldsVss(m, cfg)
    ensures WellFormed(AgentInfoOf(m).value) ==> WellFormed(AgentInfoOf(AddVss(m, cfg)).value)
  {
    VssTable(m, cfg);
    AddVssUnchangedIff(m, cfg);
    if HoldsVss(m, cfg) {
      assert AddVss(m, cfg) == m;
    }
  }

  // Main result: a server that echoes the table it received is accepted by the first relay, checking
  // against the table it sent, exactly when no later relay has VSS on or the last one that has
  // wrote the entries that were there.
  lemma ChainEchoAcceptedIff(first: Node, later: seq<Node>, m: Message, reply: Message)
    requires m.giaddr == UNSPECIFIED_V4 && first.cfg.ifaceIp != UNSPECIFIED_V4 && first.cfg.enableOption82
    requires Chain([first] + later, m).Some?
    requires AgentInfoOf(reply) == AgentInfoOf(Chain([first] + later, m).value)
    ensures AgentInfoOf(Sent(first.cfg, m)).Some?
    ensures var sent := AgentInfoOf(Sent(first.cfg, m)).value;
            RelayReply(Some(SubOpts(sent)), first.cfg.vss, true, Wire(reply)).1 == Ok(true) <==>
              LastVss(later).None? || HoldsVss(Sent(first.cfg, m), LastVss(later).value)
  {
    var sent := Sent(first.cfg, m);
    FirstRelayMarksOnce(first, later, m);
    FirstRelayTable(first.cfg, m);
    if LastVss(later).Some? {
      SameTableIff(sent, LastVss(later).value);
    }
    RequestEchoReply(first.cfg, m, first.trusted, reply);
  }

  // The task loop takes the expected sub-options from the packet it is about to check.
  function LiveReply(vss: Option<VssConfig>, enableOption82: bool, m: Message): (Ctx, Verdict) {
    var expected := if AgentInfoOf(m).Some? then Some(SubOpts(AgentInfoOf(m).value)) else None;
    RelayReply(expected, vss, enableOption82, Wire(m))
  }

  // Main result: as the task loop drives it, the echo check never refuses anything, whatever the
  // server sent back.
  lemma LiveReplyNeverRefuses(vss: Option<VssConfig>, enableOption82: bool, m: Message)
    ensures var (c, v) := LiveReply(vss, enableOption82, m);
            && v == Ok(true)
            && c.buffer == Wire(if enableOption82 then m.(opts := m.opts - {OPTION_RELAY_AGENT}) else m)
            && c.dstAddr == Some(SocketAddr(V4(if m.ciaddr != UNSPECIFIED_V4 then m.ciaddr else BROADCAST_V4), 68))
  {
    var expected := if AgentInfoOf(m).Some? then Some(SubOpts(AgentInfoOf(m).value)) else None;
    ReplyOutcome(expected, vss, enableOption82, m);
  }
}
