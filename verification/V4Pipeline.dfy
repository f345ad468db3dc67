// The pipeline engine and the DHCPv4 stages (src/pipeline.rs, src/dhcp/v4/pipeline.rs).
module V4Pipeline {
  import opened Bytes
  import opened V4Message
  import opened Vss

  datatype SocketAddr = SocketAddr(ip: IpAddr, port: nat)

  const BROADCAST_V4: Ipv4 := [255, 255, 255, 255]
  const CLIENT_PORT: nat := 68

  // The trait objects of the source are closed over here as one datatype.
  datatype Stage =
    | ParseStage
    | ValidateStage(localAddrs: seq<Ipv4>)
    | Option82InsertStage(circuitId: Option<seq<byte>>, remoteId: Option<seq<byte>>)
    | Option82StripStage(expectedSubOpts: Option<seq<SubOption>>)
    | GiaddrStage(ifaceIp: Ipv4)
    | ForwardStage(dest: SocketAddr)
    | ReplyAddrStage
    | VssInsertStage(vssInsert: VssConfig)
    | VssCheckStage(vssCheck: VssConfig)

  // The fields of a context that stages read or write.
  datatype Ctx = Ctx(buffer: Buffer, dstAddr: Option<SocketAddr>, isReforwarded: bool,
                     isTrustedCircuit: bool, metadata: map<string, string>)

  type Verdict = Result<bool, RelayError>

  // ----- What each stage does to a message -----------------------------------------------------

  function StripChecked(m: Message, expected: Option<seq<SubOption>>): Result<Message, RelayError> {
    if expected.Some? then
      match AgentInfoOf(m)
      case None => Err(Option82Mismatch)
      case Some(info) =>
        if ValidateEcho(SubOpts(info), expected.value) then Ok(Strip(m).0) else Err(Option82Mismatch)
    else Ok(Strip(m).0)
  }

  // The VSS payload is the encoded sub-option without its code and length octets.
  function AddVss(m: Message, cfg: VssConfig): Message {
    match AgentInfoOf(m)
    case None => m
    case Some(info) =>
      var info1 := InsertInfo(info, Unknown(VSS_SUBOPT_CODE, VssBytes(cfg)[2..]));
      var info2 := InsertInfo(info1, Unknown(VSS_CONTROL_SUBOPT_CODE, []));
      m.(opts := m.opts[OPTION_RELAY_AGENT := RelayAgentInformation(info2)])
  }

  function SetGiaddr(m: Message, ifaceIp: Ipv4): Message {
    if m.giaddr == UNSPECIFIED_V4 then m.(giaddr := ifaceIp) else m
  }

  function ClientAddr(m: Message): SocketAddr {
    SocketAddr(V4(if m.ciaddr != UNSPECIFIED_V4 then m.ciaddr else BROADCAST_V4), CLIENT_PORT)
  }

  // ----- Stages as functions on contexts ----------------------------------------------------------

  function Modify(c: Ctx, f: Message -> Result<Message, RelayError>): (Ctx, Result<(), RelayError>) {
    if c.buffer.Garbage? then (c, Err(Parse))
    else
      match f(c.buffer.msg)
      case Err(e) => (c, Err(e))
      case Ok(m) => (c.(buffer := Wire(m)), Ok(()))
  }

  function Carry(x: (Ctx, Result<(), RelayError>)): (Ctx, Verdict) {
    match x.1
    case Err(e) => (x.0, Err(e))
    case Ok(_) => (x.0, Ok(true))
  }

  function Mark(x: (Ctx, Verdict), key: string): (Ctx, Verdict) {
    if x.1 == Ok(true) then (x.0.(metadata := x.0.metadata[key := "true"]), x.1) else x
  }

  function Apply(s: Stage, c: Ctx): (Ctx, Verdict) {
    match s
    case ParseStage => Carry(Modify(c, m => Ok(m)))
    case ValidateStage(localAddrs) =>
      if c.buffer.Garbage? then (c, Err(Parse))
      else (match ValidateGiaddr(c.buffer.msg, localAddrs, c.isTrustedCircuit)
            case FirstRelay => (c, Ok(true))
            case TrustedCircuit => (c, Ok(true))
            case Reforwarded => (c.(isReforwarded := true), Ok(true))
            case UntrustedCircuit => (c, Ok(false))
            case Spoof => (c, Err(GiaddrSpoof(c.buffer.msg.giaddr))))
    case Option82InsertStage(circuitId, remoteId) =>
      if c.isReforwarded then (c, Ok(true))
      else Mark(Carry(Modify(c, m => Insert(m, circuitId, remoteId))), "option82_inserted")
    case Option82StripStage(expected) => Carry(Modify(c, m => StripChecked(m, expected)))
    case GiaddrStage(ifaceIp) =>
      if c.isReforwarded then (c, Ok(true))
      else Carry(Modify(c, m => Ok(SetGiaddr(m, ifaceIp))))
    case ForwardStage(dest) => (c.(dstAddr := Some(dest)), Ok(true))
    case ReplyAddrStage =>
      if c.buffer.Garbage? then (c, Err(Parse))
      else (c.(dstAddr := Some(ClientAddr(c.buffer.msg))), Ok(true))
    case VssInsertStage(cfg) =>
      if !cfg.enabled then (c, Ok(true))
      else if !ValidVss(cfg) then (c, Err(Config))
      else Mark(Carry(Modify(c, m => Ok(AddVss(m, cfg)))), "vss_inserted")
    case VssCheckStage(cfg) =>
      if cfg.enabled && c.buffer.Garbage? then (c, Err(Parse)) else (c, Ok(true))
  }

  function RunStages(stages: seq<Stage>, c: Ctx): (Ctx, Verdict) {
    if stages == [] then (c, Ok(true))
    else
      var (c', v) := Apply(stages[0], c);
      if v == Ok(true) then RunStages(stages[1..], c') else (c', v)
  }

  // An edit goes into the buffer whole or not at all, and touches nothing else.
  lemma ModifyAllOrNothing(c: Ctx, f: Message -> Result<Message, RelayError>)
    ensures var (c', r) := Modify(c, f);
            && (r.Ok? <==> c.buffer.Wire? && f(c.buffer.msg).Ok?)
            && (r.Ok? ==> c' == c.(buffer := Wire(f(c.buffer.msg).value)))
            && (r.Err? ==> c' == c && r.error == if c.buffer.Wire? then f(c.buffer.msg).error else Parse)
  {
  }

  // Main result: a stage that halts or errs leaves the context as it found it; one that continues
  // changes the destination, the reforwarded mark and the notes only if that is its work.
  lemma StageFrame(s: Stage, c: Ctx)
    ensures var (c', v) := Apply(s, c);
            && (v != Ok(true) ==> c' == c)
            && c'.isTrustedCircuit == c.isTrustedCircuit
            && (c'.buffer != c.buffer ==>
                  s.Option82InsertStage? || s.Option82StripStage? || s.GiaddrStage? || s.VssInsertStage?)
            && (c'.dstAddr != c.dstAddr ==> s.ForwardStage? || s.ReplyAddrStage?)
            && (c'.isReforwarded != c.isReforwarded ==> s.ValidateStage? && c'.isReforwarded)
            && (c'.metadata != c.metadata ==> s.Option82InsertStage? || s.VssInsertStage?)
            && (c.isReforwarded && (s.Option82InsertStage? || s.GiaddrStage?) ==> c' == c && v == Ok(true))
  {
  }

  // ----- The imperative engine, proved against them ------------------------------------------------

  class PipelineContext {
    const rawIn: Buffer
    var buffer: Buffer
    const srcAddr: SocketAddr
    const iface: string
    var dstAddr: Option<SocketAddr>
    var isReforwarded: bool
    var isTrustedCircuit: bool
    var metadata: map<string, string>

    function View(): Ctx
      reads this
    {
      Ctx(buffer, dstAddr, isReforwarded, isTrustedCircuit, metadata)
    }

    constructor (rawIn: Buffer, srcAddr: SocketAddr, iface: string)
      ensures this.rawIn == rawIn && this.srcAddr == srcAddr && this.iface == iface
      ensures View() == Received(rawIn, false)
      ensures buffer == rawIn && dstAddr == None && !isReforwarded && !isTrustedCircuit && metadata == map[]
    {
      this.rawIn := rawIn;
      this.buffer := rawIn;
      this.srcAddr := srcAddr;
      this.iface := iface;
      this.dstAddr := None;
      this.isReforwarded := false;
      this.isTrustedCircuit := false;
      this.metadata := map[];
    }

    method ModifyV4(f: Message -> Result<Message, RelayError>) returns (r: Result<(), RelayError>)
      modifies this`buffer
      ensures (View(), r) == Modify(old(View()), f)
    {
      if buffer.Garbage? {
        return Err(Parse);
      }
      var edited := f(buffer.msg);
      if edited.Err? {
        return Err(edited.error);
      }
      buffer := Wire(edited.value);
      return Ok(());
    }

    method Process(s: Stage) returns (v: Verdict)
      modifies this
      ensures (View(), v) == Apply(s, old(View()))
    {
      v := Ok(true);
      match s {
        case ParseStage =>
          var r := ModifyV4(m => Ok(m));
          if r.Err? {
            return Err(r.error);
          }
        case ValidateStage(localAddrs) =>
          if buffer.Garbage? {
            return Err(Parse);
          }
          match ValidateGiaddr(buffer.msg, localAddrs, isTrustedCircuit) {
            case FirstRelay =>
            case TrustedCircuit =>
            case Reforwarded => isReforwarded := true;
            case UntrustedCircuit => return Ok(false);
            case Spoof => return Err(GiaddrSpoof(buffer.msg.giaddr));
          }
        case Option82InsertStage(circuitId, remoteId) =>
          if !isReforwarded {
            var r := ModifyV4(m => Insert(m, circuitId, remoteId));
            if r.Err? {
              return Err(r.error);
            }
            metadata := metadata["option82_inserted" := "true"];
          }
        case Option82StripStage(expected) =>
          var r := ModifyV4(m => StripChecked(m, expected));
          if r.Err? {
            return Err(r.error);
          }
        case GiaddrStage(ifaceIp) =>
          if !isReforwarded {
            var r := ModifyV4(m => Ok(SetGiaddr(m, ifaceIp)));
            if r.Err? {
              return Err(r.error);
            }
          }
        case ForwardStage(dest) =>
          dstAddr := Some(dest);
        case ReplyAddrStage =>
          if buffer.Garbage? {
            return Err(Parse);
          }
          dstAddr := Some(ClientAddr(buffer.msg));
        case VssInsertStage(cfg) =>
          if cfg.enabled {
            var encoded := EncodeSubOpts(cfg);
            if encoded.None? {
              return Err(Config);
            }
            var r := ModifyV4(m => Ok(AddVss(m, cfg)));
            if r.Err? {
              return Err(r.error);
            }
            metadata := metadata["vss_inserted" := "true"];
          }
        case VssCheckStage(cfg) =>
          if cfg.enabled && buffer.Garbage? {
            return Err(Parse);
          }
      }
    }
  }

  // A context as it stands when a packet comes in.
  function Received(data: Buffer, trusted: bool): Ctx {
    Ctx(data, None, false, trusted, map[])
  }

  class Pipeline {
    var stages: seq<Stage>

    constructor (stages: seq<Stage>)
      ensures this.stages == stages
    {
      this.stages := stages;
    }

    method AddStage(s: Stage)
      modifies this`stages
      ensures stages == old(stages) + [s]
    {
      stages := stages + [s];
    }

    method Execute(ctx: PipelineContext) returns (v: Verdict)
      modifies ctx
      ensures (ctx.View(), v) == RunStages(stages, old(ctx.View()))
    {
      var i := 0;
      while i < |stages|
        invariant i <= |stages|
        invariant RunStages(stages, old(ctx.View())) == RunStages(stages[i..], ctx.View())
      {
        v := ctx.Process(stages[i]);
        assert stages[i..][1..] == stages[i + 1..];
        if v != Ok(true) {
          return;
        }
        i := i + 1;
      }
      return Ok(true);
    }
  }

  // ----- The two builders ---------------------------------------------------------------------------

  datatype RequestConfig = RequestConfig(
    localAddrs: seq<Ipv4>, circuitId: Option<seq<byte>>, remoteId: Option<seq<byte>>, ifaceIp: Ipv4,
    serverAddr: SocketAddr, vss: Option<VssConfig>, enableOption82: bool)

  function RequestStages(cfg: RequestConfig): seq<Stage> {
    [ParseStage, ValidateStage(cfg.localAddrs)]
    + (if cfg.enableOption82 then [Option82InsertStage(cfg.circuitId, cfg.remoteId)] else [])
    + (if cfg.vss.Some? then [VssInsertStage(cfg.vss.value)] else [])
    + [GiaddrStage(cfg.ifaceIp), ForwardStage(cfg.serverAddr)]
  }

  method BuildRequest(cfg: RequestConfig) returns (p: Pipeline)
    ensures fresh(p) && p.stages == RequestStages(cfg)
  {
    p := new Pipeline([ParseStage, ValidateStage(cfg.localAddrs)]);
    if cfg.enableOption82 {
      p.AddStage(Option82InsertStage(cfg.circuitId, cfg.remoteId));
    }
    if cfg.vss.Some? {
      p.AddStage(VssInsertStage(cfg.vss.value));
    }
    p.AddStage(GiaddrStage(cfg.ifaceIp));
    p.AddStage(ForwardStage(cfg.serverAddr));
  }

  function ReplyStages(expected: Option<seq<SubOption>>, vss: Option<VssConfig>, enableOption82: bool): seq<Stage> {
    [ParseStage]
    + (if vss.Some? then [VssCheckStage(vss.value)] else [])
    + (if enableOption82 then [Option82StripStage(expected)] else [])
    + [ReplyAddrStage]
  }

  method BuildReply(expected: Option<seq<SubOption>>, vss: Option<VssConfig>, enableOption82: bool) returns (p: Pipeline)
    ensures fresh(p) && p.stages == ReplyStages(expected, vss, enableOption82)
  {
    p := new Pipeline([ParseStage]);
    if vss.Some? {
      p.AddStage(VssCheckStage(vss.value));
    }
    if enableOption82 {
      p.AddStage(Option82StripStage(expected));
    }
    p.AddStage(ReplyAddrStage);
  }

  // ----- Running stages in pieces -----------------------------------------------------------------

  // The rest of a pipeline runs only while every stage so far said to continue.
  function Then(x: (Ctx, Verdict), stages: seq<Stage>): (Ctx, Verdict) {
    if x.1 == Ok(true) then RunStages(stages, x.0) else x
  }

  lemma {:induction false} RunInPieces(a: seq<Stage>, b: seq<Stage>, c: Ctx)
    ensures RunStages(a + b, c) == Then(RunStages(a, c), b)
    decreases |a|
  {
    if a == [] {
      assert a + b == b;
    } else {
      assert (a + b)[1..] == a[1..] + b;
      RunInPieces(a[1..], b, Apply(a[0], c).0);
    }
  }

  lemma RunOne(s: Stage, c: Ctx)
    ensures RunStages([s], c) == Apply(s, c)
  {
    assert [s][1..] == [];
  }
}
