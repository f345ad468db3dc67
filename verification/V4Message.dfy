// DHCPv4 messages as the relay sees them, Relay Agent Information (Option 82) and the giaddr rules
// (src/dhcp/v4/option82.rs, src/dhcp/v4/giaddr.rs), RFC 3046.
//
// The wire encoding belongs to a library that is not part of this model: a buffer is either
// undecodable or one message, options are a map by code, and the agent information is a map by
// sub-option code that is iterated in ascending order.
module V4Message {
  import opened Bytes

  const OPTION_MESSAGE_TYPE: byte := 53
  const OPTION_RELAY_AGENT: byte := 82
  const FLAGS_CODE: byte := 10

  datatype Kind = Discover | Offer | Request | Decline | Ack | Nak | Release | Inform | OtherKind(n: byte)

  // A u32 is kept as its four big-endian octets.
  type U32 = s: seq<byte> | |s| == 4 witness [0, 0, 0, 0]

  datatype RelayInfo =
    | AgentCircuitId(data: seq<byte>)
    | AgentRemoteId(data: seq<byte>)
    | DocsisDeviceClass(deviceClass: U32)
    | LinkSelection(addr: Ipv4)
    | SubscriberId(data: seq<byte>)
    | RelayAgentFlags(flags: byte)
    | ServerIdentifierOverride(addr: Ipv4)
    | Unknown(code: byte, data: seq<byte>)

  type AgentInfo = map<byte, RelayInfo>

  datatype DhcpOption =
    | RelayAgentInformation(info: AgentInfo)
    | MessageType(kind: Kind)
    | Other(data: seq<byte>)

  // rest stands for every fixed field the relay neither reads nor writes.
  datatype Message = Message(giaddr: Ipv4, ciaddr: Ipv4, rest: seq<byte>, opts: map<byte, DhcpOption>)

  datatype Buffer = Garbage | Wire(msg: Message)

  datatype RelayError = Parse | GiaddrSpoof(addr: Ipv4) | Option82Mismatch | Config

  // The agent information of a message, when option 82 is there and is one.
  function AgentInfoOf(m: Message): Option<AgentInfo> {
    if OPTION_RELAY_AGENT in m.opts && m.opts[OPTION_RELAY_AGENT].RelayAgentInformation?
    then Some(m.opts[OPTION_RELAY_AGENT].info) else None
  }

  // ----- Sub-options ------------------------------------------------------------------------

  datatype SubOption = SubOption(code: byte, data: seq<byte>)

  function InfoCode(ri: RelayInfo): byte {
    match ri
    case AgentCircuitId(_) => 1
    case AgentRemoteId(_) => 2
    case DocsisDeviceClass(_) => 4
    case LinkSelection(_) => 5
    case SubscriberId(_) => 6
    case RelayAgentFlags(_) => 10
    case ServerIdentifierOverride(_) => 11
    case Unknown(code, _) => code
  }

  // The flags of code 10 are replaced by a zero octet.
  function RelayInfoToSubOpt(ri: RelayInfo): SubOption {
    match ri
    case AgentCircuitId(data) => SubOption(1, data)
    case AgentRemoteId(data) => SubOption(2, data)
    case DocsisDeviceClass(d) => SubOption(4, d)
    case LinkSelection(addr) => SubOption(5, addr)
    case SubscriberId(data) => SubOption(6, data)
    case RelayAgentFlags(_) => SubOption(10, [0])
    case ServerIdentifierOverride(addr) => SubOption(11, addr)
    case Unknown(code, data) => SubOption(code, data)
  }

  // The codes of the sub-options (RFC 3046 section 2.0 and its extensions), and what converts to
  // their contents: everything as it stands but the flags.
  lemma ConvertedSubOption(ri: RelayInfo)
    ensures RelayInfoToSubOpt(ri).code == InfoCode(ri)
    ensures ri.AgentCircuitId? ==> InfoCode(ri) == 1
    ensures ri.AgentRemoteId? ==> InfoCode(ri) == 2
    ensures ri.DocsisDeviceClass? ==> InfoCode(ri) == 4 && RelayInfoToSubOpt(ri).data == ri.deviceClass
    ensures ri.LinkSelection? ==> InfoCode(ri) == 5
    ensures ri.SubscriberId? ==> InfoCode(ri) == 6
    ensures ri.RelayAgentFlags? ==> InfoCode(ri) == 10 && RelayInfoToSubOpt(ri).data == [0]
    ensures ri.ServerIdentifierOverride? ==> InfoCode(ri) == 11
    ensures ri.LinkSelection? || ri.ServerIdentifierOverride? ==> RelayInfoToSubOpt(ri).data == ri.addr
    ensures ri.AgentCircuitId? || ri.AgentRemoteId? || ri.SubscriberId? || ri.Unknown? ==>
              RelayInfoToSubOpt(ri).data == ri.data
  {
  }

  function SubOptsFrom(info: AgentInfo, c: nat): seq<SubOption>
    requires c <= 256
    decreases 256 - c
  {
    if c == 256 then []
    else (if c in info then [RelayInfoToSubOpt(info[c])] else []) + SubOptsFrom(info, c + 1)
  }

  // info.iter().map(relay_info_to_sub_opt).collect()
  function SubOpts(info: AgentInfo): seq<SubOption> {
    SubOptsFrom(info, 0)
  }

  predicate ValidateEcho(received: seq<SubOption>, sent: seq<SubOption>) {
    && |received| == |sent|
    && forall i :: 0 <= i < |received| ==> received[i].code == sent[i].code && received[i].data == sent[i].data
  }

  // Entries sit under their own code, and the known codes hold their own variants.
  ghost predicate WellFormed(info: AgentInfo) {
    forall c :: c in info ==>
      InfoCode(info[c]) == c && (info[c].Unknown? ==> c !in {1, 2, 4, 5, 6, FLAGS_CODE, 11})
  }

  ghost predicate SameExceptFlags(a: AgentInfo, b: AgentInfo) {
    a.Keys == b.Keys && forall c :: c in a && c != FLAGS_CODE ==> a[c] == b[c]
  }

  lemma SubOptsAscend(info: AgentInfo, c: nat)
    requires c <= 256 && WellFormed(info)
    ensures forall i :: 0 <= i < |SubOptsFrom(info, c)| ==> SubOptsFrom(info, c)[i].code >= c
    decreases 256 - c
  {
    if c < 256 {
      SubOptsAscend(info, c + 1);
    }
  }

  lemma SubOptDecides(a: RelayInfo, b: RelayInfo)
    requires InfoCode(a) == InfoCode(b)
    requires a.Unknown? || b.Unknown? ==> InfoCode(a) !in {1, 2, 4, 5, 6, FLAGS_CODE, 11}
    ensures RelayInfoToSubOpt(a) == RelayInfoToSubOpt(b) <==> a == b || InfoCode(a) == FLAGS_CODE
  {
  }

  ghost predicate AgreeAt(a: AgentInfo, b: AgentInfo, d: nat)
    requires d < 256
  {
    (d in a <==> d in b) && (d in a && d != FLAGS_CODE ==> a[d] == b[d])
  }

  ghost predicate AgreeFrom(a: AgentInfo, b: AgentInfo, c: nat) {
    forall d: nat :: c <= d < 256 ==> AgreeAt(a, b, d)
  }

  lemma ConsEqual<T>(p: T, x: seq<T>, q: T, y: seq<T>)
    ensures [p] + x == [q] + y <==> p == q && x == y
  {
    assert ([p] + x)[0] == p && ([q] + y)[0] == q;
    Seam([p], x);
    Seam([q], y);
  }

  // A list that starts with code c is not a list of larger codes.
  lemma HeadTellsApart(p: SubOption, x: seq<SubOption>, y: seq<SubOption>)
    requires forall i :: 0 <= i < |y| ==> y[i].code > p.code
    ensures [p] + x != y
  {
    assert ([p] + x)[0] == p;
  }

  lemma SubOptsDecideAt(a: AgentInfo, b: AgentInfo, c: nat)
    requires c < 256 && WellFormed(a) && WellFormed(b)
    ensures SubOptsFrom(a, c) == SubOptsFrom(b, c)
            <==> AgreeAt(a, b, c) && SubOptsFrom(a, c + 1) == SubOptsFrom(b, c + 1)
  {
    var x, y := SubOptsFrom(a, c + 1), SubOptsFrom(b, c + 1);
    if c in a && c in b {
      SubOptDecides(a[c], b[c]);
      ConsEqual(RelayInfoToSubOpt(a[c]), x, RelayInfoToSubOpt(b[c]), y);
    } else if c in a {
      SubOptsAscend(b, c + 1);
      HeadTellsApart(RelayInfoToSubOpt(a[c]), x, y);
      assert [] + y == y;
    } else if c in b {
      SubOptsAscend(a, c + 1);
      HeadTellsApart(RelayInfoToSubOpt(b[c]), y, x);
      assert [] + x == x;
    } else {
      assert [] + x == x && [] + y == y;
    }
  }

  lemma AgreeFromStep(a: AgentInfo, b: AgentInfo, c: nat)
    requires c < 256
    ensures AgreeFrom(a, b, c) <==> AgreeAt(a, b, c) && AgreeFrom(a, b, c + 1)
  {
    if AgreeAt(a, b, c) && AgreeFrom(a, b, c + 1) {
      forall d: nat | c <= d < 256
        ensures AgreeAt(a, b, d)
      {
        assert d == c || c + 1 <= d;
      }
    }
  }

  lemma {:induction false} SubOptsDecideFrom(a: AgentInfo, b: AgentInfo, c: nat)
    requires c <= 256 && WellFormed(a) && WellFormed(b)
    ensures SubOptsFrom(a, c) == SubOptsFrom(b, c) <==> AgreeFrom(a, b, c)
    decreases 256 - c
  {
    if c < 256 {
      SubOptsDecideAt(a, b, c);
      AgreeFromStep(a, b, c);
      SubOptsDecideFrom(a, b, c + 1);
    }
  }

  // Main result: comparing the converted lists decides equality of the tables, except for what
  // code 10 holds.
  lemma EchoDecidesEquality(a: AgentInfo, b: AgentInfo)
    requires WellFormed(a) && WellFormed(b)
    ensures ValidateEcho(SubOpts(a), SubOpts(b)) <==> SameExceptFlags(a, b)
  {
    SubOptsDecideFrom(a, b, 0);
    var x, y := SubOpts(a), SubOpts(b);
    if ValidateEcho(x, y) {
      assert x == y;
    }
    if SameExceptFlags(a, b) {
      forall d: nat | d < 256
        ensures AgreeAt(a, b, d)
      {
        assert d in a.Keys <==> d in b.Keys;
      }
    }
    if AgreeFrom(a, b, 0) {
      forall d: byte
        ensures d in a.Keys <==> d in b.Keys
        ensures d in a && d != FLAGS_CODE ==> a[d] == b[d]
      {
        assert AgreeAt(a, b, d);
      }
    }
  }

  // ----- Insert and strip ----------------------------------------------------------------------

  function InsertInfo(info: AgentInfo, ri: RelayInfo): AgentInfo {
    info[InfoCode(ri) := ri]
  }

  function Insert(m: Message, circuitId: Option<seq<byte>>, remoteId: Option<seq<byte>>): Result<Message, RelayError> {
    if circuitId.None? && remoteId.None? then Err(Config)
    else if OPTION_RELAY_AGENT in m.opts then Err(Config)
    else
      var info0: AgentInfo := map[];
      var info1 := if circuitId.Some? then InsertInfo(info0, AgentCircuitId(circuitId.value)) else info0;
      var info2 := if remoteId.Some? then InsertInfo(info1, AgentRemoteId(remoteId.value)) else info1;
      Ok(m.(opts := m.opts[OPTION_RELAY_AGENT := RelayAgentInformation(info2)]))
  }

  function Strip(m: Message): (Message, Option<seq<SubOption>>) {
    (m.(opts := m.opts - {OPTION_RELAY_AGENT}),
     if AgentInfoOf(m).Some? then Some(SubOpts(AgentInfoOf(m).value)) else None)
  }

  // Stripping undoes insertion and hands back exactly the identifiers that went in, in order.
  lemma StripUndoesInsert(m: Message, circuitId: Option<seq<byte>>, remoteId: Option<seq<byte>>)
    requires Insert(m, circuitId, remoteId).Ok?
    ensures Strip(Insert(m, circuitId, remoteId).value) ==
              (m, Some((if circuitId.Some? then [SubOption(1, circuitId.value)] else [])
                       + (if remoteId.Some? then [SubOption(2, remoteId.value)] else [])))
    ensures Strip(m) == (m, None)
  {
    var m' := Insert(m, circuitId, remoteId).value;
    assert m'.opts - {OPTION_RELAY_AGENT} == m.opts;
    assert m.opts - {OPTION_RELAY_AGENT} == m.opts;
    var info := AgentInfoOf(m').value;
    SubOptsBeyond(info, 3);
    var one := if circuitId.Some? then [SubOption(1, circuitId.value)] else [];
    var two := if remoteId.Some? then [SubOption(2, remoteId.value)] else [];
    assert SubOptsFrom(info, 2) == two + [];
    assert SubOptsFrom(info, 1) == one + SubOptsFrom(info, 2);
    assert SubOptsFrom(info, 0) == [] + SubOptsFrom(info, 1);
    assert SubOpts(info) == one + two;
  }

  lemma {:induction false} SubOptsBeyond(info: AgentInfo, c: nat)
    requires c <= 256 && forall d :: d in info ==> d < c
    ensures SubOptsFrom(info, c) == []
    decreases 256 - c
  {
    if c < 256 {
      SubOptsBeyond(info, c + 1);
    }
  }

  // ----- giaddr ----------------------------------------------------------------------------------

  datatype GiaddrDecision = FirstRelay | TrustedCircuit | UntrustedCircuit | Spoof | Reforwarded

  function ValidateGiaddr(m: Message, localAddrs: seq<Ipv4>, isTrustedCircuit: bool): GiaddrDecision {
    if m.giaddr == UNSPECIFIED_V4 then
      if OPTION_RELAY_AGENT in m.opts then
        if isTrustedCircuit then TrustedCircuit else UntrustedCircuit
      else FirstRelay
    else if m.giaddr in localAddrs then Spoof
    else Reforwarded
  }
}
