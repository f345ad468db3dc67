// DHCPv4 virtual subnet selection sub-options (src/dhcp/v4/vss.rs), RFC 6607 section 3.
module Vss {
  import opened Bytes

  const VSS_SUBOPT_CODE: byte := 151
  const VSS_CONTROL_SUBOPT_CODE: byte := 152
  const VSS_TYPE_NVT_ASCII: byte := 0
  const VSS_TYPE_RFC2685_VPN_ID: byte := 1
  const VSS_TYPE_GLOBAL: byte := 255

  datatype VssConfig = VssConfig(enabled: bool, vssType: byte, vssInfo: seq<byte>, vpnName: Option<seq<byte>>)

  // validate_vss in src/config.rs: which type octets are known and what each asks of the info.
  predicate ValidVss(cfg: VssConfig) {
    || cfg.vssType == VSS_TYPE_NVT_ASCII
    || (cfg.vssType == VSS_TYPE_RFC2685_VPN_ID && |cfg.vssInfo| == 7)
    || (cfg.vssType == VSS_TYPE_GLOBAL && cfg.vssInfo == [])
  }

  // Which configurations validate, by type octet and length of the info.
  lemma ValidVssIff(cfg: VssConfig)
    ensures ValidVss(cfg) <==>
              cfg.vssType == 0 || (cfg.vssType == 1 && |cfg.vssInfo| == 7) || (cfg.vssType == 255 && |cfg.vssInfo| == 0)
  {
  }

  const CONTROL_BYTES: seq<byte> := [VSS_CONTROL_SUBOPT_CODE, 0]

  // The VSS sub-option; its length octet is a u8 cast.
  function VssBytes(cfg: VssConfig): seq<byte> {
    [VSS_SUBOPT_CODE, (1 + |cfg.vssInfo|) % 256, cfg.vssType] + cfg.vssInfo
  }

  // Both sub-options octet by octet.
  lemma PairInOctets(cfg: VssConfig)
    ensures var vss := VssBytes(cfg);
            && |vss| == 3 + |cfg.vssInfo|
            && vss[0] == 151 && vss[1] == (1 + |cfg.vssInfo|) % 256 && vss[2] == cfg.vssType && vss[3..] == cfg.vssInfo
    ensures CONTROL_BYTES == [152, 0]
  {
  }

  method EncodeSubOpts(cfg: VssConfig) returns (r: Option<(seq<byte>, seq<byte>)>)
    ensures r == if ValidVss(cfg) then Some((VssBytes(cfg), CONTROL_BYTES)) else None
    ensures r.None? <==>
              cfg.vssType !in {0, 1, 255} || (cfg.vssType == 1 && |cfg.vssInfo| != 7)
              || (cfg.vssType == 255 && cfg.vssInfo != [])
  {
    if !ValidVss(cfg) {
      return None;
    }
    var vssOpt: seq<byte> := [VSS_SUBOPT_CODE];
    vssOpt := vssOpt + [(1 + |cfg.vssInfo|) % 256];
    vssOpt := vssOpt + [cfg.vssType];
    vssOpt := vssOpt + cfg.vssInfo;
    assert vssOpt == VssBytes(cfg);
    r := Some((vssOpt, [VSS_CONTROL_SUBOPT_CODE, 0]));
  }

  // The walk over raw sub-options: true when no control sub-option is met.
  function SupportsVss(raw: seq<byte>): bool {
    if |raw| < 2 then true
    else if raw[0] == VSS_CONTROL_SUBOPT_CODE then false
    else if 2 + raw[1] >= |raw| then true
    else SupportsVss(raw[2 + raw[1]..])
  }

  method CheckServerSupport(raw: seq<byte>) returns (supported: bool)
    ensures supported == SupportsVss(raw)
  {
    var pos := 0;
    while pos + 2 <= |raw|
      invariant pos <= |raw| ==> SupportsVss(raw) == SupportsVss(raw[pos..])
      invariant pos > |raw| ==> SupportsVss(raw)
      decreases |raw| - pos
    {
      ghost var rest := raw[pos..];
      var code := raw[pos];
      var len: nat := raw[pos + 1];
      if code == VSS_CONTROL_SUBOPT_CODE {
        return false;
      }
      if pos + 2 + len <= |raw| {
        assert rest[2 + len..] == raw[pos + 2 + len..];
      }
      pos := pos + (2 + len);
    }
    return true;
  }

  // ----- The declarative reading ---------------------------------------------------------------

  datatype SubTlv = SubTlv(code: byte, value: seq<byte>)

  ghost predicate FitsLength(ts: seq<SubTlv>) {
    forall t :: t in ts ==> |t.value| <= 255
  }

  ghost predicate NoControl(ts: seq<SubTlv>) {
    forall t :: t in ts ==> |t.value| <= 255 && t.code != VSS_CONTROL_SUBOPT_CODE
  }

  function EncodeSub(t: SubTlv): seq<byte> {
    [t.code, |t.value| % 256] + t.value
  }

  function EncodeSubs(ts: seq<SubTlv>): seq<byte> {
    if ts == [] then [] else EncodeSub(ts[0]) + EncodeSubs(ts[1..])
  }

  // Complete sub-options that are not the control, then the control's code and a length octet.
  ghost predicate ReadsControl(raw: seq<byte>, ts: seq<SubTlv>, rest: seq<byte>) {
    && NoControl(ts) && raw == EncodeSubs(ts) + rest
    && |rest| >= 2 && rest[0] == VSS_CONTROL_SUBOPT_CODE
  }

  ghost predicate HoldsControl(raw: seq<byte>) {
    exists ts, rest :: ReadsControl(raw, ts, rest)
  }

  lemma WalkOne(t: SubTlv, rest: seq<byte>)
    requires |t.value| <= 255
    ensures SupportsVss(EncodeSub(t) + rest) <==> t.code != VSS_CONTROL_SUBOPT_CODE && SupportsVss(rest)
  {
    var raw := EncodeSub(t) + rest;
    assert raw[0] == t.code && raw[1] == |t.value|;
    Seam(EncodeSub(t), rest);
  }

  lemma {:induction false} WalkSkips(ts: seq<SubTlv>, rest: seq<byte>)
    requires NoControl(ts)
    ensures SupportsVss(EncodeSubs(ts) + rest) == SupportsVss(rest)
  {
    if ts == [] {
      assert EncodeSubs(ts) + rest == rest;
    } else {
      Assoc(EncodeSub(ts[0]), EncodeSubs(ts[1..]), rest);
      WalkOne(ts[0], EncodeSubs(ts[1..]) + rest);
      WalkSkips(ts[1..], rest);
    }
  }

  lemma {:induction false} WalkFindsControl(raw: seq<byte>) returns (ts: seq<SubTlv>, rest: seq<byte>)
    requires !SupportsVss(raw)
    ensures ReadsControl(raw, ts, rest)
    decreases |raw|
  {
    if raw[0] == VSS_CONTROL_SUBOPT_CODE {
      ts, rest := [], raw;
    } else {
      var len: nat := raw[1];
      var end := 2 + len;
      var t := SubTlv(raw[0], raw[2..end]);
      var us, last := WalkFindsControl(raw[end..]);
      ts, rest := [t] + us, last;
      assert ts[1..] == us;
      assert raw == EncodeSub(t) + raw[end..];
      Assoc(EncodeSub(t), EncodeSubs(us), rest);
    }
  }

  // Main result: on every octet string the walk answers false exactly when a control
  // sub-option is reached after complete other ones.
  lemma WalkIsTheReading(raw: seq<byte>)
    ensures !SupportsVss(raw) <==> HoldsControl(raw)
  {
    if !SupportsVss(raw) {
      var ts, rest := WalkFindsControl(raw);
    }
    forall ts, rest | ReadsControl(raw, ts, rest)
      ensures !SupportsVss(raw)
    {
      WalkSkips(ts, rest);
    }
  }

  // Main result: on any list of sub-options only the codes matter, however often the octet 152
  // occurs inside values.
  lemma {:induction false} WalkOfListIff(ts: seq<SubTlv>)
    requires FitsLength(ts)
    ensures SupportsVss(EncodeSubs(ts)) <==> forall t :: t in ts ==> t.code != VSS_CONTROL_SUBOPT_CODE
  {
    if ts != [] {
      WalkOne(ts[0], EncodeSubs(ts[1..]));
      WalkOfListIff(ts[1..]);
      assert ts == [ts[0]] + ts[1..];
    }
  }

  // The octets of the value that the wrapped length octet leaves over; none up to 254 octets of info.
  function Overflow(cfg: VssConfig): (left: seq<byte>)
    ensures left == [] <==> |cfg.vssInfo| <= 254
  {
    ([cfg.vssType] + cfg.vssInfo)[(1 + |cfg.vssInfo|) % 256..]
  }

  // After the VSS sub-option's code and length octet the walk goes on where the length octet
  // points, which for a long info lies inside the value.
  lemma WalkAfterVss(cfg: VssConfig, rest: seq<byte>)
    ensures SupportsVss(VssBytes(cfg) + rest) == SupportsVss(Overflow(cfg) + rest)
  {
    var value := [cfg.vssType] + cfg.vssInfo;
    var n := |value| % 256;
    var raw := VssBytes(cfg) + rest;
    assert raw == [VSS_SUBOPT_CODE, n] + (value + rest);
    assert raw[0] == VSS_SUBOPT_CODE && raw[1] == n;
    assert (value + rest)[n..] == Overflow(cfg) + rest;
    if 2 + n < |raw| {
      assert raw[2 + n..] == (value + rest)[n..];
    } else {
      assert |Overflow(cfg) + rest| == 0;
    }
  }

  // Main result: what the relay itself sends is seen to hold the control sub-option exactly when
  // the octets the length octet leaves over, with what follows, read as complete sub-options up to
  // a control; so always up to 254 octets of info.
  lemma SentPairRecognisedIff(cfg: VssConfig, before: seq<SubTlv>, after: seq<byte>)
    requires NoControl(before)
    ensures !SupportsVss(EncodeSubs(before) + (VssBytes(cfg) + (CONTROL_BYTES + after))) <==>
              HoldsControl(Overflow(cfg) + (CONTROL_BYTES + after))
    ensures |cfg.vssInfo| <= 254 ==>
              !SupportsVss(EncodeSubs(before) + (VssBytes(cfg) + (CONTROL_BYTES + after)))
  {
    var rest := CONTROL_BYTES + after;
    WalkSkips(before, VssBytes(cfg) + rest);
    WalkAfterVss(cfg, rest);
    WalkIsTheReading(Overflow(cfg) + rest);
    if |cfg.vssInfo| <= 254 {
      assert Overflow(cfg) + rest == rest;
    }
  }

  // Main result: the VSS sub-option alone is taken for a control exactly when the octets its
  // length octet leaves over read as complete sub-options up to a control.
  lemma VssAloneMisreadIff(cfg: VssConfig)
    ensures !SupportsVss(VssBytes(cfg)) <==> HoldsControl(Overflow(cfg))
    ensures |cfg.vssInfo| <= 254 ==> SupportsVss(VssBytes(cfg))
  {
    WalkAfterVss(cfg, []);
    assert VssBytes(cfg) + [] == VssBytes(cfg);
    assert Overflow(cfg) + [] == Overflow(cfg);
    WalkIsTheReading(Overflow(cfg));
  }

  // An info of 255 octets that validates and is nevertheless taken for a control sub-option.
  lemma LongInfoMisread(cfg: VssConfig)
    requires cfg.vssType == VSS_TYPE_NVT_ASCII && |cfg.vssInfo| == 255
    requires cfg.vssInfo[0] == 0 && cfg.vssInfo[1] == VSS_CONTROL_SUBOPT_CODE
    ensures ValidVss(cfg) && !SupportsVss(VssBytes(cfg))
  {
    VssAloneMisreadIff(cfg);
    ZeroThenControl(Overflow(cfg));
  }

  lemma ZeroThenControl(raw: seq<byte>)
    requires |raw| >= 4 && raw[0] == 0 && raw[1] == 0 && raw[2] == VSS_CONTROL_SUBOPT_CODE
    ensures HoldsControl(raw)
  {
    var t := SubTlv(0, []);
    assert EncodeSubs([t]) == EncodeSub(t) + [] == [0, 0];
    assert raw == [0, 0] + raw[2..];
    assert ReadsControl(raw, [t], raw[2..]);
  }

  // And one of 255 octets after which the control that is there is missed.
  lemma LongInfoHidesControl(cfg: VssConfig)
    requires cfg.vssType == VSS_TYPE_NVT_ASCII && |cfg.vssInfo| == 255
    requires cfg.vssInfo[0] == 255
    ensures ValidVss(cfg) && SupportsVss(VssBytes(cfg) + CONTROL_BYTES)
  {
    WalkAfterVss(cfg, CONTROL_BYTES);
    assert Overflow(cfg)[1] == 255;
  }
}
