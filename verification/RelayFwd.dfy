// The DHCPv6 relay codec (src/dhcp/v6/relay_fwd.rs): RFC 8415 sections 9, 19.2 and 21.10.
module RelayFwd {
  import opened Bytes

  const RELAY_FORW: byte := 12
  const RELAY_REPL: byte := 13
  const OPTION_RELAY_MSG: nat := 9
  const RELAY_HDR_LEN: nat := 34
  const OPTION_TLV_HDR: nat := 4

  // The four ways the code builds a parse error.
  datatype ParseError = TooShort | WrongType(msgType: byte) | Truncated | NoRelayMessage

  // ----- The codec ---------------------------------------------------------------------

  // What one scan of an option area returns.
  function Extract(options: seq<byte>): (r: Result<seq<byte>, ParseError>)
    ensures r.Ok? ==> |r.value| + OPTION_TLV_HDR <= |options|
  {
    if |options| < OPTION_TLV_HDR then Err(NoRelayMessage)
    else
      var code := U16(options[0], options[1]);
      var len := U16(options[2], options[3]);
      if OPTION_TLV_HDR + len > |options| then Err(Truncated)
      else if code == OPTION_RELAY_MSG then Ok(options[OPTION_TLV_HDR..OPTION_TLV_HDR + len])
      else Extract(options[OPTION_TLV_HDR + len..])
  }

  method ExtractRelayMsg(options: seq<byte>) returns (r: Result<seq<byte>, ParseError>)
    ensures r == Extract(options)
  {
    var pos := 0;
    while pos + OPTION_TLV_HDR <= |options|
      invariant pos <= |options|
      invariant Extract(options) == Extract(options[pos..])
    {
      ghost var rest := options[pos..];
      var code := U16(options[pos], options[pos + 1]);
      var len := U16(options[pos + 2], options[pos + 3]);
      pos := pos + OPTION_TLV_HDR;
      if pos + len > |options| {
        return Err(Truncated);
      }
      if code == OPTION_RELAY_MSG {
        assert options[pos..pos + len] == rest[OPTION_TLV_HDR..OPTION_TLV_HDR + len];
        return Ok(options[pos..pos + len]);
      }
      assert options[pos + len..] == rest[OPTION_TLV_HDR + len..];
      pos := pos + len;
    }
    return Err(NoRelayMessage);
  }

  function Decapsulate(relayReply: seq<byte>): Result<seq<byte>, ParseError>
    decreases |relayReply|
  {
    if |relayReply| < RELAY_HDR_LEN then Err(TooShort)
    else if relayReply[0] != RELAY_REPL then Err(WrongType(relayReply[0]))
    else
      match Extract(relayReply[RELAY_HDR_LEN..])
      case Err(e) => Err(e)
      case Ok(inner) =>
        if StartsWithReply(inner) then Decapsulate(inner) else Ok(inner)
  }

  predicate StartsWithReply(msg: seq<byte>) {
    msg != [] && msg[0] == RELAY_REPL
  }

  // The octets of a Relay-forward around a client message.
  function RelayForward(clientMsg: seq<byte>, linkAddr: Ipv6, peer: IpAddr): seq<byte> {
    var peerIp := if peer.V6? then peer.v6 else UNSPECIFIED_V6;
    [RELAY_FORW, 0] + linkAddr + peerIp
    + U16Bytes(OPTION_RELAY_MSG) + U16Bytes(|clientMsg|) + clientMsg
  }

  method Encapsulate(clientMsg: seq<byte>, linkAddr: Ipv6, peer: IpAddr) returns (buf: seq<byte>)
    ensures buf == RelayForward(clientMsg, linkAddr, peer)
  {
    var peerIp := if peer.V6? then peer.v6 else UNSPECIFIED_V6;
    buf := [];
    buf := buf + [RELAY_FORW];
    buf := buf + [0];
    buf := buf + linkAddr;
    buf := buf + peerIp;
    buf := buf + U16Bytes(OPTION_RELAY_MSG);
    buf := buf + U16Bytes(|clientMsg|);
    buf := buf + clientMsg;
  }

  // ----- A declarative reading of an option area ------------------------------------------

  datatype Tlv = Tlv(code: nat, value: seq<byte>)

  predicate FitsWire(t: Tlv) {
    t.code < 65536 && |t.value| < 65536
  }

  function EncodeTlv(t: Tlv): (bs: seq<byte>)
    ensures |bs| == OPTION_TLV_HDR + |t.value|
  {
    U16Bytes(t.code) + U16Bytes(|t.value|) + t.value
  }

  function EncodeTlvs(ts: seq<Tlv>): seq<byte> {
    if ts == [] then [] else EncodeTlv(ts[0]) + EncodeTlvs(ts[1..])
  }

  // Well-formed options, none of them a Relay Message option.
  ghost predicate Plain(ts: seq<Tlv>) {
    forall t :: t in ts ==> FitsWire(t) && t.code != OPTION_RELAY_MSG
  }

  // The area is plain options, then a complete Relay Message option holding v, then anything.
  ghost predicate ReadsAs(options: seq<byte>, ts: seq<Tlv>, v: seq<byte>, tail: seq<byte>) {
    && Plain(ts) && |v| < 65536
    && options == EncodeTlvs(ts) + (EncodeTlv(Tlv(OPTION_RELAY_MSG, v)) + tail)
  }

  // The area is plain options and then an option whose length runs past the end.
  ghost predicate ReadsAsTruncated(options: seq<byte>, ts: seq<Tlv>, rest: seq<byte>) {
    && Plain(ts) && options == EncodeTlvs(ts) + rest
    && OPTION_TLV_HDR <= |rest| < OPTION_TLV_HDR + U16(rest[2], rest[3])
  }

  // The area is plain options and then fewer octets than an option header.
  ghost predicate ReadsAsExhausted(options: seq<byte>, ts: seq<Tlv>, rest: seq<byte>) {
    Plain(ts) && options == EncodeTlvs(ts) + rest && |rest| < OPTION_TLV_HDR
  }

  // Four octets, a value and a rest, taken apart again.
  lemma Sections(head: seq<byte>, value: seq<byte>, rest: seq<byte>)
    requires |head| == OPTION_TLV_HDR
    ensures var bs := (head + value) + rest;
            && bs[..OPTION_TLV_HDR] == head
            && bs[OPTION_TLV_HDR..OPTION_TLV_HDR + |value|] == value
            && bs[OPTION_TLV_HDR + |value|..] == rest
  {
  }

  lemma HeadOfTlv(t: Tlv, rest: seq<byte>)
    requires FitsWire(t)
    ensures var bs := EncodeTlv(t) + rest;
            && U16(bs[0], bs[1]) == t.code && U16(bs[2], bs[3]) == |t.value|
            && bs[OPTION_TLV_HDR..OPTION_TLV_HDR + |t.value|] == t.value
            && bs[OPTION_TLV_HDR + |t.value|..] == rest
  {
    var bs, code, len := EncodeTlv(t) + rest, U16Bytes(t.code), U16Bytes(|t.value|);
    Sections(code + len, t.value, rest);
    var head := bs[..OPTION_TLV_HDR];
    assert bs[0] == head[0] == code[0] && bs[1] == head[1] == code[1];
    assert bs[2] == head[2] == len[0] && bs[3] == head[3] == len[1];
    U16RoundTrip(t.code);
    U16RoundTrip(|t.value|);
  }

  lemma ConsTlvs(t: Tlv, us: seq<Tlv>)
    ensures EncodeTlvs([t] + us) == EncodeTlv(t) + EncodeTlvs(us)
  {
    assert ([t] + us)[1..] == us;
  }

  lemma {:induction false} ScanSkipsPlain(ts: seq<Tlv>, rest: seq<byte>)
    requires Plain(ts)
    ensures Extract(EncodeTlvs(ts) + rest) == Extract(rest)
  {
    if ts == [] {
      assert EncodeTlvs(ts) + rest == rest;
    } else {
      var rest' := EncodeTlvs(ts[1..]) + rest;
      assert EncodeTlvs(ts) + rest == EncodeTlv(ts[0]) + rest';
      HeadOfTlv(ts[0], rest');
      ScanSkipsPlain(ts[1..], rest);
    }
  }

  // Reads one complete option off the front.
  lemma SplitTlv(options: seq<byte>) returns (t: Tlv, rest: seq<byte>)
    requires |options| >= OPTION_TLV_HDR
    requires OPTION_TLV_HDR + U16(options[2], options[3]) <= |options|
    ensures FitsWire(t) && options == EncodeTlv(t) + rest
    ensures t.code == U16(options[0], options[1]) && |t.value| == U16(options[2], options[3])
  {
    var len := U16(options[2], options[3]);
    t := Tlv(U16(options[0], options[1]), options[OPTION_TLV_HDR..OPTION_TLV_HDR + len]);
    rest := options[OPTION_TLV_HDR + len..];
    U16BytesRoundTrip(options[0], options[1]);
    U16BytesRoundTrip(options[2], options[3]);
    var head := options[..OPTION_TLV_HDR];
    assert head == [options[0], options[1]] + [options[2], options[3]];
    assert options == (head + t.value) + rest;
  }

  lemma {:induction false} ScanParses(options: seq<byte>)
    returns (ts: seq<Tlv>, rest: seq<byte>)
    ensures Extract(options).Ok? ==> ReadsAs(options, ts, Extract(options).value, rest)
    ensures Extract(options) == Err(Truncated) ==> ReadsAsTruncated(options, ts, rest)
    ensures Extract(options) == Err(NoRelayMessage) ==> ReadsAsExhausted(options, ts, rest)
    ensures Extract(options).Err? ==> Extract(options).error in {Truncated, NoRelayMessage}
    decreases |options|
  {
    if |options| < OPTION_TLV_HDR || OPTION_TLV_HDR + U16(options[2], options[3]) > |options| {
      ts, rest := [], options;
    } else {
      var t, tail := SplitTlv(options);
      HeadOfTlv(t, tail);
      if t.code == OPTION_RELAY_MSG {
        ts, rest := [], tail;
      } else {
        var us, last := ScanParses(tail);
        ts, rest := [t] + us, last;
        ConsTlvs(t, us);
        if Extract(options).Ok? {
          var v := Extract(options).value;
          Assoc(EncodeTlv(t), EncodeTlvs(us), EncodeTlv(Tlv(OPTION_RELAY_MSG, v)) + rest);
        } else {
          Assoc(EncodeTlv(t), EncodeTlvs(us), rest);
        }
      }
    }
  }

  lemma ReadingExtracts(options: seq<byte>, ts: seq<Tlv>, v: seq<byte>, tail: seq<byte>)
    requires ReadsAs(options, ts, v, tail)
    ensures Extract(options) == Ok(v)
  {
    ScanSkipsPlain(ts, EncodeTlv(Tlv(OPTION_RELAY_MSG, v)) + tail);
    HeadOfTlv(Tlv(OPTION_RELAY_MSG, v), tail);
  }

  // Main result: the scan loop is the declarative reading, on every input and in every outcome.
  lemma ExtractIsTheTlvReading(options: seq<byte>)
    ensures forall v :: Extract(options) == Ok(v) <==> exists ts, tail :: ReadsAs(options, ts, v, tail)
    ensures Extract(options) == Err(Truncated) <==> exists ts, rest :: ReadsAsTruncated(options, ts, rest)
    ensures Extract(options) == Err(NoRelayMessage) <==> exists ts, rest :: ReadsAsExhausted(options, ts, rest)
  {
    var ts0, rest0 := ScanParses(options);
    forall v, ts, tail | ReadsAs(options, ts, v, tail)
      ensures Extract(options) == Ok(v)
    {
      ReadingExtracts(options, ts, v, tail);
    }
    forall ts, rest | ReadsAsTruncated(options, ts, rest)
      ensures Extract(options) == Err(Truncated)
    {
      ScanSkipsPlain(ts, rest);
    }
    forall ts, rest | ReadsAsExhausted(options, ts, rest)
      ensures Extract(options) == Err(NoRelayMessage)
    {
      ScanSkipsPlain(ts, rest);
    }
  }

  // ----- Nested Relay-replies -----------------------------------------------------------

  // One Relay-reply around a message: hop count and addresses (33 octets after the type),
  // the options before the Relay Message option, and whatever follows it.
  datatype Layer = Layer(header: seq<byte>, before: seq<Tlv>, after: seq<byte>)

  ghost predicate ValidLayer(l: Layer) {
    |l.header| == RELAY_HDR_LEN - 1 && Plain(l.before)
  }

  function WrapOnce(l: Layer, inner: seq<byte>): seq<byte> {
    [RELAY_REPL] + l.header
    + (EncodeTlvs(l.before) + (EncodeTlv(Tlv(OPTION_RELAY_MSG, inner)) + l.after))
  }

  function Wrap(ls: seq<Layer>, core: seq<byte>): seq<byte> {
    if ls == [] then core else WrapOnce(ls[0], Wrap(ls[1..], core))
  }

  // Every layer is well formed and every wrapped message fits a 16-bit option length.
  ghost predicate ValidNesting(ls: seq<Layer>, core: seq<byte>) {
    ls == [] ||
    (ValidLayer(ls[0]) && |Wrap(ls[1..], core)| < 65536 && ValidNesting(ls[1..], core))
  }

  ghost predicate Unwraps(msg: seq<byte>, ls: seq<Layer>, core: seq<byte>) {
    ls != [] && ValidNesting(ls, core) && msg == Wrap(ls, core) && !StartsWithReply(core)
  }

  lemma AreaOfWrapOnce(l: Layer, inner: seq<byte>)
    requires ValidLayer(l) && |inner| < 65536
    ensures var m := WrapOnce(l, inner);
            && |m| >= RELAY_HDR_LEN + OPTION_TLV_HDR + |inner| && m[0] == RELAY_REPL
            && ReadsAs(m[RELAY_HDR_LEN..], l.before, inner, l.after)
            && Extract(m[RELAY_HDR_LEN..]) == Ok(inner)
  {
    var area := EncodeTlvs(l.before) + (EncodeTlv(Tlv(OPTION_RELAY_MSG, inner)) + l.after);
    Seam([RELAY_REPL] + l.header, area);
    ReadingExtracts(area, l.before, inner, l.after);
  }

  // Any depth: every layer comes off and the core message is returned untouched.
  lemma {:induction false} UnwrapAnyDepth(ls: seq<Layer>, core: seq<byte>)
    requires ls != [] && ValidNesting(ls, core) && !StartsWithReply(core)
    ensures Decapsulate(Wrap(ls, core)) == Ok(core)
    decreases |ls|
  {
    var inner := Wrap(ls[1..], core);
    AreaOfWrapOnce(ls[0], inner);
    if ls[1..] != [] {
      AreaOfWrapOnce(ls[1], Wrap(ls[1..][1..], core));
      UnwrapAnyDepth(ls[1..], core);
    }
  }

  // Conversely a success always comes off a chain of well-formed layers.
  lemma {:induction false} UnwrapFindsLayers(msg: seq<byte>) returns (ls: seq<Layer>)
    requires Decapsulate(msg).Ok?
    ensures Unwraps(msg, ls, Decapsulate(msg).value)
    decreases |msg|
  {
    var area := msg[RELAY_HDR_LEN..];
    var ts, tail := ScanParses(area);
    var inner := Extract(area).value;
    var l := Layer(msg[1..RELAY_HDR_LEN], ts, tail);
    assert msg == WrapOnce(l, inner);
    if StartsWithReply(inner) {
      var ls' := UnwrapFindsLayers(inner);
      ls := [l] + ls';
      assert ls[1..] == ls';
    } else {
      ls := [l];
      assert Wrap(ls[1..], inner) == inner;
    }
  }

  // Main result: decapsulation succeeds with r exactly on the wrappings of r.
  lemma DecapsulateIsUnwrap(msg: seq<byte>, r: seq<byte>)
    ensures Decapsulate(msg) == Ok(r) <==> exists ls :: Unwraps(msg, ls, r)
  {
    if Decapsulate(msg) == Ok(r) {
      var ls := UnwrapFindsLayers(msg);
    }
    forall ls | Unwraps(msg, ls, r)
      ensures Decapsulate(msg) == Ok(r)
    {
      UnwrapAnyDepth(ls, r);
    }
  }

  lemma InnerWithin(l: Layer, inner: seq<byte>) returns (pre: seq<byte>, post: seq<byte>)
    ensures WrapOnce(l, inner) == pre + (inner + post)
  {
    var header, plain := [RELAY_REPL] + l.header, EncodeTlvs(l.before);
    var tlvHeader := U16Bytes(OPTION_RELAY_MSG) + U16Bytes(|inner|);
    pre, post := header + (plain + tlvHeader), l.after;
    Assoc(tlvHeader, inner, post);
    Assoc(plain, tlvHeader, inner + post);
    Assoc(header, plain + tlvHeader, inner + post);
  }

  // The core message stays one contiguous slice of the outermost message.
  lemma {:induction false} CoreWithin(ls: seq<Layer>, core: seq<byte>) returns (pre: seq<byte>, post: seq<byte>)
    ensures Wrap(ls, core) == pre + (core + post)
    decreases |ls|
  {
    if ls == [] {
      pre, post := [], [];
      assert core == pre + (core + post);
    } else {
      var p, q := InnerWithin(ls[0], Wrap(ls[1..], core));
      var p', q' := CoreWithin(ls[1..], core);
      pre, post := p + p', q' + q;
      Assoc(p', core + q', q);
      Assoc(core, q', q);
      Assoc(p, p', core + post);
    }
  }

  // Each layer costs at least 38 octets.
  lemma {:induction false} LayersCost(ls: seq<Layer>, core: seq<byte>)
    requires ValidNesting(ls, core)
    ensures |Wrap(ls, core)| >= |core| + (RELAY_HDR_LEN + OPTION_TLV_HDR) * |ls|
    decreases |ls|
  {
    if ls != [] {
      AreaOfWrapOnce(ls[0], Wrap(ls[1..], core));
      LayersCost(ls[1..], core);
    }
  }

  // What a success tells about its input, and how deep the recursion can have gone.
  lemma DecapsulateSound(msg: seq<byte>) returns (ls: seq<Layer>, pre: seq<byte>, post: seq<byte>)
    requires Decapsulate(msg).Ok?
    ensures var r := Decapsulate(msg).value;
            && Unwraps(msg, ls, r)
            && msg == pre + (r + post)
            && |r| <= |msg| - (RELAY_HDR_LEN + OPTION_TLV_HDR) * |ls|
            && 1 <= |ls| <= |msg| / (RELAY_HDR_LEN + OPTION_TLV_HDR)
  {
    ls := UnwrapFindsLayers(msg);
    LayersCost(ls, Decapsulate(msg).value);
    pre, post := CoreWithin(ls, Decapsulate(msg).value);
  }

  // ----- Parsing is unambiguous ------------------------------------------------------------

  // The first option of a reading is fixed by the first four octets.
  lemma ReadingHead(options: seq<byte>, ts: seq<Tlv>, v: seq<byte>, tail: seq<byte>)
    requires ReadsAs(options, ts, v, tail)
    ensures |options| >= OPTION_TLV_HDR
    ensures var end := OPTION_TLV_HDR + U16(options[2], options[3]);
            && end <= |options|
            && (ts == [] ==> U16(options[0], options[1]) == OPTION_RELAY_MSG
                             && v == options[OPTION_TLV_HDR..end] && tail == options[end..])
            && (ts != [] ==> U16(options[0], options[1]) == ts[0].code != OPTION_RELAY_MSG
                             && ts[0].value == options[OPTION_TLV_HDR..end]
                             && ReadsAs(options[end..], ts[1..], v, tail))
  {
    var msg := EncodeTlv(Tlv(OPTION_RELAY_MSG, v)) + tail;
    if ts == [] {
      assert options == msg;
      HeadOfTlv(Tlv(OPTION_RELAY_MSG, v), tail);
    } else {
      Assoc(EncodeTlv(ts[0]), EncodeTlvs(ts[1..]), msg);
      HeadOfTlv(ts[0], EncodeTlvs(ts[1..]) + msg);
    }
  }

  lemma {:induction false} ReadingUnique(options: seq<byte>, ts: seq<Tlv>, v: seq<byte>, tail: seq<byte>,
                                         us: seq<Tlv>, w: seq<byte>, tail': seq<byte>)
    requires ReadsAs(options, ts, v, tail) && ReadsAs(options, us, w, tail')
    ensures ts == us && v == w && tail == tail'
    decreases |ts|
  {
    ReadingHead(options, ts, v, tail);
    ReadingHead(options, us, w, tail');
    if ts != [] && us != [] {
      var end := OPTION_TLV_HDR + U16(options[2], options[3]);
      ReadingUnique(options[end..], ts[1..], v, tail, us[1..], w, tail');
      assert ts == [ts[0]] + ts[1..] && us == [us[0]] + us[1..];
    }
  }

  lemma LayerUnique(l: Layer, a: seq<byte>, k: Layer, b: seq<byte>)
    requires ValidLayer(l) && |a| < 65536 && ValidLayer(k) && |b| < 65536
    requires WrapOnce(l, a) == WrapOnce(k, b)
    ensures l == k && a == b
  {
    var m := WrapOnce(l, a);
    AreaOfWrapOnce(l, a);
    AreaOfWrapOnce(k, b);
    ReadingUnique(m[RELAY_HDR_LEN..], l.before, a, l.after, k.before, b, k.after);
    HeaderOfWrapOnce(l, a);
    HeaderOfWrapOnce(k, b);
  }

  lemma HeaderOfWrapOnce(l: Layer, inner: seq<byte>)
    requires ValidLayer(l)
    ensures l.header == WrapOnce(l, inner)[..RELAY_HDR_LEN][1..]
  {
    var area := EncodeTlvs(l.before) + (EncodeTlv(Tlv(OPTION_RELAY_MSG, inner)) + l.after);
    Seam([RELAY_REPL] + l.header, area);
    Seam([RELAY_REPL], l.header);
  }

  // Only the core message of a nesting can fail to start with the Relay-reply type.
  lemma NestedStartsWithReply(ls: seq<Layer>, core: seq<byte>)
    requires ValidNesting(ls, core) && !StartsWithReply(core)
    ensures StartsWithReply(Wrap(ls, core)) <==> ls != []
  {
    if ls != [] {
      AreaOfWrapOnce(ls[0], Wrap(ls[1..], core));
    }
  }

  // A message has at most one reading as nested layers around a non-reply core.
  lemma {:induction false} NestingUnique(ls: seq<Layer>, c: seq<byte>, ks: seq<Layer>, d: seq<byte>)
    requires ValidNesting(ls, c) && !StartsWithReply(c)
    requires ValidNesting(ks, d) && !StartsWithReply(d)
    requires Wrap(ls, c) == Wrap(ks, d)
    ensures ls == ks && c == d
    decreases |ls|
  {
    NestedStartsWithReply(ls, c);
    NestedStartsWithReply(ks, d);
    if ls != [] {
      LayerUnique(ls[0], Wrap(ls[1..], c), ks[0], Wrap(ks[1..], d));
      NestingUnique(ls[1..], c, ks[1..], d);
      assert ls == [ls[0]] + ls[1..] && ks == [ks[0]] + ks[1..];
    }
  }

  // ----- Encapsulate, then turn the message into a reply, then decapsulate -----------------------

  function AsReply(clientMsg: seq<byte>, linkAddr: Ipv6, peer: IpAddr): seq<byte> {
    RelayForward(clientMsg, linkAddr, peer)[0 := RELAY_REPL]
  }

  lemma AreaOfReply(msg: seq<byte>, linkAddr: Ipv6, peer: IpAddr)
    ensures var m := AsReply(msg, linkAddr, peer);
            && |m| >= RELAY_HDR_LEN && m[0] == RELAY_REPL
            && m[RELAY_HDR_LEN..] == EncodeTlv(Tlv(OPTION_RELAY_MSG, msg))
  {
    var peerIp := if peer.V6? then peer.v6 else UNSPECIFIED_V6;
    var header := [RELAY_FORW, 0] + linkAddr + peerIp;
    var area := EncodeTlv(Tlv(OPTION_RELAY_MSG, msg));
    assert RelayForward(msg, linkAddr, peer) == header + area;
    assert AsReply(msg, linkAddr, peer) == header[0 := RELAY_REPL] + area;
    Seam(header[0 := RELAY_REPL], area);
  }

  // A written option of any length is read back with its length modulo 65536.
  lemma ReadBackModulo(msg: seq<byte>)
    ensures Extract(EncodeTlv(Tlv(OPTION_RELAY_MSG, msg))) == Ok(msg[..|msg| % 65536])
  {
    var area := EncodeTlv(Tlv(OPTION_RELAY_MSG, msg));
    var n := |msg| % 65536;
    U16RoundTrip(OPTION_RELAY_MSG);
    U16RoundTrip(|msg|);
    var code, len := U16Bytes(OPTION_RELAY_MSG), U16Bytes(|msg|);
    assert area[0] == code[0] && area[1] == code[1] && area[2] == len[0] && area[3] == len[1];
    assert area[OPTION_TLV_HDR..OPTION_TLV_HDR + n] == msg[..n] by {
      Seam(code + len, msg);
      SliceOfDrop(area, OPTION_TLV_HDR, 0, n);
    }
  }

  // The 16-bit length keeps |msg| mod 65536, so that many octets come back, for every length.
  lemma EncapsulateThenDecapsulate(msg: seq<byte>, linkAddr: Ipv6, peer: IpAddr)
    ensures var kept := msg[..|msg| % 65536];
            Decapsulate(AsReply(msg, linkAddr, peer)) == if StartsWithReply(kept) then Decapsulate(kept) else Ok(kept)
  {
    AreaOfReply(msg, linkAddr, peer);
    ReadBackModulo(msg);
  }

  lemma DecapsulateShrinks(msg: seq<byte>)
    requires Decapsulate(msg).Ok?
    ensures |Decapsulate(msg).value| < |msg|
  {
    var ls := UnwrapFindsLayers(msg);
    LayersCost(ls, Decapsulate(msg).value);
  }

  // Main result: the round trip is the identity exactly for messages that fit and are not replies.
  lemma RoundTripIdentityIff(msg: seq<byte>, linkAddr: Ipv6, peer: IpAddr)
    ensures Decapsulate(AsReply(msg, linkAddr, peer)) == Ok(msg)
            <==> |msg| <= 65535 && !StartsWithReply(msg)
  {
    EncapsulateThenDecapsulate(msg, linkAddr, peer);
    var kept := msg[..|msg| % 65536];
    if |msg| <= 65535 {
      assert kept == msg;
    }
    if StartsWithReply(kept) && Decapsulate(kept).Ok? {
      DecapsulateShrinks(kept);
    }
  }

  // Where the fields of a Relay-forward lie; a peer that is not IPv6 is written as ::.
  lemma ForwardFields(msg: seq<byte>, linkAddr: Ipv6, peer: IpAddr)
    ensures var m := RelayForward(msg, linkAddr, peer);
            && |m| == RELAY_HDR_LEN + OPTION_TLV_HDR + |msg|
            && m[0] == 12 && m[1] == 0
            && m[2..18] == linkAddr
            && (peer.V6? ==> m[18..34] == peer.v6)
            && (!peer.V6? ==> forall i :: 18 <= i < 34 ==> m[i] == 0)
            && m[34] == 0 && m[35] == 9
            && m[36] == (|msg| / 256) % 256 && m[37] == |msg| % 256
            && m[38..] == msg
  {
    var peerIp := if peer.V6? then peer.v6 else UNSPECIFIED_V6;
    var start: seq<byte> := [RELAY_FORW, 0];
    var tlvHeader := U16Bytes(OPTION_RELAY_MSG) + U16Bytes(|msg|);
    FieldsApart(start, linkAddr, peerIp, tlvHeader, msg);
    var m := RelayForward(msg, linkAddr, peer);
    assert m == start + linkAddr + peerIp + tlvHeader + msg;
    assert forall i :: 18 <= i < 34 ==> m[i] == m[18..34][i - 18];
    assert m[34..38] == [0, 9, (|msg| / 256) % 256, |msg| % 256];
    assert m[34] == m[34..38][0] && m[35] == m[34..38][1] && m[36] == m[34..38][2] && m[37] == m[34..38][3];
  }

  lemma FieldsApart(a: seq<byte>, b: seq<byte>, c: seq<byte>, d: seq<byte>, e: seq<byte>)
    requires |a| == 2 && |b| == 16 && |c| == 16 && |d| == 4
    ensures var m := a + b + c + d + e;
            m[0] == a[0] && m[1] == a[1] && m[2..18] == b && m[18..34] == c && m[34..38] == d && m[38..] == e
  {
  }

  // ----- Replies in octets ----------------------------------------------------------------------

  // Only messages of type 13 are unwrapped, down to one of another type.
  lemma OnlyRepliesUnwrap(msg: seq<byte>)
    ensures |msg| < 34 ==> Decapsulate(msg) == Err(TooShort)
    ensures |msg| >= 34 && msg[0] != 13 ==> Decapsulate(msg) == Err(WrongType(msg[0]))
    ensures Decapsulate(msg).Ok? ==> |msg| >= 38 && msg[0] == 13
    ensures Decapsulate(msg).Ok? && Decapsulate(msg).value != [] ==> Decapsulate(msg).value[0] != 13
  {
    if Decapsulate(msg).Ok? {
      var ls, pre, post := DecapsulateSound(msg);
    }
  }

  // How an option lies on the wire.
  lemma OptionInOctets(t: Tlv)
    requires FitsWire(t)
    ensures EncodeTlv(t) == [t.code / 256, t.code % 256, |t.value| / 256, |t.value| % 256] + t.value
  {
  }

  // Main result: one Relay-reply octet by octet. Behind any header of type 13 and any other options,
  // what follows the octets 0, 9 and a big-endian length comes out.
  lemma ReplyInOctets(header: seq<byte>, others: seq<Tlv>, value: seq<byte>, rest: seq<byte>)
    requires |header| == 34 && header[0] == 13
    requires forall t :: t in others ==> FitsWire(t) && t.code != 9
    requires |value| < 65536 && (value == [] || value[0] != 13)
    ensures var option: seq<byte> := [0, 9, |value| / 256, |value| % 256];
            Decapsulate(header + (EncodeTlvs(others) + (option + value + rest))) == Ok(value)
  {
    var option: seq<byte> := [0, 9, |value| / 256, |value| % 256];
    var t := Tlv(9, value);
    OptionInOctets(t);
    assert option + value + rest == EncodeTlv(t) + rest;
    assert ReadsAs(EncodeTlvs(others) + (EncodeTlv(t) + rest), others, value, rest);
    ReadingExtracts(EncodeTlvs(others) + (EncodeTlv(t) + rest), others, value, rest);
    Seam(header, EncodeTlvs(others) + (EncodeTlv(t) + rest));
  }
}
