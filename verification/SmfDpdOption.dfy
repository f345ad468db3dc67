// The SMF_DPD hop-by-hop option codec (src/smf/dpd_option.rs), RFC 6621 section 6.1.1.
module SmfDpdOption {
  import opened Bytes

  const SMF_DPD_OPTION_TYPE: byte := 0x08

  // The fields of the source's struct; tid_type and tid_len are u8, not 2 and 5 bits.
  datatype DpdOption = DpdOption(
    hBit: bool, tidType: byte, tidLen: byte, taggerId: Option<seq<byte>>, identifier: seq<byte>)

  // ----- The flags octet: H (1 bit), TidTy (2 bits), TidLen (5 bits) -------------------------
  //
  // The shifts and masks of the source are written with *, /, % on octets; BitOpsAreDigits and
  // BitFieldsAreDigits show that they are the same operations.

  // (tid_type << 5) | (tid_len & 0x1F), then |= 0x80 for H; the shift drops the top five bits.
  function Pack(h: bool, tidType: byte, tidLen: byte): byte {
    SetHighBit(h, (tidType % 8) * 32 + tidLen % 32)
  }

  function SetHighBit(h: bool, flags: byte): byte {
    if h && flags < 128 then flags + 128 else flags
  }

  // (flags & 0x80) != 0
  function HBit(flags: byte): bool {
    flags >= 128
  }

  // (flags >> 5) & 0x03
  function TidType(flags: byte): byte {
    (flags / 32) % 4
  }

  // flags & 0x1F
  function TidLen(flags: byte): byte {
    flags % 32
  }

  // Division and remainder of 8-bit vectors are those of their numbers.
  lemma DigitsOfVector(x: bv8)
    ensures (x / 32) as int == (x as int) / 32
    ensures (x % 8) as int == (x as int) % 8 && (x % 32) as int == (x as int) % 32
  {
  }

  lemma HighBitOfVector(x: bv8)
    ensures (x % 128) as int == (x as int) % 128
    ensures x >= 128 <==> x as int >= 128
  {
  }

  // The source's expressions in digits, on vectors.
  lemma MasksAndShifts(x: bv8, y: bv8)
    ensures ((x << 5) | (y & 0x1F)) / 32 == x % 8 && ((x << 5) | (y & 0x1F)) % 32 == y % 32
    ensures (x | 0x80) >= 128 && (x | 0x80) % 128 == x % 128
    ensures x & 0x80 != 0 <==> x >= 128
    ensures (x >> 5) & 0x03 == (x / 32) % 4 && (x / 32) % 4 == (x / 32) % 8 % 4
    ensures x & 0x1F == x % 32
  {
  }

  // The octet functions of this model are the source's bit operations, octet for octet.
  lemma BitOpsAreDigits(h: bool, tidType: bv8, tidLen: bv8)
    ensures var low := (tidType << 5) | (tidLen & 0x1F);
            Pack(h, tidType as int, tidLen as int) == (if h then low | 0x80 else low) as int
  {
    var low := (tidType << 5) | (tidLen & 0x1F);
    MasksAndShifts(tidType, tidLen);
    DigitsOfVector(tidType);
    DigitsOfVector(tidLen);
    DigitsOfVector(low);
    assert low as int == (tidType as int % 8) * 32 + tidLen as int % 32;
    MasksAndShifts(low, 0);
    HighBitOfVector(low);
    HighBitOfVector(low | 0x80);
  }

  lemma BitFieldsAreDigits(flags: bv8)
    ensures HBit(flags as int) <==> flags & 0x80 != 0
    ensures TidType(flags as int) == ((flags >> 5) & 0x03) as int
    ensures TidLen(flags as int) == (flags & 0x1F) as int
  {
    MasksAndShifts(flags, 0);
    DigitsOfVector(flags);
    HighBitOfVector(flags);
    assert ((flags / 32) % 4) as int == ((flags / 32) as int) % 4;
  }

  lemma FieldsOfPack(h: bool, tidType: byte, tidLen: byte)
    requires tidType < 4 && tidLen < 32
    ensures var f := Pack(h, tidType, tidLen);
            HBit(f) == h && TidType(f) == tidType && TidLen(f) == tidLen
  {
  }

  lemma PackOfFields(flags: byte)
    ensures TidType(flags) < 4 && TidLen(flags) < 32
    ensures Pack(HBit(flags), TidType(flags), TidLen(flags)) == flags
  {
  }

  // ----- The codec ---------------------------------------------------------------------------

  function Encoding(o: DpdOption): seq<byte> {
    [SMF_DPD_OPTION_TYPE, (1 + o.tidLen + |o.identifier|) % 256, Pack(o.hBit, o.tidType, o.tidLen)]
    + (if o.taggerId.Some? then o.taggerId.value else []) + o.identifier
  }

  method Encode(o: DpdOption) returns (buf: seq<byte>)
    ensures buf == Encoding(o)
  {
    var optDataLen := 1 + o.tidLen + |o.identifier|;
    buf := [SMF_DPD_OPTION_TYPE];
    buf := buf + [optDataLen % 256];
    var flags := (o.tidType % 8) * 32 + o.tidLen % 32;
    if o.hBit {
      flags := SetHighBit(true, flags);
    }
    buf := buf + [flags];
    if o.taggerId.Some? {
      buf := buf + o.taggerId.value;
    }
    buf := buf + o.identifier;
  }

  // decode takes the option data, that is, the encoding without its type and length octets.
  function Decode(data: seq<byte>): Option<DpdOption> {
    if |data| < 2 then None
    else
      var flags := data[0];
      var tidLen := TidLen(flags);
      if |data| < 1 + tidLen then None
      else
        var taggerId := if tidLen > 0 then Some(data[1..1 + tidLen]) else None;
        var identifier := data[1 + tidLen..];
        if identifier == [] then None
        else Some(DpdOption(HBit(flags), TidType(flags), tidLen, taggerId, identifier))
  }

  // The options the wire format can carry.
  predicate Canonical(o: DpdOption) {
    && o.tidType < 4 && o.tidLen < 32
    && (o.taggerId.Some? <==> o.tidLen > 0)
    && (o.taggerId.Some? ==> |o.taggerId.value| == o.tidLen)
    && o.identifier != []
  }

  lemma DecodedIsCanonical(data: seq<byte>)
    ensures Decode(data).Some? ==> Canonical(Decode(data).value)
  {
    if Decode(data).Some? {
      PackOfFields(data[0]);
    }
  }

  // Main result: exactly the canonical options survive encode then decode.
  lemma DecodeEncodeIff(o: DpdOption)
    ensures Decode(Encoding(o)[2..]) == Some(o) <==> Canonical(o)
  {
    var data := Encoding(o)[2..];
    DecodedIsCanonical(data);
    if Canonical(o) {
      FieldsOfPack(o.hBit, o.tidType, o.tidLen);
      var tagger := if o.taggerId.Some? then o.taggerId.value else [];
      assert data == [Pack(o.hBit, o.tidType, o.tidLen)] + tagger + o.identifier;
      assert data[1 + |tagger|..] == o.identifier;
      assert data[1..1 + |tagger|] == tagger;
    }
  }

  // Main result: an accepted octet string is exactly the encoding of what it decodes to, and
  // the accepted strings are those with at least one octet after the tagger.
  lemma EncodeDecode(data: seq<byte>)
    ensures Decode(data).Some? <==> |data| >= 2 && |data| > 1 + TidLen(data[0])
    ensures Decode(data).Some? ==> Encoding(Decode(data).value)[2..] == data
  {
    if Decode(data).Some? {
      var o := Decode(data).value;
      PackOfFields(data[0]);
      assert data == [data[0]] + data[1..1 + o.tidLen] + data[1 + o.tidLen..];
    }
  }

  // The length octet counts the octets after it exactly when the tagger has the length the option
  // says and the octets number at most 255.
  lemma LengthOctetExactIff(o: DpdOption)
    ensures var tagger := if o.taggerId.Some? then |o.taggerId.value| else 0;
            Encoding(o)[1] == |Encoding(o)| - 2 <==>
              tagger == o.tidLen && 1 + o.tidLen + |o.identifier| <= 255
  {
    var tagger := if o.taggerId.Some? then |o.taggerId.value| else 0;
    assert |Encoding(o)| - 2 == 1 + tagger + |o.identifier|;
  }

  // Where the fields lie on the wire.
  lemma EncodingFields(o: DpdOption)
    ensures var tagger := if o.taggerId.Some? then o.taggerId.value else [];
            var bs := Encoding(o);
            && |bs| == 3 + |tagger| + |o.identifier|
            && bs[0] == 8 && bs[1] == (1 + o.tidLen + |o.identifier|) % 256
            && bs[2] == Pack(o.hBit, o.tidType, o.tidLen)
            && bs[3..3 + |tagger|] == tagger && bs[3 + |tagger|..] == o.identifier
  {
  }

  // Distinct canonical options have distinct encodings.
  lemma EncodingInjective(o: DpdOption, p: DpdOption)
    requires Canonical(o) && Canonical(p) && Encoding(o) == Encoding(p)
    ensures o == p
  {
    DecodeEncodeIff(o);
    DecodeEncodeIff(p);
  }
}
