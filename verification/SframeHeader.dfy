// src/sframe-header.ts: the header of RFC 9605, section 4.3. The methods follow
// the byte loops of the source; Serialized and Parse state what they compute.
module SframeHeader {
  import opened Bits
  import opened Bytes
  import opened JsNumber

  datatype SFrameHeader = SFrameHeader(kid: nat, ctr: nat, bodyOffset: nat)

  datatype HeaderError = KidRange | CtrRange | FieldTooWide | EmptyBuffer | ShortKid | ShortCtr | UnsafeKid

  const SFRAME_KID_WIDTH: nat := 4
  const MAX_KID: nat := 0xffff_ffff
  const MAX_CTR: nat := 0xffff_ffff_ffff_ffff

  // ---------------------------------------------------------------- encoding

  method MinimalBigEndian(v: nat) returns (r: Result<seq<byte>, HeaderError>)
    ensures r == if MinWidth(v) <= 8 then Ok(ToBE(v, MinWidth(v))) else Err(FieldTooWide)
  {
    if v == 0 {
      assert ToBE(v, MinWidth(v)) == ToBE(v / 256, 0) + [v % 256] == [0];
      return Ok([0]);
    }
    var bytes: seq<byte> := [];
    var x: nat := v;
    while x > 0
      invariant |bytes| <= MinWidth(v)
      invariant x > 0 ==> MinWidth(x) == MinWidth(v) - |bytes|
      invariant x == 0 ==> |bytes| == MinWidth(v)
      invariant ToBE(x, MinWidth(v) - |bytes|) + Reverse(bytes) == ToBE(v, MinWidth(v))
      decreases x
    {
      LowByte(x);
      var low: byte := And(x, 0xff);
      ReverseSnoc(bytes, low);
      PeelLow(x, MinWidth(v) - |bytes|, Reverse(bytes));
      bytes := bytes + [low];
      x := Shr(x, 8);
    }
    assert ToBE(x, 0) + Reverse(bytes) == Reverse(bytes);
    bytes := Reverse(bytes);
    if |bytes| > 8 { return Err(FieldTooWide); }
    return Ok(bytes);
  }

  lemma PeelLow(x: nat, width: nat, suffix: seq<byte>)
    requires width >= 1
    ensures ToBE(x, width) + suffix == ToBE(x / 256, width - 1) + ([x % 256] + suffix)
    ensures x < Pow256(width) <==> x / 256 < Pow256(width - 1)
  {
  }

  lemma LowByte(x: nat)
    ensures And(x, 0xff) == x % 256 && Shr(x, 8) == x / 256
  {
    Pow2Constants();
    AndMask(x, 8);
    ShrIsDiv(x, 8);
  }

  method FixedBigEndian(v: nat, width: nat) returns (r: Result<seq<byte>, HeaderError>)
    ensures r == if v < Pow256(width) then Ok(ToBE(v, width)) else Err(FieldTooWide)
  {
    var out := new byte[width](_ => 0);
    var x: nat := v;
    var i: nat := width;
    while i > 0
      invariant 0 <= i <= width
      invariant ToBE(x, i) + out[i..] == ToBE(v, width)
      invariant v < Pow256(width) <==> x < Pow256(i)
    {
      i := i - 1;
      LowByte(x);
      var low: byte := And(x, 0xff);
      PeelLow(x, i + 1, out[i + 1..]);
      out[i] := low;
      assert out[i..] == [low] + out[i + 1..];
      x := Shr(x, 8);
    }
    assert ToBE(x, 0) + out[0..] == out[..];
    if x != 0 { return Err(FieldTooWide); }
    return Ok(out[..]);
  }

  // K = 1 with four KID bytes, C = 1 with the fewest CTR bytes.
  function Serialized(kid: nat, ctr: nat): (bytes: seq<byte>)
    requires kid <= MAX_KID && ctr <= MAX_CTR
    ensures |bytes| == 5 + MinWidth(ctr) <= 13
  {
    CtrWidth(ctr);
    [184 + (MinWidth(ctr) - 1)] + ToBE(kid, SFRAME_KID_WIDTH) + ToBE(ctr, MinWidth(ctr))
  }

  lemma CtrWidth(ctr: nat)
    ensures MinWidth(ctr) <= 8 <==> ctr <= MAX_CTR
  {
    Pow256Constants();
    if ctr <= MAX_CTR { MinWidthLeast(ctr, 8); }
    MinWidthFits(ctr);
    if MinWidth(ctr) <= 8 { Pow256Monotone(MinWidth(ctr), 8); }
  }

  method SerializeHeader(kid: int, ctr: int) returns (r: Result<seq<byte>, HeaderError>)
    ensures !(0 <= kid <= MAX_KID) ==> r == Err(KidRange)
    ensures 0 <= kid <= MAX_KID && !(0 <= ctr <= MAX_CTR) ==> r == Err(CtrRange)
    ensures 0 <= kid <= MAX_KID && 0 <= ctr <= MAX_CTR ==> r == Ok(Serialized(kid, ctr))
  {
    if kid < 0 || kid > MAX_KID { return Err(KidRange); }
    if ctr < 0 || ctr > MAX_CTR { return Err(CtrRange); }
    hide And, Or, Shl, Pow2, Pow256, MinWidth, ToBE;
    CtrWidth(ctr);
    Pow256Constants();
    var kidResult := FixedBigEndian(kid, SFRAME_KID_WIDTH);
    var ctrResult := MinimalBigEndian(ctr);
    if kidResult.Err? { return kidResult; }
    if ctrResult.Err? { return ctrResult; }
    var kidBytes, ctrBytes := kidResult.value, ctrResult.value;
    var klen, clen := SFRAME_KID_WIDTH - 1, |ctrBytes| - 1;
    var header := new byte[1 + |kidBytes| + |ctrBytes|](_ => 0);
    ConfigByte(clen);
    var config: byte := Or(Or(0x88, Shl(And(klen, 7), 4)), And(clen, 7));
    header[0] := config;
    forall k | 0 <= k < |kidBytes| { header[1 + k] := kidBytes[k]; }
    forall k | 0 <= k < |ctrBytes| { header[1 + |kidBytes| + k] := ctrBytes[k]; }
    assert header[..] == [config] + kidBytes + ctrBytes;
    return Ok(header[..]);
  }

  lemma ConfigByte(clen: nat)
    requires clen < 8
    ensures Or(Or(0x88, Shl(And(SFRAME_KID_WIDTH - 1, 7), 4)), And(clen, 7)) == 184 + clen
  {
    hide And, Or, Pow2;
    Pow2Constants();
    AndMask(SFRAME_KID_WIDTH - 1, 3);
    AndMask(clen, 3);
    FixedConfigBits(0x88, Shl(And(SFRAME_KID_WIDTH - 1, 7), 4));
    OrDisjoint(23, clen, 3);
  }

  lemma FixedConfigBits(a: nat, b: nat)
    requires a == 0x88 && b == 0x30
    ensures Or(a, b) == 184
  {
    var c, d := a / 16, b / 16;
    OrZero(c / 4);
    assert Or(c / 2, d / 2) == 5;
    assert Or(c, d) == 11;
    assert Or(a / 8, b / 8) == 2 * Or(c, d) + 1;
    assert Or(a / 4, b / 4) == 2 * Or(a / 8, b / 8);
    assert Or(a / 2, b / 2) == 2 * Or(a / 4, b / 4);
  }

  // ----------------------------------------------------------------- parsing

  // The accumulator is a double: rounding starts only above 2^53.
  method ReadBigEndianNumber(buf: seq<byte>, off: nat, len: nat) returns (r: Result<nat, HeaderError>)
    requires off + len <= |buf|
    ensures r == var v := FromBE(buf[off..off + len]);
                 if v < SAFE_LIMIT then Ok(v) else Err(UnsafeKid)
  {
    var out: nat := 0;
    ghost var exact: nat := 0;
    for i := 0 to len
      invariant exact == FromBE(buf[off..off + i])
      invariant if exact < SAFE_LIMIT then out == exact else out >= SAFE_LIMIT
    {
      var sum := out * 256 + buf[off + i];
      SnocSlice(buf, off, i);
      exact := exact * 256 + buf[off + i];
      ToNumberExact(sum);
      if sum >= SAFE_LIMIT { ToNumberUnsafe(sum); }
      out := ToNumber(sum);
    }
    if out >= SAFE_LIMIT { return Err(UnsafeKid); }
    return Ok(out);
  }

  lemma SnocSlice(buf: seq<byte>, off: nat, i: nat)
    requires off + i < |buf|
    ensures FromBE(buf[off..off + i + 1]) == FromBE(buf[off..off + i]) * 256 + buf[off + i]
  {
    var longer := buf[off..off + i + 1];
    assert longer[..i] == buf[off..off + i];
  }

  lemma OrByte(out: nat, b: byte)
    ensures Or(Shl(out, 8), b) == out * 256 + b
  {
    hide Or, Pow2;
    Pow2Constants();
    OrDisjoint(out, b, 8);
  }

  method ReadBigEndianBigInt(buf: seq<byte>, off: nat, len: nat) returns (out: nat)
    requires off + len <= |buf|
    ensures out == FromBE(buf[off..off + len])
  {
    out := 0;
    for i := 0 to len
      invariant out == FromBE(buf[off..off + i])
    {
      hide *;
      OrByte(out, buf[off + i]);
      SnocSlice(buf, off, i);
      out := Or(Shl(out, 8), buf[off + i]);
    }
  }

  // The four fields of the config byte, as quotients and remainders.
  predicate KExt(cfg: byte) { cfg >= 128 }
  function KLen(cfg: byte): nat { (cfg / 16) % 8 }
  predicate CExt(cfg: byte) { (cfg / 8) % 2 == 1 }
  function CLen(cfg: byte): nat { cfg % 8 }

  function KidWidth(cfg: byte): nat { if KExt(cfg) then KLen(cfg) + 1 else 0 }
  function CtrBytes(cfg: byte): nat { if CExt(cfg) then CLen(cfg) + 1 else 0 }

  function Parse(buf: seq<byte>): Result<SFrameHeader, HeaderError> {
    if buf == [] then Err(EmptyBuffer) else
      var cfg := buf[0];
      var mid := 1 + KidWidth(cfg);
      if |buf| < mid then Err(ShortKid) else
        var kid := if KExt(cfg) then FromBE(buf[1..mid]) else KLen(cfg);
        if kid >= SAFE_LIMIT then Err(UnsafeKid) else
          var end := mid + CtrBytes(cfg);
          if |buf| < end then Err(ShortCtr) else
            Ok(SFrameHeader(kid, if CExt(cfg) then FromBE(buf[mid..end]) else CLen(cfg), end))
  }

  lemma ConfigFields(cfg: byte)
    ensures (And(cfg, 0x80) != 0) == KExt(cfg)
    ensures And(Shr(cfg, 4), 7) == KLen(cfg)
    ensures (And(cfg, 0x08) != 0) == CExt(cfg)
    ensures And(cfg, 7) == CLen(cfg)
  {
    hide And, Pow2, Shr;
    Pow2Constants();
    AndBit(cfg, 7);
    AndBit(cfg, 3);
    ShrIsDiv(cfg, 7);
    ShrIsDiv(cfg, 3);
    ShrIsDiv(cfg, 4);
    AndMask(Shr(cfg, 4), 3);
    AndMask(cfg, 3);
  }

  method ParseHeader(buf: seq<byte>) returns (r: Result<SFrameHeader, HeaderError>)
    ensures r == Parse(buf)
  {
    if |buf| < 1 { return Err(EmptyBuffer); }
    var cfg := buf[0];
    ConfigFields(cfg);
    var kExt := And(cfg, 0x80) != 0;
    var klen := And(Shr(cfg, 4), 7);
    var cExt := And(cfg, 0x08) != 0;
    var clen := And(cfg, 7);
    var offset := 1;
    var kid: nat;
    if kExt {
      var need := klen + 1;
      if |buf| < offset + need { return Err(ShortKid); }
      var k := ReadBigEndianNumber(buf, offset, need);
      if k.Err? { return Err(UnsafeKid); }
      kid := k.value;
      offset := offset + need;
    } else {
      kid := klen;
    }
    var ctr: nat;
    if cExt {
      var need := clen + 1;
      if |buf| < offset + need { return Err(ShortCtr); }
      ctr := ReadBigEndianBigInt(buf, offset, need);
      offset := offset + need;
    } else {
      ctr := clen;
    }
    return Ok(SFrameHeader(kid, ctr, offset));
  }

  // -------------------------------------------------------------- properties

  // Parsing undoes serialising, whatever follows the header.
  lemma RoundTrip(kid: nat, ctr: nat, body: seq<byte>)
    requires kid <= MAX_KID && ctr <= MAX_CTR
    ensures Parse(Serialized(kid, ctr) + body)
         == Ok(SFrameHeader(kid, ctr, |Serialized(kid, ctr)|))
  {
    hide MinWidth, ToBE, FromBE, Pow256;
    CtrWidth(ctr);
    var w := MinWidth(ctr);
    var buf := Serialized(kid, ctr) + body;
    assert buf[0] == 184 + (w - 1);
    assert KidWidth(buf[0]) == 4 && CtrBytes(buf[0]) == w;
    assert buf[1..5] == ToBE(kid, 4);
    assert buf[5..5 + w] == ToBE(ctr, w);
    Pow256Constants();
    FromToBE(kid, 4);
    MinWidthFits(ctr);
    FromToBE(ctr, w);
  }

  lemma SerializedInjective(kid: nat, ctr: nat, kid': nat, ctr': nat, body: seq<byte>, body': seq<byte>)
    requires kid <= MAX_KID && ctr <= MAX_CTR && kid' <= MAX_KID && ctr' <= MAX_CTR
    requires Serialized(kid, ctr) + body == Serialized(kid', ctr') + body'
    ensures kid == kid' && ctr == ctr' && body == body'
  {
    RoundTrip(kid, ctr, body);
    RoundTrip(kid', ctr', body');
    var n := |Serialized(kid, ctr)|;
    assert body == (Serialized(kid, ctr) + body)[n..];
    assert body' == (Serialized(kid', ctr') + body')[n..];
  }

  // No header that parses to this counter through an extended field spends
  // fewer bytes on it.
  lemma CtrFieldIsMinimal(buf: seq<byte>, kid: nat, ctr: nat)
    requires kid <= MAX_KID && ctr <= MAX_CTR
    requires Parse(buf).Ok? && Parse(buf).value.ctr == ctr && CExt(buf[0])
    ensures |Serialized(kid, ctr)| - 5 <= CtrBytes(buf[0])
  {
    var mid := 1 + KidWidth(buf[0]);
    var field := buf[mid..mid + CtrBytes(buf[0])];
    FromBEBelow(field);
    MinWidthLeast(ctr, |field|);
  }

  // Arbitrary bytes: the bounds on a successful parse.
  lemma ParseBounds(buf: seq<byte>)
    ensures Parse(buf).Ok? ==>
      var h := Parse(buf).value;
      1 <= h.bodyOffset <= |buf| && h.bodyOffset <= 17 && h.kid < SAFE_LIMIT && h.ctr <= MAX_CTR
  {
    if Parse(buf).Ok? && CExt(buf[0]) {
      var mid := 1 + KidWidth(buf[0]);
      var field := buf[mid..mid + CtrBytes(buf[0])];
      FromBEBelow(field);
      Pow256Monotone(|field|, 8);
      Pow256Constants();
    }
  }

  // Only the header bytes decide the parse: appending a body changes nothing.
  lemma ParsePrefix(buf: seq<byte>, more: seq<byte>)
    requires Parse(buf).Ok?
    ensures Parse(buf + more) == Parse(buf)
  {
    var mid := 1 + KidWidth(buf[0]);
    var end := mid + CtrBytes(buf[0]);
    assert (buf + more)[1..mid] == buf[1..mid];
    assert (buf + more)[mid..end] == buf[mid..end];
  }

  // ------------------------------------------------------- the wire format

  // A header as section 4.3 draws it: for each field, no bytes and three bits
  // of the config byte, or one to eight bytes and their number less one.
  ghost predicate Fits(v: nat, bytes: nat) { bytes <= 8 && if bytes == 0 then v < 8 else v < Pow256(bytes) }

  function Header(kid: nat, kidBytes: nat, ctr: nat, ctrBytes: nat): (h: seq<byte>)
    requires Fits(kid, kidBytes) && Fits(ctr, ctrBytes)
    ensures |h| == 1 + kidBytes + ctrBytes
  {
    var k := if kidBytes > 0 then 128 + (kidBytes - 1) * 16 else kid * 16;
    var c := if ctrBytes > 0 then 8 + (ctrBytes - 1) else ctr;
    [k + c] + ToBE(kid, kidBytes) + ToBE(ctr, ctrBytes)
  }

  lemma ConfigOf(kid: nat, kidBytes: nat, ctr: nat, ctrBytes: nat)
    requires Fits(kid, kidBytes) && Fits(ctr, ctrBytes)
    ensures var cfg := Header(kid, kidBytes, ctr, ctrBytes)[0];
      && KidWidth(cfg) == kidBytes && CtrBytes(cfg) == ctrBytes
      && (kidBytes == 0 ==> KLen(cfg) == kid) && (ctrBytes == 0 ==> CLen(cfg) == ctr)
  {
    hide ToBE, Pow256;
    FieldsOfConfig(Header(kid, kidBytes, ctr, ctrBytes)[0], if kidBytes > 0 then 1 else 0, if kidBytes > 0 then kidBytes - 1 else kid,
                   if ctrBytes > 0 then 1 else 0, if ctrBytes > 0 then ctrBytes - 1 else ctr);
  }

  lemma FieldsOfConfig(cfg: byte, kBit: nat, k: nat, cBit: nat, c: nat)
    requires cfg == kBit * 128 + k * 16 + cBit * 8 + c && kBit <= 1 && cBit <= 1 && k < 8 && c < 8
    ensures (KExt(cfg) <==> kBit == 1) && KLen(cfg) == k && (CExt(cfg) <==> cBit == 1) && CLen(cfg) == c
  {
    assert cfg / 8 == kBit * 16 + k * 2 + cBit;
    assert cfg / 16 == kBit * 8 + k;
  }

  // Every such header parses to its fields, or is refused for an identifier
  // that a double cannot count.
  lemma EveryHeaderParses(kid: nat, kidBytes: nat, ctr: nat, ctrBytes: nat, body: seq<byte>)
    requires Fits(kid, kidBytes) && Fits(ctr, ctrBytes)
    ensures Parse(Header(kid, kidBytes, ctr, ctrBytes) + body)
         == if kid < SAFE_LIMIT then Ok(SFrameHeader(kid, ctr, 1 + kidBytes + ctrBytes)) else Err(UnsafeKid)
  {
    hide ToBE, FromBE, Pow256, KidWidth, CtrBytes, KLen, CLen;
    ConfigOf(kid, kidBytes, ctr, ctrBytes);
    var buf := Header(kid, kidBytes, ctr, ctrBytes) + body;
    var mid := 1 + kidBytes;
    assert buf[1..mid] == ToBE(kid, kidBytes) && buf[mid..mid + ctrBytes] == ToBE(ctr, ctrBytes);
    if kidBytes > 0 { FromToBE(kid, kidBytes); }
    if ctrBytes > 0 { FromToBE(ctr, ctrBytes); }
    WidthIsExtension(buf[0]);
  }

  lemma WidthIsExtension(cfg: byte)
    ensures KExt(cfg) <==> KidWidth(cfg) > 0
    ensures CExt(cfg) <==> CtrBytes(cfg) > 0
  {
  }

  // And nothing else parses: what a parse takes off is the header of its
  // fields.
  lemma ParseTakesAHeader(buf: seq<byte>)
    requires Parse(buf).Ok?
    ensures var h := Parse(buf).value;
      var kidBytes, ctrBytes := KidWidth(buf[0]), CtrBytes(buf[0]);
      && h.bodyOffset == 1 + kidBytes + ctrBytes <= |buf|
      && Fits(h.kid, kidBytes) && Fits(h.ctr, ctrBytes)
      && buf[..h.bodyOffset] == Header(h.kid, kidBytes, h.ctr, ctrBytes)
  {
    hide ToBE, FromBE, Pow256, KExt, KLen, CExt, CLen, KidWidth, CtrBytes;
    var h := Parse(buf).value;
    var kidBytes, ctrBytes := KidWidth(buf[0]), CtrBytes(buf[0]);
    var mid := 1 + kidBytes;
    WidthIsExtension(buf[0]);
    ConfigFromFields(buf[0]);
    FieldOf(h.kid, buf[1..mid]);
    FieldOf(h.ctr, buf[mid..mid + ctrBytes]);
    assert buf[..h.bodyOffset] == [buf[0]] + buf[1..mid] + buf[mid..mid + ctrBytes];
  }

  lemma ConfigFromFields(cfg: byte)
    ensures cfg == (if KidWidth(cfg) > 0 then 128 + (KidWidth(cfg) - 1) * 16 else KLen(cfg) * 16)
                 + (if CtrBytes(cfg) > 0 then 8 + (CtrBytes(cfg) - 1) else CLen(cfg))
    ensures KLen(cfg) < 8 && CLen(cfg) < 8 && KidWidth(cfg) <= 8 && CtrBytes(cfg) <= 8
  {
  }

  lemma FieldOf(v: nat, field: seq<byte>)
    ensures field == [] ==> ToBE(v, 0) == field
    ensures v == FromBE(field) ==> v < Pow256(|field|) && ToBE(v, |field|) == field
  {
    FromBEBelow(field);
    ToFromBE(field);
  }

  // A header cut short does not parse.
  lemma CutHeaderFails(kid: nat, kidBytes: nat, ctr: nat, ctrBytes: nat, i: nat)
    requires Fits(kid, kidBytes) && Fits(ctr, ctrBytes) && i < 1 + kidBytes + ctrBytes
    ensures Parse(Header(kid, kidBytes, ctr, ctrBytes)[..i]).Err?
  {
    hide ToBE, FromBE, Pow256, KidWidth, CtrBytes, KLen, CLen;
    ConfigOf(kid, kidBytes, ctr, ctrBytes);
    if i > 0 { assert Header(kid, kidBytes, ctr, ctrBytes)[..i][0] == Header(kid, kidBytes, ctr, ctrBytes)[0]; }
  }

  // What a sender serialises: four bytes of identifier, the fewest of counter.
  lemma SerializedIsHeader(kid: nat, ctr: nat)
    requires kid <= MAX_KID && ctr <= MAX_CTR
    ensures Fits(kid, 4) && Fits(ctr, MinWidth(ctr)) && Serialized(kid, ctr) == Header(kid, 4, ctr, MinWidth(ctr))
  {
    CtrWidth(ctr);
    Pow256Constants();
    MinWidthFits(ctr);
  }
}
