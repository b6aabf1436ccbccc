// src/kid-format.ts: the MLS key identifier of RFC 9605, section 5.2, and the
// codec that hides which of the two identifier layouts is in use.
module KidFormat {
  import opened Bits
  import opened Bytes
  import opened JsNumber
  import opened RatchetIds

  datatype MlsKidConfig = MlsKidConfig(nEpochBits: int, nIndexBits: int, contextId: int)

  predicate ValidWidths(e: int, s: int) { 1 <= e && 1 <= s && e + s <= 63 }

  function ValidateMlsBitRange(e: int, s: int): (r: Result<(), KidError>)
    ensures r.Ok? <==> ValidWidths(e, s)
    ensures r != Err(SumTooWide)  // the last test repeats the one before it
  {
    if e < 1 then Err(EpochBits)
    else if s < 1 then Err(IndexBits)
    else if e >= 63 then Err(EpochBitsTooWide)
    else if s >= 64 - e then Err(IndexBitsTooWide)
    else if e + s >= 64 then Err(SumTooWide)
    else Ok(())
  }

  function EncodeMlsKid(epoch: int, index: int, config: MlsKidConfig): Result<nat, KidError> {
    var MlsKidConfig(e, s, contextId) := config;
    var widths := ValidateMlsBitRange(e, s);
    if widths.Err? then Err(widths.error)
    else if epoch < 0 || epoch > Pow2(e) - 1 then Err(EpochRange)
    else if index < 0 || index > Pow2(s) - 1 then Err(IndexRange)
    else if contextId < 0 || contextId > Pow2(64 - e - s) - 1 then Err(ContextRange)
    else Ok(Or(Or(Shl(contextId, e + s), Shl(index, e)), epoch))
  }

  datatype MlsFields = MlsFields(epoch: nat, index: nat, contextId: nat)

  function DecodeMlsKid(kid: int, config: MlsKidConfig): Result<MlsFields, KidError> {
    var MlsKidConfig(e, s, _) := config;
    var widths := ValidateMlsBitRange(e, s);
    if widths.Err? then Err(widths.error)
    else if kid < 0 || kid > 0xffff_ffff_ffff_ffff then Err(KidRange)
    else Ok(MlsFields(ToNumber(And(kid, Pow2(e) - 1)),
                      ToNumber(And(Shr(kid, e), Pow2(s) - 1)),
                      Shr(kid, e + s)))
  }

  ghost predicate InRange(epoch: int, index: int, config: MlsKidConfig) {
    var MlsKidConfig(e, s, c) := config;
    && ValidWidths(e, s)
    && 0 <= epoch < Pow2(e) && 0 <= index < Pow2(s) && 0 <= c < Pow2(64 - e - s)
  }

  // The packed value of three fields, as a sum of products.
  ghost function Packed(epoch: nat, index: nat, c: nat, e: nat, s: nat): nat {
    (c * Pow2(s) + index) * Pow2(e) + epoch
  }

  lemma PackedAsSum(epoch: nat, index: nat, c: nat, e: nat, s: nat)
    ensures Packed(epoch, index, c, e, s) == c * Pow2(e + s) + index * Pow2(e) + epoch
  {
    hide Pow2;
    Pow2Add(e, s);
    Distribute(c, index, Pow2(s), Pow2(e));
  }

  lemma Distribute(c: nat, index: nat, q: nat, p: nat)
    ensures (c * q + index) * p == c * (p * q) + index * p
  {
    assert (c * q) * p == c * (p * q);
  }

  lemma PackedBelow(epoch: nat, index: nat, c: nat, e: nat, s: nat, t: nat)
    requires epoch < Pow2(e) && index < Pow2(s) && c < Pow2(t)
    ensures Packed(epoch, index, c, e, s) < Pow2(t + s + e)
  {
    FieldBelow(c, index, t, s);
    FieldBelow(c * Pow2(s) + index, epoch, t + s, e);
  }

  lemma FieldBelow(high: nat, low: nat, t: nat, n: nat)
    requires high < Pow2(t) && low < Pow2(n)
    ensures high * Pow2(n) + low < Pow2(t + n)
  {
    Pow2Add(t, n);
    MulAtLeast(Pow2(t), high + 1, Pow2(n), Pow2(n));
    assert (high + 1) * Pow2(n) == high * Pow2(n) + Pow2(n);
  }

  lemma OrPacked(epoch: nat, index: nat, c: nat, e: nat, s: nat)
    requires epoch < Pow2(e) && index < Pow2(s)
    ensures Or(Or(Shl(c, e + s), Shl(index, e)), epoch) == Packed(epoch, index, c, e, s)
  {
    hide Or, Pow2;
    var p, q := Pow2(e), Pow2(s);
    assert c * Pow2(e + s) == (c * q) * p by {
      Pow2Add(e, s);
      assert c * (p * q) == (c * q) * p;
    }
    OrShifted(c * q, index, e);
    OrDisjoint(c, index, s);
    OrDisjoint(c * q + index, epoch, e);
  }

  lemma Packed64(epoch: nat, index: nat, c: nat, e: nat, s: nat)
    requires e + s <= 64 && epoch < Pow2(e) && index < Pow2(s) && c < Pow2(64 - e - s)
    ensures Packed(epoch, index, c, e, s) < 0x1_0000_0000_0000_0000
  {
    hide Pow2;
    PackedBelow(epoch, index, c, e, s, 64 - e - s);
    assert (64 - e - s) + s + e == 64;
    Pow2Constants();
  }

  // Shifts and ors compute the sum, which fits 64 bits; the range errors are
  // exactly the fields that do not fit.
  lemma EncodeIsSum(epoch: int, index: int, config: MlsKidConfig)
    ensures EncodeMlsKid(epoch, index, config).Ok? <==> InRange(epoch, index, config)
    ensures InRange(epoch, index, config) ==>
      var MlsKidConfig(e, s, c) := config;
      var kid := EncodeMlsKid(epoch, index, config).value;
      kid == c * Pow2(e + s) + index * Pow2(e) + epoch && kid < 0x1_0000_0000_0000_0000
  {
    hide Or, Pow2, Shl;
    if InRange(epoch, index, config) {
      var MlsKidConfig(e, s, c) := config;
      OrPacked(epoch, index, c, e, s);
      PackedAsSum(epoch, index, c, e, s);
      Packed64(epoch, index, c, e, s);
    }
  }

  lemma {:induction false} OrShifted(a: nat, b: nat, n: nat)
    ensures Or(a * Pow2(n), b * Pow2(n)) == Or(a, b) * Pow2(n)
  {
    hide Or;
    if n > 0 {
      var p := Pow2(n - 1);
      OrShifted(a, b, n - 1);
      OrDouble(a * p, b * p);
      assert a * Pow2(n) == 2 * (a * p) && b * Pow2(n) == 2 * (b * p);
      assert Or(a, b) * Pow2(n) == 2 * (Or(a, b) * p);
    }
  }

  lemma OrDouble(a: nat, b: nat)
    ensures Or(2 * a, 2 * b) == 2 * Or(a, b)
  {
  }

  lemma Unpack(epoch: nat, index: nat, c: nat, e: nat, s: nat)
    requires epoch < Pow2(e) && index < Pow2(s)
    ensures var kid := Packed(epoch, index, c, e, s);
      && And(kid, Pow2(e) - 1) == epoch
      && And(Shr(kid, e), Pow2(s) - 1) == index
      && Shr(kid, e + s) == c
  {
    hide And, Shr, Pow2;
    var high := c * Pow2(s) + index;
    var kid := Packed(epoch, index, c, e, s);
    DivModUnique(kid, Pow2(e), high, epoch);
    AndMask(kid, e);
    ShrIsDiv(kid, e);
    DivModUnique(high, Pow2(s), c, index);
    AndMask(high, s);
    ShrIsDiv(high, s);
    ShrAdd(kid, e, s);
  }

  lemma {:induction false} ShrAdd(a: nat, m: nat, n: nat)
    ensures Shr(a, m + n) == Shr(Shr(a, m), n)
  {
    if m > 0 { ShrAdd(a / 2, m - 1, n); }
  }

  // The arguments of encode are numbers, so they are representable; decoding
  // gives back all three fields.
  lemma DecodeUndoesEncode(epoch: nat, index: nat, config: MlsKidConfig)
    requires InRange(epoch, index, config) && Representable(epoch) && Representable(index)
    ensures EncodeMlsKid(epoch, index, config).Ok?
    ensures DecodeMlsKid(EncodeMlsKid(epoch, index, config).value, config)
         == Ok(MlsFields(epoch, index, config.contextId))
  {
    hide And, Or, Shr, Pow2, ToNumber, Representable;
    var MlsKidConfig(e, s, c) := config;
    EncodeIsSum(epoch, index, config);
    PackedAsSum(epoch, index, c, e, s);
    Unpack(epoch, index, c, e, s);
    ToNumberExact(epoch);
    ToNumberExact(index);
  }

  lemma EncodeInjective(epoch: nat, index: nat, epoch': nat, index': nat, config: MlsKidConfig)
    requires InRange(epoch, index, config) && InRange(epoch', index', config)
    requires EncodeMlsKid(epoch, index, config) == EncodeMlsKid(epoch', index', config)
    ensures epoch == epoch' && index == index'
  {
    hide And, Or, Shr, Pow2;
    var MlsKidConfig(e, s, c) := config;
    EncodeIsSum(epoch, index, config);
    EncodeIsSum(epoch', index', config);
    PackedAsSum(epoch, index, c, e, s);
    PackedAsSum(epoch', index', c, e, s);
    Unpack(epoch, index, c, e, s);
    Unpack(epoch', index', c, e, s);
  }

  ghost function EpochField(kid: nat, e: nat): nat { And(kid, Pow2(e) - 1) }

  ghost function IndexField(kid: nat, e: nat, s: nat): nat { And(Shr(kid, e), Pow2(s) - 1) }

  lemma Split(kid: nat, e: nat, s: nat)
    ensures kid == Packed(EpochField(kid, e), IndexField(kid, e, s), Shr(kid, e + s), e, s)
    ensures EpochField(kid, e) < Pow2(e) && IndexField(kid, e, s) < Pow2(s)
  {
    hide And, Shr, Pow2;
    Cut(kid, e);
    Cut(Shr(kid, e), s);
    ShrAdd(kid, e, s);
  }

  // The other direction loses bits of fields wider than a double: re-encoding
  // a decoded identifier gives it back exactly when both fields, as cut out of
  // the identifier, are representable.
  lemma EncodeUndoesDecodeIff(kid: nat, e: int, s: int)
    requires ValidWidths(e, s) && kid < 0x1_0000_0000_0000_0000
    ensures var fields := DecodeMlsKid(kid, MlsKidConfig(e, s, 0)).value;
      EncodeMlsKid(fields.epoch, fields.index, MlsKidConfig(e, s, fields.contextId)) == Ok(kid)
      <==> Representable(EpochField(kid, e)) && Representable(IndexField(kid, e, s))
  {
    hide And, Or, Shl, Shr, Pow2, ToNumber, Representable, EncodeMlsKid;
    var low, mid, c := EpochField(kid, e), IndexField(kid, e, s), Shr(kid, e + s);
    var config := MlsKidConfig(e, s, c);
    ToNumberExact(low);
    ToNumberExact(mid);
    ContextFits(kid, e, s);
    Reencode(kid, e, s);
    if EncodeMlsKid(ToNumber(low), ToNumber(mid), config) == Ok(kid) {
      EncodeIsSum(low, mid, config);
      EncodeIsSum(ToNumber(low), ToNumber(mid), config);
      EncodeInjective(ToNumber(low), ToNumber(mid), low, mid, config);
    }
  }

  lemma Reencode(kid: nat, e: int, s: int)
    requires ValidWidths(e, s) && Shr(kid, e + s) < Pow2(64 - e - s)
    ensures EncodeMlsKid(EpochField(kid, e), IndexField(kid, e, s), MlsKidConfig(e, s, Shr(kid, e + s))) == Ok(kid)
  {
    hide And, Or, Shl, Shr, Pow2, EncodeMlsKid;
    var low, mid, c := EpochField(kid, e), IndexField(kid, e, s), Shr(kid, e + s);
    Split(kid, e, s);
    PackedAsSum(low, mid, c, e, s);
    EncodeIsSum(low, mid, MlsKidConfig(e, s, c));
  }

  lemma ContextFits(kid: nat, e: int, s: int)
    requires ValidWidths(e, s) && kid < 0x1_0000_0000_0000_0000
    ensures Shr(kid, e + s) < Pow2(64 - e - s)
  {
    hide Pow2, Shr, And;
    var n, c := e + s, Shr(kid, e + s);
    Cut(kid, n);
    Pow2Add(64 - n, n);
    Pow2Constants();
    if c >= Pow2(64 - n) { MulAtLeast(c, Pow2(64 - n), Pow2(n), Pow2(n)); }
  }

  // A wide epoch field that a double cannot hold: 2^53 + 1 decodes to 2^53.
  lemma WideEpochIsLossy(kid: nat)
    requires kid == 0x20_0000_0000_0001
    ensures DecodeMlsKid(kid, MlsKidConfig(62, 1, 0)).Ok?
    ensures DecodeMlsKid(kid, MlsKidConfig(62, 1, 0)).value.epoch == kid - 1
  {
    hide And, Pow2, ToNumber, Shr;
    Pow2Monotone(56, 62);
    Pow2Constants();
    Pow2Add(32, 16);
    Pow2Add(48, 8);
    AndMask(kid, 62);
    RoundsDown(kid);
  }

  lemma RoundsDown(n: nat)
    requires n == 0x20_0000_0000_0001
    ensures ToNumber(n) == n - 1
  {
    assert Exponent(n / 2) == 0;
    assert Exponent(n) == 1;
    assert Pow2(1) == 2;
  }

  // --------------------------------------------------------------- KidCodec

  datatype KidCodec = Fixed | Mls(config: MlsKidConfig) {
    predicate Valid() { Mls? ==> ValidWidths(config.nEpochBits, config.nIndexBits) }

    function Encode(epoch: int, peerIndex: int): Result<nat, KidError> {
      match this
      case Fixed => MakeKid(epoch, peerIndex)
      case Mls(config) =>
        var big := EncodeMlsKid(epoch, peerIndex, config);
        if big.Ok? && big.value > 0xffff_ffff then Err(WireWidth) else big
    }

    // Total on parsed identifiers, which are below 2^53.
    function Decode(kid: nat): (int, int)
      requires Valid() && kid < SAFE_LIMIT
    {
      match this
      case Fixed => SplitKid(kid)
      case Mls(config) =>
        var fields := DecodeMlsKid(kid, config).value;
        (fields.epoch, fields.index)
    }
  }

  lemma DecodeIsNat(codec: KidCodec, kid: nat)
    requires codec.Valid() && kid < SAFE_LIMIT
    ensures codec.Decode(kid).0 >= 0 && codec.Decode(kid).1 >= 0
  {
    if codec.Fixed? { SplitKidLow32(kid); }
  }

  datatype KidFormatName = FixedFormat | MlsFormat

  datatype CodecError = MissingConfig | BadConfig(error: KidError)

  function MakeKidCodec(format: KidFormatName, mlsConfig: Option<MlsKidConfig>): (r: Result<KidCodec, CodecError>)
    ensures r.Ok? ==> r.value.Valid()
    ensures format.MlsFormat? && mlsConfig.Some? ==>
      (r.Ok? <==> ValidWidths(mlsConfig.value.nEpochBits, mlsConfig.value.nIndexBits))
  {
    if format.FixedFormat? then Ok(Fixed)
    else if mlsConfig.None? then Err(MissingConfig)
    else
      var widths := ValidateMlsBitRange(mlsConfig.value.nEpochBits, mlsConfig.value.nIndexBits);
      if widths.Err? then Err(BadConfig(widths.error)) else Ok(Mls(mlsConfig.value))
  }

  // The fixed format needs no configuration: epoch * 2^16 + peer, and back.
  lemma FixedCodecMeaning(mlsConfig: Option<MlsKidConfig>, epoch: int, peerIndex: int, kid: nat)
    requires kid < SAFE_LIMIT
    ensures var made := MakeKidCodec(FixedFormat, mlsConfig);
      && made.Ok?
      && (made.value.Encode(epoch, peerIndex).Ok? <==> 0 <= epoch <= 0xffff && 0 <= peerIndex <= 0xffff)
      && (made.value.Encode(epoch, peerIndex).Ok? ==> made.value.Encode(epoch, peerIndex).value == epoch * 0x1_0000 + peerIndex)
      && made.value.Decode(kid) == ((kid % TWO32) / 0x1_0000, kid % 0x1_0000)
  {
    hide SplitKid;
    if 0 <= epoch <= 0xffff && 0 <= peerIndex <= 0xffff { MakeKidIsSum(epoch, peerIndex); }
    SplitKidLow32(kid);
  }

  // The MLS format needs one: without it, or with invalid widths, there is no
  // codec; otherwise the codec packs context, index and epoch of this very
  // configuration, as far as they fit the wire, and cuts them out again.
  lemma MlsCodecMeaning(config: MlsKidConfig, epoch: int, index: int, kid: nat)
    requires kid < SAFE_LIMIT
    ensures MakeKidCodec(MlsFormat, None) == Err(MissingConfig)
    ensures var MlsKidConfig(e, s, c) := config;
      var made := MakeKidCodec(MlsFormat, Some(config));
      && (made.Ok? <==> ValidWidths(e, s))
      && (made.Err? ==> made.error.BadConfig? && ValidateMlsBitRange(e, s) == Err(made.error.error))
      && (made.Ok? ==>
           var r := made.value.Encode(epoch, index);
           && (r.Ok? <==> InRange(epoch, index, config) && c * Pow2(e + s) + index * Pow2(e) + epoch < 0x1_0000_0000)
           && (r.Ok? ==> r.value == c * Pow2(e + s) + index * Pow2(e) + epoch)
           && made.value.Decode(kid) == (kid % Pow2(e), (kid / Pow2(e)) % Pow2(s)))
  {
    hide And, Or, Shr, Pow2, ToNumber, Representable;
    var MlsKidConfig(e, s, c) := config;
    EncodeIsSum(epoch, index, config);
    if ValidWidths(e, s) { SafeFields(kid, e, s); }
  }

  // The fields of a safe identifier are exact as doubles.
  lemma SafeFields(kid: nat, e: nat, s: nat)
    requires kid < SAFE_LIMIT
    ensures ToNumber(And(kid, Pow2(e) - 1)) == kid % Pow2(e)
    ensures ToNumber(And(Shr(kid, e), Pow2(s) - 1)) == (kid / Pow2(e)) % Pow2(s)
  {
    hide And, Shr, Pow2, ToNumber, Representable;
    AndMask(kid, e);
    ShrIsDiv(kid, e);
    AndMask(Shr(kid, e), s);
    ModAtMost(kid, Pow2(e));
    DivAtMost(kid, Pow2(e));
    ModAtMost(kid / Pow2(e), Pow2(s));
    ToNumberExact(kid % Pow2(e));
    ToNumberExact((kid / Pow2(e)) % Pow2(s));
  }

  lemma ModAtMost(n: nat, p: nat)
    requires p >= 1
    ensures n % p <= n
  {
    assert n == (n / p) * p + n % p;
  }

  lemma DivAtMost(n: nat, p: nat)
    requires p >= 1
    ensures n / p <= n
  {
    var q := n / p;
    assert n == q * p + n % p;
    MulAtLeast(p, 1, q, q);
  }

  // An identifier that either codec puts on the wire fits 32 bits and decodes
  // to the epoch and peer it was made from.
  lemma CodecRoundTrip(codec: KidCodec, epoch: int, peerIndex: int)
    requires codec.Valid() && codec.Encode(epoch, peerIndex).Ok?
    ensures var kid := codec.Encode(epoch, peerIndex).value;
      kid <= 0xffff_ffff && codec.Decode(kid) == (epoch, peerIndex) && epoch >= 0 && peerIndex >= 0
  {
    match codec
    case Fixed =>
      SplitUndoesMake(epoch, peerIndex);
    case Mls(config) =>
      hide And, Or, Shr, Pow2, ToNumber, Representable;
      EncodeIsSum(epoch, peerIndex, config);
      var kid := EncodeMlsKid(epoch, peerIndex, config).value;
      assert config.contextId * Pow2(config.nEpochBits + config.nIndexBits) >= 0;
      assert peerIndex * Pow2(config.nEpochBits) >= peerIndex by {
        MulAtLeast(Pow2(config.nEpochBits), 1, peerIndex, peerIndex);
      }
      assert epoch < SAFE_LIMIT && peerIndex < SAFE_LIMIT;
      ToNumberExact(epoch);
      ToNumberExact(peerIndex);
      DecodeUndoesEncode(epoch, peerIndex, config);
  }

  lemma CodecInjective(codec: KidCodec, epoch: int, peerIndex: int, epoch': int, peerIndex': int)
    requires codec.Valid()
    requires codec.Encode(epoch, peerIndex).Ok? && codec.Encode(epoch, peerIndex) == codec.Encode(epoch', peerIndex')
    ensures epoch == epoch' && peerIndex == peerIndex'
  {
    CodecRoundTrip(codec, epoch, peerIndex);
    CodecRoundTrip(codec, epoch', peerIndex');
  }
}
