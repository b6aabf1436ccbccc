// src/sframe.ts: nonce, additional data and frame layout around an abstract
// AES-GCM, and the prefix table of src/codec-partial.ts.
module Sframe {
  import opened Bits
  import opened Bytes
  import opened JsNumber
  import opened KidFormat
  import opened SframeHeader

  // ------------------------------------------------------------------ AEAD

  type RawKey = seq<byte>

  const AEAD_TAG_BYTES: nat := 16
  const IV_BYTES: nat := 12

  // Sealing and opening take key, nonce, additional data and text.
  datatype Aead = Aead(
    seal: (RawKey, seq<byte>, seq<byte>, seq<byte>) -> seq<byte>,
    open: (RawKey, seq<byte>, seq<byte>, seq<byte>) -> Option<seq<byte>>)
  {
    // Everything the proofs ask of AES-GCM: sealing adds a tag, opening with
    // the same parameters undoes it. Nothing is assumed of other parameters.
    ghost predicate Lawful() {
      forall k, n, a, p ::
        |seal(k, n, a, p)| == |p| + AEAD_TAG_BYTES && open(k, n, a, seal(k, n, a, p)) == Some(p)
    }

    // One sealed text opens under nothing but the key, nonce and data it was
    // sealed with. Of all texts at once this cannot hold: there are more data
    // than tags.
    ghost predicate OpensOnlyAs(key: RawKey, nonce: seq<byte>, data: seq<byte>, text: seq<byte>) {
      forall k, n, a :: open(k, n, a, seal(key, nonce, data, text)).Some? ==> k == key && n == nonce && a == data
    }
  }

  // The laws have a model: a constant tag.
  function TaggingAead(): (aead: Aead)
    ensures aead.Lawful()
  {
    Aead((k, n, a, p) => p + seq(AEAD_TAG_BYTES, i => 0),
         (k, n, a, c) => if |c| < AEAD_TAG_BYTES then None else Some(c[..|c| - AEAD_TAG_BYTES]))
  }

  // The stronger law has a model for every text: a second tag, kept for it.
  const Mark: seq<byte> := seq(AEAD_TAG_BYTES, i => 1)

  function MarkingAead(key: RawKey, nonce: seq<byte>, data: seq<byte>, text: seq<byte>): (aead: Aead)
    ensures aead.Lawful() && aead.OpensOnlyAs(key, nonce, data, text)
    ensures aead.seal(key, nonce, data, text) == text + Mark
    ensures forall k, n, a, c | |c| >= AEAD_TAG_BYTES && c[|c| - AEAD_TAG_BYTES..] == Mark ::
      aead.open(k, n, a, c).Some? ==> a == data && c == text + Mark
  {
    var plain := seq(AEAD_TAG_BYTES, i => 0);
    assert Mark[0] != plain[0];
    Aead((k, n, a, p) => p + if k == key && n == nonce && a == data && p == text then Mark else plain,
         (k, n, a, c) =>
           if |c| < AEAD_TAG_BYTES then None
           else if c[|c| - AEAD_TAG_BYTES..] == Mark && !(k == key && n == nonce && a == data && c == text + Mark) then None
           else Some(c[..|c| - AEAD_TAG_BYTES]))
  }

  datatype SenderKey = SenderKey(kid: nat, raw: RawKey, salt: seq<byte>)

  datatype SframeError = HeaderParse(error: HeaderError) | AeadAuth | KeyNotFound | BadSalt
                       | StaleEpoch | Replay | KeyInvalid | RatchetExhausted | PeerIndexRange

  // ----------------------------------------------------------------- nonce

  function XorByte(a: byte, b: byte): byte {
    Pow2Constants();
    XorBelow(a, b, 8);
    Xor(a, b)
  }

  // Salt xor the counter, left-padded to twelve bytes.
  function Iv(salt: seq<byte>, ctr: nat): (iv: seq<byte>)
    requires |salt| == IV_BYTES
    ensures |iv| == IV_BYTES
  {
    seq(IV_BYTES, i requires 0 <= i < IV_BYTES => XorByte(ToBE(ctr, IV_BYTES)[i], salt[i]))
  }

  lemma {:induction false} ToBEZero(width: nat)
    ensures ToBE(0, width) == seq(width, i => 0)
  {
    if width > 0 { ToBEZero(width - 1); }
  }

  // First loop of deriveIv: the counter into the low end of a zeroed buffer.
  method PadCounter(ctr: nat) returns (iv: array<byte>)
    ensures fresh(iv) && iv[..] == ToBE(ctr, IV_BYTES)
  {
    hide And, Shr;
    iv := new byte[IV_BYTES](_ => 0);
    var v: nat := ctr;
    var i: int := IV_BYTES - 1;
    while i >= 0 && v > 0
      invariant -1 <= i < IV_BYTES
      invariant forall k | 0 <= k <= i :: iv[k] == 0
      invariant ToBE(v, i + 1) + iv[i + 1..] == ToBE(ctr, IV_BYTES)
      decreases i
    {
      LowByte(v);
      var low: byte := And(v, 0xff);
      PeelLow(v, i + 1, iv[i + 1..]);
      iv[i] := low;
      assert iv[i..] == [low] + iv[i + 1..];
      v := Shr(v, 8);
      i := i - 1;
    }
    hide ToBE;
    if i >= 0 { ToBEZero(i + 1); }
    assert ToBE(v, i + 1) == iv[..i + 1];
    assert iv[..] == iv[..i + 1] + iv[i + 1..];
  }

  method DeriveIv(salt: seq<byte>, ctr: nat) returns (r: Result<seq<byte>, SframeError>)
    ensures r == if |salt| == IV_BYTES then Ok(Iv(salt, ctr)) else Err(BadSalt)
  {
    hide ToBE, XorByte;
    if |salt| != IV_BYTES { return Err(BadSalt); }
    var iv := PadCounter(ctr);
    for j := 0 to IV_BYTES
      invariant iv.Length == IV_BYTES
      invariant forall k | 0 <= k < j :: iv[k] == Iv(salt, ctr)[k]
      invariant forall k | j <= k < IV_BYTES :: iv[k] == ToBE(ctr, IV_BYTES)[k]
    {
      iv[j] := XorByte(iv[j], salt[j]);
    }
    assert iv[..] == Iv(salt, ctr);
    return Ok(iv[..]);
  }

  // Under one salt, different counters never share a nonce.
  lemma IvInjective(salt: seq<byte>, ctr: nat, ctr': nat)
    requires |salt| == IV_BYTES && ctr <= MAX_CTR && ctr' <= MAX_CTR
    requires Iv(salt, ctr) == Iv(salt, ctr')
    ensures ctr == ctr'
  {
    hide Xor, ToBE;
    var a, b := ToBE(ctr, IV_BYTES), ToBE(ctr', IV_BYTES);
    forall i | 0 <= i < IV_BYTES ensures a[i] == b[i] {
      assert Iv(salt, ctr)[i] == Iv(salt, ctr')[i];
      XorCancels(a[i], b[i], salt[i]);
    }
    assert a == b;
    Pow256Constants();
    FromToBE(ctr, IV_BYTES);
    FromToBE(ctr', IV_BYTES);
  }

  // The nonce is the counter, most significant byte first, under the salt:
  // taking the salt off leaves twelve bytes worth the counter.
  lemma IvIsCounter(salt: seq<byte>, ctr: nat)
    requires |salt| == IV_BYTES && ctr < Pow256(IV_BYTES)
    ensures FromBE(seq(IV_BYTES, i requires 0 <= i < IV_BYTES => XorByte(Iv(salt, ctr)[i], salt[i]))) == ctr
    ensures (forall i | 0 <= i < IV_BYTES :: salt[i] == 0) ==> FromBE(Iv(salt, ctr)) == ctr
  {
    hide Xor, ToBE, FromBE, Pow256;
    var iv, bytes := Iv(salt, ctr), ToBE(ctr, IV_BYTES);
    var unsalted := seq(IV_BYTES, i requires 0 <= i < IV_BYTES => XorByte(iv[i], salt[i]));
    forall i | 0 <= i < IV_BYTES ensures unsalted[i] == bytes[i] && (salt[i] == 0 ==> iv[i] == bytes[i]) {
      XorTwice(bytes[i], salt[i]);
      XorZero(bytes[i]);
    }
    assert unsalted == bytes;
    FromToBE(ctr, IV_BYTES);
    if forall i | 0 <= i < IV_BYTES :: salt[i] == 0 { assert iv == bytes; }
  }

  lemma {:induction false} XorZero(a: nat)
    ensures Xor(a, 0) == a
  {
    if a > 0 { XorZero(a / 2); }
  }

  // ------------------------------------------------------- additional data

  datatype AadForm = HeaderForm | PrefixForm | CanonicalForm

  function Be16(n: nat): seq<byte> { [n / 256 % 256, n % 256] }

  function Aad(prefix: seq<byte>, header: seq<byte>, form: AadForm): seq<byte> {
    match form
    case HeaderForm => header
    case PrefixForm => prefix + header
    case CanonicalForm => Be16(|prefix|) + prefix + header
  }

  method BuildAad(prefix: seq<byte>, header: seq<byte>, form: AadForm) returns (bytes: seq<byte>)
    ensures bytes == Aad(prefix, header, form)
  {
    var plen := |prefix|;
    match form {
      case HeaderForm =>
        return header;
      case PrefixForm =>
        if plen == 0 { return header; }
        var aad := new byte[plen + |header|](_ => 0);
        forall k | 0 <= k < plen { aad[k] := prefix[k]; }
        forall k | 0 <= k < |header| { aad[plen + k] := header[k]; }
        assert aad[..] == prefix + header;
        return aad[..];
      case CanonicalForm =>
        bytes := BuildCanonicalAad(prefix, header);
    }
  }

  method BuildCanonicalAad(prefix: seq<byte>, header: seq<byte>) returns (bytes: seq<byte>)
    ensures bytes == Aad(prefix, header, CanonicalForm)
  {
    hide And, Shr;
    var plen := |prefix|;
    var aad := new byte[2 + plen + |header|](_ => 0);
    LowByte(plen);
    LowByte(Shr(plen, 8));
    aad[0] := And(Shr(plen, 8), 0xff);
    aad[1] := And(plen, 0xff);
    forall k | 0 <= k < plen { aad[2 + k] := prefix[k]; }
    forall k | 0 <= k < |header| { aad[2 + plen + k] := header[k]; }
    assert aad[..] == Be16(plen) + prefix + header;
    return aad[..];
  }

  // Where the prefix is part of the data, equal data come from equal parts
  // exactly when the prefixes are equally long.
  lemma EqualAadSplitsAlike(prefix: seq<byte>, header: seq<byte>, prefix': seq<byte>, header': seq<byte>, form: AadForm)
    requires !form.HeaderForm? && Aad(prefix, header, form) == Aad(prefix', header', form)
    ensures prefix == prefix' && header == header' <==> |prefix| == |prefix'|
  {
    var a, b := Aad(prefix, header, form), Aad(prefix', header', form);
    var at := if form.CanonicalForm? then 2 else 0;
    assert prefix == a[at..at + |prefix|] && header == a[at + |prefix|..];
    assert prefix' == b[at..at + |prefix'|] && header' == b[at + |prefix'|..];
  }

  // The canonical form carries that length, modulo 2^16: it determines where
  // the prefix ends for every prefix whose length fits its two bytes.
  lemma CanonicalAadInjective(prefix: seq<byte>, header: seq<byte>, prefix': seq<byte>, header': seq<byte>)
    requires Aad(prefix, header, CanonicalForm) == Aad(prefix', header', CanonicalForm)
    ensures |prefix| % 0x1_0000 == |prefix'| % 0x1_0000
    ensures |prefix| < 0x1_0000 && |prefix'| < 0x1_0000 ==> prefix == prefix' && header == header'
  {
    var a, b := Aad(prefix, header, CanonicalForm), Aad(prefix', header', CanonicalForm);
    assert a[0] == b[0] && a[1] == b[1];
    EqualAadSplitsAlike(prefix, header, prefix', header', CanonicalForm);
    LowTwoBytes(|prefix|);
    LowTwoBytes(|prefix'|);
  }

  lemma LowTwoBytes(n: nat)
    ensures n % 0x1_0000 == (n / 256 % 256) * 256 + n % 256
  {
  }

  lemma TwoBytes(be: seq<byte>)
    requires |be| == 2
    ensures var high: int, low: int := be[0], be[1]; FromBE(be) == high * 256 + low
  {
    OneByte(be[0]);
    assert be[..1] == [be[0]];
  }

  // The three forms, field by field: the canonical one starts with the prefix
  // length in two bytes, most significant first.
  lemma AadFields(prefix: seq<byte>, header: seq<byte>)
    ensures Aad(prefix, header, HeaderForm) == header
    ensures Aad(prefix, header, PrefixForm) == prefix + header
    ensures var aad := Aad(prefix, header, CanonicalForm);
      |aad| >= 2 && aad[2..] == prefix + header && FromBE(aad[..2]) == |prefix| % 0x1_0000
  {
    var aad := Aad(prefix, header, CanonicalForm);
    assert aad[..2] == Be16(|prefix|);
    TwoBytes(Be16(|prefix|));
    LowTwoBytes(|prefix|);
  }

  // The intermediate form does not carry it: a byte 0x80 that ends one prefix
  // starts a two-byte header of the other, and both headers parse.
  lemma PrefixAadAmbiguous(prefix: seq<byte>, x: byte)
    requires !KExt(x) && !CExt(x)
    ensures Aad(prefix, [0x80, x], PrefixForm) == Aad(prefix + [0x80], [x], PrefixForm)
    ensures Parse([0x80, x]) == Ok(SFrameHeader(x, 0, 2)) && Parse([x]).Ok? && Parse([x]).value.bodyOffset == 1
  {
    assert prefix + [0x80, x] == prefix + [0x80] + [x];
    assert [0x80, x][1..2] == [x];
    OneByte(x);
  }

  lemma OneByte(x: byte)
    ensures FromBE([x]) == x
  {
    assert [x][..0] == [];
  }

  // ----------------------------------------------------- encrypt / decrypt

  // Writes header and sealed body at `offset` of the caller's buffer.
  method SframeEncryptInto(aead: Aead, out: array<byte>, offset: nat, header: seq<byte>, body: seq<byte>,
                           key: SenderKey, ctr: nat, aadPrefix: seq<byte>, aadForm: AadForm)
      returns (r: Result<nat, SframeError>)
    requires aead.Lawful()
    requires out.Length >= offset + |header| + |body| + AEAD_TAG_BYTES
    modifies out
    ensures |key.salt| != IV_BYTES ==> r == Err(BadSalt) && out[..] == old(out[..])
    ensures |key.salt| == IV_BYTES ==>
      var written := header + aead.seal(key.raw, Iv(key.salt, ctr), Aad(aadPrefix, header, aadForm), body);
      r == Ok(|written|) && out[..] == old(out[..offset]) + written + old(out[offset + |written|..])
  {
    hide Iv, Aad;
    var iv := DeriveIv(key.salt, ctr);
    if iv.Err? { return Err(BadSalt); }
    var aad := BuildAad(aadPrefix, header, aadForm);
    var ct := aead.seal(key.raw, iv.value, aad, body);
    assert |ct| == |body| + AEAD_TAG_BYTES;
    forall k | 0 <= k < |header| { out[offset + k] := header[k]; }
    forall k | 0 <= k < |ct| { out[offset + |header| + k] := ct[k]; }
    assert out[offset..offset + |header| + |ct|] == header + ct;
    assert out[..] == out[..offset] + out[offset..offset + |header| + |ct|] + out[offset + |header| + |ct|..];
    return Ok(|header| + |ct|);
  }

  function TakeUpTo(s: seq<byte>, n: nat): seq<byte> { if n <= |s| then s[..n] else s }
  function DropUpTo(s: seq<byte>, n: nat): seq<byte> { if n <= |s| then s[n..] else [] }

  // Opening a frame [header][sealed body] under an already resolved key.
  function Decrypt(aead: Aead, sframe: seq<byte>, key: Option<SenderKey>, aadPrefix: seq<byte>, aadForm: AadForm)
      : Result<seq<byte>, SframeError>
  {
    var parsed := Parse(sframe);
    if parsed.Err? then Err(HeaderParse(parsed.error))
    else
      var hdr := parsed.value;
      if |sframe| < hdr.bodyOffset + AEAD_TAG_BYTES then Err(AeadAuth)
      else if key.None? then Err(KeyNotFound)
      else if |key.value.salt| != IV_BYTES then Err(BadSalt)
      else
        var plain := aead.open(key.value.raw, Iv(key.value.salt, hdr.ctr),
                                Aad(aadPrefix, sframe[..hdr.bodyOffset], aadForm), sframe[hdr.bodyOffset..]);
        if plain.None? then Err(AeadAuth) else Ok(plain.value)
  }

  method SframeDecrypt(aead: Aead, sframe: seq<byte>, key: Option<SenderKey>, aadPrefix: seq<byte>, aadForm: AadForm)
      returns (r: Result<seq<byte>, SframeError>)
    ensures r == Decrypt(aead, sframe, key, aadPrefix, aadForm)
  {
    var parsed := ParseHeader(sframe);
    if parsed.Err? { return Err(HeaderParse(parsed.error)); }
    var hdr := parsed.value;
    if |sframe| < hdr.bodyOffset + AEAD_TAG_BYTES { return Err(AeadAuth); }
    if key.None? { return Err(KeyNotFound); }
    var header, body := sframe[..hdr.bodyOffset], sframe[hdr.bodyOffset..];
    var iv := DeriveIv(key.value.salt, hdr.ctr);
    if iv.Err? { return Err(BadSalt); }
    var aad := BuildAad(aadPrefix, header, aadForm);
    var plain := aead.open(key.value.raw, iv.value, aad, body);
    if plain.None? { return Err(AeadAuth); }
    return Ok(plain.value);
  }

  // Which failure is told where several apply, and that no other way fails
  // before the cipher is asked.
  lemma FirstFailure(aead: Aead, sframe: seq<byte>, key: Option<SenderKey>, aadPrefix: seq<byte>, aadForm: AadForm)
    ensures var r, parsed := Decrypt(aead, sframe, key, aadPrefix, aadForm), Parse(sframe);
      && (r.Err? && r.error.HeaderParse? <==> parsed.Err?)
      && (parsed.Ok? && |sframe| < parsed.value.bodyOffset + AEAD_TAG_BYTES ==> r == Err(AeadAuth))
      && (r == Err(KeyNotFound) <==> parsed.Ok? && |sframe| >= parsed.value.bodyOffset + AEAD_TAG_BYTES && key.None?)
      && (r == Err(BadSalt) <==>
            parsed.Ok? && |sframe| >= parsed.value.bodyOffset + AEAD_TAG_BYTES && key.Some? && |key.value.salt| != IV_BYTES)
  {
    hide Parse, Iv, Aad;
  }

  // A sealed frame, in the layout every sender emits.
  function Sealed(aead: Aead, key: SenderKey, ctr: nat, body: seq<byte>, aadPrefix: seq<byte>, aadForm: AadForm): seq<byte>
    requires key.kid <= MAX_KID && ctr <= MAX_CTR && |key.salt| == IV_BYTES
  {
    var header := Serialized(key.kid, ctr);
    header + aead.seal(key.raw, Iv(key.salt, ctr), Aad(aadPrefix, header, aadForm), body)
  }

  lemma DecryptUndoesSeal(aead: Aead, key: SenderKey, ctr: nat, body: seq<byte>, aadPrefix: seq<byte>, aadForm: AadForm)
    requires aead.Lawful()
    requires key.kid <= MAX_KID && ctr <= MAX_CTR && |key.salt| == IV_BYTES
    ensures var frame := Sealed(aead, key, ctr, body, aadPrefix, aadForm);
      && Parse(frame) == Ok(SFrameHeader(key.kid, ctr, |Serialized(key.kid, ctr)|))
      && Decrypt(aead, frame, Some(key), aadPrefix, aadForm) == Ok(body)
  {
    hide Parse, Serialized, Iv, Aad;
    var header := Serialized(key.kid, ctr);
    var ct := aead.seal(key.raw, Iv(key.salt, ctr), Aad(aadPrefix, header, aadForm), body);
    RoundTrip(key.kid, ctr, ct);
    var frame := header + ct;
    assert frame[..|header|] == header && frame[|header|..] == ct;
  }

  // ---------------------------------------------------------- prefix table

  datatype Codec = Vp8 | Vp9 | H264 | Av1 | Opus
  datatype FrameKind = KeyFrame | InterFrame

  // Bytes a sender leaves in the clear.
  function UnencryptedBytes(codec: Option<Codec>, kind: Option<FrameKind>): (n: nat)
    ensures n == 10 <==> codec == Some(Vp8) && kind == Some(KeyFrame)
    ensures n == 3 <==> codec == Some(Vp8) && kind != Some(KeyFrame)
    ensures n == 1 <==> codec == Some(H264) || codec == Some(Opus)
    ensures n in {0, 1, 3, 10}
  {
    match codec
    case Some(Vp8) => if kind == Some(KeyFrame) then 10 else 3
    case Some(H264) => 1
    case Some(Opus) => 1
    case _ => 0
  }
}
