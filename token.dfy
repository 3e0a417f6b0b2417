/** The token envelope of libwebauth: an attribute list framed as
    {hint 4}{nonce 16}{hmac 20}{attributes}{padding}, encrypted from the
    nonce on, and base64 encoded. The cipher, the MAC, the attribute codec and
    the key ring lookup are collaborators this model sees only through the
    values they return (`Externals`). */
module Token {
  import opened Errors
  import Base64
  import Mem

  /** Field sizes and offsets of the binary token. */
  const HINT_S: nat := 4
  const NONCE_S: nat := 16
  const HMAC_S: nat := 20
  const HINT_O: nat := 0
  const NONCE_O: nat := HINT_O + HINT_S
  const HMAC_O: nat := NONCE_O + NONCE_S
  const ATTR_O: nat := HMAC_O + HMAC_S
  const AES_BLOCK_SIZE: nat := 16

  /** The nonce every token carries (and the key of its HMAC). */
  const NONCE: seq<byte> := [1, 2, 3, 4, 5, 6, 7, 8, 9, 10, 11, 12, 13, 14, 15, 16]

  /** One attribute of an attribute list, and the list itself. */
  datatype Attr = Attr(name: string, value: seq<byte>)
  type AttrList = seq<Attr>

  /** A symmetric key (its bytes; the C code passes their length in bits to
      the cipher's key setup) and a key ring. */
  datatype Key = Key(data: seq<byte>)
  datatype KeyRing = KeyRing(entries: seq<Key>)

  /** The collaborators the token engine calls, as the values they compute.
      aesCbcEncrypt / aesCbcDecrypt run AES in CBC mode with the all-zero
      IV the C code passes; aesSetEncryptKey / aesSetDecryptKey say whether
      the key setup succeeds; hmacSha1 takes the key, then the data. */
  datatype Externals = Externals(
    attrsEncodedLength: AttrList -> nat,
    attrsEncode: (AttrList, nat) -> Result<seq<byte>>,
    attrsDecode: seq<byte> -> Result<AttrList>,
    bestEncryptionKey: KeyRing -> Option<Key>,
    aesSetEncryptKey: Key -> bool,
    aesSetDecryptKey: Key -> bool,
    aesCbcEncrypt: (Key, seq<byte>) -> seq<byte>,
    aesCbcDecrypt: (Key, seq<byte>) -> seq<byte>,
    hmacSha1: (seq<byte>, seq<byte>) -> seq<byte>)

  /** What the C code relies on from its collaborators: the cipher works in
      place (its output is as long as its input), the digest is 20 bytes,
      and the attribute encoder writes exactly its encoded length, within
      the room it is given. */
  ghost predicate Contracts(x: Externals)
  {
    (forall k, d :: |x.aesCbcEncrypt(k, d)| == |d|)
    && (forall k, d :: |x.aesCbcDecrypt(k, d)| == |d|)
    && (forall k, d :: |x.hmacSha1(k, d)| == HMAC_S)
    && (forall l, m :: x.attrsEncode(l, m).Ok? ==>
          |x.attrsEncode(l, m).value| == x.attrsEncodedLength(l) <= m)
  }

  /** The lengths binary_encoded_length computes. */
  datatype Framing = Framing(elen: nat, plen: nat)

  /** Whether nonce, HMAC, `alen` attribute bytes and `p` padding bytes make
      whole AES blocks. */
  predicate FillsBlocks(alen: nat, p: nat)
  {
    (NONCE_S + HMAC_S + alen + p) % AES_BLOCK_SIZE == 0
  }

  /** binary_encoded_length: for `alen` bytes of encoded attributes, the
      padding `plen` is the least positive count that makes nonce, HMAC,
      attributes and padding a whole number of AES blocks (a full block when
      they already are), and the binary token adds the 4-byte hint. */
  function BinaryEncodedLength(alen: nat): (f: Framing)
    ensures 1 <= f.plen <= AES_BLOCK_SIZE
    ensures f.elen == HINT_S + NONCE_S + HMAC_S + alen + f.plen
    ensures (f.elen - HINT_S) % AES_BLOCK_SIZE == 0
    ensures forall p :: 1 <= p < f.plen ==> !FillsBlocks(alen, p)
    ensures f.plen == AES_BLOCK_SIZE <==> (alen + NONCE_S + HMAC_S) % AES_BLOCK_SIZE == 0
  {
    var len := alen + NONCE_S + HMAC_S;
    var m := len % AES_BLOCK_SIZE;
    var plen := if m != 0 then AES_BLOCK_SIZE - m else AES_BLOCK_SIZE;
    Framing(len + plen + HINT_S, plen)
  }

  /** webauth_token_encoded_length: the base64 length of the binary token. */
  function TokenEncodedLength(list: AttrList, x: Externals): (n: nat)
    requires |list| > 0
    ensures n % 4 == 0 && n > 0
    ensures var elen := BinaryEncodedLength(x.attrsEncodedLength(list)).elen;
            3 * (n / 4) - 2 <= elen <= 3 * (n / 4)
  {
    Base64.EncodedLength(BinaryEncodedLength(x.attrsEncodedLength(list)).elen)
  }

  /** htonl((uint32_t)t): the creation time, cut to 32 bits, most
      significant byte first. */
  function BigEndian32(t: int): (b: seq<byte>)
    ensures |b| == HINT_S
    ensures (b[0] as int) * 0x100_0000 + (b[1] as int) * 0x1_0000 + (b[2] as int) * 0x100 + (b[3] as int)
            == t % 0x1_0000_0000
  {
    var u := t % 0x1_0000_0000;
    var u1 := u / 0x100;
    var u2 := u1 / 0x100;
    assert u == u1 * 0x100 + u % 0x100 && u1 == u2 * 0x100 + u1 % 0x100
        && u2 == u2 / 0x100 * 0x100 + u2 % 0x100;
    [u2 / 0x100, u2 % 0x100, u1 % 0x100, u % 0x100]
  }

  /** `plen` bytes each equal to `plen`. */
  function Padding(plen: byte): (p: seq<byte>)
    ensures |p| == plen && forall i :: 0 <= i < plen ==> p[i] == plen
  {
    seq(plen, _ => plen)
  }

  /** The part of the token that is encrypted, before encryption:
      nonce, HMAC (keyed with the nonce, over attributes and padding),
      attributes, padding. */
  function Plaintext(x: Externals, attrs: seq<byte>, plen: byte): seq<byte>
  {
    NONCE + x.hmacSha1(NONCE, attrs + Padding(plen)) + attrs + Padding(plen)
  }

  /** The binary token: the hint, then the encrypted part. */
  function Binary(x: Externals, key: Key, now: int, attrs: seq<byte>, plen: byte): seq<byte>
  {
    BigEndian32(now) + x.aesCbcEncrypt(key, Plaintext(x, attrs, plen))
  }

  /** What webauth_token_create produces: the base64 text of the token, or
      the first error in the order the C code tests them -- no best key or
      a key the cipher refuses (BadKey), then too little room for the text
      (NoRoom), then allocation failure (NoMem), then an error of the
      attribute encoder. `allocFails` is the outcome of malloc. */
  function CreateSpec(list: AttrList, maxOutputLen: nat, ring: KeyRing, x: Externals, now: int, allocFails: bool)
    : (r: Result<seq<byte>>)
    requires |list| > 0
    ensures x.bestEncryptionKey(ring).None? ==> r == Err(BadKey)
    ensures r.Ok? ==> x.bestEncryptionKey(ring).Some? && x.aesSetEncryptKey(x.bestEncryptionKey(ring).value)
    ensures r.Ok? ==> (!allocFails
      && Base64.EncodedLength(BinaryEncodedLength(x.attrsEncodedLength(list)).elen) <= maxOutputLen)
  {
    match x.bestEncryptionKey(ring)
    case None => Err(BadKey)
    case Some(key) =>
      if !x.aesSetEncryptKey(key) then Err(BadKey)
      else
        var f := BinaryEncodedLength(x.attrsEncodedLength(list));
        if Base64.EncodedLength(f.elen) > maxOutputLen then Err(NoRoom)
        else if allocFails then Err(NoMem)
        else
          match x.attrsEncode(list, f.elen - ATTR_O - f.plen)
          case Err(e) => Err(e)
          case Ok(attrs) => Ok(Base64.Encoding(Binary(x, key, now, attrs, f.plen as byte)))
  }

  /** The padding loop of webauth_token_create. */
  method PutPadding(buf: array<byte>, at: nat, plen: byte)
    requires at + plen <= buf.Length
    modifies buf
    ensures forall i :: 0 <= i < buf.Length ==> buf[i] == if at <= i < at + plen then plen else old(buf[i])
  {
    ghost var d0 := buf[..];
    var i := 0;
    while i < plen
      invariant 0 <= i <= plen
      invariant forall k :: 0 <= k < buf.Length ==> buf[k] == if at <= k < at + i then plen else d0[k]
    {
      buf[at + i] := plen;
      i := i + 1;
    }
  }

  /** The buffer-filling part of webauth_token_create: time, nonce,
      attributes, padding, then the HMAC over attributes and padding, in
      the order the C code writes them. */
  method PutPlaintext(ebuff: array<byte>, hint: seq<byte>, attrs: seq<byte>, plen: byte, x: Externals)
    requires |hint| == HINT_S && ebuff.Length == ATTR_O + |attrs| + plen
    requires Contracts(x)
    modifies ebuff
    ensures ebuff[..] == hint + Plaintext(x, attrs, plen)
  {
    var alen := |attrs|;
    Mem.Copy(ebuff, HINT_O, hint);
    Mem.Copy(ebuff, NONCE_O, NONCE);
    Mem.Copy(ebuff, ATTR_O, attrs);
    PutPadding(ebuff, ATTR_O + alen, plen);
    Body(ebuff[ATTR_O..ATTR_O + alen + plen], attrs, plen);
    var mac := x.hmacSha1(NONCE, ebuff[ATTR_O..ATTR_O + alen + plen]);
    Mem.Copy(ebuff, HMAC_O, mac);
    Layout(ebuff[..], hint, mac, attrs, plen, x);
  }

  /** Bytes that hold the attributes, then `plen` bytes `plen`, are the
      attributes followed by the padding. */
  lemma Body(d: seq<byte>, attrs: seq<byte>, plen: byte)
    requires |d| == |attrs| + plen
    requires forall i :: 0 <= i < |attrs| ==> d[i] == attrs[i]
    requires forall i :: |attrs| <= i < |d| ==> d[i] == plen
    ensures d == attrs + Padding(plen)
  {
  }

  /** A buffer that holds hint, nonce, HMAC, attributes and padding at
      their offsets is their concatenation. */
  lemma Layout(d: seq<byte>, hint: seq<byte>, mac: seq<byte>, attrs: seq<byte>, plen: byte, x: Externals)
    requires |hint| == HINT_S && |d| == ATTR_O + |attrs| + plen
    requires mac == x.hmacSha1(NONCE, attrs + Padding(plen)) && |mac| == HMAC_S
    requires forall i :: 0 <= i < HINT_S ==> d[i] == hint[i]
    requires forall i :: NONCE_O <= i < HMAC_O ==> d[i] == NONCE[i - NONCE_O]
    requires forall i :: HMAC_O <= i < ATTR_O ==> d[i] == mac[i - HMAC_O]
    requires forall i :: ATTR_O <= i < ATTR_O + |attrs| ==> d[i] == attrs[i - ATTR_O]
    requires forall i :: ATTR_O + |attrs| <= i < |d| ==> d[i] == plen
    ensures d == hint + Plaintext(x, attrs, plen)
  {
  }

  /** The encryption step of webauth_token_create: everything after the
      hint is replaced by its AES-CBC encryption. */
  method Seal(ebuff: array<byte>, key: Key, x: Externals, ghost hint: seq<byte>, ghost plain: seq<byte>)
    requires ebuff[..] == hint + plain && |hint| == HINT_S
    requires Contracts(x)
    modifies ebuff
    ensures ebuff[..] == hint + x.aesCbcEncrypt(key, plain)
  {
    assert ebuff[NONCE_O..ebuff.Length] == plain;
    var sealed := x.aesCbcEncrypt(key, ebuff[NONCE_O..ebuff.Length]);
    Mem.Overwrite(ebuff, NONCE_O, hint, plain, [], sealed);
    assert hint + sealed + [] == hint + sealed;
  }

  /** webauth_token_create: builds the binary token in a fresh buffer (time,
      nonce, attributes, padding, HMAC, then in-place encryption of all but
      the time) and base64 encodes it into `output`. On success it returns
      the length of the text, which fills the front of `output`; on an error
      `output` is untouched. */
  method Create(list: AttrList, output: array<byte>, maxOutputLen: nat, ring: KeyRing, x: Externals,
                now: int, allocFails: bool) returns (r: Result<nat>)
    requires |list| > 0 && maxOutputLen > 0 && maxOutputLen <= output.Length
    requires Contracts(x)
    modifies output
    ensures match CreateSpec(list, maxOutputLen, ring, x, now, allocFails)
            case Ok(text) => r == Ok(|text|) && output[..] == text + old(output[..])[|text|..]
            case Err(e) => r == Err(e) && output[..] == old(output[..])
  {
    var best := x.bestEncryptionKey(ring);
    if best.None? { return Err(BadKey); }
    var key := best.value;
    if !x.aesSetEncryptKey(key) { return Err(BadKey); }

    var f := BinaryEncodedLength(x.attrsEncodedLength(list));
    var elen, plen := f.elen, f.plen as byte;
    var blen := Base64.EncodedLength(elen);
    if blen > maxOutputLen { return Err(NoRoom); }
    if allocFails { return Err(NoMem); }
    var ebuff := new byte[elen];

    var hint := BigEndian32(now);
    var encoded := x.attrsEncode(list, elen - ATTR_O - plen);
    if encoded.Err? { return Err(encoded.error); }
    var attrs := encoded.value;
    PutPlaintext(ebuff, hint, attrs, plen, x);
    Seal(ebuff, key, x, hint, Plaintext(x, attrs, plen));
    assert ebuff[..] == Binary(x, key, now, attrs, plen);
    r := Base64.Encode(ebuff[..], output, maxOutputLen);
  }

  /** The padding check of webauth_token_parse, corrected to accept what
      create emits: on the decrypted token `dec` the last byte is the padding
      length, at most a block (token.c:264 demands below a block) and no
      longer than the bytes after the HMAC (token.c:264 bounds it by the
      whole token), and each of the last `plen` bytes equals it. A last byte
      of 0 passes, as in the C code. */
  predicate PaddingValid(dec: seq<byte>)
    requires |dec| >= ATTR_O
    ensures PaddingValid(dec) <==> var plen := dec[|dec| - 1];
      plen <= AES_BLOCK_SIZE && plen <= |dec| - ATTR_O && dec[|dec| - plen..] == Padding(plen)
  {
    var plen := dec[|dec| - 1];
    plen <= AES_BLOCK_SIZE && plen <= |dec| - ATTR_O
    && forall i :: |dec| - plen <= i < |dec| ==> dec[i] == plen
  }

  /** The padding check as token.c writes it: the length must be below a
      block and no longer than the whole token. */
  predicate PaddingValidAsWritten(dec: seq<byte>)
    requires |dec| > 0
    ensures PaddingValidAsWritten(dec) <==> var plen := dec[|dec| - 1];
      plen < AES_BLOCK_SIZE && plen <= |dec| && dec[|dec| - plen..] == Padding(plen)
  {
    var plen := dec[|dec| - 1];
    plen < AES_BLOCK_SIZE && plen <= |dec|
    && forall i :: |dec| - plen <= i < |dec| ==> dec[i] == plen
  }

  /** The padding loop of webauth_token_parse over the first `elen` bytes
      of `buf`: Ok with the padding length when the padding is valid. */
  method CheckPadding(buf: array<byte>, elen: nat) returns (r: Result<byte>)
    requires ATTR_O <= elen <= buf.Length
    ensures r == if PaddingValid(buf[..elen]) then Ok(buf[elen - 1]) else Err(Corrupt)
  {
    ghost var dec := buf[..elen];
    var plen := buf[elen - 1];
    if plen > AES_BLOCK_SIZE || plen > elen - ATTR_O { return Err(Corrupt); }
    var i := 0;
    while i < plen
      invariant 0 <= i <= plen
      invariant forall j :: elen - i <= j < elen ==> dec[j] == plen
    {
      if buf[elen - 1 - i] != plen { return Err(Corrupt); }
      i := i + 1;
    }
    r := Ok(plen);
  }

  /** The same loop behind the length test token.c:264 writes. */
  method CheckPaddingAsWritten(buf: array<byte>, elen: nat) returns (r: Result<byte>)
    requires 0 < elen <= buf.Length
    ensures r == if PaddingValidAsWritten(buf[..elen]) then Ok(buf[elen - 1]) else Err(Corrupt)
  {
    ghost var dec := buf[..elen];
    var plen := buf[elen - 1];
    if plen >= AES_BLOCK_SIZE || plen > elen { return Err(Corrupt); }
    var i := 0;
    while i < plen
      invariant 0 <= i <= plen
      invariant forall j :: elen - i <= j < elen ==> dec[j] == plen
    {
      if buf[elen - 1 - i] != plen { return Err(Corrupt); }
      i := i + 1;
    }
    r := Ok(plen);
  }

  /** A decrypted token ending in the full block of padding create emits for
      block-aligned attributes passes the padding check but not the one
      token.c writes. */
  lemma FullBlockPaddingRejected(dec: seq<byte>)
    requires |dec| >= ATTR_O + AES_BLOCK_SIZE
    requires dec[|dec| - AES_BLOCK_SIZE..] == Padding(AES_BLOCK_SIZE as byte)
    ensures PaddingValid(dec) && !PaddingValidAsWritten(dec)
  {
    var pad := dec[|dec| - AES_BLOCK_SIZE..];
    forall i | |dec| - AES_BLOCK_SIZE <= i < |dec|
      ensures dec[i] == AES_BLOCK_SIZE
    {
      assert dec[i] == pad[i - (|dec| - AES_BLOCK_SIZE)];
    }
  }

  /** Tokens that create builds for attributes whose length, with nonce and
      HMAC, fills whole blocks carry a full block of padding; the padding
      check token.c writes turns every one of them down. */
  lemma AlignedTokenRejectedAsWritten(x: Externals, hint: seq<byte>, attrs: seq<byte>)
    requires Contracts(x) && |hint| == HINT_S
    requires (|attrs| + NONCE_S + HMAC_S) % AES_BLOCK_SIZE == 0
    ensures BinaryEncodedLength(|attrs|).plen == AES_BLOCK_SIZE
    ensures var dec := hint + Plaintext(x, attrs, AES_BLOCK_SIZE as byte);
            PaddingValid(dec) && !PaddingValidAsWritten(dec)
  {
    var pad := Padding(AES_BLOCK_SIZE as byte);
    var dec := hint + Plaintext(x, attrs, AES_BLOCK_SIZE as byte);
    assert dec == (hint + NONCE + x.hmacSha1(NONCE, attrs + pad) + attrs) + pad;
    assert dec[|dec| - AES_BLOCK_SIZE..] == pad;
    FullBlockPaddingRejected(dec);
  }

  /** The length test token.c writes lets the padding reach back over the
      HMAC: a 44-byte token of bytes 10 passes it, and the attribute length
      token.c then computes, elen - 40 - plen, is negative. */
  lemma PaddingOverlapAsWritten()
    ensures var dec := seq(44, _ => 10 as byte);
            PaddingValidAsWritten(dec) && |dec| - ATTR_O - dec[|dec| - 1] < 0 && !PaddingValid(dec)
  {
  }

  /** The token bytes after the hint decrypted with `key`. */
  function Opened(bin: seq<byte>, key: Key, x: Externals): (dec: seq<byte>)
    requires |bin| >= HINT_S
    ensures Contracts(x) ==> |dec| == |bin|
    ensures |dec| >= HINT_S && dec[..HINT_S] == bin[..HINT_S]
  {
    bin[..HINT_S] + x.aesCbcDecrypt(key, bin[HINT_S..])
  }

  /** What webauth_token_parse, with the corrected padding check, concludes
      from the decrypted token: BadHmac
      unless the HMAC stored at offset 20 is the one of the bytes from offset
      40 on, keyed with the nonce at offset 4; then Corrupt unless the
      padding is valid; then the attribute decoder's verdict on the
      attributes between the HMAC and the padding. */
  function Unseal(dec: seq<byte>, x: Externals): (r: Result<AttrList>)
    requires |dec| >= ATTR_O
    ensures dec[HMAC_O..ATTR_O] != x.hmacSha1(dec[NONCE_O..HMAC_O], dec[ATTR_O..]) ==> r == Err(BadHmac)
    ensures r.Ok? ==> dec[HMAC_O..ATTR_O] == x.hmacSha1(dec[NONCE_O..HMAC_O], dec[ATTR_O..]) && PaddingValid(dec)
    ensures r.Ok? ==> r == x.attrsDecode(dec[ATTR_O..|dec| - dec[|dec| - 1]])
  {
    if dec[HMAC_O..ATTR_O] != x.hmacSha1(dec[NONCE_O..HMAC_O], dec[ATTR_O..]) then Err(BadHmac)
    else if !PaddingValid(dec) then Err(Corrupt)
    else x.attrsDecode(dec[ATTR_O..|dec| - dec[|dec| - 1]])
  }

  /** The result of a parse and the contents of the input buffer after it. */
  datatype Parsed = Parsed(result: Result<AttrList>, buffer: seq<byte>)

  /** What webauth_token_parse, corrected, does to the buffer `t` whose
      first `inputLen` bytes are the token text: BadKey on an empty ring or
      when the first key of the ring is refused; otherwise the text is
      decoded in place and a decode error is returned as it is; a token
      shorter than the fixed fields is Corrupt (a test token.c lacks);
      otherwise everything after the hint is decrypted in place and judged
      by Unseal. */
  function ParseSpec(t: seq<byte>, inputLen: nat, ring: KeyRing, x: Externals): (p: Parsed)
    requires 0 < inputLen <= |t| && inputLen % 4 == 0
    requires Contracts(x)
    ensures |p.buffer| == |t| && p.buffer[inputLen..] == t[inputLen..]
    ensures |ring.entries| == 0 ==> p == Parsed(Err(BadKey), t)
    ensures p.result.Ok? ==> var run := Base64.Decoding(t[..inputLen]);
      !run.corrupt && ATTR_O <= |run.bytes| <= inputLen && p.buffer[..HINT_S] == run.bytes[..HINT_S]
  {
    if |ring.entries| == 0 then Parsed(Err(BadKey), t)
    else
      var key := ring.entries[0];
      if !x.aesSetDecryptKey(key) then Parsed(Err(BadKey), t)
      else
        var run := Base64.Decoding(t[..inputLen]);
        var w := Base64.Written(run, inputLen);
        match Base64.Outcome(run, inputLen)
        case Err(e) =>
          Mem.OverFront(w, t, inputLen);
          Parsed(Err(e), w + t[|w|..])
        case Ok(bin) =>
          if |bin| < ATTR_O then
            Mem.OverFront(bin, t, inputLen);
            Parsed(Err(Corrupt), bin + t[|bin|..])
          else
            var dec := Opened(bin, key, x);
            Mem.OverFront(dec, t, inputLen);
            assert (dec + t[|bin|..])[..HINT_S] == dec[..HINT_S];
            Parsed(Unseal(dec, x), dec + t[|bin|..])
  }

  /** The steps of webauth_token_parse after the base64 decode, on the
      first `elen` bytes of `input`. */
  method Open(input: array<byte>, elen: nat, key: Key, x: Externals, ghost bin: seq<byte>, ghost tail: seq<byte>)
    returns (r: Result<AttrList>)
    requires ATTR_O <= elen && input[..] == bin + tail && |bin| == elen
    requires Contracts(x)
    modifies input
    ensures r == Unseal(Opened(bin, key, x), x) && input[..] == Opened(bin, key, x) + tail
  {
    Mem.Slice(input[..], bin, tail, NONCE_O, elen);
    var plain := x.aesCbcDecrypt(key, input[NONCE_O..elen]);
    Mem.Overwrite(input, NONCE_O, bin[..HINT_S], bin[HINT_S..], tail, plain);
    ghost var dec := Opened(bin, key, x);
    assert input[..] == dec + tail;
    Mem.Slice(input[..], dec, tail, 0, elen);
    r := Verify(input, elen, x, dec);
  }

  /** The checks of webauth_token_parse on the decrypted token in the first
      `elen` bytes of `buf`: the HMAC, then the padding, then the attribute
      decoder. */
  method Verify(buf: array<byte>, elen: nat, x: Externals, ghost dec: seq<byte>) returns (r: Result<AttrList>)
    requires ATTR_O <= elen <= buf.Length && buf[..elen] == dec
    ensures r == Unseal(dec, x)
  {
    Mem.Sub(buf[..], dec, NONCE_O, HMAC_O);
    Mem.Sub(buf[..], dec, HMAC_O, ATTR_O);
    Mem.Sub(buf[..], dec, ATTR_O, elen);
    var mac := x.hmacSha1(buf[NONCE_O..HMAC_O], buf[ATTR_O..elen]);
    if buf[HMAC_O..ATTR_O] != mac { return Err(BadHmac); }
    var pad := CheckPadding(buf, elen);
    if pad.Err? { return Err(Corrupt); }
    Mem.Sub(buf[..], dec, ATTR_O, elen - pad.value);
    r := x.attrsDecode(buf[ATTR_O..elen - pad.value]);
  }

  /** webauth_token_parse, with the minimum length test and the padding
      check corrected: decodes, decrypts and checks the token held in the
      first `inputLen` bytes of `input`, in place, and leaves the buffer as
      ParseSpec says. The attribute values of the C result point
      into that buffer. */
  method Parse(input: array<byte>, inputLen: nat, ring: KeyRing, x: Externals) returns (r: Result<AttrList>)
    requires 0 < inputLen <= input.Length && inputLen % 4 == 0
    requires Contracts(x)
    modifies input
    ensures var p := ParseSpec(old(input[..]), inputLen, ring, x);
            r == p.result && input[..] == p.buffer
  {
    if |ring.entries| == 0 { return Err(BadKey); }
    var key := ring.entries[0];
    if !x.aesSetDecryptKey(key) { return Err(BadKey); }
    ghost var t := input[..];
    ghost var run := Base64.Decoding(t[..inputLen]);
    var decoded := Base64.Decode(input, inputLen, input, inputLen);
    if decoded.Err? { return Err(decoded.error); }
    var elen := decoded.value;
    assert Base64.Written(run, inputLen) == run.bytes;
    if elen < ATTR_O { return Err(Corrupt); }
    r := Open(input, elen, key, x, run.bytes, t[elen..]);
  }

  /** The created token is exactly as long as webauth_token_encoded_length says. */
  lemma CreatedLength(list: AttrList, maxOutputLen: nat, ring: KeyRing, x: Externals, now: int, text: seq<byte>)
    requires |list| > 0 && Contracts(x)
    requires CreateSpec(list, maxOutputLen, ring, x, now, false) == Ok(text)
    ensures |text| == TokenEncodedLength(list, x) <= maxOutputLen
  {
    var key := x.bestEncryptionKey(ring).value;
    var f := BinaryEncodedLength(x.attrsEncodedLength(list));
    var attrs := x.attrsEncode(list, f.elen - ATTR_O - f.plen).value;
    assert |Plaintext(x, attrs, f.plen as byte)| == NONCE_S + HMAC_S + |attrs| + f.plen;
    assert |Binary(x, key, now, attrs, f.plen as byte)| == f.elen;
  }

  /** What the round trip needs of the cipher: with the same key, decryption
      undoes encryption of whole blocks. */
  ghost predicate CipherInverts(x: Externals, key: Key)
  {
    forall d :: |d| % AES_BLOCK_SIZE == 0 ==> x.aesCbcDecrypt(key, x.aesCbcEncrypt(key, d)) == d
  }

  /** What the round trip needs of the attribute codec: it decodes what it encodes. */
  ghost predicate AttrsInvert(x: Externals)
  {
    forall l, m :: x.attrsEncode(l, m).Ok? ==> x.attrsDecode(x.attrsEncode(l, m).value) == Ok(l)
  }

  /** The decrypted token create builds passes every check of parse: its
      HMAC region (all bytes from offset 40) is the attributes and padding
      create's HMAC covers, its padding is valid, and what is left between
      HMAC and padding is the encoded attributes. */
  lemma UnsealPlaintext(x: Externals, hint: seq<byte>, attrs: seq<byte>, plen: byte)
    requires Contracts(x) && |hint| == HINT_S && 1 <= plen <= AES_BLOCK_SIZE
    ensures var dec := hint + Plaintext(x, attrs, plen);
            |dec| >= ATTR_O && Unseal(dec, x) == x.attrsDecode(attrs)
  {
    var pad := Padding(plen);
    var mac := x.hmacSha1(NONCE, attrs + pad);
    var dec := hint + Plaintext(x, attrs, plen);
    Sections(dec, hint, mac, attrs, pad);
    PaddedTail(dec, attrs, plen);
  }

  /** The fields of a decrypted token laid out as create lays them out. */
  lemma Sections(dec: seq<byte>, hint: seq<byte>, mac: seq<byte>, attrs: seq<byte>, pad: seq<byte>)
    requires |hint| == HINT_S && |mac| == HMAC_S && dec == hint + (NONCE + mac + attrs + pad)
    ensures |dec| == ATTR_O + |attrs| + |pad|
    ensures dec[NONCE_O..HMAC_O] == NONCE && dec[HMAC_O..ATTR_O] == mac && dec[ATTR_O..] == attrs + pad
  {
    assert dec == (hint + NONCE + mac) + (attrs + pad);
    assert (hint + NONCE + mac)[NONCE_O..HMAC_O] == NONCE;
  }

  /** Attributes followed by create's padding pass the padding check and
      are what is left once the padding is cut off. */
  lemma PaddedTail(dec: seq<byte>, attrs: seq<byte>, plen: byte)
    requires |dec| >= ATTR_O && dec[ATTR_O..] == attrs + Padding(plen) && 1 <= plen <= AES_BLOCK_SIZE
    ensures PaddingValid(dec) && dec[ATTR_O..|dec| - plen] == attrs
  {
    var t := dec[ATTR_O..];
    forall i | |dec| - plen <= i < |dec| ensures dec[i] == plen {
      assert dec[i] == t[i - ATTR_O];
    }
    assert dec[|dec| - 1] == plen;
    assert dec[ATTR_O..|dec| - plen] == t[..|t| - plen];
  }

  /** Round trip: parsing, with the first key of the ring, the text of a
      token created with that key gives back the attribute list, provided
      the cipher and the attribute codec invert themselves. */
  lemma {:induction false} CreateParseRoundTrip(list: AttrList, maxOutputLen: nat, ring: KeyRing, x: Externals,
                                                now: int, text: seq<byte>, buf: seq<byte>)
    requires |list| > 0 && Contracts(x)
    requires CreateSpec(list, maxOutputLen, ring, x, now, false) == Ok(text)
    requires |ring.entries| > 0 && x.bestEncryptionKey(ring) == Some(ring.entries[0])
    requires x.aesSetDecryptKey(ring.entries[0]) && CipherInverts(x, ring.entries[0]) && AttrsInvert(x)
    requires |text| <= |buf| && buf[..|text|] == text
    ensures |text| > 0 && |text| % 4 == 0
    ensures ParseSpec(buf, |text|, ring, x).result == Ok(list)
  {
    var f := BinaryEncodedLength(x.attrsEncodedLength(list));
    var enc := x.attrsEncode(list, f.elen - ATTR_O - f.plen);
    CreatedText(list, maxOutputLen, ring, x, now, text, ring.entries[0]);
    BinaryRoundTrip(x, ring, now, enc.value, f, text, buf);
  }

  /** `text` is the base64 encoding of the binary token built with `key`
      from the encoded attributes `attrs`, framed as binary_encoded_length says. */
  ghost predicate TokenText(x: Externals, key: Key, now: int, attrs: seq<byte>, f: Framing, text: seq<byte>)
  {
    Contracts(x) && f == BinaryEncodedLength(|attrs|)
    && text == Base64.Encoding(Binary(x, key, now, attrs, f.plen as byte))
  }

  /** The text create returns is the base64 encoding of the binary token
      built with the best key and the encoded attributes. */
  lemma CreatedText(list: AttrList, maxOutputLen: nat, ring: KeyRing, x: Externals, now: int, text: seq<byte>, key: Key)
    requires |list| > 0 && Contracts(x) && x.bestEncryptionKey(ring) == Some(key)
    requires CreateSpec(list, maxOutputLen, ring, x, now, false) == Ok(text)
    ensures var f := BinaryEncodedLength(x.attrsEncodedLength(list));
            var enc := x.attrsEncode(list, f.elen - ATTR_O - f.plen);
            enc.Ok? && TokenText(x, key, now, enc.value, f, text)
  {
  }

  /** Parsing the text of the binary token built with the first key of the
      ring gives what the attribute decoder makes of the encoded attributes. */
  lemma BinaryRoundTrip(x: Externals, ring: KeyRing, now: int, attrs: seq<byte>, f: Framing,
                        text: seq<byte>, buf: seq<byte>)
    requires |ring.entries| > 0 && TokenText(x, ring.entries[0], now, attrs, f, text)
    requires x.aesSetDecryptKey(ring.entries[0]) && CipherInverts(x, ring.entries[0])
    requires |text| <= |buf| && buf[..|text|] == text
    ensures |text| > 0 && |text| % 4 == 0
    ensures ParseSpec(buf, |text|, ring, x).result == x.attrsDecode(attrs)
  {
    var key, plen := ring.entries[0], f.plen as byte;
    var bin := Binary(x, key, now, attrs, plen);
    BinaryLength(x, key, now, attrs, plen, f);
    DecodeText(bin, text, buf);
    ParseDecoded(buf, |text|, ring, x, bin);
    OpenBinary(x, key, now, attrs, plen);
    UnsealPlaintext(x, BigEndian32(now), attrs, plen);
  }

  /** Once the text decodes to a token holding the fixed fields, parse
      returns what Unseal concludes from the token decrypted with the first
      key of the ring. */
  lemma ParseDecoded(buf: seq<byte>, inputLen: nat, ring: KeyRing, x: Externals, bin: seq<byte>)
    requires 0 < inputLen <= |buf| && inputLen % 4 == 0 && Contracts(x)
    requires |ring.entries| > 0 && x.aesSetDecryptKey(ring.entries[0])
    requires Base64.Outcome(Base64.Decoding(buf[..inputLen]), inputLen) == Ok(bin) && |bin| >= ATTR_O
    ensures ParseSpec(buf, inputLen, ring, x).result == Unseal(Opened(bin, ring.entries[0], x), x)
  {
  }

  /** The binary token has the length binary_encoded_length computes, and
      its encrypted part is a whole number of blocks. */
  lemma BinaryLength(x: Externals, key: Key, now: int, attrs: seq<byte>, plen: byte, f: Framing)
    requires Contracts(x) && f == BinaryEncodedLength(|attrs|) && plen == f.plen
    ensures |Binary(x, key, now, attrs, plen)| == f.elen >= ATTR_O
    ensures |Plaintext(x, attrs, plen)| % AES_BLOCK_SIZE == 0
  {
    assert |Plaintext(x, attrs, plen)| == f.elen - HINT_S;
  }

  /** The base64 decode in parse gives back the binary token create encoded. */
  lemma DecodeText(bin: seq<byte>, text: seq<byte>, buf: seq<byte>)
    requires |bin| > 0 && text == Base64.Encoding(bin)
    requires |text| <= |buf| && buf[..|text|] == text
    ensures |text| > 0 && |text| % 4 == 0
    ensures Base64.Outcome(Base64.Decoding(buf[..|text|]), |text|) == Ok(bin)
  {
    Base64.DecodeEncode(bin);
  }

  /** Decrypting what create encrypted restores the plaintext. */
  lemma OpenBinary(x: Externals, key: Key, now: int, attrs: seq<byte>, plen: byte)
    requires CipherInverts(x, key) && |Plaintext(x, attrs, plen)| % AES_BLOCK_SIZE == 0
    ensures |Binary(x, key, now, attrs, plen)| >= HINT_S
    ensures Opened(Binary(x, key, now, attrs, plen), key, x) == BigEndian32(now) + Plaintext(x, attrs, plen)
  {
    var bin := Binary(x, key, now, attrs, plen);
    assert bin[..HINT_S] == BigEndian32(now);
    assert bin[HINT_S..] == x.aesCbcEncrypt(key, Plaintext(x, attrs, plen));
  }

  /** The four characters "AAAA" decode, without error, to three zero bytes. */
  lemma DecodeAAAA()
    ensures Base64.Decoding([65, 65, 65, 65]) == Base64.Run([0, 0, 0], false)
  {
    var t: seq<byte> := [65, 65, 65, 65];
    assert t[4..] == [];
  }

  /** Where webauth_token_parse as written ends: a verdict, or a call that
      is handed a negative length, from which on the C behaviour is
      undefined -- the cipher and the HMAC after a decode shorter than the
      fixed fields, or the attribute decoder after padding that reaches back
      over the HMAC. */
  datatype ParsedAsWritten =
    | Verdict(result: Result<AttrList>)
    | NegativeMac(cipherLen: int, macLen: int)
    | NegativeAttrs(attrLen: int)

  /** The checks of token.c:252-274 as written on the decrypted token. */
  function UnsealAsWritten(dec: seq<byte>, x: Externals): (r: ParsedAsWritten)
    requires |dec| >= ATTR_O
    ensures !r.NegativeMac?
    ensures r.NegativeAttrs? <==> (dec[HMAC_O..ATTR_O] == x.hmacSha1(dec[NONCE_O..HMAC_O], dec[ATTR_O..])
      && PaddingValidAsWritten(dec) && dec[|dec| - 1] as int > |dec| - ATTR_O)
    ensures r.NegativeAttrs? ==> r.attrLen == |dec| - ATTR_O - dec[|dec| - 1] as int < 0
  {
    if dec[HMAC_O..ATTR_O] != x.hmacSha1(dec[NONCE_O..HMAC_O], dec[ATTR_O..]) then Verdict(Err(BadHmac))
    else if !PaddingValidAsWritten(dec) then Verdict(Err(Corrupt))
    else
      var alen := |dec| - ATTR_O - dec[|dec| - 1] as int;
      if alen < 0 then NegativeAttrs(alen)
      else Verdict(x.attrsDecode(dec[ATTR_O..ATTR_O + alen]))
  }

  /** webauth_token_parse as written (token.c:216-274): no test of the
      decoded length before the cipher is handed elen - 4 bytes and the HMAC
      elen - 40, and the padding check of line 264. */
  function ParseSpecAsWritten(t: seq<byte>, inputLen: nat, ring: KeyRing, x: Externals): (r: ParsedAsWritten)
    requires 0 < inputLen <= |t| && inputLen % 4 == 0
    requires Contracts(x)
    ensures |ring.entries| == 0 ==> r == Verdict(Err(BadKey))
    ensures r.NegativeMac? ==> var run := Base64.Decoding(t[..inputLen]);
      !run.corrupt && |run.bytes| < ATTR_O
      && r.cipherLen == |run.bytes| - HINT_S && r.macLen == |run.bytes| - ATTR_O < 0
    ensures r.NegativeAttrs? ==> r.attrLen < 0
  {
    if |ring.entries| == 0 then Verdict(Err(BadKey))
    else
      var key := ring.entries[0];
      if !x.aesSetDecryptKey(key) then Verdict(Err(BadKey))
      else
        match Base64.Outcome(Base64.Decoding(t[..inputLen]), inputLen)
        case Err(e) => Verdict(Err(e))
        case Ok(bin) =>
          if |bin| < ATTR_O then NegativeMac(|bin| - HINT_S, |bin| - ATTR_O)
          else UnsealAsWritten(Opened(bin, key, x), x)
  }

  /** Where the padding length is below a block and within the bytes after
      the HMAC, parse as written and the corrected parse agree. */
  lemma UnsealAgreesAsWritten(dec: seq<byte>, x: Externals)
    requires |dec| >= ATTR_O && dec[|dec| - 1] < AES_BLOCK_SIZE && dec[|dec| - 1] <= |dec| - ATTR_O
    ensures UnsealAsWritten(dec, x) == Verdict(Unseal(dec, x))
  {
  }

  /** The short text "AAAA" passes the base64 decode with 3 bytes, and
      token.c as written goes on to decrypt -1 bytes and to MAC -37 bytes. */
  lemma ShortTokenNegativeLengths(buf: seq<byte>, ring: KeyRing, x: Externals)
    requires |buf| >= 4 && buf[..4] == [65, 65, 65, 65] && Contracts(x)
    requires |ring.entries| > 0 && x.aesSetDecryptKey(ring.entries[0])
    ensures Base64.Outcome(Base64.Decoding(buf[..4]), 4) == Ok([0, 0, 0])
    ensures ParseSpecAsWritten(buf, 4, ring, x) == NegativeMac(-1, -37)
  {
    DecodeAAAA();
  }

  /** Parse as written refuses every token create builds for attributes
      whose length, with nonce and HMAC, fills whole blocks: the HMAC
      matches, and the full block of padding fails the check of line 264. */
  lemma AlignedParseAsWritten(x: Externals, ring: KeyRing, now: int, attrs: seq<byte>, f: Framing,
                              text: seq<byte>, buf: seq<byte>)
    requires |ring.entries| > 0 && TokenText(x, ring.entries[0], now, attrs, f, text)
    requires x.aesSetDecryptKey(ring.entries[0]) && CipherInverts(x, ring.entries[0])
    requires (|attrs| + NONCE_S + HMAC_S) % AES_BLOCK_SIZE == 0
    requires |text| <= |buf| && buf[..|text|] == text
    ensures |text| > 0 && |text| % 4 == 0
    ensures ParseSpecAsWritten(buf, |text|, ring, x) == Verdict(Err(Corrupt))
  {
    var key, plen := ring.entries[0], f.plen as byte;
    var bin := Binary(x, key, now, attrs, plen);
    BinaryLength(x, key, now, attrs, plen, f);
    DecodeText(bin, text, buf);
    OpenBinary(x, key, now, attrs, plen);
    var hint, pad := BigEndian32(now), Padding(plen);
    var mac := x.hmacSha1(NONCE, attrs + pad);
    var dec := hint + Plaintext(x, attrs, plen);
    Sections(dec, hint, mac, attrs, pad);
    AlignedTokenRejectedAsWritten(x, hint, attrs);
  }

  /** A decrypted 44-byte token ending in ten bytes 10 whose HMAC matches
      passes the padding check as written and hands the attribute decoder
      -6 bytes; the corrected check calls it Corrupt. */
  lemma PaddingOverlapReachesDecoder(dec: seq<byte>, x: Externals)
    requires |dec| == 44 && forall i :: 34 <= i < 44 ==> dec[i] == 10
    requires dec[HMAC_O..ATTR_O] == x.hmacSha1(dec[NONCE_O..HMAC_O], dec[ATTR_O..])
    ensures UnsealAsWritten(dec, x) == NegativeAttrs(-6)
    ensures Unseal(dec, x) == Err(Corrupt)
  {
    assert dec[|dec| - 1] == 10;
  }

  /** Parse turns the same short text into Corrupt, before the cipher is
      reached. */
  lemma ShortTokenCorrupt(buf: seq<byte>, ring: KeyRing, x: Externals)
    requires |buf| >= 4 && buf[..4] == [65, 65, 65, 65] && Contracts(x)
    requires |ring.entries| > 0 && x.aesSetDecryptKey(ring.entries[0])
    ensures ParseSpec(buf, 4, ring, x) == Parsed(Err(Corrupt), [0, 0, 0] + buf[3..])
  {
    DecodeAAAA();
  }
}
