/** The base64 codec of libwebauth: the standard alphabet with `=` padding
    (section 4 of RFC 4648), encoding into and decoding from bounded byte
    buffers. Characters are bytes here, as in the C code, so that decoding
    can run in place. Shifts and masks on the non-negative operands of the
    C code are written as `/` and `%` by powers of two. */
module Base64 {
  import opened Errors
  import Mem

  /** The value index_64 gives to a byte outside the alphabet. */
  const XX: byte := 127
  /** The padding character '='. */
  const PAD: byte := 61

  /** basis_64: the character that encodes the 6-bit value `v`
      ("A".."Z", "a".."z", "0".."9", "+", "/"). */
  function Basis(v: int): (c: byte)
    requires 0 <= v < 64
  {
    if v < 26 then 65 + v
    else if v < 52 then 97 + (v - 26)
    else if v < 62 then 48 + (v - 52)
    else if v == 62 then 43
    else 47
  }

  /** index_64 (CHAR64): the 6-bit value of an alphabet character, XX otherwise
      ('=' included). */
  function Index64(c: byte): (v: byte)
    ensures v == XX || v < 64
  {
    if 65 <= c <= 90 then c - 65
    else if 97 <= c <= 122 then c - 71
    else if 48 <= c <= 57 then c + 4
    else if c == 43 then 62
    else if c == 47 then 63
    else XX
  }

  /** The two tables are inverse to each other on the alphabet. */
  lemma AlphabetInverse(v: int, c: byte)
    requires 0 <= v < 64
    ensures Index64(Basis(v)) == v && Basis(v) != PAD
    ensures Index64(c) != XX ==> Basis(Index64(c)) == c
    ensures Index64(PAD) == XX
  {
  }

  function Min(a: int, b: int): int { if a <= b then a else b }

  /** webauth_base64_encoded_length: the length of the encoding of `n` bytes,
      the least multiple of 4 whose 4-character groups hold 3 bytes each. */
  function EncodedLength(n: int): (r: nat)
    requires n > 0
    ensures r % 4 == 0 && r > 0
    ensures 3 * (r / 4) - 2 <= n <= 3 * (r / 4)
  {
    (n + 2) / 3 * 4
  }

  /** Number of '=' at the end of the encoding of `n` bytes. */
  function Pads(n: nat): (p: nat)
    ensures p <= 2
  {
    if n % 3 == 1 then 2 else if n % 3 == 2 then 1 else 0
  }

  /** The four characters one iteration of the encoder emits for a group of
      one to three input bytes (a missing byte reads as 0). */
  function EncodeGroup(g: seq<byte>): (e: seq<byte>)
    requires 1 <= |g| <= 3
    ensures |e| == 4 && Index64(e[0]) != XX && Index64(e[1]) != XX
    ensures (e[2] == PAD <==> |g| == 1) && (e[3] == PAD <==> |g| < 3)
    ensures Index64(e[0]) as int * 4 + Index64(e[1]) as int / 16 == g[0]
  {
    var c2 := if |g| > 1 then g[1] as int else 0;
    var c3 := if |g| > 2 then g[2] as int else 0;
    AlphabetInverse((g[0] as int) / 4, PAD);
    AlphabetInverse(((g[0] as int) % 4) * 16 + c2 / 16, PAD);
    AlphabetInverse((c2 % 16) * 4 + c3 / 64, PAD);
    AlphabetInverse(c3 % 64, PAD);
    Unpack(g[0], c2 as byte, c3 as byte);
    var c1 := g[0] as int;
    var c2 := if |g| > 1 then g[1] as int else 0;
    var c3 := if |g| > 2 then g[2] as int else 0;
    [Basis(c1 / 4), Basis((c1 % 4) * 16 + c2 / 16),
     if |g| == 1 then PAD else Basis((c2 % 16) * 4 + c3 / 64),
     if |g| < 3 then PAD else Basis(c3 % 64)]
  }

  /** The base64 text of `s`: the groups of three encoded one after another. */
  function Encoding(s: seq<byte>): (e: seq<byte>)
    ensures |s| == 0 ==> e == []
    ensures |s| > 0 ==> |e| == EncodedLength(|s|)
    decreases |s|
  {
    if |s| == 0 then []
    else if |s| <= 3 then EncodeGroup(s)
    else
      EncodedLengthStep(|s|);
      EncodeGroup(s[..3]) + Encoding(s[3..])
  }

  /** Three more input bytes, one more group of four characters. */
  lemma EncodedLengthStep(n: int)
    requires n > 3
    ensures EncodedLength(n) == EncodedLength(n - 3) + 4
  {
  }

  /** Whether `e` is alphabet characters followed by exactly `p` '='. */
  predicate PaddedText(e: seq<byte>, p: nat)
  {
    forall k :: 0 <= k < |e| ==> (e[k] == PAD <==> k >= |e| - p) && (e[k] == PAD || Index64(e[k]) != XX)
  }

  /** An encoded group is alphabet characters followed by one '=' per
      missing input byte. */
  lemma GroupChars(g: seq<byte>)
    requires 1 <= |g| <= 3
    ensures PaddedText(EncodeGroup(g), Pads(|g|))
  {
    var c2 := if |g| > 1 then g[1] as int else 0;
    var c3 := if |g| > 2 then g[2] as int else 0;
    AlphabetInverse((g[0] as int) / 4, PAD);
    AlphabetInverse(((g[0] as int) % 4) * 16 + c2 / 16, PAD);
    AlphabetInverse((c2 % 16) * 4 + c3 / 64, PAD);
    AlphabetInverse(c3 % 64, PAD);
  }

  /** Unpadded text followed by padded text is padded text. */
  lemma PaddedConcat(g: seq<byte>, r: seq<byte>, p: nat)
    requires PaddedText(g, 0) && PaddedText(r, p) && p <= |r|
    ensures PaddedText(g + r, p)
  {
    forall k | 0 <= k < |g + r|
      ensures ((g + r)[k] == PAD <==> k >= |g + r| - p) && ((g + r)[k] == PAD || Index64((g + r)[k]) != XX)
    {
      if k < |g| { assert (g + r)[k] == g[k]; } else { assert (g + r)[k] == r[k - |g|]; }
    }
  }

  /** The encoding is made of alphabet characters, and '=' exactly in its
      last Pads(|s|) places: two for one leftover byte, one for two. */
  lemma {:induction false} EncodingChars(s: seq<byte>)
    ensures PaddedText(Encoding(s), Pads(|s|))
    decreases |s|
  {
    if 0 < |s| <= 3 {
      GroupChars(s);
    } else if |s| > 3 {
      var g, r := EncodeGroup(s[..3]), Encoding(s[3..]);
      assert Encoding(s) == g + r;
      GroupChars(s[..3]);
      EncodingChars(s[3..]);
      PadsShift(|s|);
      PaddedConcat(g, r, Pads(|s|));
    }
  }

  /** Three bytes more or less leave the padding unchanged. */
  lemma PadsShift(n: nat)
    requires n >= 3
    ensures Pads(n) == Pads(n - 3) && Pads(3) == 0
  {
  }

  /** Encoding works group by group: cutting the input at a multiple of 3
      cuts the text at the matching multiple of 4. */
  lemma {:induction false} EncodingSplit(s: seq<byte>, p: nat)
    requires p % 3 == 0 && p <= |s|
    ensures Encoding(s) == Encoding(s[..p]) + Encoding(s[p..])
    ensures |Encoding(s[..p])| == p / 3 * 4
    decreases p
  {
    if p == 0 {
      assert s[..p] == [] && s[p..] == s;
    } else {
      AlignedLength(p);
      var t, h := s[3..], s[..p];
      SplitFirst(s);
      if p > 3 {
        EncodingSplit(t, p - 3);
        assert t[p - 3..] == s[p..];
        SplitFirst(h);
        assert h[..3] == s[..3] && h[3..] == t[..p - 3];
        Assoc(Encoding(s[..3]), Encoding(t[..p - 3]), Encoding(s[p..]));
      } else {
        assert h == s[..3];
      }
    }
  }

  /** The first group of the encoding and the rest. */
  lemma SplitFirst(s: seq<byte>)
    requires |s| >= 3
    ensures Encoding(s) == Encoding(s[..3]) + Encoding(s[3..])
  {
    assert s[..3][..3] == s[..3];
    if |s| == 3 {
      assert s[..3] == s && s[3..] == [];
    }
  }

  lemma Assoc<T>(a: seq<T>, b: seq<T>, c: seq<T>)
    ensures a + (b + c) == (a + b) + c
  {
  }

  /** The encoding of a multiple of 3 bytes has no '=' groups to round up. */
  lemma AlignedLength(p: nat)
    requires p > 0 && p % 3 == 0
    ensures EncodedLength(p) == p / 3 * 4
  {
  }


  /** What the decoder does with a buffer: the bytes it has written when it
      stops, and whether it stops with Corrupt (otherwise it stops with the
      byte count). */
  datatype Run = Run(bytes: seq<byte>, corrupt: bool)

  function Prepend(p: seq<byte>, r: Run): Run { Run(p + r.bytes, r.corrupt) }

  /** What one iteration of the decoder does with four characters: the bytes
      it writes, whether decoding ends with this group, and whether it ends
      Corrupt. A non-alphabet character in position 1 or 2, or one that is
      neither alphabet nor '=' in position 3 or 4, is Corrupt before anything
      is written; '=' in position 3 must be followed by '=' (Corrupt after the
      first byte otherwise); a group holding '=' ends decoding. */
  datatype Step = Step(bytes: seq<byte>, last: bool, corrupt: bool)

  /** The characters a group is refused for before anything is written: one
      outside the alphabet in position 1 or 2, or one that is neither in the
      alphabet nor '=' in position 3 or 4. */
  predicate BadChars(c1: byte, c2: byte, c3: byte, c4: byte)
  {
    Index64(c1) == XX || Index64(c2) == XX
    || (c3 != PAD && Index64(c3) == XX) || (c4 != PAD && Index64(c4) == XX)
  }

  function Quad(c1: byte, c2: byte, c3: byte, c4: byte): (s: Step)
    ensures |s.bytes| <= 3 && (s.corrupt ==> s.last) && (!s.last ==> |s.bytes| == 3)
    ensures s.last && !s.corrupt ==> |s.bytes| > 0
  {
    if Index64(c1) == XX || Index64(c2) == XX
      || (c3 != PAD && Index64(c3) == XX) || (c4 != PAD && Index64(c4) == XX)
    then Step([], true, true)
    else
      var b1 := Index64(c1) * 4 + Index64(c2) / 16;
      if c3 == PAD then Step([b1], true, c4 != PAD)
      else
        var b2 := (Index64(c2) % 16) * 16 + Index64(c3) / 4;
        if c4 == PAD then Step([b1, b2], true, false)
        else
          var b3 := (Index64(c3) % 4) * 64 + Index64(c4);
          Step([b1, b2, b3], false, false)
  }

  /** Which groups the decoder refuses: those with a bad character, before
      writing anything, and those with '=' in position 3 but not in position
      4, after one byte; and which groups end decoding: those refused and
      those holding '='. */
  lemma QuadRefuses(c1: byte, c2: byte, c3: byte, c4: byte)
    ensures var s := Quad(c1, c2, c3, c4);
            (BadChars(c1, c2, c3, c4) <==> s.corrupt && |s.bytes| == 0)
            && (s.corrupt <==> BadChars(c1, c2, c3, c4) || (c3 == PAD && c4 != PAD))
            && (s.last <==> BadChars(c1, c2, c3, c4) || c3 == PAD || c4 == PAD)
  {
  }

  /** The decoder with unlimited room: group after group until a group ends
      it or the text runs out. */
  function Decoding(t: seq<byte>): (run: Run)
    requires |t| % 4 == 0
    ensures |run.bytes| <= 3 * (|t| / 4)
    ensures |t| > 0 && !run.corrupt ==> |run.bytes| > 0
    decreases |t|
  {
    if |t| == 0 then Run([], false)
    else
      var s := Quad(t[0], t[1], t[2], t[3]);
      if s.last then Run(s.bytes, s.corrupt)
      else Prepend(s.bytes, Decoding(t[4..]))
  }

  /** The result of a decode into a buffer of `cap` bytes: a byte write with
      `cap` bytes already written fails NoRoom, so NoRoom wins exactly when the
      decoder would write more than `cap` bytes before stopping. */
  function Outcome(run: Run, cap: nat): (r: Result<seq<byte>>)
    ensures r.Ok? <==> !run.corrupt && |run.bytes| <= cap
    ensures r.Ok? ==> r.value == run.bytes
    ensures r == Err(NoRoom) <==> |run.bytes| > cap
  {
    if |run.bytes| > cap then Err(NoRoom)
    else if run.corrupt then Err(Corrupt)
    else Ok(run.bytes)
  }

  /** The bytes a decode into `cap` bytes of room leaves at the front of the output. */
  function Written(run: Run, cap: nat): seq<byte>
  {
    run.bytes[..Min(|run.bytes|, cap)]
  }

  function SizeOf(r: Result<seq<byte>>): Result<nat>
  {
    match r
    case Ok(b) => Ok(|b|)
    case Err(e) => Err(e)
  }

  /** The decoder's bit packing undoes the encoder's, byte by byte. */
  lemma Unpack(c1: byte, c2: byte, c3: byte)
    ensures 0 <= (c1 % 4) * 16 + c2 / 16 < 64 && 0 <= (c2 % 16) * 4 + c3 / 64 < 64
    ensures (c1 / 4) * 4 + ((c1 % 4) * 16 + c2 / 16) / 16 == c1
    ensures (((c1 % 4) * 16 + c2 / 16) % 16) * 16 + ((c2 % 16) * 4 + c3 / 64) / 4 == c2
    ensures (((c2 % 16) * 4 + c3 / 64) % 4) * 64 + c3 % 64 == c3
  {
  }

  /** Decoding a text that starts with a group `q` whose characters carry
      the 6-bit values v1..v4, with '=' only where the encoder puts it; b1,
      b2, b3 are the bytes the decoder packs from them. */
  lemma DecodeChars(q: seq<byte>, rest: seq<byte>, v1: int, v2: int, v3: int, v4: int, b1: byte, b2: byte, b3: byte)
    requires |q| == 4 && |rest| % 4 == 0
    requires 0 <= v1 < 64 && 0 <= v2 < 64 && 0 <= v3 < 64 && 0 <= v4 < 64
    requires Index64(q[0]) == v1 && Index64(q[1]) == v2
    requires q[2] == PAD || Index64(q[2]) == v3
    requires q[3] == PAD || Index64(q[3]) == v4
    requires q[2] == PAD ==> q[3] == PAD
    requires b1 == v1 * 4 + v2 / 16
    requires q[2] != PAD ==> b2 == (v2 % 16) * 16 + v3 / 4
    requires q[3] != PAD ==> b3 == (v3 % 4) * 64 + v4
    ensures Decoding(q + rest) == if q[2] == PAD then Run([b1], false)
                                  else if q[3] == PAD then Run([b1, b2], false)
                                  else Prepend([b1, b2, b3], Decoding(rest))
  {
    DecodingCons(q, rest);
    QuadValues(q[0], q[1], q[2], q[3], v1, v2, v3, v4, b1, b2, b3);
  }

  /** Decoding a text that starts with the group `q`: one iteration, then the rest. */
  lemma DecodingCons(q: seq<byte>, rest: seq<byte>)
    requires |q| == 4 && |rest| % 4 == 0
    ensures var s := Quad(q[0], q[1], q[2], q[3]);
            Decoding(q + rest) == if s.last then Run(s.bytes, s.corrupt) else Prepend(s.bytes, Decoding(rest))
  {
    var t := q + rest;
    assert t[..4] == q && t[4..] == rest;
    assert t[0] == q[0] && t[1] == q[1] && t[2] == q[2] && t[3] == q[3];
  }

  /** One iteration of the decoder on characters carrying the values v1..v4. */
  lemma QuadValues(c1: byte, c2: byte, c3: byte, c4: byte, v1: int, v2: int, v3: int, v4: int, b1: byte, b2: byte, b3: byte)
    requires 0 <= v1 < 64 && 0 <= v2 < 64 && 0 <= v3 < 64 && 0 <= v4 < 64
    requires Index64(c1) == v1 && Index64(c2) == v2
    requires c3 == PAD || Index64(c3) == v3
    requires c4 == PAD || Index64(c4) == v4
    requires c3 == PAD ==> c4 == PAD
    requires b1 == v1 * 4 + v2 / 16
    requires c3 != PAD ==> b2 == (v2 % 16) * 16 + v3 / 4
    requires c4 != PAD ==> b3 == (v3 % 4) * 64 + v4
    ensures Quad(c1, c2, c3, c4) == if c3 == PAD then Step([b1], true, false)
                                    else if c4 == PAD then Step([b1, b2], true, false)
                                    else Step([b1, b2, b3], false, false)
  {
  }

  /** The characters of an encoded one-byte group and the values they carry. */
  lemma GroupFacts1(g: seq<byte>)
    requires |g| == 1
    ensures var q, v1, v2 := EncodeGroup(g), (g[0] as int) / 4, ((g[0] as int) % 4) * 16;
            0 <= v1 < 64 && 0 <= v2 < 64 && Index64(q[0]) == v1 && Index64(q[1]) == v2
            && q[2] == PAD && q[3] == PAD && g[0] == v1 * 4 + v2 / 16
  {
    Unpack(g[0], 0, 0);
    AlphabetInverse(g[0] / 4, PAD);
    AlphabetInverse((g[0] % 4) * 16, PAD);
  }

  /** The characters of an encoded two-byte group and the values they carry. */
  lemma GroupFacts2(g: seq<byte>)
    requires |g| == 2
    ensures var q, v1, v2, v3 := EncodeGroup(g), (g[0] as int) / 4, ((g[0] as int) % 4) * 16 + (g[1] as int) / 16, ((g[1] as int) % 16) * 4;
            0 <= v1 < 64 && 0 <= v2 < 64 && 0 <= v3 < 64
            && Index64(q[0]) == v1 && Index64(q[1]) == v2 && Index64(q[2]) == v3 && q[3] == PAD && q[2] != PAD
            && g[0] == v1 * 4 + v2 / 16 && g[1] == (v2 % 16) * 16 + v3 / 4
  {
    Unpack(g[0], g[1], 0);
    AlphabetInverse(g[0] / 4, PAD);
    AlphabetInverse((g[0] % 4) * 16 + g[1] / 16, PAD);
    AlphabetInverse((g[1] % 16) * 4, PAD);
  }

  /** The characters of an encoded three-byte group and the values they carry. */
  lemma GroupFacts3(g: seq<byte>)
    requires |g| == 3
    ensures var q, v1, v2, v3, v4 := EncodeGroup(g), (g[0] as int) / 4, ((g[0] as int) % 4) * 16 + (g[1] as int) / 16,
                                      ((g[1] as int) % 16) * 4 + (g[2] as int) / 64, (g[2] as int) % 64;
            0 <= v1 < 64 && 0 <= v2 < 64 && 0 <= v3 < 64 && 0 <= v4 < 64
            && Index64(q[0]) == v1 && Index64(q[1]) == v2 && Index64(q[2]) == v3 && Index64(q[3]) == v4
            && q[2] != PAD && q[3] != PAD
            && g[0] == v1 * 4 + v2 / 16 && g[1] == (v2 % 16) * 16 + v3 / 4 && g[2] == (v3 % 4) * 64 + v4
  {
    Unpack(g[0], g[1], g[2]);
    AlphabetInverse(g[0] / 4, PAD);
    AlphabetInverse((g[0] % 4) * 16 + g[1] / 16, PAD);
    AlphabetInverse((g[1] % 16) * 4 + g[2] / 64, PAD);
    AlphabetInverse(g[2] % 64, PAD);
  }

  lemma DecodeGroup1(g: seq<byte>, rest: seq<byte>)
    requires |g| == 1 && |rest| % 4 == 0
    ensures Decoding(EncodeGroup(g) + rest) == Run(g, false)
  {
    GroupFacts1(g);
    DecodeChars(EncodeGroup(g), rest, (g[0] as int) / 4, ((g[0] as int) % 4) * 16, 0, 0, g[0], 0, 0);
    Elements1(g);
  }

  lemma DecodeGroup2(g: seq<byte>, rest: seq<byte>)
    requires |g| == 2 && |rest| % 4 == 0
    ensures Decoding(EncodeGroup(g) + rest) == Run(g, false)
  {
    GroupFacts2(g);
    DecodeChars(EncodeGroup(g), rest, (g[0] as int) / 4, ((g[0] as int) % 4) * 16 + (g[1] as int) / 16, ((g[1] as int) % 16) * 4, 0, g[0], g[1], 0);
    Elements2(g);
  }

  lemma DecodeGroup3Bytes(g: seq<byte>, rest: seq<byte>)
    requires |g| == 3 && |rest| % 4 == 0
    ensures Decoding(EncodeGroup(g) + rest) == Prepend([g[0], g[1], g[2]], Decoding(rest))
  {
    GroupFacts3(g);
    DecodeChars(EncodeGroup(g), rest, (g[0] as int) / 4, ((g[0] as int) % 4) * 16 + (g[1] as int) / 16,
                ((g[1] as int) % 16) * 4 + (g[2] as int) / 64, (g[2] as int) % 64, g[0], g[1], g[2]);
  }

  lemma DecodeGroup3(g: seq<byte>, rest: seq<byte>)
    requires |g| == 3 && |rest| % 4 == 0
    ensures Decoding(EncodeGroup(g) + rest) == Prepend(g, Decoding(rest))
  {
    DecodeGroup3Bytes(g, rest);
    Elements3(g);
  }

  lemma Elements1<T>(g: seq<T>)
    requires |g| == 1
    ensures [g[0]] == g
  {
  }

  lemma Elements2<T>(g: seq<T>)
    requires |g| == 2
    ensures [g[0], g[1]] == g
  {
  }

  lemma Elements3<T>(g: seq<T>)
    requires |g| == 3
    ensures [g[0], g[1], g[2]] == g
  {
  }

  /** Round trip: the decoder gives back every byte string the encoder encodes. */
  lemma {:induction false} DecodeEncode(s: seq<byte>)
    requires |s| > 0
    ensures Decoding(Encoding(s)) == Run(s, false)
    decreases |s|
  {
    if |s| <= 3 {
      assert EncodeGroup(s) + [] == EncodeGroup(s);
      if |s| == 1 { DecodeGroup1(s, []); } else if |s| == 2 { DecodeGroup2(s, []); } else { DecodeGroup3(s, []); }
    } else {
      DecodeGroup3(s[..3], Encoding(s[3..]));
      DecodeEncode(s[3..]);
      assert s == s[..3] + s[3..];
    }
  }

  /** Decode stops at the first group holding '=': whatever follows it is never read. */
  lemma PaddedGroupEndsDecoding(g: seq<byte>, rest: seq<byte>)
    requires |g| == 4 && |rest| % 4 == 0
    requires g[2] == PAD || g[3] == PAD
    ensures Decoding(g + rest) == Decoding(g)
  {
    assert (g + rest)[..4] == g;
  }

  /** The misplaced '=' in a text that starts with that group. */
  lemma MisplacedPadGroup(g: seq<byte>, rest: seq<byte>)
    requires |g| == 4 && |rest| % 4 == 0
    requires Index64(g[0]) != XX && Index64(g[1]) != XX && g[2] == PAD
    requires g[3] != PAD && Index64(g[3]) != XX
    ensures Decoding(g + rest) == Run([Index64(g[0]) * 4 + Index64(g[1]) / 16], true)
  {
    assert (g + rest)[..4] == g;
  }

  /** A text whose characters are all in the alphabet, so that none of its
      groups ends decoding. */
  predicate Unpadded(p: seq<byte>)
  {
    forall k :: 0 <= k < |p| ==> Index64(p[k]) != XX
  }

  /** A group refused for its characters makes the whole decode Corrupt,
      wherever it stands after groups of alphabet characters: the bytes
      written are exactly those of the groups before it. */
  lemma {:induction false} BadGroupIsCorrupt(p: seq<byte>, g: seq<byte>, rest: seq<byte>)
    requires |p| % 4 == 0 && |g| == 4 && |rest| % 4 == 0 && Unpadded(p)
    requires BadChars(g[0], g[1], g[2], g[3])
    ensures Decoding(p + g + rest) == Run(Decoding(p).bytes, true)
    ensures |Decoding(p + g + rest).bytes| == |p| / 4 * 3
    decreases |p|
  {
    UnpaddedDecodesFully(p);
    if |p| == 0 {
      assert p + g + rest == g + rest;
      DecodingCons(g, rest);
    } else {
      assert p + g + rest == p[..4] + (p[4..] + g + rest);
      UnpaddedStep(p, p[4..] + g + rest);
      BadGroupIsCorrupt(p[4..], g, rest);
    }
  }

  /** A group with '=' in position 3 and not in position 4 is Corrupt, wherever
      it stands after groups of alphabet characters: the bytes written are
      those of the groups before it and the first byte of that group. */
  lemma {:induction false} MisplacedPadIsCorrupt(p: seq<byte>, g: seq<byte>, rest: seq<byte>)
    requires |p| % 4 == 0 && |g| == 4 && |rest| % 4 == 0 && Unpadded(p)
    requires Index64(g[0]) != XX && Index64(g[1]) != XX && g[2] == PAD
    requires g[3] != PAD && Index64(g[3]) != XX
    ensures Decoding(p + g + rest) == Run(Decoding(p).bytes + [Index64(g[0]) * 4 + Index64(g[1]) / 16], true)
    ensures |Decoding(p + g + rest).bytes| == |p| / 4 * 3 + 1
    decreases |p|
  {
    UnpaddedDecodesFully(p);
    if |p| == 0 {
      assert p + g + rest == g + rest;
      MisplacedPadGroup(g, rest);
    } else {
      assert p + g + rest == p[..4] + (p[4..] + g + rest);
      UnpaddedStep(p, p[4..] + g + rest);
      MisplacedPadIsCorrupt(p[4..], g, rest);
    }
  }

  /** Decoding text that starts with a group `q` of alphabet characters: its
      three bytes, then the decoding of what follows. */
  lemma AlphabetGroupStep(q: seq<byte>, t: seq<byte>)
    requires |q| == 4 && |t| % 4 == 0
    requires Index64(q[0]) != XX && Index64(q[1]) != XX && Index64(q[2]) != XX && Index64(q[3]) != XX
    ensures Decoding(q + t) == Prepend(Quad(q[0], q[1], q[2], q[3]).bytes, Decoding(t))
  {
    AlphabetInverse(0, PAD);
    DecodingCons(q, t);
  }

  /** The same step for a text `p` of alphabet characters and for any text
      that continues its first group; what follows that group is again of
      alphabet characters. */
  lemma UnpaddedStep(p: seq<byte>, t: seq<byte>)
    requires |p| % 4 == 0 && |p| >= 4 && Unpadded(p) && |t| % 4 == 0
    ensures Unpadded(p[4..])
    ensures Decoding(p[..4] + t) == Prepend(Quad(p[0], p[1], p[2], p[3]).bytes, Decoding(t))
    ensures Decoding(p) == Prepend(Quad(p[0], p[1], p[2], p[3]).bytes, Decoding(p[4..]))
  {
    var q, r := p[..4], p[4..];
    FirstGroup(p);
    DropGroup(|p|);
    AlphabetGroupStep(q, t);
    AlphabetGroupStep(q, r);
    assert p == q + r;
  }

  lemma DropGroup(n: int)
    requires n >= 4 && n % 4 == 0
    ensures (n - 4) % 4 == 0
  {
  }

  lemma FirstGroup(p: seq<byte>)
    requires |p| >= 4 && Unpadded(p)
    ensures Unpadded(p[4..]) && |p[..4]| == 4
    ensures Index64(p[..4][0]) != XX && Index64(p[..4][1]) != XX && Index64(p[..4][2]) != XX && Index64(p[..4][3]) != XX
    ensures p[..4][0] == p[0] && p[..4][1] == p[1] && p[..4][2] == p[2] && p[..4][3] == p[3]
  {
    assert forall k :: 0 <= k < |p| - 4 ==> p[4..][k] == p[k + 4];
  }

  /** A group all of whose characters are in the alphabet decodes to exactly
      three bytes, and the text without '=' decodes to three bytes a group. */
  lemma {:induction false} UnpaddedDecodesFully(t: seq<byte>)
    requires |t| % 4 == 0
    requires forall k :: 0 <= k < |t| ==> Index64(t[k]) != XX
    ensures Decoding(t) == Run(Decoding(t).bytes, false)
    ensures |Decoding(t).bytes| == 3 * (|t| / 4)
    decreases |t|
  {
    if |t| > 0 {
      AlphabetInverse(0, PAD);
      assert t[2] != PAD && t[3] != PAD;
      UnpaddedDecodesFully(t[4..]);
    }
  }

  /** The group the encoder handles at input offset `pos` (a multiple of 3)
      lands at offset pos / 3 * 4 of the encoding; the last group ends it. */
  lemma EncodeStep(s: seq<byte>, pos: nat)
    requires pos % 3 == 0 && pos < |s|
    ensures var e, g, at := Encoding(s), s[pos..Min(pos + 3, |s|)], pos / 3 * 4;
            at + 4 <= |e| && e[at..at + 4] == EncodeGroup(g)
            && (|s| - pos <= 3 <==> |e| == at + 4)
  {
    EncodingSplit(s, pos);
    var t, g := s[pos..], s[pos..Min(pos + 3, |s|)];
    GroupAt(s, pos);
    if |t| > 3 {
      SplitFirst(t);
      Middle(Encoding(s[..pos]), EncodeGroup(g), Encoding(t[3..]));
    } else {
      Middle(Encoding(s[..pos]), EncodeGroup(g), []);
    }
  }

  /** The input from offset `pos` starts with the group at `pos`, and is that
      group when it is the last. */
  lemma GroupAt(s: seq<byte>, pos: nat)
    requires pos < |s|
    ensures var t, g := s[pos..], s[pos..Min(pos + 3, |s|)];
            (|t| > 3 ==> t[..3] == g) && (|t| <= 3 ==> t == g)
  {
  }

  lemma Middle<T>(a: seq<T>, b: seq<T>, c: seq<T>)
    ensures |a + b + c| == |a| + |b| + |c| && (a + b + c)[|a|..|a| + |b|] == b
    ensures a + (b + c) == a + b + c
    ensures c == [] ==> a + b + c == a + b
  {
  }

  /** The next group starts 3 bytes on and 4 characters on. */
  lemma NextGroup(pos: nat)
    requires pos % 3 == 0
    ensures (pos + 3) % 3 == 0 && (pos + 3) / 3 * 4 == pos / 3 * 4 + 4
  {
  }

  /** Lengths at the group at offset `pos`: a group that is not the last is
      followed by at least one more; the last one holds 3 - Pads bytes. */
  lemma GroupLengths(n: nat, pos: nat)
    requires pos % 3 == 0 && pos < n
    ensures n - pos > 3 ==> pos / 3 * 4 + 8 <= EncodedLength(n)
    ensures n - pos <= 3 ==> Pads(n) == 3 - (n - pos) && EncodedLength(n) == pos / 3 * 4 + 4
  {
  }

  /** One byte store of the encoder: writing the next character of `e` over
      `before` extends the prefix of `e` the buffer holds by one. */
  method Put(a: array<byte>, n: nat, x: byte, ghost e: seq<byte>, ghost before: seq<byte>)
    requires n < a.Length && n < |e| && x == e[n] && |before| == a.Length
    requires a[..] == e[..n] + before[n..]
    modifies a
    ensures a[..] == e[..n + 1] + before[n + 1..]
  {
    a[n] := x;
    assert a[..] == (e[..n] + before[n..])[n := x];
  }

  /** The stores of one loop iteration of the encoder: the four characters
      `q` of a group, each written only after the test that the `outputMax`
      bytes of room are not used up. `room` says whether all four fit; the
      first `n` bytes of the buffer then hold a prefix of `e`. */
  method PutGroup(output: array<byte>, outLen: nat, outputMax: nat, q: seq<byte>,
                  ghost e: seq<byte>, ghost before: seq<byte>) returns (n: nat, room: bool)
    requires outLen <= outputMax <= output.Length && |before| == output.Length
    requires |q| == 4 && outLen + 4 <= |e| && e[outLen..outLen + 4] == q
    requires output[..] == e[..outLen] + before[outLen..]
    modifies output
    ensures room <==> outLen + 4 <= outputMax
    ensures n == Min(outLen + 4, outputMax)
    ensures output[..] == e[..n] + before[n..]
  {
    n := outLen;
    room := false;
    if n == outputMax { return; }
    Put(output, n, q[0], e, before);
    n := n + 1;
    if n == outputMax { return; }
    Put(output, n, q[1], e, before);
    n := n + 1;
    if n == outputMax { return; }
    Put(output, n, q[2], e, before);
    n := n + 1;
    if n == outputMax { return; }
    Put(output, n, q[3], e, before);
    n := n + 1;
    room := true;
  }

  /** webauth_base64_encode with the room test made before EVERY write,
      including the '=' writes. With room for the whole encoding it writes it
      and returns its length; otherwise it fills exactly the `outputMax` bytes
      it may use with a prefix of the encoding and returns NoRoom. Nothing at
      or beyond `outputMax` is touched. */
  method Encode(input: seq<byte>, output: array<byte>, outputMax: nat) returns (r: Result<nat>)
    requires |input| > 0
    requires outputMax <= output.Length
    modifies output
    ensures r == if EncodedLength(|input|) <= outputMax then Ok(EncodedLength(|input|)) else Err(NoRoom)
    ensures var w := Min(EncodedLength(|input|), outputMax);
            output[..] == Encoding(input)[..w] + old(output[..])[w..]
  {
    ghost var e := Encoding(input);
    ghost var before := output[..];
    var pos, outLen := 0, 0;
    while pos < |input|
      invariant pos <= |input| && outLen <= outputMax
      invariant pos < |input| ==> pos % 3 == 0 && outLen == pos / 3 * 4
      invariant pos == |input| ==> outLen == |e|
      invariant output[..] == e[..outLen] + before[outLen..]
    {
      var room;
      outLen, room, pos := EncodeAt(input, output, outputMax, pos, outLen, e, before);
      if !room { return Err(NoRoom); }
    }
    r := Ok(outLen);
  }

  /** One iteration of the encoder's loop: the group at input offset `pos`.
      Either its four characters fit and the encoding written so far grows
      by them, or the room ends inside them and the encoding does not fit. */
  method EncodeAt(input: seq<byte>, output: array<byte>, outputMax: nat, pos: nat, outLen: nat,
                  ghost e: seq<byte>, ghost before: seq<byte>) returns (n: nat, room: bool, next: nat)
    requires e == Encoding(input) && outputMax <= output.Length && |before| == output.Length
    requires pos % 3 == 0 && pos < |input| && outLen == pos / 3 * 4 && outLen <= outputMax
    requires output[..] == e[..outLen] + before[outLen..]
    modifies output
    ensures pos < next <= |input| && n <= |e| && n <= output.Length && output[..] == e[..n] + before[n..]
    ensures room ==> n <= outputMax && (next < |input| ==> next % 3 == 0 && n == next / 3 * 4)
                     && (next == |input| ==> n == |e|)
    ensures !room ==> n == outputMax < |e|
  {
    next := Min(pos + 3, |input|);
    EncodeStep(input, pos);
    NextGroup(pos);
    n, room := PutGroup(output, outLen, outputMax, EncodeGroup(input[pos..next]), e, before);
  }

  /** One iteration of webauth_base64_decode on the characters c1..c4: the
      character tests, then each byte store after its room test. With
      `outLen` bytes written so far, it writes the prefix of the group's
      bytes that fits in `outputMax`, and says whether decoding stops here
      and with what result. It writes nothing outside the three bytes from
      `outLen`. */
  method DecodeQuad(c1: byte, c2: byte, c3: byte, c4: byte, output: array<byte>, outLen: nat, outputMax: nat,
                    ghost acc: seq<byte>, ghost before: seq<byte>) returns (n: nat, stop: Option<Result<nat>>)
    requires |acc| == outLen <= outputMax <= output.Length && |before| == output.Length
    requires output[..] == acc + before[outLen..]
    modifies output
    ensures var s := Quad(c1, c2, c3, c4);
            var w := Min(|s.bytes|, outputMax - outLen);
            n == outLen + w
            && output[..] == acc + s.bytes[..w] + before[n..]
            && stop == if |s.bytes| > outputMax - outLen then Some(Err(NoRoom))
                       else if s.corrupt then Some(Err(Corrupt))
                       else if s.last then Some(Ok(n))
                       else None
    ensures forall k :: 0 <= k < output.Length && !(outLen <= k < outLen + 3) ==> output[k] == old(output[k])
  {
    n := outLen;
    if Index64(c1) == XX { return n, Some(Err(Corrupt)); }
    if Index64(c2) == XX { return n, Some(Err(Corrupt)); }
    if c3 != PAD && Index64(c3) == XX { return n, Some(Err(Corrupt)); }
    if c4 != PAD && Index64(c4) == XX { return n, Some(Err(Corrupt)); }
    n, stop := DecodeStores(c1, c2, c3, c4, output, outLen, outputMax);
    ghost var s := Quad(c1, c2, c3, c4);
    Mem.Extend(output[..], acc, before, s.bytes[..n - outLen]);
  }

  /** The byte stores of one decoder iteration, once the four characters
      have passed their tests: each byte of the group after its room test,
      at `outLen` and on. */
  method DecodeStores(c1: byte, c2: byte, c3: byte, c4: byte, output: array<byte>, outLen: nat, outputMax: nat)
    returns (n: nat, stop: Option<Result<nat>>)
    requires Index64(c1) != XX && Index64(c2) != XX && (c3 == PAD || Index64(c3) != XX) && (c4 == PAD || Index64(c4) != XX)
    requires outLen <= outputMax <= output.Length
    modifies output
    ensures var s := Quad(c1, c2, c3, c4);
            n == outLen + Min(|s.bytes|, outputMax - outLen)
            && stop == if |s.bytes| > outputMax - outLen then Some(Err(NoRoom))
                       else if s.corrupt then Some(Err(Corrupt))
                       else if s.last then Some(Ok(n))
                       else None
    ensures forall k :: 0 <= k < output.Length ==>
              output[k] == if outLen <= k < n then Quad(c1, c2, c3, c4).bytes[k - outLen] else old(output[k])
  {
    n := outLen;
    if n == outputMax { return n, Some(Err(NoRoom)); }
    var b1 := Index64(c1) * 4 + Index64(c2) / 16;
    output[n] := b1;
    n := n + 1;
    if c3 == PAD {
      if c4 != PAD { return n, Some(Err(Corrupt)); }
      return n, Some(Ok(n));
    }
    if n == outputMax { return n, Some(Err(NoRoom)); }
    var b2 := (Index64(c2) % 16) * 16 + Index64(c3) / 4;
    output[n] := b2;
    n := n + 1;
    if c4 == PAD { return n, Some(Ok(n)); }

    if n == outputMax { return n, Some(Err(NoRoom)); }
    var b3 := (Index64(c3) % 4) * 64 + Index64(c4);
    output[n] := b3;
    n := n + 1;
    stop := None;
  }

  /** How the decoder's outcome follows from one more group: once `acc` is
      written and the text left is `rest`, the group's bytes either overflow
      the room (NoRoom, with the buffer full of a prefix of the run), end the
      run, or are appended to `acc` before decoding goes on. */
  lemma DecodeStep(rest: seq<byte>, acc: seq<byte>, whole: Run, cap: nat)
    requires |rest| >= 4 && |rest| % 4 == 0 && |acc| <= cap
    requires whole == Prepend(acc, Decoding(rest))
    ensures var s := Quad(rest[0], rest[1], rest[2], rest[3]);
            var w := Min(|s.bytes|, cap - |acc|);
            if |s.bytes| > cap - |acc| then
              SizeOf(Outcome(whole, cap)) == Err(NoRoom) && Written(whole, cap) == acc + s.bytes[..w]
            else if s.last then
              SizeOf(Outcome(whole, cap)) == (if s.corrupt then Err(Corrupt) else Ok(|acc| + |s.bytes|))
              && Written(whole, cap) == acc + s.bytes
            else
              whole == Prepend(acc + s.bytes, Decoding(rest[4..]))
  {
    var s := Quad(rest[0], rest[1], rest[2], rest[3]);
    var r := Decoding(rest);
    DecodingHead(rest);
    if |s.bytes| > cap - |acc| {
      Overflow(acc, s.bytes, r, cap);
    }
  }

  /** Decoding starts with the first group's iteration. */
  lemma DecodingHead(rest: seq<byte>)
    requires |rest| >= 4 && |rest| % 4 == 0
    ensures var s := Quad(rest[0], rest[1], rest[2], rest[3]);
            Decoding(rest) == if s.last then Run(s.bytes, s.corrupt) else Prepend(s.bytes, Decoding(rest[4..]))
  {
  }

  /** Bytes `b` that do not fit after `acc` make the run fail NoRoom, with
      the room filled by `acc` and the start of `b`. */
  lemma Overflow(acc: seq<byte>, b: seq<byte>, r: Run, cap: nat)
    requires |acc| <= cap < |acc| + |b| && |b| <= |r.bytes| && r.bytes[..|b|] == b
    ensures SizeOf(Outcome(Prepend(acc, r), cap)) == Err(NoRoom)
    ensures Written(Prepend(acc, r), cap) == acc + b[..cap - |acc|]
  {
    var all := acc + r.bytes;
    assert all[..cap] == acc + b[..cap - |acc|] by {
      forall k | 0 <= k < cap ensures all[k] == (acc + b[..cap - |acc|])[k] {
        if k >= |acc| { assert all[k] == r.bytes[k - |acc|] == r.bytes[..|b|][k - |acc|]; }
      }
    }
  }

  /** What one decoder iteration (DecodeQuad on the head of `rest`) means for
      the whole run: either the run's result and final buffer, or the
      written prefix grown by the group with decoding going on after it. */
  lemma DecodeOutcome(rest: seq<byte>, acc: seq<byte>, whole: Run, cap: nat, n: nat, stop: Option<Result<nat>>,
                      out: seq<byte>, before: seq<byte>)
    requires |rest| >= 4 && |rest| % 4 == 0 && |acc| <= cap <= |before|
    requires whole == Prepend(acc, Decoding(rest))
    requires var s := Quad(rest[0], rest[1], rest[2], rest[3]);
             var w := Min(|s.bytes|, cap - |acc|);
             n == |acc| + w
             && out == acc + s.bytes[..w] + before[n..]
             && stop == if |s.bytes| > cap - |acc| then Some(Err(NoRoom))
                        else if s.corrupt then Some(Err(Corrupt))
                        else if s.last then Some(Ok(n))
                        else None
    ensures stop.Some? ==> stop.value == SizeOf(Outcome(whole, cap))
                           && out == Written(whole, cap) + before[|Written(whole, cap)|..]
    ensures var s := Quad(rest[0], rest[1], rest[2], rest[3]);
            stop.None? ==> n == |acc| + 3 && n == |acc + s.bytes| && out == acc + s.bytes + before[n..]
                           && whole == Prepend(acc + s.bytes, Decoding(rest[4..]))
  {
    DecodeStep(rest, acc, whole, cap);
    var s := Quad(rest[0], rest[1], rest[2], rest[3]);
    assert s.bytes[..|s.bytes|] == s.bytes;
  }

  /** Group offsets: a group starting at a multiple of 4 below a multiple of
      4 fits, and what follows it is whole groups again. */
  lemma Aligned(i: int, n: int)
    requires 0 <= i < n && i % 4 == 0 && n % 4 == 0
    ensures i + 4 <= n && (n - i) % 4 == 0 && (n - (i + 4)) % 4 == 0 && (i + 4) % 4 == 0
  {
  }

  /** webauth_base64_decode: decodes the first `inputLen` bytes of `input`
      (a positive multiple of 4) into at most `outputMax` bytes of `output`.
      The two buffers may be the same array: the decoder writes behind the
      position it reads. The result is the outcome of the decoder's run, and
      the output holds the bytes it wrote before it stopped. */
  method Decode(input: array<byte>, inputLen: nat, output: array<byte>, outputMax: nat) returns (r: Result<nat>)
    requires 0 < inputLen <= input.Length && inputLen % 4 == 0
    requires outputMax <= output.Length
    modifies output
    ensures var run := Decoding(old(input[..inputLen]));
            r == SizeOf(Outcome(run, outputMax))
            && output[..] == Written(run, outputMax) + old(output[..])[|Written(run, outputMax)|..]
  {
    ghost var t := input[..inputLen];
    ghost var whole := Decoding(t);
    ghost var before := output[..];
    ghost var acc: seq<byte> := [];
    var i, outLen := 0, 0;
    while i < inputLen
      invariant i % 4 == 0 && (inputLen - i) % 4 == 0 && i <= inputLen && outLen == |acc|
      invariant outLen <= i && outLen <= outputMax
      invariant forall k :: i <= k < inputLen ==> input[k] == t[k]
      invariant output[..] == acc + before[outLen..]
      invariant whole == Prepend(acc, Decoding(t[i..]))
    {
      Aligned(i, inputLen);
      var stop;
      outLen, stop, acc := DecodeAt(input, i, inputLen, output, outLen, outputMax, t, acc, before, whole);
      if stop.Some? { return stop.value; }
      i := i + 4;
    }
    assert t[i..] == [];
    assert Written(whole, outputMax) == acc + [];
    r := Ok(outLen);
  }

  /** One iteration of the decoder's loop: the group at offset `i` of the
      input, read before anything is written. It either ends the decoder's
      run with its result, or extends the written bytes `acc` by the group's
      bytes, leaving everything from offset i + 4 of the input as it was. */
  method DecodeAt(input: array<byte>, i: nat, inputLen: nat, output: array<byte>, outLen: nat, outputMax: nat,
                  ghost t: seq<byte>, ghost acc: seq<byte>, ghost before: seq<byte>, ghost whole: Run)
    returns (n: nat, stop: Option<Result<nat>>, ghost acc': seq<byte>)
    requires i + 4 <= inputLen <= input.Length && |t| == inputLen && (inputLen - i) % 4 == 0
    requires outputMax <= output.Length && |before| == output.Length
    requires outLen == |acc| && outLen <= i && outLen <= outputMax
    requires forall k :: i <= k < inputLen ==> input[k] == t[k]
    requires output[..] == acc + before[outLen..]
    requires whole == Prepend(acc, Decoding(t[i..]))
    modifies output
    ensures stop.Some? ==> stop.value == SizeOf(Outcome(whole, outputMax))
                           && output[..] == Written(whole, outputMax) + before[|Written(whole, outputMax)|..]
    ensures stop.None? ==> n == |acc'| && n <= i + 4 && n <= outputMax
                           && output[..] == acc' + before[n..]
                           && whole == Prepend(acc', Decoding(t[i + 4..]))
                           && forall k :: i + 4 <= k < inputLen ==> input[k] == t[k]
  {
    ghost var rest := t[i..];
    var c1, c2, c3, c4 := input[i], input[i + 1], input[i + 2], input[i + 3];
    ghost var s := Quad(c1, c2, c3, c4);
    Rest(t, i);
    n, stop := DecodeQuad(c1, c2, c3, c4, output, outLen, outputMax, acc, before);
    DecodeOutcome(rest, acc, whole, outputMax, n, stop, output[..], before);
    acc' := acc + s.bytes;
  }

  /** The text left at group offset `i` and the text left after that group. */
  lemma Rest(t: seq<byte>, i: nat)
    requires i + 4 <= |t|
    ensures var rest := t[i..];
            rest[0] == t[i] && rest[1] == t[i + 1] && rest[2] == t[i + 2] && rest[3] == t[i + 3]
            && rest[4..] == t[i + 4..]
  {
  }

  /** The result of webauth_base64_encode as written: only the stores of
      alphabet characters test the room, so the call succeeds as soon as the
      encoding without its '=' fits. */
  function AsWrittenResult(n: nat, outputMax: nat): (r: Result<nat>)
    requires n > 0
    ensures r.Ok? <==> EncodedLength(n) - Pads(n) <= outputMax
  {
    if EncodedLength(n) - Pads(n) <= outputMax then Ok(EncodedLength(n)) else Err(NoRoom)
  }

  /** The stores of one loop iteration of webauth_base64_encode as written,
      for a group of `k` input bytes: the '=' stores (positions k + 1 .. 3)
      skip the room test. */
  method PutGroupAsWritten(output: array<byte>, outLen: nat, outputMax: nat, q: seq<byte>, k: nat,
                           ghost e: seq<byte>, ghost before: seq<byte>) returns (n: nat, room: bool)
    requires outLen <= outputMax && outputMax + 2 <= output.Length && |before| == output.Length
    requires 1 <= k <= 3 && |q| == 4 && outLen + 4 <= |e| && e[outLen..outLen + 4] == q
    requires output[..] == e[..outLen] + before[outLen..]
    modifies output
    ensures room <==> outLen + k + 1 <= outputMax
    ensures n == if room then outLen + 4 else outputMax
    ensures output[..] == e[..n] + before[n..]
  {
    n := outLen;
    room := false;
    if n == outputMax { return; }
    Put(output, n, q[0], e, before);
    n := n + 1;
    if n == outputMax { return; }
    Put(output, n, q[1], e, before);
    n := n + 1;
    if k == 1 {
      Put(output, n, q[2], e, before);
      n := n + 1;
      Put(output, n, q[3], e, before);
      n := n + 1;
      room := true;
      return;
    }
    if n == outputMax { return; }
    Put(output, n, q[2], e, before);
    n := n + 1;
    if k == 2 {
      Put(output, n, q[3], e, before);
      n := n + 1;
      room := true;
      return;
    }
    if n == outputMax { return; }
    Put(output, n, q[3], e, before);
    n := n + 1;
    room := true;
  }

  /** webauth_base64_encode as written. The buffer is given two bytes beyond
      `outputMax`, the most the unchecked '=' stores can reach. The call
      reports success whenever the encoding without its '=' fits, and then
      writes the whole encoding, past `outputMax` when '=' do not fit. */
  method EncodeAsWritten(input: seq<byte>, output: array<byte>, outputMax: nat) returns (r: Result<nat>)
    requires |input| > 0
    requires outputMax + 2 <= output.Length
    modifies output
    ensures r == AsWrittenResult(|input|, outputMax)
    ensures var w := if r.Ok? then EncodedLength(|input|) else outputMax;
            output[..] == Encoding(input)[..w] + old(output[..])[w..]
  {
    ghost var e := Encoding(input);
    ghost var before := output[..];
    var pos, outLen := 0, 0;
    while pos < |input|
      invariant pos <= |input|
      invariant pos < |input| ==> pos % 3 == 0 && outLen == pos / 3 * 4 && outLen <= outputMax
      invariant pos == |input| ==> outLen == |e| && |e| - Pads(|input|) <= outputMax
      invariant output[..] == e[..outLen] + before[outLen..]
    {
      var room;
      outLen, room, pos := EncodeAtAsWritten(input, output, outputMax, pos, outLen, e, before);
      if !room { return Err(NoRoom); }
    }
    r := Ok(outLen);
  }

  /** One iteration of webauth_base64_encode as written, for the group at
      input offset `pos`: the group fails only when a checked store finds
      the room used up, which happens exactly when the encoding without its
      '=' does not fit. */
  method EncodeAtAsWritten(input: seq<byte>, output: array<byte>, outputMax: nat, pos: nat, outLen: nat,
                           ghost e: seq<byte>, ghost before: seq<byte>) returns (n: nat, room: bool, next: nat)
    requires e == Encoding(input) && outputMax + 2 <= output.Length && |before| == output.Length
    requires pos % 3 == 0 && pos < |input| && outLen == pos / 3 * 4 && outLen <= outputMax
    requires output[..] == e[..outLen] + before[outLen..]
    modifies output
    ensures pos < next <= |input| && n <= |e| && n <= output.Length && output[..] == e[..n] + before[n..]
    ensures room ==> (next < |input| ==> next % 3 == 0 && n == next / 3 * 4 && n <= outputMax)
                     && (next == |input| ==> n == |e| && |e| - Pads(|input|) <= outputMax)
    ensures !room ==> n == outputMax && |e| - Pads(|input|) > outputMax
  {
    next := Min(pos + 3, |input|);
    EncodeStep(input, pos);
    GroupLengths(|input|, pos);
    NextGroup(pos);
    n, room := PutGroupAsWritten(output, outLen, outputMax, EncodeGroup(input[pos..next]), next - pos, e, before);
  }

  /** The overrun: one input byte with `outputMax` 2. The encoder reports
      success with the 4-byte encoding "AA==", two bytes past its room. */
  lemma EncodeOverrun()
    ensures AsWrittenResult(1, 2) == Ok(4) && EncodedLength(1) > 2
  {
  }

  /** Every input whose length is not a multiple of 3 has a room in which
      the encoder as written succeeds although its result does not fit. */
  lemma EncodeOverrunAnyLength(n: nat)
    requires n > 0 && n % 3 != 0
    ensures var room := EncodedLength(n) - Pads(n);
            AsWrittenResult(n, room) == Ok(EncodedLength(n)) && EncodedLength(n) > room
  {
  }
}
