/**
 * Wire encoding of the secp256k1-zkp values the mix carries: Pedersen
 * commitments, aggregate signatures, compressed public keys, secret keys and
 * range proofs (src/secp.rs, lines 46-131).
 *
 * Each value is modelled by the bytes that stand for it. For every field there
 * is a decode function on byte strings and an encode function, which specify
 * the reader and writer methods below; the lemmas state the byte counts, the
 * failures and the round trips.
 */
module Secp {
  import opened Ser

  const PEDERSEN_COMMITMENT_SIZE: nat := 33
  const AGG_SIGNATURE_SIZE: nat := 64
  const COMPRESSED_PUBLIC_KEY_SIZE: nat := 33
  const SECRET_KEY_SIZE: nat := 32
  const MAX_PROOF_SIZE: nat := 5134

  // ---------------------------------------------------------------- the library's validity checks

  /** The order n of the secp256k1 group. */
  const CURVE_ORDER: nat := 0xFFFFFFFF_FFFFFFFF_FFFFFFFF_FFFFFFFE_BAAEDCE6_AF48A03B_BFD25E8C_D0364141

  /** The prime p of the secp256k1 base field. */
  const FIELD_PRIME: nat := 0xFFFFFFFF_FFFFFFFF_FFFFFFFF_FFFFFFFF_FFFFFFFF_FFFFFFFF_FFFFFFFE_FFFFFC2F

  /**
   * What `SecretKey::from_slice` accepts: 32 big-endian bytes of a scalar in
   * [1, n). In particular the all-zero key is refused.
   */
  predicate ValidScalar(b: seq<byte>): (r: bool)
    ensures r ==> |b| == SECRET_KEY_SIZE && b != Zeros(SECRET_KEY_SIZE)
  {
    BeValueZeros(SECRET_KEY_SIZE);
    |b| == SECRET_KEY_SIZE && 0 < BeValue(b) < CURVE_ORDER
  }

  /**
   * The product `a * b`, defined by repeated addition so that it stays in
   * linear arithmetic. It serves the specification of `ValidPoint`: it is not
   * an executable check, as it takes `b` steps for `b` up to about 2^256.
   */
  function Mul(a: nat, b: nat): nat
  {
    if b == 0 then 0 else Mul(a, b - 1) + a
  }

  /** Multiplication in the base field. */
  function FieldMul(a: nat, b: nat): nat
  {
    Mul(a, b) % FIELD_PRIME
  }

  /** `b` to the power `e` in the base field, by repeated squaring. */
  function FieldPow(b: nat, e: nat): nat
  {
    if e == 0 then 1
    else
      var h := FieldPow(b, e / 2);
      if e % 2 == 0 then FieldMul(h, h) else FieldMul(FieldMul(h, h), b)
  }

  /** Euler's criterion: `y` has a square root in the base field. */
  predicate IsSquareModP(y: nat)
  {
    y % FIELD_PRIME == 0 || FieldPow(y % FIELD_PRIME, (FIELD_PRIME - 1) / 2) == 1
  }

  /**
   * What `PublicKey::from_slice` accepts in 33 bytes: a compressed point, that
   * is a parity prefix 2 or 3 and an x coordinate below p for which
   * x^3 + 7 has a square root, so that (x, y) lies on y^2 = x^3 + 7.
   * In particular the all-zero key is refused. This is a specification of the
   * library's check, not an executable one (see `Mul`).
   */
  predicate ValidPoint(b: seq<byte>): (r: bool)
    ensures r ==> |b| == COMPRESSED_PUBLIC_KEY_SIZE && b != Zeros(COMPRESSED_PUBLIC_KEY_SIZE)
  {
    && |b| == COMPRESSED_PUBLIC_KEY_SIZE
    && (b[0] == 2 || b[0] == 3)
    && var x := BeValue(b[1..]);
       x < FIELD_PRIME && IsSquareModP(FieldMul(FieldMul(x, x), x) + 7)
  }

  // ---------------------------------------------------------------- the values

  type CommitmentBytes = s: seq<byte> | |s| == PEDERSEN_COMMITMENT_SIZE witness Zeros(PEDERSEN_COMMITMENT_SIZE)
  type SignatureBytes = s: seq<byte> | |s| == AGG_SIGNATURE_SIZE witness Zeros(AGG_SIGNATURE_SIZE)
  type PublicKeyBytes = s: seq<byte> | |s| == COMPRESSED_PUBLIC_KEY_SIZE witness Zeros(COMPRESSED_PUBLIC_KEY_SIZE)
  type SecretKeyBytes = s: seq<byte> | |s| == SECRET_KEY_SIZE witness Zeros(SECRET_KEY_SIZE)
  type ProofBuffer = s: seq<byte> | |s| == MAX_PROOF_SIZE witness Zeros(MAX_PROOF_SIZE)

  /** An opaque 33-byte Pedersen commitment. */
  datatype Commitment = Commitment(bytes: CommitmentBytes)

  /** An aggregate signature, held as its raw 64 bytes. */
  datatype Signature = Signature(raw: SignatureBytes)

  /** A curve point, held as its 33-byte compressed serialization. */
  datatype PublicKey = PublicKey(compressed: PublicKeyBytes)

  /** A scalar, held as its 32 raw bytes (the field of the tuple struct is public). */
  datatype SecretKey = SecretKey(bytes: SecretKeyBytes)

  /**
   * A range proof: a buffer of `MAX_PROOF_SIZE` bytes of which the first
   * `plen` are the proof; its bytes on the wire are `proof[..plen]`.
   */
  datatype RangeProof = RangeProof(proof: ProofBuffer, plen: nat) {
    predicate WellFormed() { plen <= MAX_PROOF_SIZE }
  }

  // ---------------------------------------------------------------- decode functions

  function DecodeCommitment(s: seq<byte>): Result<Decoded<Commitment>>
  {
    var a :- DecodeFixed(s, PEDERSEN_COMMITMENT_SIZE);
    Ok(Decoded(Commitment(a.value), a.used))
  }

  /**
   * A u64 length, clamped to `MAX_PROOF_SIZE`, then that many bytes placed at
   * the front of a zeroed buffer. The logical length is set to the buffer's
   * length, not to the number of bytes read.
   */
  function DecodeRangeProof(s: seq<byte>): Result<Decoded<RangeProof>>
  {
    var len :- DecodeU64(s);
    var maxLen := Min(len.value, MAX_PROOF_SIZE);
    var p :- DecodeFixed(s[len.used..], maxLen);
    var proof: ProofBuffer := p.value + Zeros(MAX_PROOF_SIZE - maxLen);
    Ok(Decoded(RangeProof(proof, |proof|), len.used + p.used))
  }

  /** `accepts` stands for `Signature::from_raw_data`, whose checks are the library's. */
  function DecodeSignature(s: seq<byte>, accepts: SignatureBytes -> bool): Result<Decoded<Signature>>
  {
    var a :- DecodeFixed(s, AGG_SIGNATURE_SIZE);
    if accepts(a.value) then Ok(Decoded(Signature(a.value), a.used)) else Err(Panic)
  }

  function DecodePublicKey(s: seq<byte>): Result<Decoded<PublicKey>>
  {
    var buf :- DecodeFixed(s, COMPRESSED_PUBLIC_KEY_SIZE);
    if ValidPoint(buf.value) then Ok(Decoded(PublicKey(buf.value), buf.used)) else Err(CorruptedData)
  }

  function DecodeSecretKey(s: seq<byte>): Result<Decoded<SecretKey>>
  {
    var buf :- DecodeFixed(s, SECRET_KEY_SIZE);
    if ValidScalar(buf.value) then Ok(Decoded(SecretKey(buf.value), buf.used)) else Err(CorruptedData)
  }

  // ---------------------------------------------------------------- encode functions

  function EncodeCommitment(c: Commitment): seq<byte> { c.bytes }

  function EncodeSignature(sig: Signature): seq<byte> { sig.raw }

  function EncodePublicKey(pk: PublicKey): seq<byte> { pk.compressed }

  function EncodeSecretKey(sk: SecretKey): seq<byte> { sk.bytes }

  function EncodeRangeProof(rp: RangeProof): seq<byte>
    requires rp.WellFormed()
  {
    EncodeBytes(rp.proof[..rp.plen])
  }

  /**
   * What reading back a written proof yields: the written bytes, then zeros up
   * to the buffer's end, with the logical length set to `MAX_PROOF_SIZE`.
   */
  function Reloaded(rp: RangeProof): RangeProof
    requires rp.WellFormed()
  {
    RangeProof(rp.proof[..rp.plen] + Zeros(MAX_PROOF_SIZE - rp.plen), MAX_PROOF_SIZE)
  }

  // ---------------------------------------------------------------- readers

  /** `c[..k].clone_from_slice(src)` for `k == |src|`: overwrite the front of `dst` with `src`. */
  method CopyIntoPrefix(dst: array<byte>, src: seq<byte>)
    requires |src| <= dst.Length
    modifies dst
    ensures dst[..] == src + old(dst[|src|..])
  {
    var i := 0;
    while i < |src|
      invariant 0 <= i <= |src|
      invariant forall k :: 0 <= k < i ==> dst[k] == src[k]
      invariant forall k :: i <= k < dst.Length ==> dst[k] == old(dst[k])
    {
      dst[i] := src[i];
      i := i + 1;
    }
  }

  method ReadCommitment(r: Reader) returns (res: Result<Commitment>)
    requires r.Valid()
    modifies r
    ensures r.Valid() && Tracks(res, DecodeCommitment(old(r.Unread())), old(r.pos), r.pos)
  {
    var a :- r.ReadFixedBytes(PEDERSEN_COMMITMENT_SIZE);
    var c := new byte[PEDERSEN_COMMITMENT_SIZE](_ => 0);
    CopyIntoPrefix(c, a[..PEDERSEN_COMMITMENT_SIZE]);
    assert c[..] == a;
    return Ok(Commitment(c[..]));
  }

  method ReadRangeProof(r: Reader) returns (res: Result<RangeProof>)
    requires r.Valid()
    modifies r
    ensures r.Valid() && Tracks(res, DecodeRangeProof(old(r.Unread())), old(r.pos), r.pos)
    ensures res.Ok? ==> r.pos <= old(r.pos) + 8 + MAX_PROOF_SIZE
  {
    ghost var unread := r.Unread();
    var len :- r.ReadU64();
    assert r.Unread() == unread[8..];
    // `len as usize` is the identity on a 64-bit target
    var maxLen := Min(len, MAX_PROOF_SIZE);
    var p :- r.ReadFixedBytes(maxLen);
    var proof := new byte[MAX_PROOF_SIZE](_ => 0);
    assert proof[..] == Zeros(MAX_PROOF_SIZE);
    CopyIntoPrefix(proof, p);
    assert Zeros(MAX_PROOF_SIZE)[|p|..] == Zeros(MAX_PROOF_SIZE - maxLen);
    return Ok(RangeProof(proof[..], proof.Length));
  }

  method ReadSignature(r: Reader, accepts: SignatureBytes -> bool) returns (res: Result<Signature>)
    requires r.Valid()
    modifies r
    ensures r.Valid() && Tracks(res, DecodeSignature(old(r.Unread()), accepts), old(r.pos), r.pos)
  {
    var a :- r.ReadFixedBytes(AGG_SIGNATURE_SIZE);
    var c := new byte[AGG_SIGNATURE_SIZE](_ => 0);
    CopyIntoPrefix(c, a[..AGG_SIGNATURE_SIZE]);
    assert c[..] == a;
    if !accepts(c[..]) {
      return Err(Panic);
    }
    return Ok(Signature(c[..]));
  }

  method ReadPublicKey(r: Reader) returns (res: Result<PublicKey>)
    requires r.Valid()
    modifies r
    ensures r.Valid() && Tracks(res, DecodePublicKey(old(r.Unread())), old(r.pos), r.pos)
  {
    var buf :- r.ReadFixedBytes(COMPRESSED_PUBLIC_KEY_SIZE);
    if !ValidPoint(buf) {
      return Err(CorruptedData);
    }
    return Ok(PublicKey(buf));
  }

  method ReadSecretKey(r: Reader) returns (res: Result<SecretKey>)
    requires r.Valid()
    modifies r
    ensures r.Valid() && Tracks(res, DecodeSecretKey(old(r.Unread())), old(r.pos), r.pos)
  {
    var buf :- r.ReadFixedBytes(SECRET_KEY_SIZE);
    if !ValidScalar(buf) {
      return Err(CorruptedData);
    }
    return Ok(SecretKey(buf));
  }

  // ---------------------------------------------------------------- writers

  method WriteCommitment(w: Writer, c: Commitment)
    modifies w
    ensures w.bytes == old(w.bytes) + EncodeCommitment(c)
  {
    w.WriteFixedBytes(c.bytes);
  }

  method WriteRangeProof(w: Writer, rp: RangeProof)
    requires rp.WellFormed()
    modifies w
    ensures w.bytes == old(w.bytes) + EncodeRangeProof(rp)
  {
    w.WriteBytes(rp.proof[..rp.plen]);
  }

  method WriteSignature(w: Writer, sig: Signature)
    modifies w
    ensures w.bytes == old(w.bytes) + EncodeSignature(sig)
  {
    w.WriteFixedBytes(sig.raw);
  }

  method WritePublicKey(w: Writer, pk: PublicKey)
    modifies w
    ensures w.bytes == old(w.bytes) + EncodePublicKey(pk)
  {
    w.WriteFixedBytes(pk.compressed);
  }

  method WriteSecretKey(w: Writer, sk: SecretKey)
    modifies w
    ensures w.bytes == old(w.bytes) + EncodeSecretKey(sk)
  {
    w.WriteFixedBytes(sk.bytes);
  }

  // ---------------------------------------------------------------- properties

  /** Reading a fixed-size field of `n` bytes needs `n` bytes and returns them unchanged. */
  lemma FixedRead(s: seq<byte>, n: nat)
    ensures DecodeFixed(s, n).Ok? <==> |s| >= n
    ensures DecodeFixed(s, n).Err? ==> DecodeFixed(s, n).error == UnexpectedEof
    ensures DecodeFixed(s, n).Ok? ==> DecodeFixed(s, n).value == Decoded(s[..n], n)
  {
  }

  /** A commitment read takes exactly 33 bytes and returns them unchanged; a short input fails. */
  lemma CommitmentRead(s: seq<byte>)
    ensures DecodeCommitment(s).Ok? <==> |s| >= PEDERSEN_COMMITMENT_SIZE
    ensures DecodeCommitment(s).Err? ==> DecodeCommitment(s).error == UnexpectedEof
    ensures DecodeCommitment(s).Ok? ==>
              DecodeCommitment(s).value == Decoded(Commitment(s[..PEDERSEN_COMMITMENT_SIZE]), PEDERSEN_COMMITMENT_SIZE)
  {
  }

  /** A commitment is written as its 33 raw bytes and read back unchanged, whatever follows it. */
  lemma CommitmentRoundTrip(c: Commitment, rest: seq<byte>)
    ensures |EncodeCommitment(c)| == PEDERSEN_COMMITMENT_SIZE
    ensures DecodeCommitment(EncodeCommitment(c) + rest) == Ok(Decoded(c, PEDERSEN_COMMITMENT_SIZE))
  {
  }

  /**
   * A range proof read takes the eight-byte length `len`, then exactly
   * `min(len, MAX_PROOF_SIZE)` bytes, so never more than `8 + MAX_PROOF_SIZE`
   * in all. The result is those bytes followed by zeros, and its logical
   * length is `MAX_PROOF_SIZE` whatever `len` was.
   */
  lemma RangeProofRead(s: seq<byte>)
    ensures DecodeRangeProof(s).Ok? <==> |s| >= 8 && |s| >= 8 + Min(BeValue(s[..8]), MAX_PROOF_SIZE)
    ensures DecodeRangeProof(s).Err? ==> DecodeRangeProof(s).error == UnexpectedEof
    ensures DecodeRangeProof(s).Ok? ==>
              var k := Min(BeValue(s[..8]), MAX_PROOF_SIZE);
              var d := DecodeRangeProof(s).value;
              && d.used == 8 + k <= 8 + MAX_PROOF_SIZE
              && d.value.proof[..k] == s[8..8 + k]
              && (forall i :: k <= i < MAX_PROOF_SIZE ==> d.value.proof[i] == 0)
              && d.value.plen == MAX_PROOF_SIZE
  {
  }

  /** What a read of a written proof gives agrees with it on the written bytes; the rest is zero. */
  lemma ReloadedAgrees(rp: RangeProof)
    requires rp.WellFormed()
    ensures Reloaded(rp).proof[..rp.plen] == rp.proof[..rp.plen]
    ensures forall i :: rp.plen <= i < MAX_PROOF_SIZE ==> Reloaded(rp).proof[i] == 0
    ensures Reloaded(rp).plen == MAX_PROOF_SIZE
  {
  }

  /**
   * Reading a written proof gives back the very same proof exactly when its
   * logical length is already `MAX_PROOF_SIZE`.
   */
  lemma ReloadedIsSame(rp: RangeProof)
    requires rp.WellFormed()
    ensures Reloaded(rp) == rp <==> rp.plen == MAX_PROOF_SIZE
  {
  }

  /**
   * A written range proof takes `8 + plen` bytes and reads back as `Reloaded(rp)`,
   * consuming exactly those bytes, whatever follows it.
   */
  lemma RangeProofRoundTrip(rp: RangeProof, rest: seq<byte>)
    requires rp.WellFormed()
    ensures |EncodeRangeProof(rp)| == 8 + rp.plen
    ensures DecodeRangeProof(EncodeRangeProof(rp) + rest) == Ok(Decoded(Reloaded(rp), 8 + rp.plen))
  {
    var body := rp.proof[..rp.plen];
    var s := EncodeRangeProof(rp) + rest;
    assert s == EncodeU64(rp.plen) + (body + rest);
    U64RoundTrip(rp.plen, body + rest);
    assert s[8..] == body + rest;
    assert (body + rest)[..rp.plen] == body;
  }

  /** A signature read takes 64 bytes; a short input fails, and bytes the library rejects abort. */
  lemma SignatureRead(s: seq<byte>, accepts: SignatureBytes -> bool)
    ensures DecodeSignature(s, accepts).Ok? <==>
              |s| >= AGG_SIGNATURE_SIZE && accepts(s[..AGG_SIGNATURE_SIZE])
    ensures |s| < AGG_SIGNATURE_SIZE ==> DecodeSignature(s, accepts) == Err(UnexpectedEof)
    ensures |s| >= AGG_SIGNATURE_SIZE && !accepts(s[..AGG_SIGNATURE_SIZE]) ==>
              DecodeSignature(s, accepts) == Err(Panic)
    ensures DecodeSignature(s, accepts).Ok? ==>
              DecodeSignature(s, accepts).value == Decoded(Signature(s[..AGG_SIGNATURE_SIZE]), AGG_SIGNATURE_SIZE)
  {
  }

  /** A signature the library accepts is written raw and read back unchanged. */
  lemma SignatureRoundTrip(sig: Signature, accepts: SignatureBytes -> bool, rest: seq<byte>)
    requires accepts(sig.raw)
    ensures |EncodeSignature(sig)| == AGG_SIGNATURE_SIZE
    ensures DecodeSignature(EncodeSignature(sig) + rest, accepts) == Ok(Decoded(sig, AGG_SIGNATURE_SIZE))
  {
  }

  /**
   * A public key read takes 33 bytes; a short input fails with the reader's
   * error and an invalid compressed point with `CorruptedData`, never a default key.
   */
  lemma PublicKeyRead(s: seq<byte>)
    ensures DecodePublicKey(s).Ok? <==>
              |s| >= COMPRESSED_PUBLIC_KEY_SIZE && ValidPoint(s[..COMPRESSED_PUBLIC_KEY_SIZE])
    ensures |s| < COMPRESSED_PUBLIC_KEY_SIZE ==> DecodePublicKey(s) == Err(UnexpectedEof)
    ensures |s| >= COMPRESSED_PUBLIC_KEY_SIZE && !ValidPoint(s[..COMPRESSED_PUBLIC_KEY_SIZE]) ==>
              DecodePublicKey(s) == Err(CorruptedData)
    ensures DecodePublicKey(s).Ok? ==>
              DecodePublicKey(s).value
                == Decoded(PublicKey(s[..COMPRESSED_PUBLIC_KEY_SIZE]), COMPRESSED_PUBLIC_KEY_SIZE)
  {
  }

  /** A valid public key is written compressed and read back unchanged. */
  lemma PublicKeyRoundTrip(pk: PublicKey, rest: seq<byte>)
    requires ValidPoint(pk.compressed)
    ensures |EncodePublicKey(pk)| == COMPRESSED_PUBLIC_KEY_SIZE
    ensures DecodePublicKey(EncodePublicKey(pk) + rest) == Ok(Decoded(pk, COMPRESSED_PUBLIC_KEY_SIZE))
  {
  }

  /**
   * A secret key read takes 32 bytes; a short input fails with the reader's
   * error and bytes that are not a valid scalar with `CorruptedData`.
   */
  lemma SecretKeyRead(s: seq<byte>)
    ensures DecodeSecretKey(s).Ok? <==> |s| >= SECRET_KEY_SIZE && ValidScalar(s[..SECRET_KEY_SIZE])
    ensures |s| < SECRET_KEY_SIZE ==> DecodeSecretKey(s) == Err(UnexpectedEof)
    ensures |s| >= SECRET_KEY_SIZE && !ValidScalar(s[..SECRET_KEY_SIZE]) ==>
              DecodeSecretKey(s) == Err(CorruptedData)
    ensures DecodeSecretKey(s).Ok? ==>
              DecodeSecretKey(s).value == Decoded(SecretKey(s[..SECRET_KEY_SIZE]), SECRET_KEY_SIZE)
  {
  }

  /** A valid secret key is written as its 32 raw bytes and read back unchanged. */
  lemma SecretKeyRoundTrip(sk: SecretKey, rest: seq<byte>)
    requires ValidScalar(sk.bytes)
    ensures |EncodeSecretKey(sk)| == SECRET_KEY_SIZE
    ensures DecodeSecretKey(EncodeSecretKey(sk) + rest) == Ok(Decoded(sk, SECRET_KEY_SIZE))
  {
  }

  /** A successful secret key read is unaffected by bytes after the 32 it takes. */
  lemma SecretKeyIgnoresTrailing(s: seq<byte>, t: seq<byte>)
    requires DecodeSecretKey(s).Ok?
    ensures DecodeSecretKey(s + t) == DecodeSecretKey(s)
  {
    assert (s + t)[..SECRET_KEY_SIZE] == s[..SECRET_KEY_SIZE];
  }

  /** A successful range proof read is unaffected by bytes after the ones it takes. */
  lemma RangeProofIgnoresTrailing(s: seq<byte>, t: seq<byte>)
    requires DecodeRangeProof(s).Ok?
    ensures DecodeRangeProof(s + t) == DecodeRangeProof(s)
  {
    assert (s + t)[..8] == s[..8];
    var k := Min(BeValue(s[..8]), MAX_PROOF_SIZE);
    assert (s + t)[8..] == s[8..] + t;
    assert (s[8..] + t)[..k] == s[8..][..k];
  }
}
