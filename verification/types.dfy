/**
 * The payload hidden inside one onion layer and its binary encoding
 * (src/types.rs):
 *
 *   [routing flag: 1][excess: 32][proof flag: 1][range proof: 8 + len, only if the flag is set]
 *
 * `DecodePayload` and `EncodePayload` specify the reader and writer methods;
 * the lemmas state the layout, the flags, the failures, the round trip and
 * that bytes after the payload are ignored.
 */
module Types {
  import opened Ser
  import opened Secp

  datatype Option<T> = None | Some(value: T)

  /** Reserved for forwarding metadata; it has no fields and no bytes on the wire. */
  datatype RoutingInfo = RoutingInfo

  datatype Payload = Payload(routingInfo: Option<RoutingInfo>, excess: SecretKey, rangeproof: Option<RangeProof>) {
    /** A proof carried in a payload has a logical length within its buffer. */
    predicate WellFormed() { rangeproof.Some? ==> rangeproof.value.WellFormed() }
  }

  /** The transmitted packet; its construction and peeling are not part of this model. */
  datatype Onion = Onion(ephemeralPubkey: PublicKey, commit: Commitment, encPayloads: seq<seq<byte>>)

  /** A route element known only to the onion's builder. */
  datatype Hop = Hop(pubkey: PublicKey, payload: Payload)

  /** Offset of the proof flag: one routing flag byte and the 32 excess bytes come first. */
  const PROOF_FLAG_AT: nat := 1 + SECRET_KEY_SIZE

  /** Size of a payload without a range proof. */
  const PAYLOAD_MIN_SIZE: nat := PROOF_FLAG_AT + 1

  // ---------------------------------------------------------------- specification

  function DecodePayload(s: seq<byte>): Result<Decoded<Payload>>
  {
    var flag :- DecodeU8(s);
    var routingInfo := if flag.value == 0 then None else Some(RoutingInfo);
    var excess :- DecodeSecretKey(s[1..]);
    var proofFlag :- DecodeU8(s[PROOF_FLAG_AT..]);
    if proofFlag.value == 0 then
      Ok(Decoded(Payload(routingInfo, excess.value, None), PAYLOAD_MIN_SIZE))
    else
      var proof :- DecodeRangeProof(s[PAYLOAD_MIN_SIZE..]);
      Ok(Decoded(Payload(routingInfo, excess.value, Some(proof.value)), PAYLOAD_MIN_SIZE + proof.used))
  }

  function EncodeFlag(present: bool): byte { if present then 1 else 0 }

  function EncodePayload(p: Payload): seq<byte>
    requires p.WellFormed()
  {
    [EncodeFlag(p.routingInfo.Some?)]
    + p.excess.bytes
    + match p.rangeproof
      case Some(proof) => [1] + EncodeRangeProof(proof)
      case None => [0]
  }

  /** What reading back a written payload yields: its proof, if any, comes back `Reloaded`. */
  function ReloadedPayload(p: Payload): Payload
    requires p.WellFormed()
  {
    match p.rangeproof
    case Some(proof) => p.(rangeproof := Some(Reloaded(proof)))
    case None => p
  }

  // ---------------------------------------------------------------- reader and writer

  /** `Payload::read`: the fields in order from the cursor; the first failure ends the read. */
  method ReadPayload(r: Reader) returns (res: Result<Payload>)
    requires r.Valid()
    modifies r
    ensures r.Valid() && Tracks(res, DecodePayload(old(r.Unread())), old(r.pos), r.pos)
  {
    ghost var unread := r.Unread();
    var flag :- r.ReadU8();
    var routingInfo := if flag == 0 then None else Some(RoutingInfo);
    assert r.Unread() == unread[1..];
    var excess :- ReadSecretKey(r);
    assert r.Unread() == unread[PROOF_FLAG_AT..];
    var proofFlag :- r.ReadU8();
    assert r.Unread() == unread[PAYLOAD_MIN_SIZE..];
    var rangeproof := None;
    if proofFlag != 0 {
      var proof :- ReadRangeProof(r);
      rangeproof := Some(proof);
    }
    return Ok(Payload(routingInfo, excess, rangeproof));
  }

  /** `Payload::write`: the flags and fields in order, appended to the writer. */
  method WritePayload(w: Writer, p: Payload)
    requires p.WellFormed()
    modifies w
    ensures w.bytes == old(w.bytes) + EncodePayload(p)
  {
    match p.routingInfo {
      case Some(_) => w.WriteU8(1);
      case None => w.WriteU8(0);
    }
    w.WriteFixedBytes(p.excess.bytes);
    match p.rangeproof {
      case Some(proof) =>
        w.WriteU8(1);
        WriteRangeProof(w, proof);
      case None => w.WriteU8(0);
    }
  }

  /** `serialize_payload`: the payload's bytes in a fresh buffer. */
  method SerializePayload(p: Payload) returns (bytes: seq<byte>)
    requires p.WellFormed()
    ensures bytes == EncodePayload(p)
  {
    var w := new Writer();
    WritePayload(w, p);
    bytes := w.bytes;
  }

  /** `deserialize_payload`: a payload read from the front of `bytes`. */
  method DeserializePayload(bytes: seq<byte>) returns (res: Result<Payload>)
    ensures res.Ok? <==> DecodePayload(bytes).Ok?
    ensures res.Ok? ==> res.value == DecodePayload(bytes).value.value
    ensures res.Err? ==> res.error == DecodePayload(bytes).error
  {
    var r := new Reader(bytes);
    res := ReadPayload(r);
  }

  // ---------------------------------------------------------------- properties

  /**
   * The layout of an encoded payload: the routing flag, the 32 raw excess
   * bytes with no prefix, then either a single 0 or a 1 followed by the proof.
   */
  lemma EncodePayloadLayout(p: Payload)
    requires p.WellFormed()
    ensures var e := EncodePayload(p);
      && |e| == PAYLOAD_MIN_SIZE + (if p.rangeproof.Some? then 8 + p.rangeproof.value.plen else 0)
      && (e[0] == 1 <==> p.routingInfo.Some?)
      && (e[0] == 0 <==> p.routingInfo.None?)
      && e[1..PROOF_FLAG_AT] == p.excess.bytes
      && (e[PROOF_FLAG_AT] == 1 <==> p.rangeproof.Some?)
      && (e[PROOF_FLAG_AT] == 0 <==> p.rangeproof.None?)
      && e[PAYLOAD_MIN_SIZE..] == if p.rangeproof.Some? then EncodeRangeProof(p.rangeproof.value) else []
  {
  }

  /** A payload without a range proof is exactly 34 bytes. */
  lemma PayloadWithoutProofSize(p: Payload)
    requires p.rangeproof.None?
    ensures |EncodePayload(p)| == 34
  {
  }

  /**
   * A successful read maps a flag byte of 0 to `None` and any other to `Some`,
   * takes the excess bytes as they stand, and consumes one byte per flag, the
   * 32 excess bytes and, when the proof flag is set, `8 + min(len, MAX_PROOF_SIZE)`.
   */
  lemma DecodePayloadFields(s: seq<byte>)
    requires DecodePayload(s).Ok?
    ensures |s| >= PAYLOAD_MIN_SIZE
    ensures var d := DecodePayload(s).value;
      && (d.value.routingInfo.Some? <==> s[0] != 0)
      && d.value.excess.bytes == s[1..PROOF_FLAG_AT]
      && (d.value.rangeproof.Some? <==> s[PROOF_FLAG_AT] != 0)
      && d.used == PAYLOAD_MIN_SIZE
                   + if s[PROOF_FLAG_AT] == 0 then 0
                     else 8 + Min(BeValue(s[PAYLOAD_MIN_SIZE..PAYLOAD_MIN_SIZE + 8]), MAX_PROOF_SIZE)
  {
    SecretKeyRead(s[1..]);
    assert s[1..][..SECRET_KEY_SIZE] == s[1..PROOF_FLAG_AT];
    if s[PROOF_FLAG_AT] != 0 {
      RangeProofRead(s[PAYLOAD_MIN_SIZE..]);
      assert s[PAYLOAD_MIN_SIZE..][..8] == s[PAYLOAD_MIN_SIZE..PAYLOAD_MIN_SIZE + 8];
    }
  }

  /**
   * Exactly which inputs decode: the 34 fixed bytes must be present, the excess
   * must be a valid scalar, and a set proof flag needs its length and as many
   * proof bytes as the clamped length says. Anything else fails as a whole,
   * with `CorruptedData` for an invalid excess and the reader's error otherwise.
   */
  lemma DecodePayloadSucceeds(s: seq<byte>)
    ensures DecodePayload(s).Ok? <==>
              && |s| >= PAYLOAD_MIN_SIZE
              && ValidScalar(s[1..PROOF_FLAG_AT])
              && (s[PROOF_FLAG_AT] != 0 ==>
                    && |s| >= PAYLOAD_MIN_SIZE + 8
                    && |s| >= PAYLOAD_MIN_SIZE + 8
                              + Min(BeValue(s[PAYLOAD_MIN_SIZE..PAYLOAD_MIN_SIZE + 8]), MAX_PROOF_SIZE))
    ensures DecodePayload(s).Err? ==>
              DecodePayload(s).error
                == if |s| >= PROOF_FLAG_AT && !ValidScalar(s[1..PROOF_FLAG_AT]) then CorruptedData else UnexpectedEof
  {
    if |s| >= 1 {
      SecretKeyRead(s[1..]);
      if |s| >= PROOF_FLAG_AT {
        assert s[1..][..SECRET_KEY_SIZE] == s[1..PROOF_FLAG_AT];
      }
      if |s| >= PAYLOAD_MIN_SIZE {
        RangeProofRead(s[PAYLOAD_MIN_SIZE..]);
        if |s| >= PAYLOAD_MIN_SIZE + 8 {
          assert s[PAYLOAD_MIN_SIZE..][..8] == s[PAYLOAD_MIN_SIZE..PAYLOAD_MIN_SIZE + 8];
        }
      }
    }
  }

  /**
   * A written payload with a valid excess reads back with the same routing
   * presence, the same excess and, if it had one, its proof `Reloaded`
   * (the written bytes, zero padding, logical length `MAX_PROOF_SIZE`); the
   * read consumes exactly the written bytes, whatever follows them.
   */
  lemma {:induction false} PayloadRoundTrip(p: Payload, rest: seq<byte>)
    requires p.WellFormed() && ValidScalar(p.excess.bytes)
    ensures DecodePayload(EncodePayload(p) + rest) == Ok(Decoded(ReloadedPayload(p), |EncodePayload(p)|))
  {
    var s := EncodePayload(p) + rest;
    var flag := EncodeFlag(p.routingInfo.Some?);
    var tail := match p.rangeproof case Some(proof) => [1] + EncodeRangeProof(proof) case None => [0];
    assert s == [flag] + (p.excess.bytes + (tail + rest));
    assert s[1..] == p.excess.bytes + (tail + rest);
    SecretKeyRoundTrip(p.excess, tail + rest);
    assert s[PROOF_FLAG_AT..] == tail + rest;
    if p.routingInfo.Some? {
      assert p.routingInfo.value == RoutingInfo;
    }
    match p.rangeproof {
      case None =>
      case Some(proof) =>
        assert s[PAYLOAD_MIN_SIZE..] == EncodeRangeProof(proof) + rest;
        RangeProofRoundTrip(proof, rest);
    }
  }

  /** Without a range proof a payload with a valid excess reads back exactly as written. */
  lemma PayloadRoundTripWithoutProof(p: Payload, rest: seq<byte>)
    requires p.rangeproof.None? && ValidScalar(p.excess.bytes)
    ensures DecodePayload(EncodePayload(p) + rest) == Ok(Decoded(p, PAYLOAD_MIN_SIZE))
  {
    PayloadRoundTrip(p, rest);
  }

  /**
   * With a range proof the round trip gives back the routing presence and the
   * excess, and a proof that agrees with the original on the written bytes and
   * is zero after them; it equals the original exactly when the original's
   * logical length was already `MAX_PROOF_SIZE`.
   */
  lemma PayloadRoundTripWithProof(p: Payload, rest: seq<byte>)
    requires p.WellFormed() && p.rangeproof.Some? && ValidScalar(p.excess.bytes)
    ensures DecodePayload(EncodePayload(p) + rest).Ok?
    ensures var q := DecodePayload(EncodePayload(p) + rest).value.value;
            var n := p.rangeproof.value.plen;
      && q.routingInfo == p.routingInfo
      && q.excess == p.excess
      && q.rangeproof.Some?
      && q.rangeproof.value.proof[..n] == p.rangeproof.value.proof[..n]
      && (forall i :: n <= i < MAX_PROOF_SIZE ==> q.rangeproof.value.proof[i] == 0)
      && q.rangeproof.value.plen == MAX_PROOF_SIZE
      && (q == p <==> n == MAX_PROOF_SIZE)
  {
    PayloadRoundTrip(p, rest);
    ReloadedAgrees(p.rangeproof.value);
    ReloadedIsSame(p.rangeproof.value);
  }

  /** A successful read takes only the bytes the layout needs: trailing bytes are ignored. */
  lemma DecodePayloadIgnoresTrailing(s: seq<byte>, t: seq<byte>)
    requires DecodePayload(s).Ok?
    ensures DecodePayload(s + t) == DecodePayload(s)
  {
    assert (s + t)[1..] == s[1..] + t;
    SecretKeyIgnoresTrailing(s[1..], t);
    assert (s + t)[PROOF_FLAG_AT..] == s[PROOF_FLAG_AT..] + t;
    if s[PROOF_FLAG_AT] != 0 {
      assert (s + t)[PAYLOAD_MIN_SIZE..] == s[PAYLOAD_MIN_SIZE..] + t;
      RangeProofIgnoresTrailing(s[PAYLOAD_MIN_SIZE..], t);
    }
  }
}
