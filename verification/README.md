# MWixnet wire codec in Dafny

MWixnet is a coin-mixing network for a Mimblewimble currency: servers pass a
layered onion hop by hop, and each hop peels one layer to recover a `Payload`.
This project models the binary wire codec for that payload and for the
secp256k1-zkp values it carries. The payload layout is:

    [routing flag: 1][excess: 32][proof flag: 1][range proof: only if the proof flag is set]

A range proof is written as a u64 big-endian length followed by that many
bytes. Commitments (33 bytes), aggregate signatures (64), compressed public
keys (33) and secret keys (32) are written raw, with no length prefix.

There are three modules, one per source component:

- `Ser` (`ser.dfy`) holds the byte type, the error kinds, a `Result` type,
  and the reader and writer primitives that the codecs call. The `Reader` class
  is a cursor, a constant buffer `data` and a position `pos`. The `Writer`
  class owns an append-only `bytes` sequence. Each primitive is specified by a
  decode or encode function.
- `Secp` (`secp.dfy`) models the `Readable`/`Writeable` impls of
  `src/secp.rs`. Each value is held as the bytes that stand for it. Each
  `Read*` method is proved against a `Decode*` function, and each `Write*`
  method against an `Encode*` function. A read fills a zeroed fixed buffer
  in place (`CopyIntoPrefix`, the `clone_from_slice` of the source).
- `Types` (`types.dfy`) models `Payload::read`, `Payload::write`,
  `serialize_payload` and `deserialize_payload`. It also holds `Onion` and
  `Hop` as plain datatypes.

After a read, `Tracks` ties the returned value and the new cursor position to
the decode function of the old unread bytes. After an error the position is
not specified, because the source drops the reader on any error.

The library's validity checks are given their secp256k1 meaning:
- `ValidScalar` accepts 32 big-endian bytes whose value lies in [1, n), n being the group order.
- `ValidPoint` accepts a compressed point: prefix 2 or 3, an x coordinate
  below the field prime, and x^3 + 7 a square by Euler's criterion.

`Signature::from_raw_data` is a parameter `accepts`. When it rejects, the
source's `unwrap` panics, and the model marks that outcome `Panic`.

The range proof reader sets the logical length `plen` to the buffer length,
`MAX_PROOF_SIZE` (5134), not to the number of bytes read. The model keeps this
behaviour. A proof written with `plen < MAX_PROOF_SIZE` therefore reads back
as `Reloaded(rp)`: the written bytes, then zeros, with `plen == MAX_PROOF_SIZE`.
So, for a payload with a valid excess, `decode(encode(p)) == p` holds exactly
when the payload has no proof or its proof already has
`plen == MAX_PROOF_SIZE`. A payload whose proof has `plen < MAX_PROOF_SIZE`
does not read back equal to itself (`Types.PayloadRoundTripWithProof`). The
excess field is public, so a payload can hold an invalid excess, such as
32 zero bytes. Such a payload is written without complaint, but reading it
back fails with `CorruptedData` (`Types.DecodePayloadSucceeds`).

## Model

| member | source | states |
|---|---|---|
| `Secp.ValidScalar` | src/secp.rs:119-121 | the bytes `SecretKey::from_slice` accepts: 32 bytes whose big-endian value lies in [1, n); the all-zero key is refused |
| `Secp.ValidPoint` | src/secp.rs:101-103 | the bytes `PublicKey::from_slice` accepts: a 33-byte compressed point with prefix 2 or 3 and an x coordinate on the curve; the all-zero key is refused |
| `Ser.Reader.ReadU8` | src/types.rs:23 | reads one byte and advances the cursor by one; fails with `UnexpectedEof` on an empty input |
| `Ser.Reader.ReadU64` | src/secp.rs:65 | reads eight bytes as a big-endian u64 and advances by eight; fails with `UnexpectedEof` on a short input |
| `Ser.Reader.ReadFixedBytes` | src/secp.rs:50 | reads exactly `n` raw bytes and advances by `n`; fails with `UnexpectedEof` on a short input |
| `Ser.Reader.constructor` | src/types.rs:66-67 | a cursor at position 0 over the given bytes |
| `Ser.Writer.constructor` | src/types.rs:61-63 | an empty output buffer |
| `Ser.Writer.WriteU8` | src/types.rs:43-44 | appends exactly one byte |
| `Ser.Writer.WriteU64` | src/secp.rs:79 | appends the eight big-endian bytes of the number |
| `Ser.Writer.WriteFixedBytes` | src/types.rs:47 | appends the bytes raw, with no length prefix |
| `Ser.Writer.WriteBytes` | src/secp.rs:79 | appends a u64 length prefix and then the bytes |
| `Ser.U64RoundTrip` | src/secp.rs:65 | a u64 written by the length prefix is read back unchanged in eight bytes, whatever follows |
| `Ser.U64DecodeEncode` | src/secp.rs:65 | any eight bytes read as a u64 give a value below 2^64 that re-encodes to the same bytes |
| `Secp.CopyIntoPrefix` | src/secp.rs:51-52 | the front of the buffer becomes the source slice and the rest of the buffer is unchanged |
| `Secp.ReadCommitment` | src/secp.rs:48-55 | the cursor advances exactly as `DecodeCommitment` consumes, and the result is the value it decodes |
| `Secp.WriteCommitment` | src/secp.rs:57-61 | appends the 33 raw commitment bytes |
| `Secp.ReadRangeProof` | src/secp.rs:63-75 | the result and the cursor follow `DecodeRangeProof`; a successful read advances by at most `8 + MAX_PROOF_SIZE` |
| `Secp.WriteRangeProof` | src/secp.rs:77-81 | appends the u64 length `plen`, then `proof[..plen]` |
| `Secp.ReadSignature` | src/secp.rs:83-90 | the result and the cursor follow `DecodeSignature`; a rejected signature is `Panic` |
| `Secp.WriteSignature` | src/secp.rs:92-96 | appends the 64 raw signature bytes |
| `Secp.ReadPublicKey` | src/secp.rs:98-106 | the result and the cursor follow `DecodePublicKey`; an invalid point is `CorruptedData` |
| `Secp.WritePublicKey` | src/secp.rs:108-115 | appends the 33-byte compressed form |
| `Secp.ReadSecretKey` | src/secp.rs:117-124 | the result and the cursor follow `DecodeSecretKey`; an invalid scalar is `CorruptedData` |
| `Secp.WriteSecretKey` | src/secp.rs:126-131 | appends the 32 raw scalar bytes |
| `Secp.FixedRead` | src/secp.rs:50 | a fixed-size read succeeds exactly when `n` bytes are there, returns them unchanged, and otherwise propagates `UnexpectedEof` |
| `Secp.CommitmentRead` | src/secp.rs:48-55 | a commitment read succeeds exactly on 33 or more bytes, consumes 33, returns them unchanged, and otherwise fails with `UnexpectedEof` |
| `Secp.CommitmentRoundTrip` | src/secp.rs:48-61 | a written commitment is 33 bytes and reads back unchanged whatever follows it |
| `Secp.RangeProofRead` | src/secp.rs:63-75 | a read succeeds exactly when the length and `min(len, MAX_PROOF_SIZE)` bytes are present; it consumes `8 + min(len, MAX)` bytes, at most `8 + MAX`; the buffer holds the bytes read, then zeros; `plen == MAX_PROOF_SIZE` |
| `Secp.ReloadedAgrees` | src/secp.rs:68-73 | a reloaded proof agrees with the original on the first `plen` bytes, is zero after them, and has logical length `MAX_PROOF_SIZE` |
| `Secp.ReloadedIsSame` | src/secp.rs:70-73 | a reloaded proof equals the original exactly when the original's `plen` is `MAX_PROOF_SIZE` |
| `Secp.RangeProofRoundTrip` | src/secp.rs:63-81 | a written proof takes `8 + plen` bytes and reads back as `Reloaded(rp)`, consuming exactly those bytes, whatever follows |
| `Secp.SignatureRead` | src/secp.rs:83-90 | a signature read succeeds exactly on 64 bytes the library accepts; a short input gives `UnexpectedEof`, a rejected one `Panic` |
| `Secp.SignatureRoundTrip` | src/secp.rs:83-96 | an accepted signature is written as 64 raw bytes and reads back unchanged |
| `Secp.PublicKeyRead` | src/secp.rs:98-106 | a key read succeeds exactly on 33 bytes that form a valid compressed point; a short input gives `UnexpectedEof`, an invalid point `CorruptedData`, never a default key |
| `Secp.PublicKeyRoundTrip` | src/secp.rs:98-115 | a valid key is written as its 33 compressed bytes and reads back unchanged |
| `Secp.SecretKeyRead` | src/secp.rs:117-124 | a key read succeeds exactly on 32 bytes that form a valid scalar; a short input gives `UnexpectedEof`, an invalid scalar `CorruptedData` |
| `Secp.SecretKeyRoundTrip` | src/secp.rs:117-131 | a valid key is written as 32 raw bytes and reads back unchanged |
| `Secp.SecretKeyIgnoresTrailing` | src/secp.rs:117-124 | a successful key read does not depend on bytes after its 32 |
| `Secp.RangeProofIgnoresTrailing` | src/secp.rs:63-75 | a successful proof read does not depend on bytes after the ones it consumes |
| `Types.ReadPayload` | src/types.rs:21-37 | the result and the cursor follow `DecodePayload`; the first failing field ends the read with its error and no payload |
| `Types.WritePayload` | src/types.rs:40-58 | appends `EncodePayload(p)`: routing flag, raw excess, then proof flag and proof |
| `Types.SerializePayload` | src/types.rs:61-63 | returns exactly `EncodePayload(p)` |
| `Types.DeserializePayload` | src/types.rs:65-69 | succeeds exactly when `DecodePayload` succeeds, with its payload or its error |
| `Types.EncodePayloadLayout` | src/types.rs:42-55 | the first byte is 1 exactly for `Some` routing info and 0 for `None`; bytes 1 to 32 are the raw excess; byte 33 is 1 or 0 as a proof is present; after it come the proof's bytes or nothing; the total length is `34 + (8 + plen if a proof)` |
| `Types.PayloadWithoutProofSize` | src/types.rs:49-55 | a payload without a range proof encodes to exactly 34 bytes |
| `Types.DecodePayloadFields` | src/types.rs:23-29 | a successful read maps flag 0 to `None` and any nonzero flag to `Some`, takes the excess bytes as they stand, and consumes 34 bytes plus `8 + min(len, MAX_PROOF_SIZE)` when the proof flag is set |
| `Types.DecodePayloadSucceeds` | src/types.rs:22-29 | a read succeeds exactly when the 34 fixed bytes are present, the excess is a valid scalar, and a set proof flag is followed by its length and the clamped number of bytes; otherwise it fails with `CorruptedData` for a bad excess and `UnexpectedEof` for a short input |
| `Types.PayloadRoundTrip` | src/types.rs:21-59 | a written payload with a valid excess reads back as `ReloadedPayload(p)`, consuming exactly the written bytes, whatever follows |
| `Types.PayloadRoundTripWithoutProof` | src/types.rs:21-59 | a payload with no range proof reads back exactly as written, in 34 bytes |
| `Types.PayloadRoundTripWithProof` | src/types.rs:25-29 | with a proof, routing presence and excess come back unchanged; the proof agrees on the written bytes, is zero after them, has `plen == MAX_PROOF_SIZE`, and equals the original exactly when the original's `plen` was already that |
| `Types.DecodePayloadIgnoresTrailing` | src/types.rs:65-69 | a successful read gives the same result when more bytes follow: trailing bytes are ignored, not rejected |

## Left out

- `src/onion.rs` (`create_onion`, `peel_layer`) is not part of this model, so construction, peeling, key derivation and encryption are not modelled. `Onion` and `Hop` appear only as datatypes.
- `to_public_key`, `insecure_rand_secret`, `commit` and `add_excess` (src/secp.rs:13-44) are left out. They are thin calls into secp256k1-zkp curve and Pedersen arithmetic and into OS randomness.
- The `ser` module is not part of this model. Its primitives are modelled with these assumed meanings: `read_u64`/`write_u64` are big-endian, `write_bytes` writes a u64 length and then the bytes, and a short read fails with an end-of-input error (`UnexpectedEof`). The u64 round trip is proved from the assumed meanings; it is not a fact about the unseen code.
- `Ser.Writer`: writing to an in-memory buffer is modelled as infallible, so the writers' `Result` returns are not modelled.
- `Secp.WriteRangeProof`: the bytes of a `RangeProof` on the wire are assumed to be `proof[..plen]` (its `AsRef<[u8]>` in the library). The requirement `plen <= MAX_PROOF_SIZE` stands for the library's invariant on proofs.
- `Secp.WriteCommitment`: the bytes of a `Commitment` on the wire are assumed to be its raw 33 bytes (its `AsRef<[u8]>` in the library, src/secp.rs:59), the same bytes the reader took.
- `Secp.WriteSignature`: the bytes of a `Signature` on the wire are assumed to be the raw 64 bytes that `Signature::from_raw_data` took (its `AsRef<[u8]>` in the library, src/secp.rs:94).
- `Secp.ReadSignature`: the checks of `Signature::from_raw_data` belong to the library and are a parameter. The panic of its `unwrap` is modelled as the outcome `Panic`, not as process termination.
- `Secp.ValidScalar` and `Secp.ValidPoint` model `SecretKey::from_slice` and `PublicKey::from_slice` by their mathematical definitions. The library's code is not modelled. `Secp.ValidPoint` is a specification: its field multiplication by repeated addition is not meant to run.
- `Ser.Reader`: after a failed read the cursor position is not specified.
- `src/server.rs` (JSON-RPC transport, global submission log, placeholder handlers) and `src/main.rs` (demo driver) are left out. They hold I/O, concurrency and randomness.
- The serde JSON derives and the `vec_serde`/`comsig_serde` helpers are left out; they are external serialisation libraries.
- `len as usize` in the range proof reader is modelled as the identity, as on a 64-bit target.
