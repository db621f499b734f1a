/**
 * The byte-level reader and writer that the codecs are written against.
 *
 * The repository's `ser` module is not part of this model. Its primitives are
 * given here the behaviour the codecs rely on: `read_u8`/`write_u8` move one
 * byte, `read_u64`/`write_u64` move eight bytes in big-endian order,
 * `read_fixed_bytes`/`write_fixed_bytes` move raw bytes without a prefix, and
 * `write_bytes` writes a u64 length prefix followed by the bytes.
 * A `Reader` is a cursor over an immutable buffer (a `Cursor` over a `Vec<u8>`);
 * a `Writer` appends to a growing buffer (the `Vec<u8>` of `ser_vec`).
 */
module Ser {

  type byte = x: int | 0 <= x < 0x100

  /** The error kinds a decode can end with. */
  datatype Error =
    | UnexpectedEof   // the input ran out before a field was complete
    | CorruptedData   // the bytes of a field do not form a valid value
    | Panic           // not a returned error: the source aborts in an `unwrap`

  datatype Result<T> = Ok(value: T) | Err(error: Error) {
    predicate IsFailure() { Err? }

    function PropagateFailure<U>(): Result<U>
      requires Err?
    {
      Err(error)
    }

    function Extract(): T
      requires Ok?
    {
      value
    }
  }

  /** A value decoded from the front of a byte string, with the number of bytes it took. */
  datatype Decoded<T> = Decoded(value: T, used: nat)

  /**
   * Relates what a reader method returned, and where it left the cursor, to the
   * decode function that specifies it. After an error the position is left
   * unspecified: every caller in the source drops the reader on an error.
   */
  ghost predicate Tracks<T>(res: Result<T>, spec: Result<Decoded<T>>, before: nat, after: nat)
  {
    match spec
    case Ok(d) => res == Ok(d.value) && after == before + d.used
    case Err(e) => res == Err(e)
  }

  function Zeros(n: nat): (z: seq<byte>)
    ensures |z| == n && forall i :: 0 <= i < n ==> z[i] == 0
  {
    seq(n, _ => 0)
  }

  function Min(a: nat, b: nat): nat
  {
    if a < b then a else b
  }

  // ---------------------------------------------------------------- big-endian integers

  function Pow256(k: nat): (r: nat)
    ensures r > 0
  {
    if k == 0 then 1 else 256 * Pow256(k - 1)
  }

  /** One more than the largest u64. */
  const U64_BOUND: nat := 0x1_0000_0000_0000_0000

  lemma U64Bound()
    ensures Pow256(8) == U64_BOUND
  {
  }

  /** The unsigned integer whose big-endian bytes are `s`. */
  function BeValue(s: seq<byte>): nat
  {
    if s == [] then 0 else BeValue(s[..|s| - 1]) * 256 + s[|s| - 1]
  }

  /** The `k` big-endian bytes of `n`. */
  function BeBytes(n: nat, k: nat): (r: seq<byte>)
    requires n < Pow256(k)
    ensures |r| == k
  {
    if k == 0 then [] else BeBytes(n / 256, k - 1) + [n % 256]
  }

  /** `k` big-endian bytes hold exactly the numbers below 256^k. */
  lemma {:induction false} BeValueBound(s: seq<byte>)
    ensures BeValue(s) < Pow256(|s|)
  {
    if s != [] {
      var init := s[..|s| - 1];
      BeValueBound(init);
      assert BeValue(init) + 1 <= Pow256(|init|);
      assert (BeValue(init) + 1) * 256 <= Pow256(|init|) * 256;
    }
  }

  /** Any number of zero bytes is the number 0. */
  lemma {:induction false} BeValueZeros(k: nat)
    ensures BeValue(Zeros(k)) == 0
  {
    if k > 0 {
      assert Zeros(k)[..k - 1] == Zeros(k - 1);
      BeValueZeros(k - 1);
    }
  }

  /** Decoding the big-endian bytes of `n` gives back `n`. */
  lemma {:induction false} BeValueOfBytes(n: nat, k: nat)
    requires n < Pow256(k)
    ensures BeValue(BeBytes(n, k)) == n
  {
    if k > 0 {
      var r := BeBytes(n, k);
      assert r[..k - 1] == BeBytes(n / 256, k - 1);
      BeValueOfBytes(n / 256, k - 1);
    }
  }

  /** Encoding the value of `k` big-endian bytes gives back those bytes. */
  lemma {:induction false} BeBytesOfValue(s: seq<byte>)
    ensures BeValue(s) < Pow256(|s|) && BeBytes(BeValue(s), |s|) == s
  {
    BeValueBound(s);
    if s != [] {
      var init := s[..|s| - 1];
      BeBytesOfValue(init);
      var v := BeValue(s);
      assert v / 256 == BeValue(init) && v % 256 == s[|s| - 1];
      assert s == init + [s[|s| - 1]];
    }
  }

  // ---------------------------------------------------------------- decode and encode functions

  /** `read_u8`: one byte. */
  function DecodeU8(s: seq<byte>): Result<Decoded<byte>>
  {
    if |s| < 1 then Err(UnexpectedEof) else Ok(Decoded(s[0], 1))
  }

  /** `read_u64`: eight bytes, big-endian. */
  function DecodeU64(s: seq<byte>): Result<Decoded<nat>>
  {
    if |s| < 8 then Err(UnexpectedEof) else Ok(Decoded(BeValue(s[..8]), 8))
  }

  /** `read_fixed_bytes(n)`: exactly `n` raw bytes. */
  function DecodeFixed(s: seq<byte>, n: nat): Result<Decoded<seq<byte>>>
  {
    if |s| < n then Err(UnexpectedEof) else Ok(Decoded(s[..n], n))
  }

  /** `write_u64`: eight bytes, big-endian. */
  function EncodeU64(n: nat): seq<byte>
    requires n < U64_BOUND
  {
    U64Bound();
    BeBytes(n, 8)
  }

  /** `write_bytes`: a u64 length prefix, then the bytes themselves. */
  function EncodeBytes(bs: seq<byte>): seq<byte>
    requires |bs| < U64_BOUND
  {
    EncodeU64(|bs|) + bs
  }

  /** A u64 read back from its encoding is the number written, whatever follows it. */
  lemma U64RoundTrip(n: nat, rest: seq<byte>)
    requires n < U64_BOUND
    ensures DecodeU64(EncodeU64(n) + rest) == Ok(Decoded(n, 8))
  {
    U64Bound();
    var e := EncodeU64(n);
    assert (e + rest)[..8] == e;
    BeValueOfBytes(n, 8);
  }

  /** A decoded u64 is below 2^64, and encoding it gives back the eight bytes read. */
  lemma U64DecodeEncode(s: seq<byte>)
    requires |s| >= 8
    ensures DecodeU64(s).Ok? && DecodeU64(s).value.value < U64_BOUND
    ensures EncodeU64(DecodeU64(s).value.value) == s[..8]
  {
    U64Bound();
    BeBytesOfValue(s[..8]);
  }

  // ---------------------------------------------------------------- the reader

  /** A cursor over an immutable byte buffer. */
  class Reader {
    const data: seq<byte>
    var pos: nat

    ghost predicate Valid()
      reads this
    {
      pos <= |data|
    }

    /** The bytes not consumed yet. */
    ghost function Unread(): seq<byte>
      reads this
      requires Valid()
    {
      data[pos..]
    }

    constructor (data: seq<byte>)
      ensures Valid() && this.data == data && pos == 0 && Unread() == data
    {
      this.data := data;
      pos := 0;
    }

    method ReadU8() returns (res: Result<byte>)
      requires Valid()
      modifies this
      ensures Valid() && Tracks(res, DecodeU8(old(Unread())), old(pos), pos)
    {
      if pos < |data| {
        res := Ok(data[pos]);
        pos := pos + 1;
      } else {
        res := Err(UnexpectedEof);
      }
    }

    method ReadU64() returns (res: Result<nat>)
      requires Valid()
      modifies this
      ensures Valid() && Tracks(res, DecodeU64(old(Unread())), old(pos), pos)
    {
      if |data| - pos < 8 {
        res := Err(UnexpectedEof);
      } else {
        assert data[pos..][..8] == data[pos..pos + 8];
        res := Ok(BeValue(data[pos..pos + 8]));
        pos := pos + 8;
      }
    }

    method ReadFixedBytes(n: nat) returns (res: Result<seq<byte>>)
      requires Valid()
      modifies this
      ensures Valid() && Tracks(res, DecodeFixed(old(Unread()), n), old(pos), pos)
    {
      if |data| - pos < n {
        res := Err(UnexpectedEof);
      } else {
        assert data[pos..][..n] == data[pos..pos + n];
        res := Ok(data[pos..pos + n]);
        pos := pos + n;
      }
    }
  }

  // ---------------------------------------------------------------- the writer

  /** An append-only byte buffer. Writing to memory cannot fail. */
  class Writer {
    var bytes: seq<byte>

    constructor ()
      ensures bytes == []
    {
      bytes := [];
    }

    method WriteU8(b: byte)
      modifies this
      ensures bytes == old(bytes) + [b]
    {
      bytes := bytes + [b];
    }

    method WriteU64(n: nat)
      requires n < U64_BOUND
      modifies this
      ensures bytes == old(bytes) + EncodeU64(n)
    {
      bytes := bytes + EncodeU64(n);
    }

    method WriteFixedBytes(bs: seq<byte>)
      modifies this
      ensures bytes == old(bytes) + bs
    {
      bytes := bytes + bs;
    }

    method WriteBytes(bs: seq<byte>)
      requires |bs| < U64_BOUND
      modifies this
      ensures bytes == old(bytes) + EncodeBytes(bs)
    {
      WriteU64(|bs|);
      WriteFixedBytes(bs);
    }
  }
}
