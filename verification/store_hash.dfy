/**
 * The content hash of the chunk store: a fixed-width array of bytes
 * (`hash.Hash`, indexed up to `len(h)` and sliced with `h[:]` in Go), and its
 * conversions to and from a raw byte slice. The store/hash package that
 * defines it is not part of this model; only what the remote-storage codec
 * relies on is modelled: the width, the zero value, `h[:]` and the
 * slice-to-hash conversion.
 */
module StoreHash {

  /** Go's `byte`: an unsigned 8-bit value. */
  newtype byte = b: int | 0 <= b < 256

  /** The width of a hash in bytes: 20, assumed from the store/hash package. */
  const ByteLen: nat := 20

  /** A hash value: exactly ByteLen bytes, copied by value like a Go array. */
  type Hash = s: seq<byte> | |s| == ByteLen witness seq(ByteLen, _ => 0)

  /** The zero value of `hash.Hash` (`var zeroHash hash.Hash`). */
  function Zero(): (h: Hash)
    ensures forall j :: 0 <= j < |h| ==> h[j] == 0
  {
    seq(ByteLen, _ => 0)
  }

  /** `h[:]`: the wire form of a hash, its bytes in order, with no framing. */
  function Bytes(h: Hash): (b: seq<byte>)
    ensures |b| == ByteLen
    ensures forall j :: 0 <= j < ByteLen ==> b[j] == h[j]
  {
    h
  }

  /** The slice-to-hash conversion ParseByteSlices performs: the hash whose bytes are those of `b`. */
  function New(b: seq<byte>): (h: Hash)
    requires |b| == ByteLen
    ensures forall j :: 0 <= j < ByteLen ==> h[j] == b[j]
  {
    b
  }

  /** Reading a hash back from its wire form gives the same hash. */
  lemma NewBytes(h: Hash)
    ensures New(Bytes(h)) == h
  {
  }

  /** Writing out a parsed hash gives back the bytes it was parsed from. */
  lemma BytesNew(b: seq<byte>)
    requires |b| == ByteLen
    ensures Bytes(New(b)) == b
  {
  }

  /** Two hashes with the same wire form are the same hash. */
  lemma BytesInjective(h1: Hash, h2: Hash)
    ensures Bytes(h1) == Bytes(h2) <==> h1 == h2
  {
  }
}
