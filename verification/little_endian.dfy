/** Unsigned 32-bit words stored as four little-endian bytes: the `'I'` format code of
    Python's `struct` module on a little-endian machine, as the superblock codecs use it. */
module LittleEndian {
  import opened Byte

  const WordBytes: nat := 4
  const WordLimit: nat := 0x1_0000_0000

  /** `256` to the power `n`. */
  function Pow256(n: nat): (r: nat)
    ensures r >= 1
  {
    if n == 0 then 1 else 256 * Pow256(n - 1)
  }

  /** The lowest `n` bytes of `x`, least significant first. */
  function Encode(x: nat, n: nat): (r: seq<byte>)
    ensures |r| == n
  {
    if n == 0 then [] else [(x % 256) as byte] + Encode(x / 256, n - 1)
  }

  /** The number whose little-endian bytes are `b`. */
  function Decode(b: seq<byte>): (r: nat)
    ensures r < Pow256(|b|)
  {
    if b == [] then 0 else b[0] as int + 256 * Decode(b[1..])
  }

  /** Decoding undoes encoding for every number that fits in `n` bytes. */
  lemma {:induction false} DecodeEncode(x: nat, n: nat)
    requires x < Pow256(n)
    ensures Decode(Encode(x, n)) == x
  {
    if n > 0 {
      var e := Encode(x, n);
      assert e[1..] == Encode(x / 256, n - 1);
      assert e[0] as int == x % 256;
      DecodeEncode(x / 256, n - 1);
    }
  }

  /** Encoding undoes decoding: every byte string is the encoding of its value. */
  lemma {:induction false} EncodeDecode(b: seq<byte>)
    ensures Encode(Decode(b), |b|) == b
  {
    if b != [] {
      var x := Decode(b);
      assert x % 256 == b[0] as int && x / 256 == Decode(b[1..]);
      EncodeDecode(b[1..]);
    }
  }

  predicate FitsWord(x: int) {
    0 <= x < WordLimit
  }

  /** `struct.pack('I' * |ws|, *ws)`: the words one after the other, four bytes each. */
  function PackWords(ws: seq<int>): (r: seq<byte>)
    requires forall i :: 0 <= i < |ws| ==> FitsWord(ws[i])
    ensures |r| == WordBytes * |ws|
  {
    if ws == [] then [] else assert FitsWord(ws[0]); Encode(ws[0] as nat, WordBytes) + PackWords(ws[1..])
  }

  /** `struct.unpack('I' * (|b| / 4), b)`: every four bytes read back as one word. */
  function UnpackWords(b: seq<byte>): (r: seq<int>)
    requires |b| % WordBytes == 0
    ensures |r| == |b| / WordBytes
    ensures forall i :: 0 <= i < |r| ==> FitsWord(r[i])
  {
    if b == [] then [] else [Decode(b[..WordBytes]) as int] + UnpackWords(b[WordBytes..])
  }

  /** Unpacking what was packed gives back every word, in order. */
  lemma {:induction false} UnpackPack(ws: seq<int>)
    requires forall i :: 0 <= i < |ws| ==> FitsWord(ws[i])
    ensures UnpackWords(PackWords(ws)) == ws
  {
    if ws != [] {
      var p := PackWords(ws);
      assert p[..WordBytes] == Encode(ws[0], WordBytes);
      assert p[WordBytes..] == PackWords(ws[1..]);
      DecodeEncode(ws[0], WordBytes);
      UnpackPack(ws[1..]);
    }
  }

  /** Packing what was unpacked gives back every byte. */
  lemma {:induction false} PackUnpack(b: seq<byte>)
    requires |b| % WordBytes == 0
    ensures PackWords(UnpackWords(b)) == b
  {
    if b != [] {
      var ws := UnpackWords(b);
      assert ws[1..] == UnpackWords(b[WordBytes..]);
      EncodeDecode(b[..WordBytes]);
      PackUnpack(b[WordBytes..]);
      assert b == b[..WordBytes] + b[WordBytes..];
    }
  }
}
