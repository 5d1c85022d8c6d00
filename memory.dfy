/** Byte-addressed memory of the 32-bit target: little-endian unaligned
    words and halfwords, and the in-place writes the loader performs on it
    (word stores, zero fill, copy). An address is an index into the byte
    sequence or array. */
module Memory {

  /** The four bytes of a word, least significant first. */
  function Bytes32(w: bv32): (r: seq<bv8>)
    ensures |r| == 4
  {
    [(w & 0xff) as bv8, ((w >> 8) & 0xff) as bv8, ((w >> 16) & 0xff) as bv8, ((w >> 24) & 0xff) as bv8]
  }

  /** The two bytes of a halfword, least significant first. */
  function Bytes16(h: bv16): (r: seq<bv8>)
    ensures |r| == 2
  {
    [(h & 0xff) as bv8, ((h >> 8) & 0xff) as bv8]
  }

  /** The unaligned little-endian word at `a`. */
  function Le32(m: seq<bv8>, a: nat): bv32
    requires a + 4 <= |m|
  {
    (m[a] as bv32) | ((m[a + 1] as bv32) << 8) | ((m[a + 2] as bv32) << 16) | ((m[a + 3] as bv32) << 24)
  }

  /** The unaligned little-endian halfword at `a`. */
  function Le16(m: seq<bv8>, a: nat): bv16
    requires a + 2 <= |m|
  {
    (m[a] as bv16) | ((m[a + 1] as bv16) << 8)
  }

  /** Decoding the bytes of a word gives the word back. */
  lemma Le32Bytes32(w: bv32)
    ensures Le32(Bytes32(w), 0) == w
  {
  }

  /** Encoding a decoded word gives the bytes back. */
  lemma Bytes32Le32(m: seq<bv8>, a: nat)
    requires a + 4 <= |m|
    ensures Bytes32(Le32(m, a)) == m[a..a + 4]
  {
  }

  /** `m` with the bytes from `a` on replaced by `d`. */
  function Splice(m: seq<bv8>, a: nat, d: seq<bv8>): (r: seq<bv8>)
    requires a + |d| <= |m|
    ensures |r| == |m|
    ensures forall i :: 0 <= i < |d| ==> r[a + i] == d[i]
    ensures forall i :: 0 <= i < |m| && !(a <= i < a + |d|) ==> r[i] == m[i]
  {
    m[..a] + d + m[a + |d|..]
  }

  /** A word written at `a` reads back from `a`. */
  lemma Le32Splice(m: seq<bv8>, a: nat, w: bv32)
    requires a + 4 <= |m|
    ensures Le32(Splice(m, a, Bytes32(w)), a) == w
  {
    var r, b := Splice(m, a, Bytes32(w)), Bytes32(w);
    assert r[a] == b[0] && r[a + 1] == b[1] && r[a + 2] == b[2] && r[a + 3] == b[3];
    Le32SameBytes(r, a, b, 0);
    Le32Bytes32(w);
  }

  /** Equal bytes read as equal words. */
  lemma Le32SameBytes(m: seq<bv8>, a: nat, n: seq<bv8>, b: nat)
    requires a + 4 <= |m| && b + 4 <= |n|
    requires m[a] == n[b] && m[a + 1] == n[b + 1] && m[a + 2] == n[b + 2] && m[a + 3] == n[b + 3]
    ensures Le32(m, a) == Le32(n, b)
  {
  }

  /** A word read at `b` is not disturbed by a write that ends at or before
      `b` or starts at or after `b + 4`. */
  lemma Le32SpliceElsewhere(m: seq<bv8>, a: nat, d: seq<bv8>, b: nat)
    requires a + |d| <= |m| && b + 4 <= |m|
    requires a + |d| <= b || b + 4 <= a
    ensures Le32(Splice(m, a, d), b) == Le32(m, b)
  {
  }

  /** Halfword counterpart of Le32Splice. */
  lemma Le16Splice(m: seq<bv8>, a: nat, h: bv16)
    requires a + 2 <= |m|
    ensures Le16(Splice(m, a, Bytes16(h)), a) == h
  {
  }

  /** After a splice, the spliced range holds the new bytes. */
  lemma SpliceInside(m: seq<bv8>, a: nat, d: seq<bv8>)
    requires a + |d| <= |m|
    ensures Splice(m, a, d)[a..a + |d|] == d
  {
  }

  /** A splice leaves a range it does not overlap as it was. */
  lemma SpliceOutside(m: seq<bv8>, a: nat, d: seq<bv8>, b: nat, k: nat)
    requires a + |d| <= |m| && b + k <= |m|
    requires a + |d| <= b || b + k <= a
    ensures Splice(m, a, d)[b..b + k] == m[b..b + k]
  {
  }

  /** Writing bytes that are already there changes nothing. */
  lemma SpliceSame(m: seq<bv8>, a: nat, n: nat)
    requires a + n <= |m|
    ensures Splice(m, a, m[a..a + n]) == m
  {
  }

  /** `n` zero bytes. */
  function Zeros(n: nat): (r: seq<bv8>)
    ensures |r| == n && forall i :: 0 <= i < n ==> r[i] == 0
  {
    seq(n, _ => 0)
  }

  /** `read_unaligned` of a u32. */
  method Read32(mem: array<bv8>, a: nat) returns (w: bv32)
    requires a + 4 <= mem.Length
    ensures w == Le32(mem[..], a)
  {
    w := (mem[a] as bv32) | ((mem[a + 1] as bv32) << 8) | ((mem[a + 2] as bv32) << 16) | ((mem[a + 3] as bv32) << 24);
  }

  /** `read_unaligned` of a u16. */
  method Read16(mem: array<bv8>, a: nat) returns (h: bv16)
    requires a + 2 <= mem.Length
    ensures h == Le16(mem[..], a)
  {
    h := (mem[a] as bv16) | ((mem[a + 1] as bv16) << 8);
  }

  /** `write_unaligned` of a u32. */
  method Write32(mem: array<bv8>, a: nat, w: bv32)
    requires a + 4 <= mem.Length
    modifies mem
    ensures mem[..] == Splice(old(mem[..]), a, Bytes32(w))
  {
    var b := Bytes32(w);
    mem[a], mem[a + 1], mem[a + 2], mem[a + 3] := b[0], b[1], b[2], b[3];
  }

  /** Copies `src` to `mem[a..]`, byte by byte (`copy_nonoverlapping`). */
  method CopyInto(mem: array<bv8>, a: nat, src: seq<bv8>)
    requires a + |src| <= mem.Length
    modifies mem
    ensures mem[..] == Splice(old(mem[..]), a, src)
  {
    var k := 0;
    while k < |src|
      invariant 0 <= k <= |src|
      invariant mem[..] == Splice(old(mem[..]), a, src[..k])
    {
      mem[a + k] := src[k];
      k := k + 1;
    }
    assert src[..k] == src;
  }

  /** Sets `n` bytes from `a` to zero (`write_bytes(0, n)`). */
  method ZeroFill(mem: array<bv8>, a: nat, n: nat)
    requires a + n <= mem.Length
    modifies mem
    ensures mem[..] == Splice(old(mem[..]), a, Zeros(n))
  {
    CopyInto(mem, a, Zeros(n));
  }
}
