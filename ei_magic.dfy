/** The four identification bytes at the start of every ELF file
    ("ELF Identification", chapter 4 of the System V gABI: ELFMAG0..ELFMAG3). */
module Magic {

  /** Exactly four bytes, like the `[u8; 4]` the loader reads. */
  type MagicBytes = s: seq<bv8> | |s| == 4 witness [0, 0, 0, 0]

  datatype EIMagic = EIMagic(bytes: MagicBytes)

  /** 0x7f 'E' 'L' 'F' */
  const ELFMAG: MagicBytes := [0x7f, 0x45, 0x4c, 0x46]

  /** Byte-wise comparison with ELFMAG, position by position. */
  predicate IsValid(m: EIMagic)
  {
    && m.bytes[0] == ELFMAG[0]
    && m.bytes[1] == ELFMAG[1]
    && m.bytes[2] == ELFMAG[2]
    && m.bytes[3] == ELFMAG[3]
  }

  /** The check accepts exactly one byte string. */
  lemma IsValidIffElfMag(m: EIMagic)
    ensures IsValid(m) <==> m.bytes == ELFMAG
  {
    if IsValid(m) {
      assert m.bytes == [m.bytes[0], m.bytes[1], m.bytes[2], m.bytes[3]];
    }
  }

  /** Changing any single byte of a valid magic makes it invalid. */
  lemma ChangedByteIsInvalid(m: EIMagic, i: nat, b: bv8)
    requires IsValid(m) && i < 4 && b != m.bytes[i]
    ensures !IsValid(EIMagic(m.bytes[i := b]))
  {
  }

  /** A reordering of four positions: `p[k]` is the position read for byte k. */
  predicate IsPermutation(p: seq<nat>)
  {
    && |p| == 4
    && (forall k :: 0 <= k < 4 ==> p[k] < 4)
    && (forall k, l :: 0 <= k < l < 4 ==> p[k] != p[l])
  }

  function Permute(s: MagicBytes, p: seq<nat>): (r: MagicBytes)
    requires IsPermutation(p)
  {
    [s[p[0]], s[p[1]], s[p[2]], s[p[3]]]
  }

  /** Order matters: the four magic bytes are distinct, so every reordering
      other than the identity is refused. */
  lemma PermutedMagicIsInvalid(p: seq<nat>)
    requires IsPermutation(p)
    requires p != [0, 1, 2, 3]
    ensures !IsValid(EIMagic(Permute(ELFMAG, p)))
  {
    var k :| 0 <= k < 4 && p[k] != k;
    assert Permute(ELFMAG, p)[k] == ELFMAG[p[k]];
  }
}
