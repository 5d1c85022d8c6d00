/** The sixteen-byte `e_ident` array of an ELF header ("ELF Identification",
    chapter 4 of the System V gABI). */
module Ident {
  import opened Common
  import Magic

  /** EV_CURRENT, the only ELF version (EI_VERSION byte). */
  const EI_VERSION_CURRENT: u8 := 1

  datatype EIdent = EIdent(
    magic: Magic.EIMagic,  // bytes 0-3
    eiClass: u8,           // byte 4, EI_CLASS
    eiData: u8,            // byte 5, EI_DATA
    version: u8,           // byte 6, EI_VERSION
    osabi: u8,             // byte 7
    abiversion: u8,        // byte 8
    pad: seq<u8>)          // bytes 9-15

  /** The identification is valid when the magic is and the version byte is
      EV_CURRENT; class, data, OS ABI and padding are not looked at. */
  predicate IsValid(e: EIdent)
  {
    Magic.IsValid(e.magic) && e.version == EI_VERSION_CURRENT
  }

  /** Validity in terms of the raw bytes. */
  lemma IsValidIff(e: EIdent)
    ensures IsValid(e) <==> e.magic.bytes == Magic.ELFMAG && e.version == EI_VERSION_CURRENT
  {
    Magic.IsValidIffElfMag(e.magic);
  }

  /** An invalid magic gives false whatever the version. */
  lemma BadMagicIsInvalid(e: EIdent, v: u8)
    requires !Magic.IsValid(e.magic)
    ensures !IsValid(e.(version := v))
  {
  }

  /** A version byte other than EV_CURRENT gives false. */
  lemma BadVersionIsInvalid(e: EIdent)
    requires e.version != EI_VERSION_CURRENT
    ensures !IsValid(e)
  {
  }

  /** Class, data encoding, OS ABI, ABI version and padding do not matter. */
  lemma IgnoredFields(e: EIdent, eiClass: u8, eiData: u8, osabi: u8, abiversion: u8, pad: seq<u8>)
    ensures IsValid(e) == IsValid(e.(eiClass := eiClass, eiData := eiData, osabi := osabi,
                                     abiversion := abiversion, pad := pad))
  {
  }
}
