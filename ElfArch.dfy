/**
 * The architecture resolver (elf_parse_arch) and the test for old FreeBSD
 * ARM EABI headers (is_old_freebsd_armheader).
 */
module ElfArch {
  import opened Wrappers
  import opened ElfTypes
  import opened ArmAttributes

  const ARM_ATTRIBUTES_SECTION: string := ".ARM.attributes"

  /** e_flags & EF_ARM_EABIMASK (0xff000000): the EABI version bits of an ARM header. */
  function EabiBits(flags: uint32): (bits: nat)
    ensures bits % 0x100_0000 == 0 && bits <= flags && flags - bits < 0x100_0000
  {
    flags - flags % 0x100_0000
  }

  /**
   * Old FreeBSD ARM EABI binaries carry zero in EI_OSABI; they are the 32-bit
   * ARM binaries whose EABI version is 4 or 5.
   */
  predicate IsOldFreebsdArmHeader(h: ElfHeader)
  {
    && h.eMachine == EM_ARM
    && h.eiClass == ELFCLASS32
    && (EabiBits(h.eFlags) == 0x0400_0000 || EabiBits(h.eFlags) == 0x0500_0000)
  }

  /**
   * The attributes of the first section named `.ARM.attributes`; the walk
   * stops at a section whose header cannot be read, and a section whose name
   * cannot be resolved is passed over. A section without data is read as
   * an empty buffer.
   */
  function ArmSectionArch(sections: seq<Section>): Option<ArmArch>
  {
    if sections == [] then None
    else match sections[0]
      case BadHeader => None
      case Section(name, _, _, _, data, _) =>
        if name == Some(ARM_ATTRIBUTES_SECTION) then ArmAttributesArch(data.GetOr([]))
        else ArmSectionArch(sections[1..])
  }

  /** The architecture label elf_parse_arch gives, or None for NULL. */
  function ElfParseArch(ostype: OsType, hdr: ElfHeader, sections: seq<Section>): Option<string>
  {
    if hdr.eMachine == EM_386 then Some("i386")
    else if hdr.eMachine == EM_X86_64 then
      Some(match ostype
           case OsFreeBSD => "amd64"
           case OsDragonFly => "x86:64"
           case _ => "x86_64")
    else if hdr.eMachine == EM_AARCH64 then Some("aarch64")
    else if hdr.eMachine == EM_ARM then
      // Only EABI binaries are supported
      if EabiBits(hdr.eFlags) == 0 then None
      else match ArmSectionArch(sections)
        case None => None
        case Some(a) => Some(a.Label())
    else if hdr.eMachine == EM_PPC then Some("powerpc")
    else if hdr.eMachine == EM_PPC64 then
      if hdr.eiData == ELFDATA2MSB then Some("powerpc64")
      else if hdr.eiData == ELFDATA2LSB then Some("powerpc64le")
      else None
    else if hdr.eMachine == EM_RISCV then
      if hdr.eiClass == ELFCLASS32 then Some("riscv32")
      else if hdr.eiClass == ELFCLASS64 then Some("riscv64")
      else None
    else None
  }

  /** The machine type a label stands for: the inverse reading of the resolver's table. */
  function LabelMachine(arch: string): Option<nat>
  {
    if arch == "i386" then Some(EM_386)
    else if arch in {"amd64", "x86:64", "x86_64"} then Some(EM_X86_64)
    else if arch == "aarch64" then Some(EM_AARCH64)
    else if arch in {"arm", "armv6", "armv7"} then Some(EM_ARM)
    else if arch == "powerpc" then Some(EM_PPC)
    else if arch in {"powerpc64", "powerpc64le"} then Some(EM_PPC64)
    else if arch in {"riscv32", "riscv64"} then Some(EM_RISCV)
    else None
  }

  /**
   * A label is never ambiguous: it names the header's machine type, and for
   * 64-bit PowerPC its byte order, for RISC-V its class, for 64-bit x86 the
   * OS dialect it was chosen for.
   */
  lemma ArchLabelDetermines(ostype: OsType, hdr: ElfHeader, sections: seq<Section>, arch: string)
    requires ElfParseArch(ostype, hdr, sections) == Some(arch)
    ensures LabelMachine(arch) == Some(hdr.eMachine)
    ensures hdr.eMachine == EM_PPC64 ==> (hdr.eiData == ELFDATA2MSB <==> arch == "powerpc64")
    ensures hdr.eMachine == EM_PPC64 ==> (hdr.eiData == ELFDATA2LSB <==> arch == "powerpc64le")
    ensures hdr.eMachine == EM_RISCV ==> (hdr.eiClass == ELFCLASS32 <==> arch == "riscv32")
    ensures hdr.eMachine == EM_RISCV ==> (hdr.eiClass == ELFCLASS64 <==> arch == "riscv64")
    ensures hdr.eMachine == EM_X86_64 ==> (ostype == OsFreeBSD <==> arch == "amd64")
    ensures hdr.eMachine == EM_X86_64 ==> (ostype == OsDragonFly <==> arch == "x86:64")
  {
    if hdr.eMachine == EM_ARM {
      var a := ArmSectionArch(sections).value;
      assert arch == a.Label();
    }
  }

  /** A machine type outside the resolver's table gets no label. */
  lemma ArchUnsupportedMachine(ostype: OsType, hdr: ElfHeader, sections: seq<Section>)
    requires hdr.eMachine !in {EM_386, EM_X86_64, EM_AARCH64, EM_ARM, EM_PPC, EM_PPC64, EM_RISCV}
    ensures ElfParseArch(ostype, hdr, sections) == None
  {
  }

  /** Only the 64-bit x86 label depends on the OS dialect. */
  lemma ArchIndependentOfOs(os1: OsType, os2: OsType, hdr: ElfHeader, sections: seq<Section>)
    requires hdr.eMachine != EM_X86_64
    ensures ElfParseArch(os1, hdr, sections) == ElfParseArch(os2, hdr, sections)
  {
  }

  /** Only ARM consults the sections; pure OABI ARM binaries get no label. */
  lemma ArchSectionsOnlyForArm(ostype: OsType, hdr: ElfHeader, s1: seq<Section>, s2: seq<Section>)
    ensures hdr.eMachine != EM_ARM ==> ElfParseArch(ostype, hdr, s1) == ElfParseArch(ostype, hdr, s2)
    ensures hdr.eMachine == EM_ARM && EabiBits(hdr.eFlags) == 0 ==> ElfParseArch(ostype, hdr, s1) == None
  {
  }

  /**
   * An ARM label comes from the first `.ARM.attributes` section, which must
   * come before any unreadable section header.
   */
  lemma {:induction false} ArmLabelFromAttributes(sections: seq<Section>)
    requires ArmSectionArch(sections).Some?
    ensures exists i :: 0 <= i < |sections| && sections[i].Section? && sections[i].name == Some(ARM_ATTRIBUTES_SECTION)
                        && ArmAttributesArch(sections[i].data.GetOr([])) == ArmSectionArch(sections)
                        && forall j :: 0 <= j < i ==> sections[j].Section? && sections[j].name != Some(ARM_ATTRIBUTES_SECTION)
  {
    if sections[0].Section? && sections[0].name != Some(ARM_ATTRIBUTES_SECTION) {
      ArmLabelFromAttributes(sections[1..]);
      var i :| 0 <= i < |sections[1..]| && sections[1..][i].Section? && sections[1..][i].name == Some(ARM_ATTRIBUTES_SECTION)
               && ArmAttributesArch(sections[1..][i].data.GetOr([])) == ArmSectionArch(sections[1..])
               && forall j :: 0 <= j < i ==> sections[1..][j].Section? && sections[1..][j].name != Some(ARM_ATTRIBUTES_SECTION);
      assert sections[i + 1] == sections[1..][i];
      forall j | 0 <= j < i + 1
        ensures sections[j].Section? && sections[j].name != Some(ARM_ATTRIBUTES_SECTION)
      {
        if j > 0 {
          assert sections[j] == sections[1..][j - 1];
        }
      }
    }
  }

  /** An old FreeBSD ARM header always carries non-zero EABI bits, so the resolver does not refuse it as OABI. */
  lemma OldFreebsdArmIsEabi(hdr: ElfHeader)
    requires IsOldFreebsdArmHeader(hdr)
    ensures EabiBits(hdr.eFlags) != 0
  {
  }
}
