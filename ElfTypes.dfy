/**
 * The plain inputs that stand for what libelf hands to pkg_elf.c: the ELF
 * header fields, the section list with each section's data, and the decoded
 * dynamic entries with their strings already resolved.  Also the result codes
 * of libpkg and the constants of the ELF headers that the core tests against.
 */
module ElfTypes {
  import opened Wrappers

  type byte = x: int | 0 <= x < 256
  type uint32 = x: int | 0 <= x < 0x1_0000_0000

  /** libpkg's result codes, as returned by every analysis entry point. */
  datatype PkgResult = EpkgOk | EpkgEnd | EpkgWarn | EpkgFatal

  /** os_type_t: the operating-system dialect recorded in an os_info. */
  datatype OsType =
    | OsUnknown | OsFreeBSD | OsNetBSD | OsDragonFly
    | OsLinux | OsGnu | OsSolaris | OsSyllable

  // Machine types (e_machine)
  const EM_386: nat := 3
  const EM_PPC: nat := 20
  const EM_PPC64: nat := 21
  const EM_ARM: nat := 40
  const EM_X86_64: nat := 62
  const EM_AARCH64: nat := 183
  const EM_RISCV: nat := 243

  // e_ident[EI_CLASS] and e_ident[EI_DATA]
  const ELFCLASS32: nat := 1
  const ELFCLASS64: nat := 2
  const ELFDATA2LSB: nat := 1
  const ELFDATA2MSB: nat := 2

  // e_ident[EI_OSABI]
  const ELFOSABI_FREEBSD: nat := 9

  // e_type
  const ET_REL: nat := 1
  const ET_EXEC: nat := 2
  const ET_DYN: nat := 3

  // sh_type
  const SHT_DYNAMIC: nat := 6
  const SHT_NOTE: nat := 7

  // d_tag
  const DT_NEEDED: nat := 1
  const DT_SONAME: nat := 14
  const DT_RPATH: nat := 15
  const DT_RUNPATH: nat := 29

  // Note types
  const NT_VERSION: nat := 1
  const NT_GNU_ABI_TAG: nat := 1
  const NT_ABI_TAG: nat := 1

  /** The header fields the core reads (GElf_Ehdr). */
  datatype ElfHeader = ElfHeader(
    eType: nat,
    eMachine: nat,
    eFlags: uint32,
    eiClass: nat,
    eiData: nat,
    eiOsabi: nat)

  /**
   * One result of gelf_getdyn: NULL (the entry could not be read) or an entry
   * whose d_val has already been resolved through elf_strptr (None when the
   * string table lookup returned NULL).
   */
  datatype DynSlot = Unreadable | Dyn(tag: nat, str: Option<string>)

  /**
   * One section as seen through elf_nextscn: either gelf_getshdr failed on it,
   * or its header fields, its name (None when elf_strptr returned NULL), the
   * result of elf_getdata (None when it returned NULL; a NULL d_buf is the
   * empty buffer) and, for a dynamic section, the gelf_getdyn results by index.
   */
  datatype Section =
    | BadHeader
    | Section(
        name: Option<string>,
        shType: nat,
        shEntsize: nat,
        shSize: nat,
        data: Option<seq<byte>>,
        dyns: seq<DynSlot>)

  /** gelf_getdyn(data, i): entries past the decoded ones cannot be read. */
  function GetDyn(dyns: seq<DynSlot>, i: nat): DynSlot
  {
    if i < |dyns| then dyns[i] else Unreadable
  }

  /** le32dec: four bytes at `at`, least significant first. */
  function Le32(s: seq<byte>, at: nat): (v: uint32)
    requires at + 4 <= |s|
  {
    s[at] as int + 0x100 * s[at + 1] as int + 0x1_0000 * s[at + 2] as int + 0x100_0000 * s[at + 3] as int
  }

  /** be32dec: four bytes at `at`, most significant first. */
  function Be32(s: seq<byte>, at: nat): (v: uint32)
    requires at + 4 <= |s|
  {
    0x100_0000 * s[at] as int + 0x1_0000 * s[at + 1] as int + 0x100 * s[at + 2] as int + s[at + 3] as int
  }

  /** The four bytes that Le32 decodes back to `v`. */
  function Le32Bytes(v: uint32): (b: seq<byte>)
    ensures |b| == 4 && Le32(b, 0) == v
  {
    var q1 := v / 0x100;
    var q2 := q1 / 0x100;
    [v % 0x100, q1 % 0x100, q2 % 0x100, q2 / 0x100]
  }

  /** The four bytes that Be32 decodes back to `v`. */
  function Be32Bytes(v: uint32): (b: seq<byte>)
    ensures |b| == 4 && Be32(b, 0) == v
  {
    var q1 := v / 0x100;
    var q2 := q1 / 0x100;
    [q2 / 0x100, q2 % 0x100, q1 % 0x100, v % 0x100]
  }

  /** The character a byte stands for in a C string. */
  function ByteChar(b: byte): char
  {
    b as char
  }
}
