/**
 * The OS identity note decoder (elf_note_analyse) and the identity/ABI
 * composition of pkg_get_myarch_elfparse.
 *
 * A note record is a 12-byte header (namesz, descsz, type), then the name
 * padded to a multiple of 4 bytes, then the descriptor, as in the "Note
 * Section" part of chapter 5 of the System V gABI.  The header words are
 * read in the host's byte order (taken to be little-endian); the descriptor
 * words are read in the byte order of the ELF file.
 */
module OsNote {
  import opened Wrappers
  import opened ElfTypes
  import opened Format
  import opened ElfArch

  /** The fields of an os_info record, as one value. */
  datatype OsIdentity = OsIdentity(
    name: Option<string>,
    ostype: OsType,
    version: Option<string>,
    versionMajor: Option<string>,
    versionMinor: Option<string>,
    osversion: uint32,
    strOsversion: string,
    arch: Option<string>,
    abi: string)

  const EMPTY_IDENTITY := OsIdentity(None, OsUnknown, None, None, None, 0, "", None, "")

  const INVALID_OSNAME: string := "Unknown"

  /** The OS descriptors of word 0 of a GNU ABI tag, and their names. */
  const GNU_OS_NAMES: seq<string> := ["Linux", "GNU", "Solaris", "FreeBSD", "NetBSD", "Syllable"]
  const GNU_OS_TYPES: seq<OsType> := [OsLinux, OsGnu, OsSolaris, OsFreeBSD, OsNetBSD, OsSyllable]

  /** roundup2(x, 4) evaluated in 32-bit unsigned arithmetic. */
  function Roundup4(x: uint32): (r: uint32)
    ensures r % 4 == 0
    ensures x <= 0xFFFF_FFFC ==> x <= r < x + 4
    ensures x > 0xFFFF_FFFC ==> r == 0
  {
    var y := (x + 3) % 0x1_0000_0000;
    y - y % 4
  }

  /** A descriptor word, in the byte order e_ident[EI_DATA] gives. */
  function Word(buf: seq<byte>, at: nat, eiData: nat): uint32
    requires at + 4 <= |buf|
  {
    if eiData == ELFDATA2MSB then Be32(buf, at) else Le32(buf, at)
  }

  /** The character of a C string literal at index i, with its terminating NUL. */
  function LitChar(lit: string, i: nat): char
  {
    if i < |lit| then lit[i] else 0 as char
  }

  /**
   * strncmp(buf + at, lit, n) == 0.  A comparison that would read past the
   * end of the section data counts as a mismatch.
   */
  function StrnEq(buf: seq<byte>, at: nat, lit: string, n: nat): bool
    decreases n
  {
    if n == 0 then true
    else if at >= |buf| then false
    else if ByteChar(buf[at]) != LitChar(lit, 0) then false
    else if lit == [] then true
    else StrnEq(buf, at + 1, lit[1..], n - 1)
  }

  /**
   * strncmp compares the first min(n, |lit| + 1) characters: the literal and
   * its NUL, cut at n.
   */
  lemma {:induction false} StrnEqMeaning(buf: seq<byte>, at: nat, lit: string, n: nat)
    requires at <= |buf|
    requires forall i :: 0 <= i < |lit| ==> lit[i] != 0 as char
    ensures var m := if n <= |lit| then n else |lit| + 1;
            StrnEq(buf, at, lit, n) <==>
              (at + m <= |buf| && forall i :: 0 <= i < m ==> ByteChar(buf[at + i]) == LitChar(lit, i))
    decreases n
  {
    var m := if n <= |lit| then n else |lit| + 1;
    if n == 0 || at >= |buf| {
    } else if ByteChar(buf[at]) != LitChar(lit, 0) {
      assert buf[at + 0] == buf[at];
    } else if lit == [] {
      assert buf[at + 0] == buf[at];
    } else {
      StrnEqMeaning(buf, at + 1, lit[1..], n - 1);
      var m' := if n - 1 <= |lit[1..]| then n - 1 else |lit[1..]| + 1;
      assert m == m' + 1;
      if at + m <= |buf| && forall i :: 0 <= i < m ==> ByteChar(buf[at + i]) == LitChar(lit, i) {
        forall i | 0 <= i < m'
          ensures ByteChar(buf[at + 1 + i]) == LitChar(lit[1..], i)
        {
          assert LitChar(lit, i + 1) == LitChar(lit[1..], i);
        }
      }
      if StrnEq(buf, at, lit, n) {
        forall i | 0 <= i < m
          ensures ByteChar(buf[at + i]) == LitChar(lit, i)
        {
          if i > 0 {
            assert LitChar(lit, i) == LitChar(lit[1..], i - 1);
          }
        }
      }
    }
  }

  /** The C string that starts at `at`: the bytes before the first NUL (or the end of the data). */
  function CString(buf: seq<byte>, at: nat): (s: string)
    ensures at <= |buf| ==> at + |s| <= |buf|
    ensures forall i :: 0 <= i < |s| ==> at + i < |buf| && s[i] != 0 as char && s[i] == ByteChar(buf[at + i])
    ensures at + |s| < |buf| ==> buf[at + |s|] == 0
    decreases |buf| - at
  {
    if at >= |buf| || buf[at] == 0 then [] else [ByteChar(buf[at])] + CString(buf, at + 1)
  }

  /** The name test of a version note: FreeBSD, DragonFly, NetBSD (each up to namesz) or an empty name. */
  predicate IsBsdName(buf: seq<byte>, at: nat, namesz: nat)
  {
    || StrnEq(buf, at, "FreeBSD", namesz)
    || StrnEq(buf, at, "DragonFly", namesz)
    || StrnEq(buf, at, "NetBSD", namesz)
    || namesz == 0
  }

  datatype NoteStyle = BsdStyle | GnuStyle

  /** The record the scan stops at: where its header starts, its style and its namesz. */
  datatype NoteHit = NoteHit(style: NoteStyle, at: nat, namesz: uint32)

  /** Where the record after the one at `pos` starts. */
  function NextRecord(buf: seq<byte>, pos: nat): (next: nat)
    requires pos + 12 <= |buf|
    ensures next >= pos + 12
  {
    pos + 12 + Roundup4((Le32(buf, pos) + Le32(buf, pos + 4)) % 0x1_0000_0000)
  }

  /** The style of the record at `pos` if the scan stops there. */
  function RecordMatch(buf: seq<byte>, pos: nat): (s: Option<NoteStyle>)
    requires pos + 12 <= |buf|
  {
    var namesz := Le32(buf, pos);
    var ntype := Le32(buf, pos + 8);
    if IsBsdName(buf, pos + 12, namesz) && ntype == NT_VERSION then Some(BsdStyle)
    else if StrnEq(buf, pos + 12, "GNU", namesz) && ntype == NT_GNU_ABI_TAG then Some(GnuStyle)
    else None
  }

  /**
   * The first matching record at or after `pos`.  A header cut short by
   * the end of the data ends the scan.
   */
  function FindNote(buf: seq<byte>, pos: nat): (h: Option<NoteHit>)
    ensures h.Some? ==> pos <= h.value.at && h.value.at + 12 <= |buf|
    decreases |buf| - pos
  {
    if pos >= |buf| || |buf| - pos < 12 then None
    else match RecordMatch(buf, pos)
      case Some(style) => Some(NoteHit(style, pos, Le32(buf, pos)))
      case None => FindNote(buf, NextRecord(buf, pos))
  }

  /** The version string of a GNU ABI tag: two components for Linux, three otherwise. */
  function GnuVersion(ostype: OsType, w1: uint32, w2: uint32, w3: uint32): string
  {
    if ostype == OsLinux then PrintfD(w1) + "." + PrintfD(w2)
    else PrintfD(w1) + "." + PrintfD(w2) + "." + PrintfD(w3)
  }

  /** The os_info after a GNU ABI tag whose descriptor starts at `d`. */
  function DecodeGnu(buf: seq<byte>, d: nat, eiData: nat, id: OsIdentity): OsIdentity
    requires d + 16 <= |buf|
  {
    var w0 := Word(buf, d, eiData);
    var name := if w0 < 6 then GNU_OS_NAMES[w0] else INVALID_OSNAME;
    var ostype := if w0 < 6 then GNU_OS_TYPES[w0] else OsUnknown;
    id.(name := Some(name), ostype := ostype,
        version := Some(GnuVersion(ostype, Word(buf, d + 4, eiData), Word(buf, d + 8, eiData), Word(buf, d + 12, eiData))))
  }

  /**
   * The name and OS type a version note sets: "Unknown" for an empty name;
   * otherwise the C string of the name, and the OS type only when that string
   * is exactly FreeBSD, DragonFly or NetBSD.
   */
  function NameVersionNote(buf: seq<byte>, src: nat, namesz: nat, id: OsIdentity): OsIdentity
  {
    if namesz == 0 then id.(name := Some(INVALID_OSNAME), ostype := OsUnknown)
    else
      var name := CString(buf, src);
      var t := if name == "FreeBSD" then OsFreeBSD
               else if name == "DragonFly" then OsDragonFly
               else if name == "NetBSD" then OsNetBSD
               else id.ostype;
      id.(name := Some(name), ostype := t)
  }

  /** osversion and its string are recorded only while osversion is still zero. */
  function RecordOsversion(v: uint32, id: OsIdentity): OsIdentity
  {
    if id.osversion == 0 then id.(osversion := v, strOsversion := PrintfD(v)) else id
  }

  /** The version strings of a version note, in the style of the OS type now recorded. */
  function VersionStrings(v: uint32, id: OsIdentity): OsIdentity
  {
    if id.ostype == OsDragonFly then
      id.(version := Some(Decimal(v / 100000) + "." + Decimal(((v / 100 % 1000 + 1) / 2) * 2)))
    else if id.ostype == OsNetBSD then
      id.(version := Some(Decimal((v + 1000000) % 0x1_0000_0000 / 100000000)))
    else
      id.(versionMajor := Some(Decimal(v / 100000)),
          versionMinor := Some(Decimal(v / 1000 % 100)),
          version := Some(Decimal(v / 100000)))
  }

  /** The os_info after a version note with the name at `src` and the descriptor at `d`. */
  function DecodeBsd(buf: seq<byte>, src: nat, d: nat, namesz: nat, eiData: nat, id: OsIdentity): OsIdentity
    requires d + 4 <= |buf|
  {
    var v := Word(buf, d, eiData);
    VersionStrings(v, RecordOsversion(v, NameVersionNote(buf, src, namesz, id)))
  }

  /**
   * The os_info after elf_note_analyse on one note section, or None when it
   * returns false and leaves the record as it was.  A matched record whose
   * descriptor runs past the end of the data also gives None.
   */
  function ApplyNote(buf: seq<byte>, eiData: nat, id: OsIdentity): Option<OsIdentity>
  {
    match FindNote(buf, 0)
    case None => None
    case Some(hit) => DecodeHit(buf, hit, eiData, id)
  }

  /**
   * The os_info after decoding the record the scan stopped at: its name
   * starts after the 12-byte header, its descriptor after the name padded to
   * 4 bytes; None when the name or the descriptor lies past the data.
   */
  function DecodeHit(buf: seq<byte>, hit: NoteHit, eiData: nat, id: OsIdentity): Option<OsIdentity>
  {
    var src := hit.at + 12;
    if src >= |buf| then None
    else
      var d := src + Roundup4(hit.namesz);
      match hit.style
      case GnuStyle => if d + 16 > |buf| then None else Some(DecodeGnu(buf, d, eiData, id))
      case BsdStyle => if d + 4 > |buf| then None else Some(DecodeBsd(buf, src, d, hit.namesz, eiData, id))
  }

  /** A GNU record whose descriptor is in the data is decoded from its four words. */
  lemma DecodeHitGnu(buf: seq<byte>, hit: NoteHit, eiData: nat, id: OsIdentity)
    requires hit.style == GnuStyle && hit.at + 12 < |buf| && hit.at + 12 + Roundup4(hit.namesz) + 16 <= |buf|
    ensures DecodeHit(buf, hit, eiData, id) == Some(DecodeGnu(buf, hit.at + 12 + Roundup4(hit.namesz), eiData, id))
  {
  }

  /** A version note whose descriptor is in the data is decoded from its name and one word. */
  lemma DecodeHitBsd(buf: seq<byte>, hit: NoteHit, eiData: nat, id: OsIdentity)
    requires hit.style == BsdStyle && hit.at + 12 < |buf| && hit.at + 12 + Roundup4(hit.namesz) + 4 <= |buf|
    ensures DecodeHit(buf, hit, eiData, id)
            == Some(DecodeBsd(buf, hit.at + 12, hit.at + 12 + Roundup4(hit.namesz), hit.namesz, eiData, id))
  {
  }

  /** The os_info record, updated in place by the note decoder and the identity composition. */
  class OsInfo {
    var name: Option<string>
    var ostype: OsType
    var version: Option<string>
    var versionMajor: Option<string>
    var versionMinor: Option<string>
    var osversion: uint32
    var strOsversion: string
    var arch: Option<string>
    var abi: string

    /** The record's fields as one value. */
    function Identity(): OsIdentity
      reads this
    {
      OsIdentity(name, ostype, version, versionMajor, versionMinor, osversion, strOsversion, arch, abi)
    }

    /** A record that names an OS also carries its version. */
    predicate Valid()
      reads this
    {
      IdentityValid(Identity())
    }

    constructor ()
      ensures Identity() == EMPTY_IDENTITY && Valid()
    {
      name, ostype, version, versionMajor, versionMinor := None, OsUnknown, None, None, None;
      osversion, strOsversion, arch, abi := 0, "", None, "";
    }

    /**
     * elf_note_analyse: walk the note records of one section and, at the
     * first BSD version note or GNU ABI tag, overwrite the identity fields.
     */
    method NoteAnalyse(buf: seq<byte>, eiData: nat) returns (found: bool)
      modifies this
      ensures found == ApplyNote(buf, eiData, old(Identity())).Some?
      ensures found ==> Identity() == ApplyNote(buf, eiData, old(Identity())).value
      ensures !found ==> Identity() == old(Identity())
      ensures found ==> Valid()
      ensures old(Valid()) ==> Valid()
    {
      var hit := ScanNotes(buf);
      if hit.None? {
        return false;
      }
      found := ApplyHit(buf, hit.value, eiData);
      if found {
        ApplyNoteEffect(buf, eiData, old(Identity()));
      }
    }

    /** Decode the record the scan stopped at, unless it runs past the data. */
    method ApplyHit(buf: seq<byte>, hit: NoteHit, eiData: nat) returns (found: bool)
      modifies this
      ensures found == DecodeHit(buf, hit, eiData, old(Identity())).Some?
      ensures found ==> Identity() == DecodeHit(buf, hit, eiData, old(Identity())).value
      ensures !found ==> Identity() == old(Identity())
    {
      var src := hit.at + 12;
      var d := src + Roundup4(hit.namesz);
      found := src < |buf| && d + (if hit.style == GnuStyle then 16 else 4) <= |buf|;
      if found {
        if hit.style == GnuStyle {
          ApplyGnuHit(buf, hit, eiData);
        } else {
          ApplyBsdHit(buf, hit, eiData);
        }
      }
    }

    /** A GNU ABI tag whose four descriptor words lie inside the data. */
    method ApplyGnuHit(buf: seq<byte>, hit: NoteHit, eiData: nat)
      requires hit.style == GnuStyle && hit.at + 12 < |buf| && hit.at + 12 + Roundup4(hit.namesz) + 16 <= |buf|
      modifies this
      ensures DecodeHit(buf, hit, eiData, old(Identity())).Some?
      ensures Identity() == DecodeHit(buf, hit, eiData, old(Identity())).value
    {
      DecodeHitGnu(buf, hit, eiData, Identity());
      ApplyGnuTag(buf, hit.at + 12 + Roundup4(hit.namesz), eiData);
    }

    /** A BSD version note whose descriptor word lies inside the data. */
    method ApplyBsdHit(buf: seq<byte>, hit: NoteHit, eiData: nat)
      requires hit.style == BsdStyle && hit.at + 12 < |buf| && hit.at + 12 + Roundup4(hit.namesz) + 4 <= |buf|
      modifies this
      ensures DecodeHit(buf, hit, eiData, old(Identity())).Some?
      ensures Identity() == DecodeHit(buf, hit, eiData, old(Identity())).value
    {
      DecodeHitBsd(buf, hit, eiData, Identity());
      ApplyVersionNote(buf, hit.at + 12, hit.at + 12 + Roundup4(hit.namesz), hit.namesz, eiData);
    }

    /** The NT_GNU_ABI_TAG branch: four descriptor words give the OS and its version. */
    method ApplyGnuTag(buf: seq<byte>, d: nat, eiData: nat)
      requires d + 16 <= |buf|
      modifies this
      ensures Identity() == DecodeGnu(buf, d, eiData, old(Identity()))
    {
      var w0 := Word(buf, d, eiData);
      if w0 < 6 {
        name, ostype := Some(GNU_OS_NAMES[w0]), GNU_OS_TYPES[w0];
      } else {
        name, ostype := Some(INVALID_OSNAME), OsUnknown;
      }
      version := Some(GnuVersion(ostype, Word(buf, d + 4, eiData), Word(buf, d + 8, eiData), Word(buf, d + 12, eiData)));
    }

    /** The NT_VERSION branch: the note's name and one descriptor word give the OS and its version. */
    method ApplyVersionNote(buf: seq<byte>, src: nat, d: nat, namesz: nat, eiData: nat)
      requires d + 4 <= |buf|
      modifies this
      ensures Identity() == DecodeBsd(buf, src, d, namesz, eiData, old(Identity()))
    {
      SetNoteName(buf, src, namesz);
      var v := Word(buf, d, eiData);
      RecordVersion(v);
      SetVersionStrings(v);
    }

    /** The name of a version note, and the OS type when the name is one pkg knows. */
    method SetNoteName(buf: seq<byte>, src: nat, namesz: nat)
      modifies this
      ensures Identity() == NameVersionNote(buf, src, namesz, old(Identity()))
    {
      if namesz == 0 {
        name, ostype := Some(INVALID_OSNAME), OsUnknown;
      } else {
        var s := CString(buf, src);
        name := Some(s);
        if s == "FreeBSD" {
          ostype := OsFreeBSD;
        } else if s == "DragonFly" {
          ostype := OsDragonFly;
        } else if s == "NetBSD" {
          ostype := OsNetBSD;
        }
      }
    }

    /** The first non-zero osversion is kept. */
    method RecordVersion(v: uint32)
      modifies this
      ensures Identity() == RecordOsversion(v, old(Identity()))
    {
      if osversion == 0 {
        osversion, strOsversion := v, PrintfD(v);
      }
    }

    /** The version strings in the style of the recorded OS type. */
    method SetVersionStrings(v: uint32)
      modifies this
      ensures Identity() == VersionStrings(v, old(Identity()))
    {
      if ostype == OsDragonFly {
        version := Some(Decimal(v / 100000) + "." + Decimal(((v / 100 % 1000 + 1) / 2) * 2));
      } else if ostype == OsNetBSD {
        version := Some(Decimal((v + 1000000) % 0x1_0000_0000 / 100000000));
      } else {
        versionMajor := Some(Decimal(v / 100000));
        versionMinor := Some(Decimal(v / 1000 % 100));
        version := Some(Decimal(v / 100000));
      }
    }
  }

  /**
   * The record loop of elf_note_analyse: visit the records from the start
   * of the data, each 12 + roundup2(namesz + descsz, 4) bytes after the
   * last, and stop at the first that matches.
   */
  method ScanNotes(buf: seq<byte>) returns (hit: Option<NoteHit>)
    ensures hit == FindNote(buf, 0)
  {
    var src: nat := 0;
    while src < |buf|
      invariant FindNote(buf, src) == FindNote(buf, 0)
      decreases |buf| - src
    {
      if |buf| - src < 12 {
        return None;
      }
      var style := RecordMatch(buf, src);
      if style.Some? {
        return Some(NoteHit(style.value, src, Le32(buf, src)));
      }
      src := NextRecord(buf, src);
    }
    return None;
  }

  /** A record that names an OS also carries a version string for it. */
  predicate IdentityValid(id: OsIdentity)
  {
    id.name.Some? ==> id.version.Some?
  }

  /**
   * What a successful note leaves: a name and a version, the architecture
   * and ABI untouched, and an osversion that was already set kept as it was.
   */
  lemma ApplyNoteEffect(buf: seq<byte>, eiData: nat, id: OsIdentity)
    requires ApplyNote(buf, eiData, id).Some?
    ensures var id' := ApplyNote(buf, eiData, id).value;
            && id'.name.Some? && id'.version.Some?
            && id'.arch == id.arch && id'.abi == id.abi
            && (id.osversion != 0 ==> id'.osversion == id.osversion && id'.strOsversion == id.strOsversion)
  {
  }

  /** The k-th record offset the scan visits from `pos`, if the scan gets that far. */
  function Visit(buf: seq<byte>, pos: nat, k: nat): Option<nat>
    decreases k
  {
    if k == 0 then Some(pos)
    else if pos + 12 <= |buf| then Visit(buf, NextRecord(buf, pos), k - 1)
    else None
  }

  /** The record at `p` has a whole header and stops the scan. */
  predicate Matches(buf: seq<byte>, p: nat)
  {
    p + 12 <= |buf| && RecordMatch(buf, p).Some?
  }

  lemma VisitNext(buf: seq<byte>, pos: nat, j: nat)
    requires pos + 12 <= |buf| && j > 0
    ensures Visit(buf, pos, j) == Visit(buf, NextRecord(buf, pos), j - 1)
  {
  }

  /**
   * The scan stops at the first matching record along the chain of records
   * from `pos`: the k-th one, with none of the records before it matching.
   */
  lemma {:induction false} FindNoteIsFirstMatch(buf: seq<byte>, pos: nat, hit: NoteHit) returns (k: nat)
    requires FindNote(buf, pos) == Some(hit)
    ensures hit.at + 12 <= |buf| && RecordMatch(buf, hit.at) == Some(hit.style) && hit.namesz == Le32(buf, hit.at)
    ensures Visit(buf, pos, k) == Some(hit.at)
    ensures forall j: nat :: j < k ==> Visit(buf, pos, j).Some? && !Matches(buf, Visit(buf, pos, j).value)
    decreases |buf| - pos
  {
    if RecordMatch(buf, pos).Some? {
      k := 0;
    } else {
      var next := NextRecord(buf, pos);
      var k' := FindNoteIsFirstMatch(buf, next, hit);
      k := k' + 1;
      VisitNext(buf, pos, k);
      forall j: nat | j < k
        ensures Visit(buf, pos, j).Some? && !Matches(buf, Visit(buf, pos, j).value)
      {
        if j > 0 {
          VisitNext(buf, pos, j);
        }
      }
    }
  }

  /** When the scan finds nothing, no record along the chain from `pos` matches. */
  lemma {:induction false} FindNoteNoneNoMatch(buf: seq<byte>, pos: nat, k: nat)
    requires FindNote(buf, pos) == None && Visit(buf, pos, k).Some?
    ensures !Matches(buf, Visit(buf, pos, k).value)
    decreases k
  {
    if k > 0 {
      VisitNext(buf, pos, k);
      FindNoteNoneNoMatch(buf, NextRecord(buf, pos), k - 1);
    }
  }

  /** The four bytes a descriptor word occupies in a file of the given byte order. */
  function WordBytes(v: uint32, eiData: nat): (b: seq<byte>)
    ensures |b| == 4 && Word(b, 0, eiData) == v
  {
    if eiData == ELFDATA2MSB then Be32Bytes(v) else Le32Bytes(v)
  }

  lemma WordAt(buf: seq<byte>, at: nat, v: uint32, eiData: nat)
    requires at + 4 <= |buf| && buf[at..at + 4] == WordBytes(v, eiData)
    ensures Word(buf, at, eiData) == v
  {
    var b := WordBytes(v, eiData);
    assert buf[at] == b[0] && buf[at + 1] == b[1] && buf[at + 2] == b[2] && buf[at + 3] == b[3];
  }

  /** A GNU ABI tag note with descriptor words w, as a linker writes it. */
  function GnuAbiTagNote(w: seq<uint32>, eiData: nat): (b: seq<byte>)
    requires |w| == 4
    ensures |b| == 32
  {
    Le32Bytes(4) + Le32Bytes(16) + Le32Bytes(NT_GNU_ABI_TAG) + [71, 78, 85, 0]
    + WordBytes(w[0], eiData) + WordBytes(w[1], eiData) + WordBytes(w[2], eiData) + WordBytes(w[3], eiData)
  }

  /** The three header words written by Le32Bytes read back. */
  lemma NoteHeaderWords(buf: seq<byte>, namesz: uint32, descsz: uint32, ntype: uint32)
    requires 12 <= |buf| && buf[..12] == Le32Bytes(namesz) + Le32Bytes(descsz) + Le32Bytes(ntype)
    ensures Le32(buf, 0) == namesz && Le32(buf, 4) == descsz && Le32(buf, 8) == ntype
  {
    var h := buf[..12];
    assert Le32(buf, 0) == Le32(h, 0) && Le32(buf, 4) == Le32(h, 4) && Le32(buf, 8) == Le32(h, 8);
    assert h[4..8] == Le32Bytes(descsz) && h[8..12] == Le32Bytes(ntype);
    assert Le32(h, 4) == Le32(h[4..8], 0) && Le32(h, 8) == Le32(h[8..12], 0);
  }

  /** A "GNU" name of size 4 is no BSD name and is the GNU name. */
  lemma GnuNameMatches(buf: seq<byte>)
    requires 16 <= |buf| && buf[12] == 71 && buf[13] == 78 && buf[14] == 85 && buf[15] == 0
    ensures !IsBsdName(buf, 12, 4) && StrnEq(buf, 12, "GNU", 4)
  {
    assert "GNU"[1..] == "NU" && "NU"[1..] == "U" && "U"[1..] == "";
    assert StrnEq(buf, 15, "", 1);
    assert StrnEq(buf, 14, "U", 2);
    assert StrnEq(buf, 13, "NU", 3);
  }

  lemma GnuAbiTagNoteLayout(w: seq<uint32>, eiData: nat)
    requires |w| == 4
    ensures var buf := GnuAbiTagNote(w, eiData);
            && Le32(buf, 0) == 4 && Le32(buf, 8) == NT_GNU_ABI_TAG
            && buf[12] == 71 && buf[13] == 78 && buf[14] == 85 && buf[15] == 0
            && buf[16..20] == WordBytes(w[0], eiData) && buf[20..24] == WordBytes(w[1], eiData)
            && buf[24..28] == WordBytes(w[2], eiData) && buf[28..32] == WordBytes(w[3], eiData)
  {
    var buf := GnuAbiTagNote(w, eiData);
    NoteHeaderWords(buf, 4, 16, NT_GNU_ABI_TAG);
    assert buf[12..16] == [71, 78, 85, 0];
  }

  lemma GnuRecordMatch(buf: seq<byte>)
    requires 16 <= |buf| && Le32(buf, 0) == 4 && Le32(buf, 8) == NT_GNU_ABI_TAG
    requires buf[12] == 71 && buf[13] == 78 && buf[14] == 85 && buf[15] == 0
    ensures RecordMatch(buf, 0) == Some(GnuStyle)
  {
    GnuNameMatches(buf);
  }

  lemma GnuAbiTagApplies(buf: seq<byte>, eiData: nat, id: OsIdentity)
    requires |buf| == 32 && Le32(buf, 0) == 4 && Le32(buf, 8) == NT_GNU_ABI_TAG
    requires buf[12] == 71 && buf[13] == 78 && buf[14] == 85 && buf[15] == 0
    ensures ApplyNote(buf, eiData, id) == Some(DecodeGnu(buf, 16, eiData, id))
  {
    GnuRecordMatch(buf);
    assert FindNote(buf, 0) == Some(NoteHit(GnuStyle, 0, 4));
    assert Roundup4(4) == 4;
  }

  /** Decoding a GNU ABI tag note gives back the OS of word 0 and the version of words 1 to 3. */
  lemma GnuAbiTagRoundTrip(w: seq<uint32>, eiData: nat, id: OsIdentity)
    requires |w| == 4
    ensures var ostype := if w[0] < 6 then GNU_OS_TYPES[w[0]] else OsUnknown;
            ApplyNote(GnuAbiTagNote(w, eiData), eiData, id)
              == Some(id.(name := Some(if w[0] < 6 then GNU_OS_NAMES[w[0]] else INVALID_OSNAME),
                          ostype := ostype,
                          version := Some(GnuVersion(ostype, w[1], w[2], w[3]))))
  {
    var buf := GnuAbiTagNote(w, eiData);
    GnuAbiTagNoteLayout(w, eiData);
    GnuAbiTagApplies(buf, eiData, id);
    WordAt(buf, 16, w[0], eiData);
    WordAt(buf, 20, w[1], eiData);
    WordAt(buf, 24, w[2], eiData);
    WordAt(buf, 28, w[3], eiData);
  }

  /** [0, 6, 5, 0] is Linux 6.5. */
  lemma GnuLinuxExample(eiData: nat, id: OsIdentity)
    ensures var id' := ApplyNote(GnuAbiTagNote([0, 6, 5, 0], eiData), eiData, id);
            id' == Some(id.(name := Some("Linux"), ostype := OsLinux, version := Some("6.5")))
  {
    GnuAbiTagRoundTrip([0, 6, 5, 0], eiData, id);
    assert GNU_OS_NAMES[0] == "Linux" && GNU_OS_TYPES[0] == OsLinux;
    assert PrintfD(6) == "6" && PrintfD(5) == "5";
    assert GnuVersion(OsLinux, 6, 5, 0) == "6.5";
  }

  /** A FreeBSD version note (NT_VERSION) carrying __FreeBSD_version v. */
  function FreebsdVersionNote(v: uint32, eiData: nat): (b: seq<byte>)
    ensures |b| == 24
  {
    Le32Bytes(8) + Le32Bytes(4) + Le32Bytes(NT_VERSION) + FREEBSD_NAME + WordBytes(v, eiData)
  }

  /** The bytes of the name FreeBSD with its NUL. */
  const FREEBSD_NAME: seq<byte> := [70, 114, 101, 101, 66, 83, 68, 0]

  /** The name "FreeBSD" of size 8 passes strncmp against FreeBSD. */
  lemma FreebsdNameCompares(buf: seq<byte>)
    requires 20 <= |buf| && buf[12..20] == FREEBSD_NAME
    ensures StrnEq(buf, 12, "FreeBSD", 8)
  {
    FreebsdNameChars(buf);
    StrnEqMeaning(buf, 12, "FreeBSD", 8);
  }

  /** The eight bytes of the name are the characters of FreeBSD and its NUL. */
  lemma FreebsdNameChars(buf: seq<byte>)
    requires 20 <= |buf| && buf[12..20] == FREEBSD_NAME
    ensures forall i :: 0 <= i < 8 ==> ByteChar(buf[12 + i]) == LitChar("FreeBSD", i)
  {
    forall i | 0 <= i < 8
      ensures ByteChar(buf[12 + i]) == LitChar("FreeBSD", i)
    {
      assert buf[12 + i] == FREEBSD_NAME[i];
    }
  }

  /** A C string ends at the first NUL. */
  lemma {:induction false} CStringLength(buf: seq<byte>, at: nat, n: nat)
    requires at + n < |buf| && buf[at + n] == 0
    requires forall i :: at <= i < at + n ==> buf[i] != 0
    ensures |CString(buf, at)| == n
    decreases n
  {
    if n > 0 {
      CStringLength(buf, at + 1, n - 1);
    }
  }

  /** The name "FreeBSD" reads back as the C string FreeBSD. */
  lemma FreebsdNameString(buf: seq<byte>)
    requires 20 <= |buf| && buf[12..20] == FREEBSD_NAME
    ensures CString(buf, 12) == "FreeBSD"
  {
    var name := CString(buf, 12);
    assert forall i :: 12 <= i < 20 ==> buf[i] == buf[12..20][i - 12];
    CStringLength(buf, 12, 7);
    assert forall i :: 0 <= i < 7 ==> name[i] == "FreeBSD"[i];
  }

  lemma FreebsdVersionNoteLayout(v: uint32, eiData: nat)
    ensures var buf := FreebsdVersionNote(v, eiData);
            && Le32(buf, 0) == 8 && Le32(buf, 8) == NT_VERSION
            && buf[12..20] == FREEBSD_NAME && buf[20..24] == WordBytes(v, eiData)
  {
    var buf := FreebsdVersionNote(v, eiData);
    NoteHeaderWords(buf, 8, 4, NT_VERSION);
  }

  lemma FreebsdVersionApplies(buf: seq<byte>, eiData: nat, id: OsIdentity)
    requires |buf| == 24 && Le32(buf, 0) == 8 && Le32(buf, 8) == NT_VERSION && buf[12..20] == FREEBSD_NAME
    ensures ApplyNote(buf, eiData, id) == Some(DecodeBsd(buf, 12, 20, 8, eiData, id))
  {
    FreebsdNameCompares(buf);
    assert RecordMatch(buf, 0) == Some(BsdStyle);
    assert FindNote(buf, 0) == Some(NoteHit(BsdStyle, 0, 8));
    assert Roundup4(8) == 8;
  }

  /**
   * Decoding a FreeBSD version note names FreeBSD, gives major and version
   * v / 100000 and minor v / 1000 % 100, and records v only if no osversion
   * was recorded before.
   */
  lemma FreebsdVersionRoundTrip(v: uint32, eiData: nat, id: OsIdentity)
    ensures var id1 := id.(name := Some("FreeBSD"), ostype := OsFreeBSD,
                           versionMajor := Some(Decimal(v / 100000)),
                           versionMinor := Some(Decimal(v / 1000 % 100)),
                           version := Some(Decimal(v / 100000)));
            ApplyNote(FreebsdVersionNote(v, eiData), eiData, id)
              == Some(if id.osversion == 0 then id1.(osversion := v, strOsversion := PrintfD(v)) else id1)
  {
    var buf := FreebsdVersionNote(v, eiData);
    FreebsdVersionNoteLayout(v, eiData);
    FreebsdVersionApplies(buf, eiData, id);
    FreebsdNameString(buf);
    WordAt(buf, 20, v, eiData);
    assert NameVersionNote(buf, 12, 8, id) == id.(name := Some("FreeBSD"), ostype := OsFreeBSD);
  }

  /** __FreeBSD_version 1500000 is FreeBSD 15: version "15", major "15", minor "0". */
  lemma FreebsdVersionExample(v: uint32, eiData: nat)
    requires v == 1500000
    ensures var id' := ApplyNote(FreebsdVersionNote(v, eiData), eiData, EMPTY_IDENTITY);
            && id'.Some?
            && id'.value.name == Some("FreeBSD") && id'.value.ostype == OsFreeBSD
            && id'.value.version == Some("15") && id'.value.versionMajor == Some("15")
            && id'.value.versionMinor == Some("0") && id'.value.osversion == 1500000
  {
    FreebsdVersionRoundTrip(v, eiData, EMPTY_IDENTITY);
    FreebsdVersion15(v);
  }

  lemma FreebsdVersion15(v: nat)
    requires v == 1500000
    ensures Decimal(v / 100000) == "15" && Decimal(v / 1000 % 100) == "0"
  {
    assert v / 100000 == 15 && v / 1000 % 100 == 0;
    assert Decimal(15) == Decimal(1) + [DigitChar(5)];
  }

  /**
   * The note sections of a file in order, each one analysed against the
   * record as the earlier ones left it; false when a section header cannot
   * be read, with the record as it was at that point.
   */
  function ScanNoteSections(sections: seq<Section>, eiData: nat, id: OsIdentity): (bool, OsIdentity)
  {
    if sections == [] then (true, id)
    else match sections[0]
      case BadHeader => (false, id)
      case Section(_, shType, _, _, data, _) =>
        var id' := if shType == SHT_NOTE then ApplyNote(data.GetOr([]), eiData, id).GetOr(id) else id;
        ScanNoteSections(sections[1..], eiData, id')
  }

  /** Across all note sections the first non-zero osversion wins, and a valid record stays valid. */
  lemma {:induction false} ScanNoteSectionsKeeps(sections: seq<Section>, eiData: nat, id: OsIdentity)
    ensures var id' := ScanNoteSections(sections, eiData, id).1;
            && (id.osversion != 0 ==> id'.osversion == id.osversion && id'.strOsversion == id.strOsversion)
            && (IdentityValid(id) ==> IdentityValid(id'))
            && id'.arch == id.arch && id'.abi == id.abi
  {
    if sections != [] && sections[0].Section? {
      var s := sections[0];
      var id1 := if s.shType == SHT_NOTE then ApplyNote(s.data.GetOr([]), eiData, id).GetOr(id) else id;
      if s.shType == SHT_NOTE && ApplyNote(s.data.GetOr([]), eiData, id).Some? {
        ApplyNoteEffect(s.data.GetOr([]), eiData, id);
      }
      ScanNoteSectionsKeeps(sections[1..], eiData, id1);
    }
  }

  /**
   * The result of pkg_get_myarch_elfparse and the record it leaves: the
   * identity from the notes, then the architecture label, then
   * abi = name:version:arch.
   */
  function MyArch(hdr: Option<ElfHeader>, sections: seq<Section>, id: OsIdentity): (PkgResult, OsIdentity)
    requires IdentityValid(id)
  {
    match hdr
    case None => (EpkgWarn, id)
    case Some(h) =>
      var (ok, id1) := ScanNoteSections(sections, h.eiData, id);
      ScanNoteSectionsKeeps(sections, h.eiData, id);
      if !ok || id1.name.None? then (EpkgFatal, id1)
      else match ElfParseArch(id1.ostype, h, sections)
        case None => (EpkgFatal, id1)
        case Some(arch) =>
          (EpkgOk, id1.(arch := Some(arch), abi := id1.name.value + ":" + id1.version.value + ":" + arch))
  }

  /**
   * The identity succeeds exactly when the header and every section header
   * can be read, some note named the OS, and the architecture is known;
   * then the ABI string joins name, version and architecture with colons.
   * It never ends with EPKG_END.
   */
  lemma MyArchResult(hdr: Option<ElfHeader>, sections: seq<Section>, id: OsIdentity)
    requires IdentityValid(id)
    ensures var (ret, id') := MyArch(hdr, sections, id);
            && ret != EpkgEnd
            && (ret == EpkgWarn <==> hdr.None?)
            && (ret == EpkgOk <==>
                  hdr.Some? && ScanNoteSections(sections, hdr.value.eiData, id).0 && id'.name.Some?
                  && ElfParseArch(id'.ostype, hdr.value, sections).Some?)
            && (ret == EpkgOk ==>
                  && id'.arch == ElfParseArch(id'.ostype, hdr.value, sections)
                  && id'.version.Some?
                  && id'.abi == id'.name.value + ":" + id'.version.value + ":" + id'.arch.value)
  {
    if hdr.Some? {
      ScanNoteSectionsKeeps(sections, hdr.value.eiData, id);
    }
  }

  /**
   * pkg_get_myarch_elfparse, once libelf has been opened: analyse every note
   * section in order, then fill in arch and abi.
   */
  method GetMyArch(oi: OsInfo, hdr: Option<ElfHeader>, sections: seq<Section>) returns (ret: PkgResult)
    requires oi.Valid()
    modifies oi
    ensures (ret, oi.Identity()) == MyArch(hdr, sections, old(oi.Identity()))
    ensures oi.Valid()
  {
    if hdr.None? {
      return EpkgWarn;
    }
    var eiData := hdr.value.eiData;
    ghost var id0 := oi.Identity();
    var ok := AnalyseNoteSections(oi, sections, eiData);
    if !ok || oi.name.None? {
      return EpkgFatal;
    }
    ScanNoteSectionsKeeps(sections, eiData, id0);
    var arch := ElfParseArch(oi.ostype, hdr.value, sections);
    if arch.None? {
      return EpkgFatal;
    }
    oi.arch := arch;
    oi.abi := oi.name.value + ":" + oi.version.value + ":" + arch.value;
    ret := EpkgOk;
  }

  /**
   * The section loop of pkg_get_myarch_elfparse: analyse each note section
   * in order; false, with the record as it stands, at a section header
   * that cannot be read.
   */
  method AnalyseNoteSections(oi: OsInfo, sections: seq<Section>, eiData: nat) returns (ok: bool)
    modifies oi
    ensures (ok, oi.Identity()) == ScanNoteSections(sections, eiData, old(oi.Identity()))
    ensures old(oi.Valid()) ==> oi.Valid()
  {
    ghost var id0 := oi.Identity();
    var i := 0;
    while i < |sections|
      invariant 0 <= i <= |sections|
      invariant ScanNoteSections(sections, eiData, id0) == ScanNoteSections(sections[i..], eiData, oi.Identity())
      invariant IdentityValid(id0) ==> oi.Valid()
    {
      assert sections[i..][1..] == sections[i + 1..];
      if sections[i].BadHeader? {
        return false;
      }
      if sections[i].shType == SHT_NOTE {
        // A NULL elf_getdata result is read as an empty buffer.
        var _ := oi.NoteAnalyse(sections[i].data.GetOr([]), eiData);
      }
      i := i + 1;
    }
    assert sections[i..] == [];
    ok := true;
  }
}
