# pkg_elf: a verified model of libpkg's ELF analysis

This project models the logic of `libpkg/pkg_elf.c` from pkg, the FreeBSD
package tool. Given a packaged file, it:

- decides whether the file is a dynamically linked ELF object worth analysing;
- records the shared libraries the package *provides* (`DT_SONAME`) and the
  ones it *requires* (`DT_NEEDED`, classified against the shared-library cache
  and the package's own manifest);
- checks a library against the configured ABI string;
- in developer mode, sets the package flags for ELF objects, static archives
  (`.a`) and libtool archives (`.la`).

It also models how pkg works out the host's own identity:

- it decodes the OS identity notes (a BSD `NT_VERSION` note or a GNU
  `NT_GNU_ABI_TAG`) into an `os_info` record;
- it maps the ELF header to an architecture label, parsing the ARM build
  attributes for ARM;
- it joins the result into the ABI string `name:version:arch`.

The libelf container is reduced to plain values:

- a header record;
- a sequence of sections, each carrying its name, type, entry size, size and
  data bytes, with a `BadHeader` value for an unreadable section header;
- for the dynamic section, the decoded entries with their strings already
  resolved.

The shared-library cache is a function from the run-path and a library name to
the resolved path. The configuration (`ABI`, `ALLOW_BASE_SHLIBS`, developer
mode, the FreeBSD build switch) and the two correspondence tables are
parameters.

The modules follow the structure of the C file:

- `ElfTypes`: header, section and dynamic-entry values; result codes; `le32dec`/`be32dec`.
- `Format`: the `%d` rendering of the version strings.
- `ArmAttributes`: `aeabi_parse_arm_attributes`. It has three layers:
  - a specification over the buffer (`ArmAttributesArch`);
  - the cursor walk itself (`ParseArmAttributes`);
  - an encoder for well-formed sections, with a round-trip theorem.
- `ElfArch`: `elf_parse_arch` and `is_old_freebsd_armheader`.
- `OsNote`: `elf_note_analyse` on an `OsInfo` class updated in place, and the
  composition of `pkg_get_myarch_elfparse`.
- `AbiCheck`: `shlib_valid_abi`, `elf_corres_to_string` and `elf_string_to_corres`.
- `Shlibs`: the package record, `filter_system_shlibs`, `add_shlibs_to_pkg` and
  `analyse_fpath`.
- `ElfAnalysis`: `analyse_elf` (section walk, result-code gates, the two passes
  over the dynamic entries) and `pkg_analyse_elf`.

The loops of the imperative parts are Dafny `method`s with `while` loops:
- the ARM attribute cursor (`ParseArmAttributes`, `SkipValue`);
- the note scan (`ScanNotes`) and the note-section loop (`AnalyseNoteSections`);
- the ABI string loop (`AbiArchWordsize`);
- the manifest loop of `add_shlibs_to_pkg` (`AddShlibsToPkg`);
- the section walk (`FindDynamicSection`);
- the two loops over the dynamic entries (`ScanSonames`, `ScanNeeded`).

Each method is proved equal to its specification function: `ArmAttributesArch`
and `ValueEnd`, `FindNote`, `ScanNoteSections`, `AbiFields`, `AddResult` with
`RequiresShlib`, `SectionWalk`, `SonamePass` and `NeededPass`. Some of these are
recursive and some are not. Lemmas state what the functions mean.

Lookups that only compute a value are recursive functions:
- the section loop of `elf_parse_arch` (`ArmSectionArch`);
- the table loops of `elf_corres_to_string` and `elf_string_to_corres`
  (`CorresToString`, `StringToCorres`).

The descriptor-word loops of `elf_note_analyse` are direct `Word` reads.

## Model

| member | source | states |
|---|---|---|
| ElfTypes.Le32Bytes | libpkg/pkg_elf.c:730-733 | the four bytes of a value, least significant first, decode back to the value under le32dec |
| ElfTypes.Be32Bytes | libpkg/pkg_elf.c:724-728 | the four bytes of a value, most significant first, decode back to the value under be32dec |
| Format.Decimal | libpkg/pkg_elf.c:774 | the `%d` rendering of a natural is a non-empty string of digits without a leading zero |
| Format.DecimalRoundTrip | libpkg/pkg_elf.c:774 | reading the rendered digits back gives the number |
| Format.DecimalInjective | libpkg/pkg_elf.c:774 | two numbers with the same rendering are equal, so a version string determines its number |
| Format.PrintfD | libpkg/pkg_elf.c:765-774 | the `%d` rendering of a uint32_t; PrintfDRoundTrip proves what it reads back as |
| Format.PrintfDRoundTrip | libpkg/pkg_elf.c:765-774 | `%d` of a uint32_t is a signed decimal whose value is the argument read as a 32-bit signed int: the value itself below 2^31, the value minus 2^32 from 2^31 on |
| Format.PrintfDInjective | libpkg/pkg_elf.c:772-775 | two uint32_t values with the same `%d` text are equal, so the recorded osversion string determines the osversion |
| ArmAttributes.CpuArchLabel | libpkg/pkg_elf.c:562-579 | a Tag_CPU_arch value gives NULL iff its high bit is set, "arm" iff it is at most 5, "armv6" iff it is 6, "armv7" iff it is 7 to 127 |
| ArmAttributes.ValueEndIs | libpkg/pkg_elf.c:580-597 | the skip over a string or ULEB128 value stops at the first byte that does not continue it (a NUL, or a byte without bit 7), or at the end |
| ArmAttributes.SubsectionStart | libpkg/pkg_elf.c:489-514 | once 'A', the section length and the vendor name are accepted, the subsection starts at least 6 bytes in and within the buffer |
| ArmAttributes.FileSubsection | libpkg/pkg_elf.c:519-546 | the Tag_File subsection check: NULL for another tag, no room for the length, or a length of at most 5 or past the buffer; otherwise the records inside the subsection are scanned (ArmAttributesRejects, EncodedFileSubsection) |
| ArmAttributes.ScanTags | libpkg/pkg_elf.c:548-601 | the record scan over the subsection; ScanTagsFindsCpuTag and ScanEncoded prove which record answers |
| ArmAttributes.ArmAttributesArch | libpkg/pkg_elf.c:477-607 | the answer of aeabi_parse_arm_attributes for a buffer; ArmAttributesRejects, ArmAttributesFromCpuTag and ParseEncodedSection prove its NULL cases, its possible answers and its round trip |
| ArmAttributes.ScanTagsFindsCpuTag | libpkg/pkg_elf.c:548-601 | any answer of the record scan is the reading of the value byte of a Tag_CPU_arch record that starts a record: the scan reaches it from the start by stepping over whole string and ULEB128 records of other tags (RecordStart) |
| ArmAttributes.ArmAttributesRejects | libpkg/pkg_elf.c:489-537 | NULL for an empty buffer, a first byte other than 'A', no room for the length, a section length past the buffer, an unterminated vendor name, a subsection tag other than Tag_File, no room for its length, a length of 5 or less, or a length past the buffer |
| ArmAttributes.ArmAttributesFromCpuTag | libpkg/pkg_elf.c:489-605 | every non-NULL answer is the label of the byte after a Tag_CPU_arch byte in the buffer, so the result is always NULL, "arm", "armv6" or "armv7" |
| ArmAttributes.SkipValue | libpkg/pkg_elf.c:580-597 | the MOVE_TAG skip loop ends where the specification says the value ends |
| ArmAttributes.ParseArmAttributes | libpkg/pkg_elf.c:478-607 | the cursor walk over `section`/`length`/`tag_length` returns exactly what the specification ArmAttributesArch gives for the buffer |
| ArmAttributes.Uleb128 | libpkg/pkg_elf.c:591-597 | a ULEB128 encoding sets bit 7 on every byte but the last, which is how the parser finds its end |
| ArmAttributes.UlebRoundTrip | libpkg/pkg_elf.c:591-597 | ULEB128 decoding undoes the encoding |
| ArmAttributes.SkipEncodedRecord | libpkg/pkg_elf.c:580-597 | the parser steps over an encoded string or integer record exactly, and resumes at the next record |
| ArmAttributes.ScanEncodedCpuArch | libpkg/pkg_elf.c:562-579 | an encoded Tag_CPU_arch record gives the label of its value, or NULL when the value needs more than one byte |
| ArmAttributes.ScanEncodedFirst | libpkg/pkg_elf.c:562-579 | records headed by a Tag_CPU_arch record are answered by that record alone |
| ArmAttributes.ScanEncodedStep | libpkg/pkg_elf.c:580-601 | after a record of another tag the encoded rest starts where that record ends, and its first CPU-architecture record is the whole list's |
| ArmAttributes.ScanEncoded | libpkg/pkg_elf.c:548-601 | scanning encoded records answers with the first CPU-architecture record, or NULL when there is none |
| ArmAttributes.EncodedSubsectionStart | libpkg/pkg_elf.c:489-514 | the header of an encoded section is accepted and the subsection starts right after the vendor name's NUL |
| ArmAttributes.EncodedFileSubsection | libpkg/pkg_elf.c:519-546 | an encoded Tag_File subsection is accepted and its records are scanned |
| ArmAttributes.ParseEncodedSection | libpkg/pkg_elf.c:478-607 | round trip: for any vendor name and valid records, the parser reports exactly the first CPU-architecture record's generation |
| ElfArch.EabiBits | libpkg/pkg_elf.c:219 | e_flags & 0xff000000: a multiple of 2^24 not above the flags and within 2^24 of them |
| ElfArch.IsOldFreebsdArmHeader | libpkg/pkg_elf.c:207-224 | a 32-bit ARM header whose EABI version is 4 or 5; OldFreebsdArmIsEabi proves such a header has non-zero EABI bits |
| ElfArch.ArmSectionArch | libpkg/pkg_elf.c:632-649 | the attributes of the first `.ARM.attributes` section, NULL at an unreadable section header; ArmLabelFromAttributes proves where the label comes from |
| ElfArch.ElfParseArch | libpkg/pkg_elf.c:609-672 | the label elf_parse_arch gives for a header; ArchLabelDetermines, ArchUnsupportedMachine, ArchIndependentOfOs and ArchSectionsOnlyForArm prove what each label means |
| ElfArch.ArchLabelDetermines | libpkg/pkg_elf.c:612-671 | a label names the header's machine type; for PPC64 MSB iff "powerpc64" and LSB iff "powerpc64le"; for RISC-V class 32 iff "riscv32" and 64 iff "riscv64"; for x86-64 FreeBSD iff "amd64" and DragonFly iff "x86:64" |
| ElfArch.ArchUnsupportedMachine | libpkg/pkg_elf.c:612-671 | a machine type outside the table gets NULL |
| ElfArch.ArchIndependentOfOs | libpkg/pkg_elf.c:615-623 | only the x86-64 label depends on the OS type |
| ElfArch.ArchSectionsOnlyForArm | libpkg/pkg_elf.c:626-650 | only ARM reads the sections, and ARM with zero EABI bits gets NULL |
| ElfArch.ArmLabelFromAttributes | libpkg/pkg_elf.c:632-649 | an ARM label comes from the first section named `.ARM.attributes`, with only readable, differently named sections before it |
| ElfArch.OldFreebsdArmIsEabi | libpkg/pkg_elf.c:208-224 | an old FreeBSD ARM header (32-bit ARM, EABI 4 or 5) has non-zero EABI bits |
| OsNote.Roundup4 | libpkg/pkg_elf.c:707 | roundup2(x, 4) in 32-bit arithmetic: a multiple of 4 in [x, x+4), or 0 when x + 3 wraps |
| OsNote.StrnEqMeaning | libpkg/pkg_elf.c:692-701 | strncmp(src, lit, namesz) == 0 iff the first min(namesz, len+1) bytes equal the literal with its NUL |
| OsNote.CString | libpkg/pkg_elf.c:747 | the name copied by xstrdup is the bytes up to the first NUL, none of them NUL |
| OsNote.NextRecord | libpkg/pkg_elf.c:691-707 | the next record starts at least 12 bytes after the current one |
| OsNote.FindNote | libpkg/pkg_elf.c:689-708 | a record found by the scan lies at or after the start, with its whole header in the data |
| OsNote.ScanNotes | libpkg/pkg_elf.c:689-711 | the `src` loop stops at the record the specification FindNote gives |
| OsNote.FindNoteIsFirstMatch | libpkg/pkg_elf.c:689-708 | the record found is the k-th along the chain of offsets advancing by 12 + roundup2(namesz + descsz, 4), it matches, and no record before it matches |
| OsNote.FindNoteNoneNoMatch | libpkg/pkg_elf.c:689-711 | when nothing is found, no record along the chain matches |
| OsNote.ApplyNote | libpkg/pkg_elf.c:675-788 | the os_info after elf_note_analyse on one section, or None when it returns false; ApplyNoteEffect proves what a successful note leaves |
| OsNote.DecodeHit | libpkg/pkg_elf.c:709-785 | the record the scan stopped at, decoded in GNU or BSD style, or None when its name or descriptor lies past the data; DecodeHitGnu and DecodeHitBsd prove where each reads |
| OsNote.VersionStrings | libpkg/pkg_elf.c:776-784 | the version text in DragonFly, NetBSD or default style; FreebsdVersionRoundTrip proves the default style |
| OsNote.OsInfo.NoteAnalyse | libpkg/pkg_elf.c:675-788 | returns true iff a record matches and its descriptor is in the data, and then the record becomes the decoded identity; on false the os_info is unchanged |
| OsNote.DecodeHitGnu | libpkg/pkg_elf.c:709-741 | a GNU record whose four descriptor words lie in the data is decoded from the words after the padded name |
| OsNote.DecodeHitBsd | libpkg/pkg_elf.c:709-760 | a version note whose descriptor word lies in the data is decoded from its name and the word after the padded name |
| OsNote.OsInfo.ApplyHit | libpkg/pkg_elf.c:709-760 | true iff the found record's name and descriptor lie in the data; then the os_info becomes the decoded identity, otherwise it is unchanged |
| OsNote.OsInfo.ApplyGnuHit | libpkg/pkg_elf.c:713-741 | a GNU ABI tag inside the data leaves the identity DecodeHit gives |
| OsNote.OsInfo.ApplyBsdHit | libpkg/pkg_elf.c:742-785 | a version note inside the data leaves the identity DecodeHit gives |
| OsNote.OsInfo.ApplyGnuTag | libpkg/pkg_elf.c:713-770 | the GNU branch sets name, ostype and version from the four descriptor words, in the file's byte order |
| OsNote.OsInfo.ApplyVersionNote | libpkg/pkg_elf.c:742-785 | the version-note branch sets name and ostype from the note name; osversion only while it is zero; then the version strings of the OS type now recorded |
| OsNote.OsInfo.SetNoteName | libpkg/pkg_elf.c:743-754 | namesz 0 gives "Unknown"/OS_UNKNOWN; otherwise the name is the C string and only FreeBSD, DragonFly and NetBSD change the OS type |
| OsNote.OsInfo.RecordVersion | libpkg/pkg_elf.c:772-775 | the version and its `%d` text are recorded only while osversion is zero |
| OsNote.OsInfo.SetVersionStrings | libpkg/pkg_elf.c:776-784 | DragonFly, NetBSD and the other OS types each get their own version text, and only the last sets major and minor |
| OsNote.ApplyNoteEffect | libpkg/pkg_elf.c:712-785 | after a matching note the record has a name and a version, arch and abi are untouched, and a non-zero osversion is kept |
| OsNote.WordBytes | libpkg/pkg_elf.c:724-734 | the four bytes of a descriptor word in the file's byte order decode back to the word |
| OsNote.GnuNameMatches | libpkg/pkg_elf.c:692-706 | the name "GNU" of size 4 is not a BSD name and passes the GNU strncmp |
| OsNote.GnuRecordMatch | libpkg/pkg_elf.c:701-705 | a record named "GNU" of type NT_GNU_ABI_TAG stops the scan in GNU style |
| OsNote.GnuAbiTagApplies | libpkg/pkg_elf.c:689-741 | a GNU ABI tag note is decoded from its descriptor at offset 16 |
| OsNote.GnuAbiTagRoundTrip | libpkg/pkg_elf.c:713-770 | decoding an encoded GNU ABI tag gives word 0's OS name and type (or "Unknown"/OS_UNKNOWN from 6 on) and the version from words 1 to 3, in either byte order |
| OsNote.GnuLinuxExample | libpkg/pkg_elf.c:735-766 | words [0, 6, 5, 0] give Linux, version "6.5" |
| OsNote.FreebsdNameCompares | libpkg/pkg_elf.c:692 | the name FreeBSD with its NUL (namesz 8) passes strncmp against "FreeBSD" |
| OsNote.FreebsdNameChars | libpkg/pkg_elf.c:692 | the eight name bytes read as the characters of FreeBSD followed by NUL |
| OsNote.FreebsdNameString | libpkg/pkg_elf.c:747-749 | that name is read back as the string FreeBSD |
| OsNote.FreebsdVersionApplies | libpkg/pkg_elf.c:689-760 | a FreeBSD NT_VERSION note is decoded as a version note with its descriptor at offset 20 |
| OsNote.FreebsdVersionRoundTrip | libpkg/pkg_elf.c:743-784 | decoding a FreeBSD version note for v names FreeBSD, sets major and version to v/100000 and minor to v/1000 % 100, and records v only if osversion was zero |
| OsNote.FreebsdVersionExample | libpkg/pkg_elf.c:772-784 | 1500000 gives FreeBSD, version "15", major "15", minor "0", osversion 1500000 |
| OsNote.FreebsdVersion15 | libpkg/pkg_elf.c:781-783 | 1500000 / 100000 renders as "15" and 1500000 / 1000 % 100 as "0" |
| OsNote.ScanNoteSectionsKeeps | libpkg/pkg_elf.c:820-835 | over all note sections the first non-zero osversion wins, a record with a name keeps a version, and arch and abi are untouched |
| OsNote.MyArch | libpkg/pkg_elf.c:791-857 | the result of pkg_get_myarch_elfparse and the os_info it leaves; MyArchResult proves when each result comes |
| OsNote.AnalyseNoteSections | libpkg/pkg_elf.c:820-835 | the section loop leaves the identity ScanNoteSections gives, and fails exactly at an unreadable section header |
| OsNote.MyArchResult | libpkg/pkg_elf.c:802-851 | never END; WARN iff no header; OK iff every section header reads, some note named the OS and the architecture is known; then arch is the resolver's label and abi is name:version:arch |
| OsNote.GetMyArch | libpkg/pkg_elf.c:791-857 | the method's result and the os_info it leaves are those of the specification MyArch |
| AbiCheck.CorresToString | libpkg/pkg_elf.c:453-463 | the name of the first entry with the number, or "unknown" when there is none |
| AbiCheck.StringToCorres | libpkg/pkg_elf.c:465-475 | the number of the first entry with the name, or -1 when there is none |
| AbiCheck.NextColon | libpkg/pkg_elf.c:151 | strchr gives a ':' at or after the start |
| AbiCheck.NextColonFirst | libpkg/pkg_elf.c:151 | no ':' lies between the start and the hit, and none at all when strchr returns NULL |
| AbiCheck.NextColonAt | libpkg/pkg_elf.c:151 | a ':' with none before it from the start is the one strchr finds |
| AbiCheck.ColonAt | libpkg/pkg_elf.c:150-151 | the k-th strchr hit is a ':' of the string |
| AbiCheck.ColonAtCounts | libpkg/pkg_elf.c:150-163 | the k-th hit has exactly k ':' before it, and exists iff the string holds more than k |
| AbiCheck.ColonsFrom | libpkg/pkg_elf.c:150-151 | from a cursor with k ':' before it, strchr finds a ':' with k before it, and finds one iff the string holds more than k |
| AbiCheck.ColonAtNext | libpkg/pkg_elf.c:150-151 | each strchr starts just past the previous hit |
| AbiCheck.Truncate63 | libpkg/pkg_elf.c:160-167 | strlcpy into a 64-byte buffer keeps exactly the first min(len, 63) characters: the whole field when it fits, its first 63 characters otherwise |
| AbiCheck.Field | libpkg/pkg_elf.c:160-167 | a field copied into its 64-byte buffer has at most 63 characters |
| AbiCheck.WordEnd | libpkg/pkg_elf.c:163-167 | the wordsize field ends after the third ':' and no later than the string |
| AbiCheck.AbiFields | libpkg/pkg_elf.c:142-171 | both extracted fields are at most 63 characters |
| AbiCheck.AbiFieldsPositions | libpkg/pkg_elf.c:142-171 | with three ':' the fields exist, and arch is the text between the ':' with one before it and the ':' with two before it |
| AbiCheck.ArchFieldAt | libpkg/pkg_elf.c:154-161 | with the 2nd and 3rd ':' found, arch is the text between them |
| AbiCheck.WordFieldAt | libpkg/pkg_elf.c:162-168 | with the 3rd ':' found, wordsize is the text after it up to the next ':' or the end |
| AbiCheck.AbiFieldsAt | libpkg/pkg_elf.c:150-171 | with exactly three ':', arch lies between the 2nd and 3rd and wordsize runs from the 3rd to the end |
| AbiCheck.AbiArchWordsize | libpkg/pkg_elf.c:147-171 | the semicolon loop fills arch and wordsize exactly as AbiFields says, or stops without a third ':' |
| AbiCheck.ShlibValidAbi | libpkg/pkg_elf.c:134-204 | the method's verdict is ValidAbi for the header's class and machine |
| AbiCheck.ValidAbi | libpkg/pkg_elf.c:134-204 | the verdict of shlib_valid_abi; ValidAbiFalse proves when it refuses, AbiFailOpen and ClassCheckedFirst what it accepts and refuses first |
| AbiCheck.AbiFailOpen | libpkg/pkg_elf.c:150-174 | an ABI string with fewer than three ':' accepts every library |
| AbiCheck.ValidAbiFalse | libpkg/pkg_elf.c:173-203 | a library is refused iff both fields are present, the wordsize is in the table, and the class differs or the machine's name is not the arch |
| AbiCheck.ClassCheckedFirst | libpkg/pkg_elf.c:185-195 | a class mismatch refuses the library whatever its machine |
| AbiCheck.AbiFieldsOfJoin | libpkg/pkg_elf.c:142-171 | for os:ver:arch:wordsize made of ':'-free fields, the fields found are arch and wordsize |
| AbiCheck.JoinColons | libpkg/pkg_elf.c:150-151 | in a string whose only ':' are at three positions, strchr finds exactly those three and no fourth |
| AbiCheck.X86ClassDecides | libpkg/pkg_elf.c:185-201 | with both x86 machines named "x86", an x86:64 ABI accepts exactly the 64-bit class |
| Shlibs.ContainsAt | libpkg/pkg_elf.c:78 | strstr finds the substring iff some window of the string spells it |
| Shlibs.FilterSystemShlibs | libpkg/pkg_elf.c:67-91 | never WARN; FATAL iff the cache misses; with ALLOW_BASE_SHLIBS END iff the path contains "/lib32/"; without it END iff it starts with "/lib" or "/usr/lib"; otherwise OK |
| Shlibs.Lib32IsSystem | libpkg/pkg_elf.c:77-84 | a path under /usr/lib32/ is a base library in both modes |
| Shlibs.SystemPrefixExamples | libpkg/pkg_elf.c:81-84 | "/libexec/..." counts as base because the prefix test is textual; "/usr/local/lib/..." is never base |
| Shlibs.InManifest | libpkg/pkg_elf.c:114-124 | some manifest path ends with the library name |
| Shlibs.RequiresShlib | libpkg/pkg_elf.c:102-130 | add_shlibs_to_pkg records the name iff the classification is OK, or FATAL for a non-library file with the name in the manifest; AddShlibOutcome proves it |
| Shlibs.AddShlibOutcome | libpkg/pkg_elf.c:102-130 | the result is OK or FATAL; FATAL iff the cache misses for a non-library file whose manifest has no path ending with the name, and then nothing is recorded; the name is recorded iff it resolves outside the base, or misses for a non-library file that ships it |
| Shlibs.AddShlibsToPkg | libpkg/pkg_elf.c:95-131 | the method returns AddResult, appends the name to required exactly when RequiresShlib holds, and changes nothing else |
| Shlibs.LastDot | libpkg/pkg_elf.c:439 | strrchr: a '.' with no '.' after it, or NULL when there is no '.' |
| Shlibs.ExtFlagsMeaning | libpkg/pkg_elf.c:439-448 | the static-library flag is set iff the path ends in ".a", the libtool flag iff it ends in ".la", never the ELF flag |
| Shlibs.AnalyseFpath | libpkg/pkg_elf.c:435-451 | always OK; adds exactly the extension flags; leaves required and provided alone |
| ElfAnalysis.SectionWalk | libpkg/pkg_elf.c:303-335 | a chosen dynamic section is of type SHT_DYNAMIC with a non-zero entry size, and is one of the sections |
| ElfAnalysis.IsAbiTagNote | libpkg/pkg_elf.c:316-319 | the first note of the section data has type NT_ABI_TAG |
| ElfAnalysis.WalkWithoutDynamic | libpkg/pkg_elf.c:303-344 | without a dynamic section no dynamic section is chosen; the walk is fatal iff it meets an unreadable section header before any note section without data (FatalAt), and otherwise ends with END or with no dynamic section |
| ElfAnalysis.NoDynamicNoAnalysis | libpkg/pkg_elf.c:256-344 | a file of a known type without a dynamic section ends with END, or with FATAL exactly when the walk meets an unreadable section header first |
| ElfAnalysis.WalkChoosesLastDynamic | libpkg/pkg_elf.c:303-335 | when every note section has data and none is an ABI-tag note, a later dynamic section replaces an earlier one, so the last one is chosen |
| ElfAnalysis.WalkKeepsDynamic | libpkg/pkg_elf.c:303-335 | readable sections that are neither dynamic nor ABI-tag notes, and whose notes have data, keep the dynamic section already chosen |
| ElfAnalysis.FindDynamicSection | libpkg/pkg_elf.c:303-335 | the section loop ends as the specification SectionWalk says |
| ElfAnalysis.SonamePassOk | libpkg/pkg_elf.c:377-383 | the first pass succeeds iff all of the first numdyn entries can be read |
| ElfAnalysis.SonamePass | libpkg/pkg_elf.c:376-399 | the verdict, shared-library flag, run-path and provided names of the first loop over the first k entries; SonamePassOk, SonamePassIsShlib, SonamePassRpath and SonamePassProvided prove each |
| ElfAnalysis.SonamePassProvided | libpkg/pkg_elf.c:377-394 | a name is provided iff it is the non-empty string of a DT_SONAME entry read before the first entry that cannot be read |
| ElfAnalysis.SonamePassIsShlib | libpkg/pkg_elf.c:385-386 | the file is a shared library iff some entry read is a DT_SONAME |
| ElfAnalysis.SonamePassRpath | libpkg/pkg_elf.c:396-398 | the run-path is the string of the first DT_RPATH or DT_RUNPATH entry whose string resolves |
| ElfAnalysis.SonamePassNoRpath | libpkg/pkg_elf.c:396-398 | without a run-path, no run-path entry with a string was read |
| ElfAnalysis.SonamePassStaysFailed | libpkg/pkg_elf.c:378-383 | after an unreadable entry the first pass stays failed and records nothing more |
| ElfAnalysis.ScanSonames | libpkg/pkg_elf.c:376-399 | the first loop returns SonamePass's verdict, shared-library flag and run-path, and appends exactly its provided names |
| ElfAnalysis.NeededPassOk | libpkg/pkg_elf.c:408-414 | the second pass cannot fail once the first succeeded |
| ElfAnalysis.NeededPass | libpkg/pkg_elf.c:408-422 | the verdict and required names of the second loop; NeededPassOk and NeededPassRecords prove them |
| ElfAnalysis.NeededPassRecords | libpkg/pkg_elf.c:408-421 | a name is required iff it is the string of a DT_NEEDED entry that add_shlibs_to_pkg records (RequiresShlib), once the pass reads every entry |
| ElfAnalysis.NeededPassStaysFailed | libpkg/pkg_elf.c:409-414 | after an unreadable entry the second pass stays failed and records nothing more |
| ElfAnalysis.ScanNeeded | libpkg/pkg_elf.c:408-422 | the second loop appends exactly NeededPass's required names and ignores each classification's result |
| ElfAnalysis.AnalyseDynamic | libpkg/pkg_elf.c:376-422 | OK iff the first pass reads every entry; provided grows by its sonames, and required by the second pass's names only after a successful first pass |
| ElfAnalysis.ElfGate | libpkg/pkg_elf.c:256-362 | the tests before the dynamic entries, in order; AnalyseResultCases proves the result each gives |
| ElfAnalysis.AnalyseResult | libpkg/pkg_elf.c:232-432 | the result of analyse_elf; AnalyseResultCases proves when each result comes |
| ElfAnalysis.ElfFlags | libpkg/pkg_elf.c:286-287 | the ELF-objects flag, set in developer mode for any ELF file |
| ElfAnalysis.AnalyseResultCases | libpkg/pkg_elf.c:256-363 | END for a non-regular or non-ELF file and an unknown e_type; FATAL when it cannot be opened or libelf fails, or the first section header is unreadable; WARN iff the header is unreadable; never OK when the ABI check refuses; past the gates, OK iff every dynamic entry reads |
| ElfAnalysis.AnalyseElf | libpkg/pkg_elf.c:232-432 | the result is AnalyseResult, which does not depend on the cache; provided, required and flags grow by exactly ProvidedBy, RequiredBy and ElfFlags |
| ElfAnalysis.DeveloperResult | libpkg/pkg_elf.c:876-879 | the developer-mode mapping of a result; DeveloperResultMeaning proves it |
| ElfAnalysis.DeveloperResultMeaning | libpkg/pkg_elf.c:876-879 | in developer mode the result is never FATAL and OK, END and WARN pass through; outside it the result is analyse_elf's |
| ElfAnalysis.PkgAnalyseElf | libpkg/pkg_elf.c:874-883 | the result is the developer-mode mapping of analyse_elf's; the extension flags are added only in developer mode after OK or END |

## Left out

- libelf itself (`elf_version`, `elf_begin`, `elf_kind`, `elf_nextscn`,
  `gelf_getshdr`, `elf_getdata`, `gelf_getdyn`, `elf_strptr`,
  `elf_getshdrstrndx`): its results are plain values (`FileInput`, `Section`,
  `DynSlot`). `gelf_getdyn` is plain indexing (`GetDyn`): the entry at an
  index the decoded sequence holds, an unreadable slot past it. A failure of `elf_version` and one of `elf_begin` are one case,
  `LibelfFailed`, since both give FATAL.
- `lstat`, `open` and `close`. The file is classified up front as not regular
  or empty, or as not openable. The path where a failed `lstat` leaves `sb`
  uninitialised is not modelled.
- The shared-library cache (`shlib_list_*`, `rpath_list_*`,
  `shlib_list_from_rpath`, `pkg_analyse_init_elf`, `pkg_analyse_close_elf`).
  It is a `Resolver` function of the run-path and the library name. How the
  run-path is split and how the cache is filled are not part of this model.
- `pkg_config_get` and `ctx`. `ABI`, `ALLOW_BASE_SHLIBS`, `ctx.developer_mode`
  and the `__FreeBSD__` build switch are fields of `AnalysisConfig`. The
  `developer_mode` argument of `pkg_analyse_elf` is a separate parameter, as in
  the C code.
- The contents of `mach_corres` and `wordsize_corres` (`private/elf_tables.h`)
  are parameters; `private/elf_tables.h` is not part of this model.
- Logging and events (`pkg_debug`, `pkg_emit_*`); memory management (`free`,
  `xstrdup`, `xasprintf`); the `path`/`pathlen` copy of `filter_system_shlibs`,
  which `add_shlibs_to_pkg` never asks for.
- `pkg_get_myarch_elfparse` is modelled from the point where libelf has opened
  the file. Its own `elf_version`/`elf_begin` failures are not modelled.
- The `snprintf` truncation of `oi->abi` to its buffer is not modelled:
  `GetMyArch` stores the whole `name:version:arch` string.
- Shlibs.Pkg: `pkg_addshlib_required` and `pkg_addshlib_provided` are appends
  to sequences, in call order. Any removal of duplicates they do is not part
  of this model.
- OsNote.OsInfo.NoteAnalyse: the model assumes a little-endian host. The C
  code reads the note header words `namesz`, `descsz` and `type` in host
  order, and so do `IsAbiTagNote` and the ARM section lengths. The model
  reads all of them little-endian, so big-endian hosts (powerpc, powerpc64)
  are not covered.
- OsNote.OsInfo.NoteAnalyse: the C code does not check its reads against the
  data. The model checks them:
  - a header cut short by the end of the data ends the scan with false;
  - a name compare that would read past the data is a mismatch;
  - a matched record whose descriptor runs past the data returns false and
    leaves the record unchanged;
  - the name of a version note is copied up to the end of the data when no
    NUL comes first, where `xstrdup` would read past it (`CString`).
- OsNote.GetMyArch: a note section for which `elf_getdata` returns NULL is read
  as an empty buffer, where the C code dereferences it.
- ElfArch.ArmSectionArch: a NULL `elf_getdata` result for `.ARM.attributes` is
  read as an empty buffer, which the parser refuses.
- ArmAttributes.ParseArmAttributes: the C code has three unchecked reads, and
  the model adds a guard for each:
  - it reads the `Tag_CPU_arch` value byte even at the end of the buffer; the
    model gives NULL there;
  - its string and ULEB128 skips test `*section` before `length`;
  - it bounds those skips by the buffer, so `tag_length` can wrap.

  The model bounds the skips by the end of the subsection. The section and
  subsection lengths are read little-endian (host order in the C code). The
  assertion at line 551 is not modelled.
- AbiCheck.AbiArchWordsize: with fewer than two ':' in the ABI string, the
  `strchr` at line 151 returns NULL and the loop header at line 150 runs
  `p++` on it before testing `p != NULL`, which is undefined behaviour. The
  model stops and returns None, and the check then accepts the library. This
  is the answer the C code gives for exactly two ':', through the
  `t == NULL` return at lines 156-159.
- AbiCheck.ShlibValidAbi: the NULL test on `shlib_arch` (line 177) is not
  modelled. `elf_corres_to_string` never returns NULL, so that branch cannot
  be taken.
- ElfAnalysis.ScanNeeded: a `DT_NEEDED` entry whose string `elf_strptr` cannot
  resolve is skipped. The C code passes NULL on to `add_shlibs_to_pkg`.
- ElfAnalysis.IsAbiTagNote: the `n_type` of the first note is read only when
  the section data holds a whole note header. A shorter buffer is not an ABI
  tag.
