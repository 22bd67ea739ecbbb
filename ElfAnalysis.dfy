/**
 * The analysis of one packaged file (analyse_elf) and its developer-mode
 * wrapper (pkg_analyse_elf): the result-code decisions of the section walk,
 * then two passes over the entries of the dynamic section, the first for
 * DT_SONAME and the run-path, the second for DT_NEEDED.  The dynamic section
 * layout is the "Dynamic Section" part of chapter 5 of the System V gABI.
 */
module ElfAnalysis {
  import opened Wrappers
  import opened ElfTypes
  import opened ElfArch
  import opened AbiCheck
  import opened Shlibs

  /**
   * The file as lstat, open and libelf see it before its header is read:
   * empty or not a regular file, not openable, libelf failing to start on it
   * (elf_version or elf_begin), not an ELF object, or an ELF object with its
   * header (None when gelf_getehdr fails) and its sections.
   */
  datatype FileInput =
    | NotRegular
    | OpenFailed
    | LibelfFailed
    | NotElf
    | ElfFile(hdr: Option<ElfHeader>, sections: seq<Section>)

  /**
   * The configuration the analysis reads: the ABI string, ALLOW_BASE_SHLIBS,
   * ctx.developer_mode, whether the build is for FreeBSD (which adds the
   * EI_OSABI test), and the machine and word-size name tables.
   */
  datatype AnalysisConfig = AnalysisConfig(
    abi: Option<string>,
    allowBaseShlibs: bool,
    developerMode: bool,
    freebsdBuild: bool,
    machTable: seq<Corres>,
    wordsizeTable: seq<Corres>)

  /**
   * The shared-library cache after the file's run-path (if any) was added to
   * it: the resolved path of a library name, or None.
   */
  type Resolver = (Option<string>, string) -> Option<string>

  /** The first note of a section is an ABI tag: its n_type word (read in host order) is NT_ABI_TAG. */
  predicate IsAbiTagNote(buf: seq<byte>)
  {
    |buf| >= 12 && Le32(buf, 8) == NT_ABI_TAG
  }

  /** How the section walk of analyse_elf ends. */
  datatype SectionScan = ScanFatal | ScanEnd | ScanDone(dynamic: Option<Section>)

  /**
   * The section walk from this point on, having seen an ABI-tag note or not
   * and having chosen a dynamic section or not: an unreadable section header
   * is fatal; a note section without data, or a dynamic section whose entry
   * size is zero, ends the analysis; the walk stops once both a note and a
   * dynamic section were seen, a later dynamic section replacing an earlier
   * one until then.
   */
  function SectionWalk(sections: seq<Section>, noteSeen: bool, dynamic: Option<Section>): (r: SectionScan)
    requires dynamic.Some? ==> dynamic.value.Section? && dynamic.value.shType == SHT_DYNAMIC && dynamic.value.shEntsize > 0
    ensures r.ScanDone? && r.dynamic.Some? ==> r.dynamic.value.Section? && r.dynamic.value.shType == SHT_DYNAMIC && r.dynamic.value.shEntsize > 0
    ensures r.ScanDone? && r.dynamic.Some? ==> r.dynamic == dynamic || r.dynamic.value in sections
    decreases |sections|
  {
    if sections == [] then ScanDone(dynamic)
    else match sections[0]
      case BadHeader => ScanFatal
      case Section(_, shType, shEntsize, _, data, _) =>
        if shType == SHT_NOTE && data.None? then ScanEnd
        else if shType == SHT_DYNAMIC && shEntsize == 0 then ScanEnd
        else
          var note := noteSeen || (shType == SHT_NOTE && IsAbiTagNote(data.value));
          var dyn := if shType == SHT_DYNAMIC then Some(sections[0]) else dynamic;
          if note && dyn.Some? then ScanDone(dyn)
          else SectionWalk(sections[1..], note, dyn)
  }

  /** Section i is the first one the walk cannot read, and no note section without data comes before it. */
  predicate FatalAt(sections: seq<Section>, i: nat)
  {
    i < |sections| && sections[i].BadHeader?
    && forall j :: 0 <= j < i ==> sections[j].Section? && !(sections[j].shType == SHT_NOTE && sections[j].data.None?)
  }

  /**
   * Without any dynamic section the walk chooses none: it is fatal exactly
   * when it meets an unreadable section header before a note section without
   * data, and otherwise it ends the analysis or finishes with no dynamic
   * section.
   */
  lemma {:induction false} WalkWithoutDynamic(sections: seq<Section>, noteSeen: bool)
    requires forall i :: 0 <= i < |sections| ==> sections[i].Section? ==> sections[i].shType != SHT_DYNAMIC
    ensures SectionWalk(sections, noteSeen, None) in {ScanFatal, ScanEnd, ScanDone(None)}
    ensures SectionWalk(sections, noteSeen, None) == ScanFatal <==> exists i: nat :: FatalAt(sections, i)
    decreases |sections|
  {
    if sections == [] {
    } else if sections[0].BadHeader? {
      assert FatalAt(sections, 0);
    } else {
      var s := sections[0];
      if s.shType == SHT_NOTE && s.data.None? {
        assert forall i: nat :: FatalAt(sections, i) ==> i > 0 && sections[0].Section? && !(s.shType == SHT_NOTE && s.data.None?);
      } else {
        var note := noteSeen || (s.shType == SHT_NOTE && IsAbiTagNote(s.data.value));
        var rest := sections[1..];
        assert forall i :: 0 <= i < |rest| ==> rest[i] == sections[i + 1];
        WalkWithoutDynamic(rest, note);
        if exists i: nat :: FatalAt(rest, i) {
          var i: nat :| FatalAt(rest, i);
          assert FatalAt(sections, i + 1);
        }
        if exists i: nat :: FatalAt(sections, i) {
          var i: nat :| FatalAt(sections, i);
          assert i > 0;
          assert FatalAt(rest, i - 1);
        }
      }
    }
  }

  /** Without a dynamic section, a file of a known type that passes the header test ends with END, or FATAL at an unreadable section header. */
  lemma NoDynamicNoAnalysis(hdr: ElfHeader, sections: seq<Section>, cfg: AnalysisConfig)
    requires hdr.eType in {ET_DYN, ET_EXEC, ET_REL}
    requires forall i :: 0 <= i < |sections| ==> sections[i].Section? ==> sections[i].shType != SHT_DYNAMIC
    ensures AnalyseResult(ElfFile(Some(hdr), sections), cfg) in {EpkgEnd, EpkgFatal}
    ensures AnalyseResult(ElfFile(Some(hdr), sections), cfg) == EpkgFatal <==> exists i: nat :: FatalAt(sections, i)
  {
    WalkWithoutDynamic(sections, false);
  }

  /** A readable section that neither ends the walk as a note without data nor is an ABI-tag note. */
  predicate PlainSection(s: Section)
  {
    s.Section? && (s.shType == SHT_NOTE ==> s.data.Some? && !IsAbiTagNote(s.data.value))
  }

  /**
   * Without an ABI-tag note the walk reads every section, and the dynamic
   * section chosen is the last one.
   */
  lemma {:induction false} WalkChoosesLastDynamic(sections: seq<Section>, dynamic: Option<Section>, k: nat)
    requires dynamic.Some? ==> dynamic.value.Section? && dynamic.value.shType == SHT_DYNAMIC && dynamic.value.shEntsize > 0
    requires forall i :: 0 <= i < |sections| ==> PlainSection(sections[i]) && (sections[i].shType == SHT_DYNAMIC ==> sections[i].shEntsize > 0)
    requires k < |sections| && sections[k].Section? && sections[k].shType == SHT_DYNAMIC
    requires forall i :: k < i < |sections| ==> sections[i].Section? && sections[i].shType != SHT_DYNAMIC
    ensures SectionWalk(sections, false, dynamic) == ScanDone(Some(sections[k]))
    decreases |sections|
  {
    var s := sections[0];
    var dyn := if s.shType == SHT_DYNAMIC then Some(s) else dynamic;
    if k > 0 {
      assert forall i :: 0 <= i < |sections[1..]| ==> sections[1..][i] == sections[i + 1];
      WalkChoosesLastDynamic(sections[1..], dyn, k - 1);
    } else {
      assert forall i :: 0 <= i < |sections[1..]| ==> sections[1..][i] == sections[i + 1];
      WalkKeepsDynamic(sections[1..], dyn);
    }
  }

  /** With no further dynamic section and no ABI-tag note, the walk keeps the one it has. */
  lemma {:induction false} WalkKeepsDynamic(sections: seq<Section>, dynamic: Option<Section>)
    requires dynamic.Some? ==> dynamic.value.Section? && dynamic.value.shType == SHT_DYNAMIC && dynamic.value.shEntsize > 0
    requires forall i :: 0 <= i < |sections| ==> PlainSection(sections[i]) && sections[i].shType != SHT_DYNAMIC
    ensures SectionWalk(sections, false, dynamic) == ScanDone(dynamic)
    decreases |sections|
  {
    if sections != [] {
      assert forall i :: 0 <= i < |sections[1..]| ==> sections[1..][i] == sections[i + 1];
      WalkKeepsDynamic(sections[1..], dynamic);
    }
  }

  /**
   * The section walk of analyse_elf: which dynamic section the rest of the
   * analysis reads, or the result code that ends it.
   */
  method FindDynamicSection(sections: seq<Section>) returns (r: SectionScan)
    ensures r == SectionWalk(sections, false, None)
  {
    var note := false;
    var dynamic: Option<Section> := None;
    var i := 0;
    while i < |sections|
      invariant 0 <= i <= |sections|
      invariant dynamic.Some? ==> dynamic.value.Section? && dynamic.value.shType == SHT_DYNAMIC && dynamic.value.shEntsize > 0
      invariant SectionWalk(sections, false, None) == SectionWalk(sections[i..], note, dynamic)
    {
      assert sections[i..][1..] == sections[i + 1..];
      var scn := sections[i];
      if scn.BadHeader? {
        return ScanFatal;
      }
      if scn.shType == SHT_NOTE {
        if scn.data.None? {
          // Some error occurred, ignore this file
          return ScanEnd;
        }
        if IsAbiTagNote(scn.data.value) {
          note := true;
        }
      } else if scn.shType == SHT_DYNAMIC {
        if scn.shEntsize == 0 {
          return ScanEnd;
        }
        dynamic := Some(scn);
      }
      if note && dynamic.Some? {
        return ScanDone(dynamic);
      }
      i := i + 1;
    }
    return ScanDone(dynamic);
  }

  /**
   * The state of the first pass after k entries: whether every entry so far
   * could be read, whether a DT_SONAME was seen, the run-path (the string of
   * the first DT_RPATH or DT_RUNPATH entry whose string resolves), and the
   * names recorded as provided.
   */
  datatype SonameState = SonameState(ok: bool, isShlib: bool, rpath: Option<string>, provided: seq<string>)

  function SonamePass(dyns: seq<DynSlot>, k: nat): SonameState
  {
    if k == 0 then SonameState(true, false, None, [])
    else
      var prev := SonamePass(dyns, k - 1);
      if !prev.ok then prev
      else match GetDyn(dyns, k - 1)
        case Unreadable => prev.(ok := false)
        case Dyn(tag, str) =>
          SonameState(
            true,
            prev.isShlib || tag == DT_SONAME,
            if prev.rpath.None? && (tag == DT_RPATH || tag == DT_RUNPATH) then str else prev.rpath,
            prev.provided + (if tag == DT_SONAME && str.Some? && str.value != "" then [str.value] else []))
  }

  /** The first pass succeeds exactly when the first k entries can all be read. */
  lemma {:induction false} SonamePassOk(dyns: seq<DynSlot>, k: nat)
    ensures SonamePass(dyns, k).ok <==> forall j :: 0 <= j < k ==> GetDyn(dyns, j).Dyn?
    ensures SonamePass(dyns, k).ok ==> k <= |dyns|
  {
    if k > 0 {
      SonamePassOk(dyns, k - 1);
      if !SonamePass(dyns, k - 1).ok {
        var j :| 0 <= j < k - 1 && !GetDyn(dyns, j).Dyn?;
      }
    }
  }

  /** The file is a shared library exactly when one of the entries read is a DT_SONAME. */
  lemma {:induction false} SonamePassIsShlib(dyns: seq<DynSlot>, k: nat)
    requires SonamePass(dyns, k).ok
    ensures SonamePass(dyns, k).isShlib <==> exists j :: 0 <= j < k && GetDyn(dyns, j).Dyn? && GetDyn(dyns, j).tag == DT_SONAME
  {
    if k > 0 {
      SonamePassIsShlib(dyns, k - 1);
    }
  }

  /** Entry j is a DT_SONAME with a non-empty string x, and every entry up to it can be read. */
  predicate SonameRead(dyns: seq<DynSlot>, j: nat, x: string)
  {
    GetDyn(dyns, j) == Dyn(DT_SONAME, Some(x)) && x != ""
    && forall i :: 0 <= i < j ==> GetDyn(dyns, i).Dyn?
  }

  /**
   * The first pass records as provided exactly the non-empty strings of the
   * DT_SONAME entries it reads before the first entry it cannot read.
   */
  lemma {:induction false} SonamePassProvided(dyns: seq<DynSlot>, k: nat, x: string)
    ensures x in SonamePass(dyns, k).provided <==> exists j: nat :: j < k && SonameRead(dyns, j, x)
  {
    if k > 0 {
      SonamePassProvided(dyns, k - 1, x);
      SonamePassOk(dyns, k - 1);
      var prev := SonamePass(dyns, k - 1);
      if SonameRead(dyns, k - 1, x) {
        assert prev.ok;
        assert x in SonamePass(dyns, k).provided;
      } else {
        assert x in SonamePass(dyns, k).provided ==> x in prev.provided;
        if exists j: nat :: j < k && SonameRead(dyns, j, x) {
          var j: nat :| j < k && SonameRead(dyns, j, x);
          assert j < k - 1;
        }
      }
    }
  }

  /**
   * The run-path comes from the first DT_RPATH or DT_RUNPATH entry whose
   * string resolves, whichever tag comes first; out-parameter j is its index.
   */
  lemma {:induction false} SonamePassRpath(dyns: seq<DynSlot>, k: nat) returns (j: nat)
    requires SonamePass(dyns, k).ok && SonamePass(dyns, k).rpath.Some?
    ensures j < k && GetDyn(dyns, j).Dyn? && GetDyn(dyns, j).tag in {DT_RPATH, DT_RUNPATH}
    ensures GetDyn(dyns, j).str == SonamePass(dyns, k).rpath
    ensures forall i :: 0 <= i < j ==> !(GetDyn(dyns, i).Dyn? && GetDyn(dyns, i).tag in {DT_RPATH, DT_RUNPATH} && GetDyn(dyns, i).str.Some?)
  {
    var prev := SonamePass(dyns, k - 1);
    if prev.rpath.Some? {
      j := SonamePassRpath(dyns, k - 1);
    } else {
      j := k - 1;
      SonamePassNoRpath(dyns, k - 1);
    }
  }

  /** While no run-path is set, no entry so far was a run-path entry with a string. */
  lemma {:induction false} SonamePassNoRpath(dyns: seq<DynSlot>, k: nat)
    requires SonamePass(dyns, k).ok && SonamePass(dyns, k).rpath.None?
    ensures forall i :: 0 <= i < k ==> !(GetDyn(dyns, i).Dyn? && GetDyn(dyns, i).tag in {DT_RPATH, DT_RUNPATH} && GetDyn(dyns, i).str.Some?)
  {
    if k > 0 {
      SonamePassNoRpath(dyns, k - 1);
    }
  }

  /**
   * The state of the second pass after k entries: whether every entry so far
   * could be read, and the names recorded as required, in order.
   */
  datatype NeededState = NeededState(ok: bool, required: seq<string>)

  /**
   * Each DT_NEEDED entry whose string resolves is classified with the cache's
   * answer for it, under the run-path of the first pass.
   */
  function NeededPass(dyns: seq<DynSlot>, k: nat, resolve: Resolver, rpath: Option<string>, allowBaseShlibs: bool, isShlib: bool, files: seq<string>): NeededState
  {
    if k == 0 then NeededState(true, [])
    else
      var prev := NeededPass(dyns, k - 1, resolve, rpath, allowBaseShlibs, isShlib, files);
      if !prev.ok then prev
      else match GetDyn(dyns, k - 1)
        case Unreadable => prev.(ok := false)
        case Dyn(tag, str) =>
          if tag == DT_NEEDED && str.Some? && RequiresShlib(resolve(rpath, str.value), allowBaseShlibs, isShlib, files, str.value)
          then prev.(required := prev.required + [str.value])
          else prev
  }

  /** The second pass reads the same entries as the first, so it cannot fail once the first succeeded. */
  lemma {:induction false} NeededPassOk(dyns: seq<DynSlot>, k: nat, resolve: Resolver, rpath: Option<string>, allowBaseShlibs: bool, isShlib: bool, files: seq<string>)
    requires SonamePass(dyns, k).ok
    ensures NeededPass(dyns, k, resolve, rpath, allowBaseShlibs, isShlib, files).ok
  {
    if k > 0 {
      NeededPassOk(dyns, k - 1, resolve, rpath, allowBaseShlibs, isShlib, files);
    }
  }

  /**
   * Every name the second pass records is the string of a DT_NEEDED entry
   * that the classification keeps, and, once the pass has read every
   * entry, every such string is recorded.
   */
  lemma {:induction false} NeededPassRecords(dyns: seq<DynSlot>, k: nat, resolve: Resolver, rpath: Option<string>, allowBaseShlibs: bool, isShlib: bool, files: seq<string>)
    ensures var st := NeededPass(dyns, k, resolve, rpath, allowBaseShlibs, isShlib, files);
            forall x :: x in st.required ==> RequiresShlib(resolve(rpath, x), allowBaseShlibs, isShlib, files, x)
                                             && exists j :: 0 <= j < k && GetDyn(dyns, j) == Dyn(DT_NEEDED, Some(x))
    ensures var st := NeededPass(dyns, k, resolve, rpath, allowBaseShlibs, isShlib, files);
            st.ok ==> forall j :: 0 <= j < k && GetDyn(dyns, j).Dyn? && GetDyn(dyns, j).tag == DT_NEEDED && GetDyn(dyns, j).str.Some?
                                  && RequiresShlib(resolve(rpath, GetDyn(dyns, j).str.value), allowBaseShlibs, isShlib, files, GetDyn(dyns, j).str.value)
                                  ==> GetDyn(dyns, j).str.value in st.required
  {
    if k > 0 {
      NeededPassRecords(dyns, k - 1, resolve, rpath, allowBaseShlibs, isShlib, files);
    }
  }

  /** How far analyse_elf gets before the dynamic entries: a result code, or the header and the dynamic entries to read. */
  datatype Gate = Stopped(result: PkgResult) | Proceed(hdr: ElfHeader, dyns: seq<DynSlot>, numdyn: nat)

  /** The tests analyse_elf makes before reading the dynamic entries, in its order. */
  function ElfGate(file: FileInput, cfg: AnalysisConfig): Gate
  {
    match file
    case NotRegular => Stopped(EpkgEnd)
    case OpenFailed => Stopped(EpkgFatal)
    case LibelfFailed => Stopped(EpkgFatal)
    case NotElf => Stopped(EpkgEnd)
    case ElfFile(hdr, sections) =>
      if hdr.None? then Stopped(EpkgWarn)
      else if hdr.value.eType !in {ET_DYN, ET_EXEC, ET_REL} then Stopped(EpkgEnd)
      else match SectionWalk(sections, false, None)
        case ScanFatal => Stopped(EpkgFatal)
        case ScanEnd => Stopped(EpkgEnd)
        case ScanDone(dynamic) =>
          if dynamic.None? then Stopped(EpkgEnd)
          else if !ValidAbi(cfg.abi, hdr.value.eiClass, hdr.value.eMachine, cfg.machTable, cfg.wordsizeTable) then Stopped(EpkgEnd)
          else if cfg.freebsdBuild && hdr.value.eiOsabi != ELFOSABI_FREEBSD && !IsOldFreebsdArmHeader(hdr.value) then Stopped(EpkgEnd)
          else if dynamic.value.data.None? then Stopped(EpkgEnd)
          else Proceed(hdr.value, dynamic.value.dyns, dynamic.value.shSize / dynamic.value.shEntsize)
  }

  /**
   * The result of analyse_elf.  It does not depend on the shared-library
   * cache: the result of classifying each needed library is dropped.
   */
  function AnalyseResult(file: FileInput, cfg: AnalysisConfig): PkgResult
  {
    match ElfGate(file, cfg)
    case Stopped(r) => r
    case Proceed(_, dyns, numdyn) => if SonamePass(dyns, numdyn).ok then EpkgOk else EpkgFatal
  }

  /** The names analyse_elf records as provided. */
  function ProvidedBy(file: FileInput, cfg: AnalysisConfig): seq<string>
  {
    match ElfGate(file, cfg)
    case Stopped(_) => []
    case Proceed(_, dyns, numdyn) => SonamePass(dyns, numdyn).provided
  }

  /** The names analyse_elf records as required. */
  function RequiredBy(file: FileInput, cfg: AnalysisConfig, resolve: Resolver, files: seq<string>): seq<string>
  {
    match ElfGate(file, cfg)
    case Stopped(_) => []
    case Proceed(_, dyns, numdyn) =>
      var first := SonamePass(dyns, numdyn);
      if !first.ok then []
      else NeededPass(dyns, numdyn, resolve, first.rpath, cfg.allowBaseShlibs, first.isShlib, files).required
  }

  /** The flags analyse_elf sets: ELF objects, in developer mode, for any ELF file. */
  function ElfFlags(file: FileInput, cfg: AnalysisConfig): set<PkgFlag>
  {
    if cfg.developerMode && file.ElfFile? then {ContainsElfObjects} else {}
  }

  /**
   * The result codes of analyse_elf: a file that is not a regular ELF object
   * of a known type, has no dynamic section, or fails the ABI or OS test is
   * passed over (END); an unreadable header only warns; an unreadable section
   * header or dynamic entry is fatal; otherwise the result is OK.
   */
  lemma AnalyseResultCases(file: FileInput, cfg: AnalysisConfig)
    ensures file.NotRegular? || file.NotElf? ==> AnalyseResult(file, cfg) == EpkgEnd
    ensures file.OpenFailed? || file.LibelfFailed? ==> AnalyseResult(file, cfg) == EpkgFatal
    ensures AnalyseResult(file, cfg) == EpkgWarn <==> file.ElfFile? && file.hdr.None?
    ensures file.ElfFile? && file.hdr.Some? && file.hdr.value.eType !in {ET_DYN, ET_EXEC, ET_REL} ==> AnalyseResult(file, cfg) == EpkgEnd
    ensures (file.ElfFile? && file.hdr.Some? && file.hdr.value.eType in {ET_DYN, ET_EXEC, ET_REL} && file.sections != [] && file.sections[0].BadHeader?)
              ==> AnalyseResult(file, cfg) == EpkgFatal
    ensures (file.ElfFile? && file.hdr.Some? && file.hdr.value.eType in {ET_DYN, ET_EXEC, ET_REL}
             && !ValidAbi(cfg.abi, file.hdr.value.eiClass, file.hdr.value.eMachine, cfg.machTable, cfg.wordsizeTable))
              ==> AnalyseResult(file, cfg) != EpkgOk
    ensures ElfGate(file, cfg).Proceed? ==> (AnalyseResult(file, cfg) == EpkgOk <==>
              forall j :: 0 <= j < ElfGate(file, cfg).numdyn ==> GetDyn(ElfGate(file, cfg).dyns, j).Dyn?)
  {
    if ElfGate(file, cfg).Proceed? {
      SonamePassOk(ElfGate(file, cfg).dyns, ElfGate(file, cfg).numdyn);
    }
  }

  /**
   * The first pass of analyse_elf over the dynamic entries: record each
   * non-empty DT_SONAME string as provided, and take the first run-path.
   */
  method ScanSonames(pkg: Pkg, dyns: seq<DynSlot>, numdyn: nat) returns (ok: bool, isShlib: bool, rpath: Option<string>)
    modifies pkg
    ensures ok == SonamePass(dyns, numdyn).ok
    ensures ok ==> isShlib == SonamePass(dyns, numdyn).isShlib && rpath == SonamePass(dyns, numdyn).rpath
    ensures pkg.provided == old(pkg.provided) + SonamePass(dyns, numdyn).provided
    ensures pkg.required == old(pkg.required) && pkg.flags == old(pkg.flags)
  {
    isShlib, rpath := false, None;
    var dynidx := 0;
    while dynidx < numdyn
      invariant dynidx <= numdyn
      invariant |old(pkg.provided)| <= |pkg.provided| && pkg.provided[..|old(pkg.provided)|] == old(pkg.provided)
      invariant SonamePass(dyns, dynidx) == SonameState(true, isShlib, rpath, pkg.provided[|old(pkg.provided)|..])
      invariant pkg.required == old(pkg.required) && pkg.flags == old(pkg.flags)
    {
      var dyn := GetDyn(dyns, dynidx);
      if dyn.Unreadable? {
        SonamePassStaysFailed(dyns, dynidx + 1, numdyn);
        assert pkg.provided == old(pkg.provided) + pkg.provided[|old(pkg.provided)|..];
        return false, isShlib, rpath;
      }
      if dyn.tag == DT_SONAME {
        isShlib := true;
        // The file is a shared library provided by the package.
        if dyn.str.Some? && dyn.str.value != "" {
          pkg.provided := pkg.provided + [dyn.str.value];
        }
      }
      if (dyn.tag == DT_RPATH || dyn.tag == DT_RUNPATH) && rpath.None? {
        rpath := dyn.str;
      }
      dynidx := dynidx + 1;
    }
    assert pkg.provided == old(pkg.provided) + pkg.provided[|old(pkg.provided)|..];
    ok := true;
  }

  /** Once an entry could not be read, the first pass stays failed and records nothing more. */
  lemma {:induction false} SonamePassStaysFailed(dyns: seq<DynSlot>, k: nat, n: nat)
    requires k <= n && !SonamePass(dyns, k).ok
    ensures SonamePass(dyns, n) == SonamePass(dyns, k)
    decreases n - k
  {
    if k < n {
      SonamePassStaysFailed(dyns, k, n - 1);
    }
  }

  /**
   * The second pass of analyse_elf: classify each DT_NEEDED library, ignoring
   * what the classification returns.
   */
  method ScanNeeded(pkg: Pkg, dyns: seq<DynSlot>, numdyn: nat, resolve: Resolver, rpath: Option<string>, allowBaseShlibs: bool, isShlib: bool)
    returns (ok: bool)
    modifies pkg
    ensures ok == NeededPass(dyns, numdyn, resolve, rpath, allowBaseShlibs, isShlib, pkg.files).ok
    ensures pkg.required == old(pkg.required) + NeededPass(dyns, numdyn, resolve, rpath, allowBaseShlibs, isShlib, pkg.files).required
    ensures pkg.provided == old(pkg.provided) && pkg.flags == old(pkg.flags)
  {
    var dynidx := 0;
    while dynidx < numdyn
      invariant dynidx <= numdyn
      invariant |old(pkg.required)| <= |pkg.required| && pkg.required[..|old(pkg.required)|] == old(pkg.required)
      invariant NeededPass(dyns, dynidx, resolve, rpath, allowBaseShlibs, isShlib, pkg.files) == NeededState(true, pkg.required[|old(pkg.required)|..])
      invariant pkg.provided == old(pkg.provided) && pkg.flags == old(pkg.flags)
    {
      var dyn := GetDyn(dyns, dynidx);
      if dyn.Unreadable? {
        NeededPassStaysFailed(dyns, dynidx + 1, numdyn, resolve, rpath, allowBaseShlibs, isShlib, pkg.files);
        assert pkg.required == old(pkg.required) + pkg.required[|old(pkg.required)|..];
        return false;
      }
      if dyn.tag == DT_NEEDED && dyn.str.Some? {
        ghost var before := pkg.required;
        var _ := AddShlibsToPkg(pkg, dyn.str.value, resolve(rpath, dyn.str.value), allowBaseShlibs, isShlib);
        assert pkg.required[|old(pkg.required)|..] == before[|old(pkg.required)|..] + pkg.required[|before|..];
      }
      dynidx := dynidx + 1;
    }
    assert pkg.required == old(pkg.required) + pkg.required[|old(pkg.required)|..];
    ok := true;
  }

  /** Once an entry could not be read, the second pass stays failed and records nothing more. */
  lemma {:induction false} NeededPassStaysFailed(dyns: seq<DynSlot>, k: nat, n: nat, resolve: Resolver, rpath: Option<string>, allowBaseShlibs: bool, isShlib: bool, files: seq<string>)
    requires k <= n && !NeededPass(dyns, k, resolve, rpath, allowBaseShlibs, isShlib, files).ok
    ensures NeededPass(dyns, n, resolve, rpath, allowBaseShlibs, isShlib, files) == NeededPass(dyns, k, resolve, rpath, allowBaseShlibs, isShlib, files)
    decreases n - k
  {
    if k < n {
      NeededPassStaysFailed(dyns, k, n - 1, resolve, rpath, allowBaseShlibs, isShlib, files);
    }
  }

  /**
   * analyse_elf: the result code, and what the package gains: the provided
   * and required library names and, in developer mode, the ELF-objects flag.
   */
  method AnalyseElf(pkg: Pkg, file: FileInput, cfg: AnalysisConfig, resolve: Resolver) returns (r: PkgResult)
    modifies pkg
    ensures r == AnalyseResult(file, cfg)
    ensures pkg.provided == old(pkg.provided) + ProvidedBy(file, cfg)
    ensures pkg.required == old(pkg.required) + RequiredBy(file, cfg, resolve, pkg.files)
    ensures pkg.flags == old(pkg.flags) + ElfFlags(file, cfg)
  {
    match file {
      case NotRegular =>
        // Empty file or not a regular file: no results
        return EpkgEnd;
      case OpenFailed =>
        return EpkgFatal;
      case LibelfFailed =>
        return EpkgFatal;
      case NotElf =>
        return EpkgEnd;
      case ElfFile(hdr, sections) =>
        if cfg.developerMode {
          pkg.flags := pkg.flags + {ContainsElfObjects};
        }
        if hdr.None? {
          return EpkgWarn;
        }
        var h := hdr.value;
        if h.eType != ET_DYN && h.eType != ET_EXEC && h.eType != ET_REL {
          return EpkgEnd;
        }
        var scan := FindDynamicSection(sections);
        if scan.ScanFatal? {
          return EpkgFatal;
        }
        if scan.ScanEnd? || scan.dynamic.None? {
          // No dynamic section: not a dynamically linked ELF file
          return EpkgEnd;
        }
        var dynamic := scan.dynamic.value;
        var valid := ShlibValidAbi(cfg.abi, h, cfg.machTable, cfg.wordsizeTable);
        if !valid {
          return EpkgEnd;
        }
        if cfg.freebsdBuild && h.eiOsabi != ELFOSABI_FREEBSD && !IsOldFreebsdArmHeader(h) {
          return EpkgEnd;
        }
        if dynamic.data.None? {
          // Some error occurred, ignore this file
          return EpkgEnd;
        }
        var numdyn := dynamic.shSize / dynamic.shEntsize;
        assert ElfGate(file, cfg) == Proceed(h, dynamic.dyns, numdyn);
        r := AnalyseDynamic(pkg, dynamic.dyns, numdyn, cfg.allowBaseShlibs, resolve);
    }
  }

  /**
   * The two passes of analyse_elf over the dynamic entries: the sonames and
   * the run-path first, then the needed libraries.
   */
  method AnalyseDynamic(pkg: Pkg, dyns: seq<DynSlot>, numdyn: nat, allowBaseShlibs: bool, resolve: Resolver)
    returns (r: PkgResult)
    modifies pkg
    ensures var first := SonamePass(dyns, numdyn);
            && r == (if first.ok then EpkgOk else EpkgFatal)
            && pkg.provided == old(pkg.provided) + first.provided
            && pkg.required == old(pkg.required)
                 + (if first.ok then NeededPass(dyns, numdyn, resolve, first.rpath, allowBaseShlibs, first.isShlib, pkg.files).required else [])
            && pkg.flags == old(pkg.flags)
  {
    var ok, isShlib, rpath := ScanSonames(pkg, dyns, numdyn);
    if !ok {
      return EpkgFatal;
    }
    NeededPassOk(dyns, numdyn, resolve, rpath, allowBaseShlibs, isShlib, pkg.files);
    var _ := ScanNeeded(pkg, dyns, numdyn, resolve, rpath, allowBaseShlibs, isShlib);
    return EpkgOk;
  }

  /**
   * The result pkg_analyse_elf reports: in developer mode a result other
   * than OK or END becomes a warning.
   */
  function DeveloperResult(r: PkgResult, developerMode: bool): PkgResult
  {
    if developerMode && r != EpkgOk && r != EpkgEnd then EpkgWarn else r
  }

  /**
   * Developer mode never lets the analysis fail, and keeps OK and END;
   * outside it the result is analyse_elf's own.
   */
  lemma DeveloperResultMeaning(r: PkgResult, developerMode: bool)
    ensures developerMode ==> DeveloperResult(r, developerMode) != EpkgFatal
    ensures developerMode ==> (DeveloperResult(r, developerMode) == r <==> r in {EpkgOk, EpkgEnd, EpkgWarn})
    ensures !developerMode ==> DeveloperResult(r, developerMode) == r
  {
  }

  /** The flags pkg_analyse_elf sets: the extension flags only in developer mode, after an OK or END analysis. */
  function AnalyseFlags(file: FileInput, cfg: AnalysisConfig, developerMode: bool, fpath: string): set<PkgFlag>
  {
    ElfFlags(file, cfg)
    + (if developerMode && AnalyseResult(file, cfg) in {EpkgOk, EpkgEnd} then ExtFlags(fpath) else {})
  }

  /**
   * pkg_analyse_elf: analyse the file, then in developer mode map failures to
   * a warning, and for a file analysed without failure set the flags of its
   * extension.
   */
  method PkgAnalyseElf(developerMode: bool, pkg: Pkg, file: FileInput, fpath: string, cfg: AnalysisConfig, resolve: Resolver)
    returns (r: PkgResult)
    modifies pkg
    ensures r == DeveloperResult(AnalyseResult(file, cfg), developerMode)
    ensures pkg.provided == old(pkg.provided) + ProvidedBy(file, cfg)
    ensures pkg.required == old(pkg.required) + RequiredBy(file, cfg, resolve, pkg.files)
    ensures pkg.flags == old(pkg.flags) + AnalyseFlags(file, cfg, developerMode, fpath)
  {
    var ret := AnalyseElf(pkg, file, cfg, resolve);
    if developerMode {
      if ret != EpkgOk && ret != EpkgEnd {
        return EpkgWarn;
      }
      var _ := AnalyseFpath(pkg, fpath);
    }
    return ret;
  }
}
