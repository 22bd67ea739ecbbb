/**
 * The package record that the ELF analysis fills in, and the classification
 * of the shared libraries a binary needs: filter_system_shlibs,
 * add_shlibs_to_pkg and analyse_fpath.
 *
 * The shared-library cache is not part of this model: its answer for a name
 * (the resolved path, or None when the dynamic linker could not resolve it)
 * is an input.
 */
module Shlibs {
  import opened Wrappers
  import opened ElfTypes

  /** The package flags the analysis may set. */
  datatype PkgFlag = ContainsElfObjects | ContainsStaticLibs | ContainsLa

  /**
   * The parts of a package record the analysis touches: the file manifest it
   * reads, the names passed to pkg_addshlib_required and
   * pkg_addshlib_provided (in call order), and the flags.
   */
  class Pkg {
    const files: seq<string>
    var required: seq<string>
    var provided: seq<string>
    var flags: set<PkgFlag>

    constructor (files: seq<string>)
      ensures this.files == files && required == [] && provided == [] && flags == {}
    {
      this.files := files;
      required, provided, flags := [], [], {};
    }
  }

  /** strstr(s, sub) != NULL: sub occurs in s. */
  function Contains(s: string, sub: string): bool
  {
    if |s| < |sub| then false
    else s[..|sub|] == sub || Contains(s[1..], sub)
  }

  /** sub is spelt by s from index i on. */
  predicate OccursAt(s: string, sub: string, i: nat)
  {
    i + |sub| <= |s| && s[i..i + |sub|] == sub
  }

  /** Contains finds sub exactly when some window of s spells it. */
  lemma {:induction false} ContainsAt(s: string, sub: string)
    ensures Contains(s, sub) <==> exists i: nat :: OccursAt(s, sub, i)
  {
    if |s| >= |sub| {
      if s[..|sub|] == sub {
        assert OccursAt(s, sub, 0);
      } else {
        ContainsAt(s[1..], sub);
        if Contains(s[1..], sub) {
          var i: nat :| OccursAt(s[1..], sub, i);
          assert s[i + 1..i + 1 + |sub|] == s[1..][i..i + |sub|];
          assert OccursAt(s, sub, i + 1);
        }
        if exists i: nat :: OccursAt(s, sub, i) {
          var i: nat :| OccursAt(s, sub, i);
          assert i > 0;
          assert s[1..][i - 1..i - 1 + |sub|] == s[i..i + |sub|];
          assert OccursAt(s[1..], sub, i - 1);
        }
      }
    }
  }

  /** The last |suffix| characters of s are suffix. */
  predicate EndsWith(s: string, suffix: string)
  {
    |s| >= |suffix| && s[|s| - |suffix|..] == suffix
  }

  /**
   * filter_system_shlibs, given the cache's answer for the library: FATAL when
   * it is unresolved; END (a library of the base system) for a path containing
   * "/lib32/" when base libraries are allowed, or for a path starting with
   * "/lib" or "/usr/lib" when they are not; OK otherwise.
   */
  function FilterSystemShlibs(resolved: Option<string>, allowBaseShlibs: bool): (r: PkgResult)
    ensures r != EpkgWarn
    ensures r == EpkgFatal <==> resolved.None?
    ensures resolved.Some? && allowBaseShlibs ==> (r == EpkgEnd <==> Contains(resolved.value, "/lib32/"))
    ensures resolved.Some? && !allowBaseShlibs ==> (r == EpkgEnd <==> "/lib" <= resolved.value || "/usr/lib" <= resolved.value)
  {
    match resolved
    case None => EpkgFatal
    case Some(path) =>
      if allowBaseShlibs then
        if Contains(path, "/lib32/") then EpkgEnd else EpkgOk
      else
        // match /lib, /lib32, /usr/lib and /usr/lib32
        if "/lib" <= path || "/usr/lib" <= path then EpkgEnd else EpkgOk
  }

  /** A library under /usr/lib32/ belongs to the base system whatever ALLOW_BASE_SHLIBS says. */
  lemma Lib32IsSystem(path: string, allowBaseShlibs: bool)
    requires "/usr/lib32/" <= path
    ensures FilterSystemShlibs(Some(path), allowBaseShlibs) == EpkgEnd
  {
    assert path[4..11] == "/lib32/";
    assert OccursAt(path, "/lib32/", 4);
    ContainsAt(path, "/lib32/");
    assert "/usr/lib" <= path;
  }

  /**
   * Without ALLOW_BASE_SHLIBS the prefix test is on "/lib" as text, so any
   * path whose first component merely starts with "lib" counts as a base
   * library too; a library under /usr/local/lib is never one.
   */
  lemma SystemPrefixExamples(p1: string, p2: string)
    requires p1 == "/libexec/libfoo.so.1"
    requires p2 == "/usr/local/lib/libfoo.so.1"
    ensures FilterSystemShlibs(Some(p1), false) == EpkgEnd
    ensures FilterSystemShlibs(Some(p2), false) == EpkgOk
    ensures FilterSystemShlibs(Some(p2), true) == EpkgOk
  {
    assert "/lib" <= p1;
    assert !("/lib" <= p2) && !("/usr/lib" <= p2) by {
      assert p2[1] != "/lib"[1];
      assert p2[6] != "/usr/lib"[6];
    }
    assert "/lib32/"[4] == '3';
    NotContains(p2, "/lib32/", '3');
  }

  /** A string without some character of sub does not contain sub. */
  lemma {:induction false} NotContains(s: string, sub: string, c: char)
    requires c in sub && c !in s
    ensures !Contains(s, sub)
  {
    if |s| >= |sub| {
      assert c !in s[..|sub|];
      NotContains(s[1..], sub, c);
    }
  }

  /** Some manifest path ends with the library's name. */
  predicate InManifest(files: seq<string>, name: string)
  {
    exists i :: 0 <= i < |files| && EndsWith(files[i], name)
  }

  /** Whether add_shlibs_to_pkg records the library as required. */
  predicate RequiresShlib(resolved: Option<string>, allowBaseShlibs: bool, isShlib: bool, files: seq<string>, name: string)
  {
    var f := FilterSystemShlibs(resolved, allowBaseShlibs);
    f == EpkgOk || (f == EpkgFatal && !isShlib && InManifest(files, name))
  }

  /** What add_shlibs_to_pkg returns. */
  function AddResult(resolved: Option<string>, allowBaseShlibs: bool, isShlib: bool, files: seq<string>, name: string): PkgResult
  {
    if FilterSystemShlibs(resolved, allowBaseShlibs) == EpkgFatal && !isShlib && !InManifest(files, name)
    then EpkgFatal else EpkgOk
  }

  /**
   * The library is recorded exactly when it resolves outside the base system,
   * or when it is unresolved, the file is not itself a shared library and the
   * package ships a file with its name; FATAL is returned exactly for an
   * unresolved library of a non-library file that the manifest does not ship,
   * and then nothing is recorded.
   */
  lemma AddShlibOutcome(resolved: Option<string>, allowBaseShlibs: bool, isShlib: bool, files: seq<string>, name: string)
    ensures AddResult(resolved, allowBaseShlibs, isShlib, files, name) in {EpkgOk, EpkgFatal}
    ensures AddResult(resolved, allowBaseShlibs, isShlib, files, name) == EpkgFatal <==>
              resolved.None? && !isShlib && !InManifest(files, name)
    ensures AddResult(resolved, allowBaseShlibs, isShlib, files, name) == EpkgFatal ==>
              !RequiresShlib(resolved, allowBaseShlibs, isShlib, files, name)
    ensures RequiresShlib(resolved, allowBaseShlibs, isShlib, files, name) <==>
              if resolved.Some? then FilterSystemShlibs(resolved, allowBaseShlibs) == EpkgOk
              else !isShlib && InManifest(files, name)
  {
  }

  /**
   * add_shlibs_to_pkg: classify the library, and for an unresolved one of a
   * non-library file, look for a manifest path ending with its name.
   */
  method AddShlibsToPkg(pkg: Pkg, name: string, resolved: Option<string>, allowBaseShlibs: bool, isShlib: bool)
    returns (r: PkgResult)
    modifies pkg
    ensures r == AddResult(resolved, allowBaseShlibs, isShlib, pkg.files, name)
    ensures pkg.required == old(pkg.required) + (if RequiresShlib(resolved, allowBaseShlibs, isShlib, pkg.files, name) then [name] else [])
    ensures pkg.provided == old(pkg.provided) && pkg.flags == old(pkg.flags)
  {
    var f := FilterSystemShlibs(resolved, allowBaseShlibs);
    if f == EpkgOk {
      // A non-system library
      pkg.required := pkg.required + [name];
      return EpkgOk;
    }
    if f == EpkgEnd {
      // A system library
      return EpkgOk;
    }
    // Link resolution errors are ignored when analysing a shared library.
    if isShlib {
      return EpkgOk;
    }
    var i := 0;
    while i < |pkg.files|
      invariant 0 <= i <= |pkg.files|
      invariant forall j :: 0 <= j < i ==> !EndsWith(pkg.files[j], name)
    {
      if EndsWith(pkg.files[i], name) {
        pkg.required := pkg.required + [name];
        return EpkgOk;
      }
      i := i + 1;
    }
    return EpkgFatal;
  }

  /** strrchr(s, '.'): the index of the last '.', if any. */
  function LastDot(s: string): (d: Option<nat>)
    ensures d.Some? ==> d.value < |s| && s[d.value] == '.' && forall i :: d.value < i < |s| ==> s[i] != '.'
    ensures d.None? ==> forall i :: 0 <= i < |s| ==> s[i] != '.'
  {
    if s == [] then None
    else if s[|s| - 1] == '.' then Some(|s| - 1)
    else LastDot(s[..|s| - 1])
  }

  /** The flags analyse_fpath sets from the text after the last '.'. */
  function ExtFlags(fpath: string): set<PkgFlag>
  {
    match LastDot(fpath)
    case None => {}
    case Some(d) =>
      (if fpath[d + 1..] == "a" then {ContainsStaticLibs} else {})
      + (if fpath[d + 1..] == "la" then {ContainsLa} else {})
  }

  /** A static archive is a path ending in ".a", a libtool archive one ending in ".la". */
  lemma ExtFlagsMeaning(fpath: string)
    ensures ContainsStaticLibs in ExtFlags(fpath) <==> EndsWith(fpath, ".a")
    ensures ContainsLa in ExtFlags(fpath) <==> EndsWith(fpath, ".la")
    ensures ContainsElfObjects !in ExtFlags(fpath)
  {
    var n := |fpath|;
    if EndsWith(fpath, ".a") {
      assert fpath[n - 2] == '.' && fpath[n - 1] == 'a';
      assert LastDot(fpath) == Some(n - 2);
    }
    if EndsWith(fpath, ".la") {
      assert fpath[n - 3] == '.' && fpath[n - 2] == 'l' && fpath[n - 1] == 'a';
      assert LastDot(fpath) == Some(n - 3);
    }
    match LastDot(fpath)
    case None =>
    case Some(d) =>
      if fpath[d + 1..] == "a" {
        assert d == n - 2 && fpath[n - 2..] == ".a";
      }
      if fpath[d + 1..] == "la" {
        assert d == n - 3 && fpath[n - 3..] == ".la";
      }
  }

  /** analyse_fpath: set the archive flags from the path's extension. */
  method AnalyseFpath(pkg: Pkg, fpath: string) returns (r: PkgResult)
    modifies pkg
    ensures r == EpkgOk
    ensures pkg.flags == old(pkg.flags) + ExtFlags(fpath)
    ensures pkg.required == old(pkg.required) && pkg.provided == old(pkg.provided)
  {
    var dot := LastDot(fpath);
    if dot.None? {
      // No extension
      return EpkgOk;
    }
    var ext := fpath[dot.value + 1..];
    if ext == "a" {
      pkg.flags := pkg.flags + {ContainsStaticLibs};
    }
    if ext == "la" {
      pkg.flags := pkg.flags + {ContainsLa};
    }
    return EpkgOk;
  }
}
