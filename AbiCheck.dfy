/**
 * The ABI compatibility check of a shared library (shlib_valid_abi) and the
 * two table lookups it uses (elf_corres_to_string, elf_string_to_corres).
 *
 * The configured ABI string has the form
 * <osname>:<osversion>:<arch>:<wordsize>[:other]; the check needs only its
 * arch and wordsize fields.
 */
module AbiCheck {
  import opened Wrappers
  import opened ElfTypes

  /** One entry of a correspondence table: an ELF number and its name. */
  datatype Corres = Corres(elfNb: int, name: string)

  /** elf_corres_to_string: the name of the first entry with number e, or "unknown". */
  function CorresToString(m: seq<Corres>, e: int): (r: string)
    ensures (forall i :: 0 <= i < |m| ==> m[i].elfNb != e) ==> r == "unknown"
    ensures forall i :: 0 <= i < |m| && m[i].elfNb == e && (forall j :: 0 <= j < i ==> m[j].elfNb != e) ==> r == m[i].name
  {
    if m == [] then "unknown"
    else if m[0].elfNb == e then m[0].name
    else CorresToString(m[1..], e)
  }

  /** elf_string_to_corres: the number of the first entry named s, or -1. */
  function StringToCorres(m: seq<Corres>, s: string): (r: int)
    ensures (forall i :: 0 <= i < |m| ==> m[i].name != s) ==> r == -1
    ensures forall i :: 0 <= i < |m| && m[i].name == s && (forall j :: 0 <= j < i ==> m[j].name != s) ==> r == m[i].elfNb
  {
    if m == [] then -1
    else if m[0].name == s then m[0].elfNb
    else StringToCorres(m[1..], s)
  }

  /** strchr from index `from`: the first ':' at or after it. */
  function NextColon(s: string, from: nat): (p: Option<nat>)
    ensures p.Some? ==> from <= p.value < |s| && s[p.value] == ':'
    decreases |s| - from
  {
    if from >= |s| then None
    else if s[from] == ':' then Some(from)
    else NextColon(s, from + 1)
  }

  /** No ':' lies between `from` and the one strchr finds, and none at all when it finds nothing. */
  lemma {:induction false} NextColonFirst(s: string, from: nat)
    ensures NextColon(s, from).Some? ==> forall i :: from <= i < NextColon(s, from).value ==> s[i] != ':'
    ensures NextColon(s, from).None? ==> forall i :: from <= i < |s| ==> s[i] != ':'
    decreases |s| - from
  {
    if from < |s| && s[from] != ':' {
      NextColonFirst(s, from + 1);
    }
  }

  /** Conversely, a ':' with none before it from `from` on is the one strchr finds. */
  lemma {:induction false} NextColonAt(s: string, from: nat, at: nat)
    requires from <= at < |s| && s[at] == ':'
    requires forall i :: from <= i < at ==> s[i] != ':'
    ensures NextColon(s, from) == Some(at)
    decreases at - from
  {
    if from < at {
      NextColonAt(s, from + 1, at);
    }
  }

  lemma {:induction false} NextColonNone(s: string, from: nat)
    requires forall i :: from <= i < |s| ==> s[i] != ':'
    ensures NextColon(s, from) == None
    decreases |s| - from
  {
    if from < |s| {
      NextColonNone(s, from + 1);
    }
  }

  /**
   * The position of the k-th ':' of s (counting from 0), as repeated strchr
   * calls, each starting after the previous hit, find it.
   */
  function ColonAt(s: string, k: nat): (p: Option<nat>)
    ensures p.Some? ==> p.value < |s| && s[p.value] == ':'
  {
    if k == 0 then NextColon(s, 0)
    else match ColonAt(s, k - 1)
      case None => None
      case Some(i) => NextColon(s, i + 1)
  }

  /** Each ':' found comes after the one before it. */
  lemma ColonAtIncreasing(s: string, k: nat)
    requires k > 0 && ColonAt(s, k).Some?
    ensures ColonAt(s, k - 1).Some? && ColonAt(s, k - 1).value < ColonAt(s, k).value
  {
  }

  /** Where strchr looks for the k-th ':': the start, or just after the one before. */
  function Cursor(s: string, k: nat): Option<nat>
  {
    if k == 0 then Some(0)
    else match ColonAt(s, k - 1)
      case None => None
      case Some(i) => Some(i + 1)
  }

  /** The number of ':' in t. */
  function Colons(t: string): nat
  {
    if t == [] then 0
    else Colons(t[..|t| - 1]) + (if t[|t| - 1] == ':' then 1 else 0)
  }

  lemma ColonsStep(s: string, i: nat)
    requires i < |s|
    ensures Colons(s[..i + 1]) == Colons(s[..i]) + (if s[i] == ':' then 1 else 0)
  {
    assert s[..i + 1][..i] == s[..i];
  }

  /** A stretch without ':' adds nothing to the count. */
  lemma {:induction false} ColonsAcross(s: string, i: nat, j: nat)
    requires i <= j <= |s|
    requires forall k :: i <= k < j ==> s[k] != ':'
    ensures Colons(s[..j]) == Colons(s[..i])
    decreases j
  {
    if i < j {
      ColonsAcross(s, i, j - 1);
      ColonsStep(s, j - 1);
    }
  }

  /** A prefix has no more ':' than the whole. */
  lemma {:induction false} ColonsPrefix(s: string, j: nat)
    requires j <= |s|
    ensures Colons(s[..j]) <= Colons(s)
    decreases |s| - j
  {
    if j < |s| {
      ColonsPrefix(s, j + 1);
      ColonsStep(s, j);
    } else {
      assert s[..j] == s;
    }
  }

  /**
   * ColonAt(s, k) is the ':' with exactly k others before it, and it exists
   * exactly when s holds more than k of them.
   */
  lemma {:induction false} ColonAtCounts(s: string, k: nat)
    ensures ColonAt(s, k).Some? ==> Colons(s[..ColonAt(s, k).value]) == k
    ensures ColonAt(s, k).Some? <==> Colons(s) > k
  {
    if k == 0 {
      assert s[..0] == [];
      ColonsFrom(s, 0, 0);
    } else {
      ColonAtCounts(s, k - 1);
      if ColonAt(s, k - 1).None? {
        assert ColonAt(s, k).None?;
      } else {
        var i := ColonAt(s, k - 1).value;
        ColonsStep(s, i);
        ColonsFrom(s, k, i + 1);
      }
    }
  }

  /**
   * With k ':' before `from`, strchr from there finds a ':' with k before it,
   * and finds one exactly when s holds more than k.
   */
  lemma ColonsFrom(s: string, k: nat, from: nat)
    requires from <= |s| && Colons(s[..from]) == k
    ensures NextColon(s, from).Some? ==> Colons(s[..NextColon(s, from).value]) == k
    ensures NextColon(s, from).Some? <==> Colons(s) > k
  {
    NextColonFirst(s, from);
    var p := NextColon(s, from);
    if p.Some? {
      ColonsAcross(s, from, p.value);
      ColonsStep(s, p.value);
      ColonsPrefix(s, p.value + 1);
    } else {
      ColonsAcross(s, from, |s|);
      assert s[..|s|] == s;
    }
  }

  /** strlcpy into a 64-byte buffer keeps at most 63 characters. */
  function Truncate63(x: string): (r: string)
    ensures |r| <= 63 && |r| <= |x| && forall i :: 0 <= i < |r| ==> r[i] == x[i]
    ensures |r| == if |x| <= 63 then |x| else 63
    ensures |x| <= 63 ==> r == x
  {
    if |x| <= 63 then x else x[..63]
  }

  /** The text of s from lo up to hi, copied with strlcpy into a 64-byte buffer. */
  function Field(s: string, lo: nat, hi: nat): (r: string)
    requires lo <= hi <= |s|
    ensures |r| <= 63
  {
    Truncate63(s[lo..hi])
  }

  /** Where the wordsize field ends: at the 4th ':' or at the end of the string. */
  function WordEnd(s: string): (e: nat)
    requires ColonAt(s, 2).Some?
    ensures ColonAt(s, 2).value < e <= |s|
  {
    match ColonAt(s, 3)
    case Some(e) => ColonAtIncreasing(s, 3); e
    case None => |s|
  }

  /**
   * The arch and wordsize fields of an ABI string: the text between the 2nd
   * and 3rd ':', and the text after the 3rd ':' up to the next ':' or the end,
   * each cut to 63 characters.  None when there is no 3rd ':'.
   */
  function AbiFields(s: string): (r: Option<(string, string)>)
    ensures r.Some? ==> |r.value.0| <= 63 && |r.value.1| <= 63
  {
    match ColonAt(s, 2)
    case None => None
    case Some(c2) =>
      ColonAtIncreasing(s, 2);
      var c1 := ColonAt(s, 1).value;
      Some((Field(s, c1 + 1, c2), Field(s, c2 + 1, WordEnd(s))))
  }

  /**
   * AbiFields finds the fields exactly when there are at least three ':', and
   * the arch field lies between the ':' with one other before it and the ':'
   * with two others before it.
   */
  lemma AbiFieldsPositions(s: string) returns (i: nat, j: nat)
    requires Colons(s) >= 3
    ensures AbiFields(s).Some?
    ensures i < j < |s| && s[i] == ':' && s[j] == ':'
    ensures Colons(s[..i]) == 1 && Colons(s[..j]) == 2
    ensures AbiFields(s).value.0 == Field(s, i + 1, j)
  {
    ColonAtCounts(s, 1);
    ColonAtCounts(s, 2);
    i, j := ColonAt(s, 1).value, ColonAt(s, 2).value;
    ColonAtIncreasing(s, 2);
  }

  /**
   * The verdict of shlib_valid_abi for a header of class eiClass and machine
   * eMachine: true (compatible, or nothing to check against) or false.
   */
  function ValidAbi(abi: Option<string>, eiClass: nat, eMachine: nat, machTable: seq<Corres>, wordsizeTable: seq<Corres>): bool
  {
    match abi
    case None => true
    case Some(s) =>
      var fields := AbiFields(s);
      if fields.None? || fields.value.0 == "" || fields.value.1 == "" then true
      else
        var wclass := StringToCorres(wordsizeTable, fields.value.1);
        if wclass == -1 then true
        else if eiClass != wclass then false
        else CorresToString(machTable, eMachine) == fields.value.0
  }

  /**
   * The strchr walk of shlib_valid_abi over the configured ABI string: the
   * arch and wordsize fields, or None when the string has no 3rd ':' (the
   * caller then accepts the library).
   */
  method AbiArchWordsize(s: string) returns (fields: Option<(string, string)>)
    ensures fields == AbiFields(s)
  {
    var arch := "";
    var wordsize := "";
    var semicolon := 0;
    var pos := 0;
    while semicolon < 3
      invariant 0 <= semicolon <= 3
      invariant Cursor(s, semicolon) == Some(pos)
      invariant semicolon >= 2 ==> ColonAt(s, 2).Some?
      invariant arch == (if semicolon >= 2 then Field(s, ColonAt(s, 1).value + 1, ColonAt(s, 2).value) else "")
      invariant wordsize == (if semicolon == 3 then Field(s, ColonAt(s, 2).value + 1, WordEnd(s)) else "")
    {
      var p := NextColon(s, pos);
      assert p == ColonAt(s, semicolon);
      if p.None? {
        // Too few ':' in the string
        return None;
      }
      if semicolon == 1 {
        // We have arch here
        var t := NextColon(s, p.value + 1);
        assert t == ColonAt(s, 2);
        if t.None? {
          // The ABI line is likely invalid
          return None;
        }
        ColonAtIncreasing(s, 2);
        arch := Field(s, p.value + 1, t.value);
      } else if semicolon == 2 {
        var t := NextColon(s, p.value + 1);
        assert t == ColonAt(s, 3);
        if t.None? {
          wordsize := Field(s, p.value + 1, |s|);
        } else {
          ColonAtIncreasing(s, 3);
          wordsize := Field(s, p.value + 1, t.value);
        }
      }
      pos := p.value + 1;
      semicolon := semicolon + 1;
    }
    ArchFieldAt(s, ColonAt(s, 1).value, ColonAt(s, 2).value);
    WordFieldAt(s, ColonAt(s, 2).value);
    return Some((arch, wordsize));
  }

  /**
   * shlib_valid_abi: extract arch and wordsize from the configured ABI string,
   * then compare the class first and the machine's name second.
   */
  method ShlibValidAbi(abi: Option<string>, hdr: ElfHeader, machTable: seq<Corres>, wordsizeTable: seq<Corres>)
    returns (ok: bool)
    ensures ok == ValidAbi(abi, hdr.eiClass, hdr.eMachine, machTable, wordsizeTable)
  {
    var arch := "";
    var wordsize := "";
    if abi.Some? {
      var fields := AbiArchWordsize(abi.value);
      if fields.None? {
        return true;
      }
      arch, wordsize := fields.value.0, fields.value.1;
    }
    // Invalid ABI line
    if arch == "" || wordsize == "" {
      return true;
    }
    var shlibArch := CorresToString(machTable, hdr.eMachine);
    var wclass := StringToCorres(wordsizeTable, wordsize);
    if wclass == -1 {
      return true;
    }
    // The class is compared first: the arch of amd64 and i386 is the same "x86".
    if hdr.eiClass != wclass {
      return false;
    }
    if shlibArch != arch {
      return false;
    }
    return true;
  }

  /** Without three ':' in the configured ABI, every library passes. */
  lemma AbiFailOpen(s: string, eiClass: nat, eMachine: nat, machTable: seq<Corres>, wordsizeTable: seq<Corres>)
    requires Colons(s) < 3
    ensures ValidAbi(Some(s), eiClass, eMachine, machTable, wordsizeTable)
  {
    ColonAtCounts(s, 2);
  }

  /**
   * The verdict is false exactly when the wordsize names a class other than
   * the header's, or names the header's class but the machine's name is not
   * the arch field.
   */
  lemma ValidAbiFalse(s: string, eiClass: nat, eMachine: nat, machTable: seq<Corres>, wordsizeTable: seq<Corres>)
    ensures !ValidAbi(Some(s), eiClass, eMachine, machTable, wordsizeTable) <==>
      && AbiFields(s).Some?
      && AbiFields(s).value.0 != "" && AbiFields(s).value.1 != ""
      && StringToCorres(wordsizeTable, AbiFields(s).value.1) != -1
      && (eiClass != StringToCorres(wordsizeTable, AbiFields(s).value.1)
          || CorresToString(machTable, eMachine) != AbiFields(s).value.0)
  {
  }

  /** A class mismatch rejects the library whatever its machine type. */
  lemma ClassCheckedFirst(s: string, eiClass: nat, m1: nat, m2: nat, machTable: seq<Corres>, wordsizeTable: seq<Corres>)
    requires AbiFields(s).Some? && AbiFields(s).value.0 != "" && AbiFields(s).value.1 != ""
    requires var w := StringToCorres(wordsizeTable, AbiFields(s).value.1); w != -1 && w != eiClass
    ensures !ValidAbi(Some(s), eiClass, m1, machTable, wordsizeTable)
    ensures ValidAbi(Some(s), eiClass, m1, machTable, wordsizeTable) == ValidAbi(Some(s), eiClass, m2, machTable, wordsizeTable)
  {
  }

  /** The fields of a well-formed ABI string are the texts between its colons. */
  lemma AbiFieldsOfJoin(os: string, ver: string, arch: string, wordsize: string)
    requires ':' !in os && ':' !in ver && ':' !in arch && ':' !in wordsize
    requires |arch| <= 63 && |wordsize| <= 63
    ensures AbiFields(os + ":" + ver + ":" + arch + ":" + wordsize) == Some((arch, wordsize))
  {
    var s := os + ":" + ver + ":" + arch + ":" + wordsize;
    var c1, c2, c3 := |os|, |os| + 1 + |ver|, |os| + 1 + |ver| + 1 + |arch|;
    JoinLayout(os, ver, arch, wordsize);
    FieldColonFree(s, 0, c1, os);
    FieldColonFree(s, c1 + 1, c2, ver);
    FieldColonFree(s, c2 + 1, c3, arch);
    FieldColonFree(s, c3 + 1, |s|, wordsize);
    JoinColons(s, c1, c2, c3);
    AbiFieldsAt(s, c2, c3);
    assert s[c3 + 1..|s|] == s[c3 + 1..];
  }

  /** With the 2nd and 3rd ':' at c2 and c3 and no 4th, the fields are the two tails. */
  lemma AbiFieldsAt(s: string, c2: nat, c3: nat)
    requires ColonAt(s, 1) == Some(c2) && ColonAt(s, 2) == Some(c3) && ColonAt(s, 3) == None
    ensures c2 < c3 < |s|
    ensures AbiFields(s).Some?
    ensures AbiFields(s).value.0 == Field(s, c2 + 1, c3)
    ensures AbiFields(s).value.1 == Field(s, c3 + 1, |s|)
  {
    ArchFieldAt(s, c2, c3);
    WordFieldAt(s, c3);
    assert WordEnd(s) == |s|;
  }

  /** Once the 2nd and 3rd ':' are found, the arch field is the text between them. */
  lemma ArchFieldAt(s: string, c1: nat, c2: nat)
    requires ColonAt(s, 1) == Some(c1) && ColonAt(s, 2) == Some(c2)
    ensures c1 < c2
    ensures AbiFields(s).Some? && AbiFields(s).value.0 == Field(s, c1 + 1, c2)
  {
    ColonAtIncreasing(s, 2);
  }

  /** Once the 3rd ':' is found, the wordsize field is the text from it up to the 4th or the end. */
  lemma WordFieldAt(s: string, c2: nat)
    requires ColonAt(s, 2) == Some(c2)
    ensures c2 < WordEnd(s) <= |s|
    ensures AbiFields(s).Some? && AbiFields(s).value.1 == Field(s, c2 + 1, WordEnd(s))
  {
  }

  /** A slice of s that spells a ':'-free field holds no ':'. */
  lemma FieldColonFree(s: string, lo: nat, hi: nat, field: string)
    requires lo <= hi <= |s| && s[lo..hi] == field && ':' !in field
    ensures forall i :: lo <= i < hi ==> s[i] != ':'
  {
    assert forall i :: lo <= i < hi ==> s[i] == field[i - lo];
  }

  lemma JoinLayout(os: string, ver: string, arch: string, wordsize: string)
    ensures var s := os + ":" + ver + ":" + arch + ":" + wordsize;
            var c1, c2, c3 := |os|, |os| + 1 + |ver|, |os| + 1 + |ver| + 1 + |arch|;
            && c3 < |s| && s[c1] == ':' && s[c2] == ':' && s[c3] == ':'
            && s[..c1] == os && s[c1 + 1..c2] == ver && s[c2 + 1..c3] == arch && s[c3 + 1..] == wordsize
  {
  }

  /** In a string whose only ':' are at c1, c2 and c3, strchr finds exactly those three. */
  lemma JoinColons(s: string, c1: nat, c2: nat, c3: nat)
    requires c1 < c2 < c3 < |s| && s[c1] == ':' && s[c2] == ':' && s[c3] == ':'
    requires forall i :: 0 <= i < |s| && i != c1 && i != c2 && i != c3 ==> s[i] != ':'
    ensures ColonAt(s, 0) == Some(c1) && ColonAt(s, 1) == Some(c2) && ColonAt(s, 2) == Some(c3) && ColonAt(s, 3) == None
  {
    NextColonAt(s, 0, c1);
    NextColonAt(s, c1 + 1, c2);
    NextColonAt(s, c2 + 1, c3);
    NextColonNone(s, c3 + 1);
    ColonAtNext(s, 0, c1);
    ColonAtNext(s, 1, c2);
    ColonAtNext(s, 2, c3);
  }

  /** The ':' after the k-th is what strchr finds just past it. */
  lemma ColonAtNext(s: string, k: nat, i: nat)
    requires ColonAt(s, k) == Some(i)
    ensures ColonAt(s, k + 1) == NextColon(s, i + 1)
  {
  }

  /**
   * With a table that names both 32- and 64-bit x86 machines "x86", the
   * class alone tells an amd64 ABI from an i386 one.
   */
  lemma X86ClassDecides(os: string, ver: string, eMachine: nat, eiClass: nat)
    requires ':' !in os && ':' !in ver
    requires eMachine == EM_386 || eMachine == EM_X86_64
    ensures var machTable := [Corres(EM_386, "x86"), Corres(EM_X86_64, "x86")];
            var wordsizeTable := [Corres(ELFCLASS32, "32"), Corres(ELFCLASS64, "64")];
            ValidAbi(Some(os + ":" + ver + ":" + "x86" + ":" + "64"), eiClass, eMachine, machTable, wordsizeTable) <==> eiClass == ELFCLASS64
  {
    var machTable := [Corres(EM_386, "x86"), Corres(EM_X86_64, "x86")];
    var wordsizeTable := [Corres(ELFCLASS32, "32"), Corres(ELFCLASS64, "64")];
    AbiFieldsOfJoin(os, ver, "x86", "64");
    assert "32" != "64";
    assert StringToCorres(wordsizeTable, "64") == ELFCLASS64;
    assert CorresToString(machTable, eMachine) == "x86";
  }
}
