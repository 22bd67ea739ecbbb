/**
 * The ARM build-attributes parser (aeabi_parse_arm_attributes).
 *
 * The contents of an `.ARM.attributes` section are a format-version byte 'A',
 * a 4-byte section length, a NUL-terminated vendor name, and subsections; the
 * parser accepts one `Tag_File` subsection (a tag byte 1 and a 4-byte length
 * that counts the tag and the length themselves) and reads its attribute
 * records: a tag byte followed by a NUL-terminated string or a ULEB128
 * integer (section 7.6 of DWARF 4). It reports the ARM architecture generation
 * from the first `Tag_CPU_arch` record (tag 6). The tag numbers are those of
 * section 2.3 of "Addenda to, and Errata in, the ABI for the ARM
 * Architecture", release 2.08.
 *
 * ArmAttributesArch is the specification, written over suffixes of the
 * buffer; ParseArmAttributes is the C code's cursor walk (`section` is
 * data[pos..], `length` is |data| - pos) proved to compute it.
 */
module ArmAttributes {
  import opened Wrappers
  import opened ElfTypes

  /** The three answers the parser can give besides NULL. */
  datatype ArmArch = Arm | ArmV6 | ArmV7 {
    function Label(): string
    {
      match this
      case Arm => "arm"
      case ArmV6 => "armv6"
      case ArmV7 => "armv7"
    }
  }

  const FORMAT_VERSION: byte := 0x41  // 'A'
  const TAG_FILE: byte := 1
  const TAG_CPU_ARCH: byte := 6

  /** Attribute tags whose value is a NUL-terminated string. */
  predicate IsStringTag(tag: byte)
  {
    tag == 4 || tag == 5 || tag == 32 || tag == 65 || tag == 67
  }

  /** Attribute tags whose value is a ULEB128 integer. */
  predicate IsUlebTag(tag: byte)
  {
    (7 <= tag <= 31) || tag == 34 || tag == 36 || tag == 38 || tag == 42 ||
    tag == 44 || tag == 64 || tag == 66 || tag == 68 || tag == 70
  }

  /** The generation a one-byte Tag_CPU_arch value names; multi-byte values are refused. */
  function CpuArchLabel(v: byte): (r: Option<ArmArch>)
    ensures r.None? <==> v >= 128
    ensures r == Some(Arm) <==> v <= 5
    ensures r == Some(ArmV6) <==> v == 6
    ensures r == Some(ArmV7) <==> 7 <= v < 128
  {
    if v >= 128 then None
    else if v <= 5 then Some(Arm)
    else if v == 6 then Some(ArmV6)
    else Some(ArmV7)
  }

  /** Whether a value byte is followed by more bytes of the same value. */
  predicate Continues(b: byte, isString: bool)
  {
    if isString then b != 0 else b >= 128
  }

  /**
   * Where a value that starts at `from` has its last byte: the first NUL of a
   * string, or the first byte without the ULEB128 continuation bit; `end` when
   * the value is not finished before `end`.
   */
  function ValueEnd(data: seq<byte>, from: nat, end: nat, isString: bool): (k: nat)
    requires from <= end <= |data|
    ensures from <= k <= end
    decreases end - from
  {
    if from == end || !Continues(data[from], isString) then from
    else ValueEnd(data, from + 1, end, isString)
  }

  /** ValueEnd is the first byte that does not continue the value. */
  lemma {:induction false} ValueEndIs(data: seq<byte>, from: nat, end: nat, isString: bool, k: nat)
    requires from <= k <= end <= |data|
    requires forall j :: from <= j < k ==> Continues(data[j], isString)
    requires k < end ==> !Continues(data[k], isString)
    ensures ValueEnd(data, from, end, isString) == k
    decreases k - from
  {
    if from < k {
      ValueEndIs(data, from + 1, end, isString, k);
    }
  }

  /**
   * The attribute records in data[pos..end), where `end` is the end of the
   * Tag_File subsection. The Tag_CPU_arch value byte is read even when it
   * lies past the subsection, but never past the buffer.
   */
  function ScanTags(data: seq<byte>, pos: nat, end: nat): Option<ArmArch>
    requires pos <= end <= |data|
    decreases end - pos
  {
    if pos == end then None
    else if data[pos] == TAG_CPU_ARCH then
      if pos + 1 < |data| then CpuArchLabel(data[pos + 1]) else None
    else if IsStringTag(data[pos]) || IsUlebTag(data[pos]) then
      var k := ValueEnd(data, pos + 1, end, IsStringTag(data[pos]));
      if k == end then None else ScanTags(data, k + 1, end)
    else None
  }

  /**
   * Where the subsection starts: just past the vendor name's NUL, once the
   * format version and the section length have been accepted.
   */
  function SubsectionStart(data: seq<byte>): (p: Option<nat>)
    ensures p.Some? ==> 6 <= p.value <= |data|
  {
    if |data| < 5 || data[0] != FORMAT_VERSION || Le32(data, 1) > |data| - 1 then None
    else
      var vend := ValueEnd(data, 5, |data|, true);
      if vend == |data| then None else Some(vend + 1)
  }

  /** The Tag_File subsection that starts at `p`; any other subsection tag gives NULL. */
  function FileSubsection(data: seq<byte>, p: nat): Option<ArmArch>
    requires p <= |data|
  {
    if p == |data| || data[p] != TAG_FILE || |data| - (p + 1) < 4 then None
    else
      var tagLength := Le32(data, p + 1);
      if tagLength <= 5 || tagLength - 1 > |data| - (p + 1) then None
      else ScanTags(data, p + 5, p + tagLength)
  }

  /** What aeabi_parse_arm_attributes returns for the buffer `data`. */
  function ArmAttributesArch(data: seq<byte>): Option<ArmArch>
  {
    match SubsectionStart(data)
    case None => None
    case Some(p) => FileSubsection(data, p)
  }

  /**
   * Index i is a record start of data[pos..end): the scan reaches it from
   * pos by stepping over whole string and ULEB128 records, none of them a
   * Tag_CPU_arch record.
   */
  predicate RecordStart(data: seq<byte>, pos: nat, end: nat, i: nat)
    requires pos <= end <= |data|
    decreases end - pos
  {
    pos < end &&
    (i == pos ||
     (data[pos] != TAG_CPU_ARCH && (IsStringTag(data[pos]) || IsUlebTag(data[pos])) &&
      var k := ValueEnd(data, pos + 1, end, IsStringTag(data[pos]));
      k < end && RecordStart(data, k + 1, end, i)))
  }

  /**
   * An answer is only ever the reading of the value byte of a Tag_CPU_arch
   * record: the first record, along the chain of whole records, whose tag is
   * Tag_CPU_arch.
   */
  lemma {:induction false} ScanTagsFindsCpuTag(data: seq<byte>, pos: nat, end: nat)
    requires pos <= end <= |data|
    requires ScanTags(data, pos, end).Some?
    ensures exists i: nat :: RecordStart(data, pos, end, i) && pos <= i < end && i + 1 < |data| && data[i] == TAG_CPU_ARCH
                        && ScanTags(data, pos, end) == CpuArchLabel(data[i + 1])
    decreases end - pos
  {
    if data[pos] == TAG_CPU_ARCH {
      assert RecordStart(data, pos, end, pos);
    } else {
      var k := ValueEnd(data, pos + 1, end, IsStringTag(data[pos]));
      ScanTagsFindsCpuTag(data, k + 1, end);
      var i: nat :| RecordStart(data, k + 1, end, i) && k + 1 <= i < end && i + 1 < |data| && data[i] == TAG_CPU_ARCH
               && ScanTags(data, k + 1, end) == CpuArchLabel(data[i + 1]);
      assert RecordStart(data, pos, end, i);
    }
  }

  /**
   * Every way the C code gives up before the attribute records: an empty
   * buffer or a wrong format version, no room for the section length, a
   * section length longer than the buffer, an unterminated vendor name, a
   * subsection that is not Tag_File, no room for its length, a length of 5 or
   * less, or a length that runs past the buffer.
   */
  lemma ArmAttributesRejects(data: seq<byte>)
    ensures |data| == 0 || data[0] != FORMAT_VERSION ==> ArmAttributesArch(data).None?
    ensures |data| < 5 ==> ArmAttributesArch(data).None?
    ensures |data| >= 5 && Le32(data, 1) > |data| - 1 ==> ArmAttributesArch(data).None?
    ensures (forall j :: 5 <= j < |data| ==> data[j] != 0) ==> ArmAttributesArch(data).None?
    ensures forall p :: SubsectionStart(data) == Some(p) ==>
      && (p == |data| || data[p] != TAG_FILE || |data| - (p + 1) < 4 ==> ArmAttributesArch(data).None?)
      && (p + 5 <= |data| && Le32(data, p + 1) <= 5 ==> ArmAttributesArch(data).None?)
      && (p + 5 <= |data| && Le32(data, p + 1) - 1 > |data| - (p + 1) ==> ArmAttributesArch(data).None?)
  {
    if |data| >= 5 && (forall j :: 5 <= j < |data| ==> data[j] != 0) {
      ValueEndIs(data, 5, |data|, true, |data|);
    }
  }

  /** Whatever the buffer, an answer comes from a Tag_CPU_arch byte followed by its value. */
  lemma ArmAttributesFromCpuTag(data: seq<byte>)
    requires ArmAttributesArch(data).Some?
    ensures exists i :: 5 < i < |data| - 1 && data[i] == TAG_CPU_ARCH
                        && ArmAttributesArch(data) == CpuArchLabel(data[i + 1])
  {
    var p := SubsectionStart(data).value;
    ScanTagsFindsCpuTag(data, p + 5, p + Le32(data, p + 1));
  }

  /**
   * The cursor step the C code repeats with MOVE and MOVE_TAG: advance over
   * the bytes of a value until its last byte or until `end`.
   */
  method SkipValue(data: seq<byte>, from: nat, end: nat, isString: bool) returns (k: nat)
    requires from <= end <= |data|
    ensures k == ValueEnd(data, from, end, isString)
  {
    k := from;
    while k != end && Continues(data[k], isString)
      invariant from <= k <= end
      invariant forall j :: from <= j < k ==> Continues(data[j], isString)
    {
      k := k + 1;
    }
    ValueEndIs(data, from, end, isString, k);
  }

  /**
   * The C parser: a cursor over the buffer. Two guards that the C code lacks
   * are added: the Tag_CPU_arch value byte is read only when the buffer holds
   * it, and the string and ULEB128 skips stop when the subsection is used up
   * (the C code tests `length`, which is never smaller than `tag_length`).
   */
  method ParseArmAttributes(data: seq<byte>) returns (arch: Option<ArmArch>)
    ensures arch == ArmAttributesArch(data)
  {
    if |data| == 0 || data[0] != FORMAT_VERSION {
      return None;
    }
    var pos := 1;
    if |data| - pos < 4 {
      return None;
    }
    var sectLen := Le32(data, pos);
    if sectLen > |data| - pos {
      return None;
    }
    pos := pos + 4;

    // Skip the vendor name
    pos := SkipValue(data, pos, |data|, true);
    if pos == |data| {
      return None;
    }
    pos := pos + 1;
    assert SubsectionStart(data) == Some(pos);

    // The C subsection loop runs its body at most once: it ends in `break` or a return.
    if pos == |data| || data[pos] != TAG_FILE {
      return None;
    }
    pos := pos + 1;
    if |data| - pos < 4 {
      return None;
    }
    var tagLength: nat := Le32(data, pos);
    if tagLength <= 5 {
      return None;
    }
    tagLength := tagLength - 1;
    if tagLength > |data| - pos {
      return None;
    }
    pos := pos + 4;
    tagLength := tagLength - 4;

    var end: nat := pos + tagLength;
    ghost var spec := ScanTags(data, pos, end);
    assert spec == ArmAttributesArch(data);
    while tagLength != 0
      invariant pos + tagLength == end <= |data|
      invariant ScanTags(data, pos, end) == spec
      decreases tagLength
    {
      var tag := data[pos];
      pos, tagLength := pos + 1, tagLength - 1;
      if tag == TAG_CPU_ARCH {
        if pos == |data| {
          return None;
        }
        return CpuArchLabel(data[pos]);
      } else if IsStringTag(tag) || IsUlebTag(tag) {
        var valueEnd := SkipValue(data, pos, end, IsStringTag(tag));
        pos, tagLength := valueEnd, end - valueEnd;
        if tagLength == 0 {
          return None;
        }
        // Skip the last byte
        pos, tagLength := pos + 1, tagLength - 1;
      } else {
        return None;
      }
    }
    return None;
  }

  // ---------------------------------------------------------------------------
  // An encoder for well-formed attribute sections, and what the parser makes
  // of its output.

  /** One attribute record as a producer writes it. */
  datatype Attribute =
    | StringAttr(tag: byte, text: seq<byte>)
    | IntAttr(tag: byte, value: nat)
    | CpuArchAttr(value: nat)

  predicate ValidAttribute(a: Attribute)
  {
    match a
    case StringAttr(tag, text) => IsStringTag(tag) && 0 !in text
    case IntAttr(tag, _) => IsUlebTag(tag)
    case CpuArchAttr(_) => true
  }

  /** ULEB128: seven bits per byte, least significant group first, the high bit set on all but the last byte. */
  function Uleb128(v: nat): (b: seq<byte>)
    ensures |b| >= 1 && b[|b| - 1] < 128
    ensures forall j :: 0 <= j < |b| - 1 ==> b[j] >= 128
    ensures b[0] == if v < 128 then v else 128 + v % 128
  {
    if v < 128 then [v] else [128 + v % 128] + Uleb128(v / 128)
  }

  /** The value a ULEB128 byte string stands for. */
  function UlebValue(b: seq<byte>): nat
  {
    if b == [] then 0 else b[0] % 128 + 128 * UlebValue(b[1..])
  }

  /** ULEB128 decoding undoes the encoding. */
  lemma {:induction false} UlebRoundTrip(v: nat)
    ensures UlebValue(Uleb128(v)) == v
  {
    if v >= 128 {
      UlebRoundTrip(v / 128);
      assert Uleb128(v)[1..] == Uleb128(v / 128);
    }
  }

  function EncodeAttribute(a: Attribute): (b: seq<byte>)
    ensures |b| >= 2
  {
    match a
    case StringAttr(tag, text) => [tag] + text + [0]
    case IntAttr(tag, v) => [tag] + Uleb128(v)
    case CpuArchAttr(v) => [TAG_CPU_ARCH] + Uleb128(v)
  }

  function EncodeAttributes(attrs: seq<Attribute>): seq<byte>
  {
    if attrs == [] then [] else EncodeAttribute(attrs[0]) + EncodeAttributes(attrs[1..])
  }

  /** A Tag_File subsection: its tag, its length (which counts the tag and the length field) and its records. */
  function EncodeFileSubsection(body: seq<byte>): (b: seq<byte>)
    requires 5 + |body| < 0x1_0000_0000
    ensures |b| == 5 + |body|
  {
    [TAG_FILE] + Le32Bytes(5 + |body|) + body
  }

  /** A whole `.ARM.attributes` section from a vendor name and the records of one Tag_File subsection. */
  function EncodeSection(vendor: seq<byte>, attrs: seq<Attribute>): seq<byte>
    requires |vendor| + |EncodeAttributes(attrs)| < 0x1_0000_0000 - 16
  {
    var subsection := EncodeFileSubsection(EncodeAttributes(attrs));
    [FORMAT_VERSION] + Le32Bytes(4 + |vendor| + 1 + |subsection|) + vendor + [0] + subsection
  }

  /** The answer the first CPU-architecture record of `attrs` calls for. */
  function FirstCpuArch(attrs: seq<Attribute>): Option<ArmArch>
  {
    if attrs == [] then None
    else if attrs[0].CpuArchAttr? then
      (if attrs[0].value < 128 then CpuArchLabel(attrs[0].value) else None)
    else FirstCpuArch(attrs[1..])
  }

  /** The parser steps over one encoded string or integer record, to `mid` just after it. */
  lemma SkipEncodedRecord(data: seq<byte>, pos: nat, mid: nat, end: nat, a: Attribute)
    requires ValidAttribute(a) && !a.CpuArchAttr?
    requires mid == pos + |EncodeAttribute(a)| && mid <= end <= |data|
    requires data[pos..mid] == EncodeAttribute(a)
    ensures ScanTags(data, pos, end) == ScanTags(data, mid, end)
  {
    var e := EncodeAttribute(a);
    var last := pos + |e| - 1;
    assert data[pos] == e[0];
    forall j | pos + 1 <= j < last
      ensures Continues(data[j], a.StringAttr?)
    {
      assert data[j] == e[j - pos];
    }
    assert data[last] == e[|e| - 1];
    ValueEndIs(data, pos + 1, end, a.StringAttr?, last);
  }

  /** A slice that holds a concatenation splits into slices holding its parts. */
  lemma SplitSlice(data: seq<byte>, pos: nat, mid: nat, end: nat, a: seq<byte>, b: seq<byte>)
    requires pos <= mid <= end <= |data| && mid - pos == |a|
    requires data[pos..end] == a + b
    ensures data[pos..mid] == a && data[mid..end] == b
  {
    assert data[pos..mid] == data[pos..end][..|a|];
    assert data[mid..end] == data[pos..end][|a|..];
  }

  /** The parser answers from an encoded CPU-architecture record. */
  lemma ScanEncodedCpuArch(data: seq<byte>, pos: nat, end: nat, v: nat)
    requires pos + |EncodeAttribute(CpuArchAttr(v))| <= end <= |data|
    requires data[pos..pos + |EncodeAttribute(CpuArchAttr(v))|] == EncodeAttribute(CpuArchAttr(v))
    ensures ScanTags(data, pos, end) == if v < 128 then CpuArchLabel(v) else None
  {
    var e := EncodeAttribute(CpuArchAttr(v));
    assert data[pos] == e[0] && data[pos + 1] == e[1];
  }

  /** Scanning encoded records finds the first CPU-architecture record. */
  lemma {:induction false} ScanEncoded(data: seq<byte>, pos: nat, end: nat, attrs: seq<Attribute>)
    requires forall i :: 0 <= i < |attrs| ==> ValidAttribute(attrs[i])
    requires pos + |EncodeAttributes(attrs)| == end <= |data|
    requires data[pos..end] == EncodeAttributes(attrs)
    ensures ScanTags(data, pos, end) == FirstCpuArch(attrs)
    decreases |attrs|
  {
    if attrs == [] {
      assert end == pos;
    } else if attrs[0].CpuArchAttr? {
      ScanEncodedFirst(data, pos, end, attrs);
    } else {
      var mid := ScanEncodedStep(data, pos, end, attrs);
      SkipEncodedRecord(data, pos, mid, end, attrs[0]);
      ScanEncoded(data, mid, end, attrs[1..]);
    }
  }

  /** When the first record is a CPU-architecture record, the scan answers from it. */
  lemma ScanEncodedFirst(data: seq<byte>, pos: nat, end: nat, attrs: seq<Attribute>)
    requires attrs != [] && attrs[0].CpuArchAttr?
    requires pos + |EncodeAttributes(attrs)| == end <= |data|
    requires data[pos..end] == EncodeAttributes(attrs)
    ensures ScanTags(data, pos, end) == FirstCpuArch(attrs)
  {
    var e := EncodeAttribute(attrs[0]);
    SplitSlice(data, pos, pos + |e|, end, e, EncodeAttributes(attrs[1..]));
    ScanEncodedCpuArch(data, pos, end, attrs[0].value);
  }

  /**
   * When the first record is a string or integer record, the remaining
   * records are encoded right after it, from `mid` on.
   */
  lemma ScanEncodedStep(data: seq<byte>, pos: nat, end: nat, attrs: seq<Attribute>) returns (mid: nat)
    requires forall i :: 0 <= i < |attrs| ==> ValidAttribute(attrs[i])
    requires attrs != [] && !attrs[0].CpuArchAttr?
    requires pos + |EncodeAttributes(attrs)| == end <= |data|
    requires data[pos..end] == EncodeAttributes(attrs)
    ensures forall i :: 0 <= i < |attrs[1..]| ==> ValidAttribute(attrs[1..][i])
    ensures mid == pos + |EncodeAttribute(attrs[0])| && data[pos..mid] == EncodeAttribute(attrs[0])
    ensures mid + |EncodeAttributes(attrs[1..])| == end && data[mid..end] == EncodeAttributes(attrs[1..])
    ensures FirstCpuArch(attrs) == FirstCpuArch(attrs[1..])
  {
    var e := EncodeAttribute(attrs[0]);
    mid := pos + |e|;
    SplitSlice(data, pos, mid, end, e, EncodeAttributes(attrs[1..]));
  }

  /** Four bytes written by Le32Bytes read back as their value. */
  lemma Le32At(data: seq<byte>, at: nat, v: uint32)
    requires at + 4 <= |data| && data[at..at + 4] == Le32Bytes(v)
    ensures Le32(data, at) == v
  {
    var b := Le32Bytes(v);
    assert data[at] == b[0] && data[at + 1] == b[1] && data[at + 2] == b[2] && data[at + 3] == b[3];
  }

  /** The section header of an encoded section is accepted and the subsection starts after the vendor name. */
  lemma EncodedSubsectionStart(data: seq<byte>, vendor: seq<byte>, rest: seq<byte>)
    requires 0 !in vendor && 5 + |vendor| + 1 + |rest| < 0x1_0000_0000
    requires data == [FORMAT_VERSION] + Le32Bytes(4 + |vendor| + 1 + |rest|) + vendor + [0] + rest
    ensures SubsectionStart(data) == Some(6 + |vendor|)
    ensures data[6 + |vendor|..] == rest
  {
    var vend := 5 + |vendor|;
    assert data[1..5] == Le32Bytes(4 + |vendor| + 1 + |rest|);
    Le32At(data, 1, 4 + |vendor| + 1 + |rest|);
    forall j | 5 <= j < vend
      ensures Continues(data[j], true)
    {
      assert data[j] == vendor[j - 5];
    }
    assert data[vend] == 0;
    ValueEndIs(data, 5, |data|, true, vend);
  }

  /** An encoded Tag_File subsection is accepted and its records are scanned to the end of the buffer. */
  lemma EncodedFileSubsection(data: seq<byte>, p: nat, body: seq<byte>)
    requires p <= |data| && 5 + |body| < 0x1_0000_0000
    requires data[p..] == [TAG_FILE] + Le32Bytes(5 + |body|) + body
    ensures FileSubsection(data, p) == ScanTags(data, p + 5, |data|)
    ensures data[p + 5..|data|] == body
  {
    assert data[p] == data[p..][0];
    assert data[p + 1..p + 5] == data[p..][1..5];
    Le32At(data, p + 1, 5 + |body|);
    assert data[p + 5..|data|] == data[p..][5..];
  }

  /**
   * Round trip: the parser reports exactly the generation named by the first
   * CPU-architecture record of an encoded section, and NULL when there is
   * none or when its value needs more than one byte.
   */
  lemma ParseEncodedSection(vendor: seq<byte>, attrs: seq<Attribute>)
    requires 0 !in vendor
    requires forall i :: 0 <= i < |attrs| ==> ValidAttribute(attrs[i])
    requires |vendor| + |EncodeAttributes(attrs)| < 0x1_0000_0000 - 16
    ensures ArmAttributesArch(EncodeSection(vendor, attrs)) == FirstCpuArch(attrs)
  {
    var data := EncodeSection(vendor, attrs);
    var body := EncodeAttributes(attrs);
    var rest := EncodeFileSubsection(body);
    EncodedSubsectionStart(data, vendor, rest);
    EncodedFileSubsection(data, 6 + |vendor|, body);
    ScanEncoded(data, 11 + |vendor|, |data|, attrs);
  }
}
