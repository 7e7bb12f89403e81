/**
 * Identification of VDEX containers (pre-verified Android bytecode):
 * the signature check, the version-field extraction for an in-memory buffer
 * and for a file, and the mapping from a VDEX version to the Android release
 * that introduced it.
 *
 * A file is modelled by its content: `None` when it cannot be opened,
 * `Some(bytes)` otherwise. Both opens made by the file variant of `version`
 * see the same content.
 */
module VdexUtils {
  import opened Wrappers
  import opened AsciiDecimal

  /** `vdex_version_t`, an unsigned 32-bit integer. */
  newtype uint32 = x: int | 0 <= x < 0x1_0000_0000

  /** `VDEX::magic`: the four bytes "vdex". */
  const Magic: seq<uint8> := [0x76, 0x64, 0x65, 0x78]

  /** Width of the ASCII version field that follows the magic. */
  const VersionFieldSize: nat := 4

  /** The buffer variant's bounds check: magic plus version field. */
  const HeaderPrefixSize: nat := 8

  type FileContent = Option<seq<uint8>>

  // ---------------------------------------------------------------------------
  // Signature matcher
  // ---------------------------------------------------------------------------

  /** `is_vdex(raw)`: the buffer starts with the magic. */
  function IsVdex(raw: seq<uint8>): (b: bool)
    ensures |raw| < |Magic| ==> !b
  {
    if |raw| < |Magic| then false
    else raw[..|Magic|] == Magic
  }

  /** The signature holds exactly for the magic followed by anything. */
  lemma IsVdexIffMagicPrefix(raw: seq<uint8>)
    ensures IsVdex(raw) <==> exists rest :: raw == Magic + rest
  {
    if IsVdex(raw) {
      assert raw == Magic + raw[|Magic|..];
    }
  }

  /** Only the first |Magic| bytes decide the signature. */
  lemma IsVdexOnlyReadsPrefix(a: seq<uint8>, b: seq<uint8>)
    requires |a| >= |Magic| && |b| >= |Magic| && a[..|Magic|] == b[..|Magic|]
    ensures IsVdex(a) == IsVdex(b)
  {
  }

  /**
   * The bytes `ifstream::read(buf, n)` stores after `seekg(offset)`: those
   * present in the file, at most `n`. The rest of `buf` stays as it was.
   */
  function ReadAt(content: seq<uint8>, offset: nat, n: nat): (got: seq<uint8>)
    requires offset <= |content|
    ensures |got| <= n && got <= content[offset..]
    ensures |got| == n || got == content[offset..]
  {
    if offset + n <= |content| then content[offset..offset + n] else content[offset..]
  }

  /**
   * The outcome of the file signature check does not depend on the
   * uninitialised part of the scratch array: either the whole magic was read,
   * or the bytes that were read already differ from the magic.
   */
  predicate MagicReadDecided(content: seq<uint8>) {
    |content| >= |Magic| || content != Magic[..|content|]
  }

  /**
   * `is_vdex(file)` as written. `scratch` is what the uninitialised stack
   * array `magic` held before the call: the read overwrites its first bytes
   * with those the file has, and then the whole array is compared with the
   * magic. Whenever the read decides the comparison, the answer is the buffer
   * check's, whatever the stale bytes were.
   */
  function IsVdexFileAsWritten(file: FileContent, scratch: seq<uint8>): (b: bool)
    requires |scratch| == |Magic|
    ensures file.None? ==> !b
    ensures file.Some? && MagicReadDecided(file.value) ==> (b <==> IsVdex(file.value))
  {
    match file
    case None => false
    case Some(content) =>
      var got := ReadAt(content, 0, |Magic|);
      got + scratch[|got|..] == Magic
  }

  /**
   * As written, a file that holds only a proper prefix of the magic (the
   * empty file included) is taken for a VDEX when the stale scratch bytes
   * complete the magic.
   */
  lemma ShortFileMatchesStaleScratch(content: seq<uint8>)
    requires |content| < |Magic| && content == Magic[..|content|]
    ensures !IsVdex(content)
    ensures IsVdexFileAsWritten(Some(content), Magic)
  {
  }

  /**
   * `is_vdex(file)` as evidently intended: a file that cannot be opened, or
   * whose read stops short of the magic, is not a VDEX; the answer is the
   * buffer check's on the file's content.
   */
  function IsVdexFile(file: FileContent): (b: bool)
    ensures file.None? ==> !b
    ensures file.Some? ==> (b <==> IsVdex(file.value))
  {
    match file
    case None => false
    case Some(content) => ReadAt(content, 0, |Magic|) == Magic
  }

  /** The corrected check gives the source's answer wherever that answer is decided. */
  lemma IsVdexFileAgreesWhereDecided(file: FileContent, scratch: seq<uint8>)
    requires |scratch| == |Magic| && (file.Some? ==> MagicReadDecided(file.value))
    ensures IsVdexFile(file) == IsVdexFileAsWritten(file, scratch)
  {
  }

  // ---------------------------------------------------------------------------
  // Version extractor
  // ---------------------------------------------------------------------------

  /**
   * `version(raw)`: the buffer is not re-checked for the magic; all four
   * field bytes must be digits, and their value is returned; 0 otherwise.
   */
  function Version(raw: seq<uint8>): (v: uint32)
    ensures |raw| < HeaderPrefixSize ==> v == 0
    ensures v < 10000
  {
    if |raw| < HeaderPrefixSize then 0
    else
      var field := raw[|Magic|..|Magic| + VersionFieldSize];
      if AllDigits(field) then ParseUnsigned(field) as uint32 else 0
  }

  /** A non-digit anywhere in the field (the terminating byte included) gives 0. */
  lemma VersionNonDigit(raw: seq<uint8>, i: nat)
    requires |raw| >= HeaderPrefixSize && |Magic| <= i < HeaderPrefixSize && !IsDigit(raw[i])
    ensures Version(raw) == 0
  {
  }

  /** Any four-digit field is read back as the number it spells, whatever surrounds it. */
  lemma VersionRoundTrip(prefix: seq<uint8>, n: nat, rest: seq<uint8>)
    requires |prefix| == |Magic| && n < Pow10(VersionFieldSize)
    ensures Version(prefix + EncodeDecimal(n, VersionFieldSize) + rest) as int == n
  {
    var raw := prefix + EncodeDecimal(n, VersionFieldSize) + rest;
    assert raw[|Magic|..|Magic| + VersionFieldSize] == EncodeDecimal(n, VersionFieldSize);
    DecodeEncode(n, VersionFieldSize);
  }

  /**
   * A non-zero result `n` is returned exactly when the field holds `n` in
   * four zero-padded digits.
   */
  lemma VersionExact(raw: seq<uint8>, n: nat)
    requires 0 < n < Pow10(VersionFieldSize)
    ensures Version(raw) as int == n <==>
              |raw| >= HeaderPrefixSize && raw[|Magic|..HeaderPrefixSize] == EncodeDecimal(n, VersionFieldSize)
  {
    if |raw| >= HeaderPrefixSize {
      var field := raw[|Magic|..HeaderPrefixSize];
      if field == EncodeDecimal(n, VersionFieldSize) {
        DecodeEncode(n, VersionFieldSize);
      }
      if Version(raw) as int == n {
        EncodeDecode(field);
      }
    }
  }

  /**
   * Bytes before the field (the magic) never change the result: the buffer
   * variant does not re-check the signature. (That bytes after the field do
   * not matter either follows from VersionExact.)
   */
  lemma VersionIgnoresMagic(a: seq<uint8>, b: seq<uint8>)
    requires |a| == |b| >= |Magic| && a[|Magic|..] == b[|Magic|..]
    ensures Version(a) == Version(b)
  {
    if |a| >= HeaderPrefixSize {
      assert a[|Magic|..HeaderPrefixSize] == a[|Magic|..][..VersionFieldSize];
      assert b[|Magic|..HeaderPrefixSize] == b[|Magic|..][..VersionFieldSize];
    }
  }

  /**
   * The version file variant reads no uninitialised byte: when the signature
   * matches, the whole version field is in the file.
   */
  predicate VersionReadDecided(file: FileContent) {
    file.Some? && IsVdexFile(file) ==> |file.value| >= HeaderPrefixSize
  }

  /**
   * `version(file)`: 0 unless the file opens and has the signature; then the
   * field is read (five bytes requested, four kept), its first three bytes
   * must be digits and the value of its leading digits is returned.
   */
  function VersionFile(file: FileContent): (v: uint32)
    requires VersionReadDecided(file)
    ensures !IsVdexFile(file) ==> v == 0
    ensures v < 10000
  {
    if !IsVdexFile(file) then 0
    else
      var field := ReadAt(file.value, |Magic|, VersionFieldSize + 1)[..VersionFieldSize];
      if AllDigits(field[..VersionFieldSize - 1]) then ParseUnsigned(field) as uint32 else 0
  }

  /** The file variant's field is the four bytes after the magic. */
  lemma VersionFileField(content: seq<uint8>)
    requires IsVdex(content) && |content| >= HeaderPrefixSize
    ensures ReadAt(content, |Magic|, VersionFieldSize + 1)[..VersionFieldSize]
            == content[|Magic|..HeaderPrefixSize]
  {
  }

  /** A non-digit among the first three field bytes gives 0 in the file variant. */
  lemma VersionFileNonDigit(content: seq<uint8>, i: nat)
    requires VersionReadDecided(Some(content))
    requires |content| >= HeaderPrefixSize && |Magic| <= i < HeaderPrefixSize - 1 && !IsDigit(content[i])
    ensures VersionFile(Some(content)) == 0
  {
  }

  /**
   * Three digits followed by any non-digit (the runtime writes a zero byte)
   * are read as their value by the file variant: the fourth byte is not
   * validated.
   */
  lemma VersionFileTerminatedField(n: nat, stop: uint8, rest: seq<uint8>)
    requires n < Pow10(VersionFieldSize - 1) && !IsDigit(stop)
    ensures VersionFile(Some(Magic + EncodeDecimal(n, VersionFieldSize - 1) + [stop] + rest)) as int == n
  {
    var digits := EncodeDecimal(n, VersionFieldSize - 1);
    var content := Magic + digits + [stop] + rest;
    assert content[..|Magic|] == Magic;
    VersionFileField(content);
    assert content[|Magic|..HeaderPrefixSize] == digits + [stop] + [];
    assert content[|Magic|..HeaderPrefixSize][..VersionFieldSize - 1] == digits;
    ParseStopsAtNonDigit(digits, stop, []);
    DecodeEncode(n, VersionFieldSize - 1);
  }

  /**
   * A non-zero result `n` of the file variant is returned exactly when the
   * file has the signature and its field is `n` in four zero-padded digits,
   * or `n` in three followed by a non-digit.
   */
  lemma VersionFileExact(content: seq<uint8>, n: nat)
    requires VersionReadDecided(Some(content)) && 0 < n < Pow10(VersionFieldSize)
    ensures VersionFile(Some(content)) as int == n <==>
              IsVdex(content) &&
              (|| content[|Magic|..HeaderPrefixSize] == EncodeDecimal(n, VersionFieldSize)
               || (&& n < Pow10(VersionFieldSize - 1)
                   && content[|Magic|..HeaderPrefixSize - 1] == EncodeDecimal(n, VersionFieldSize - 1)
                   && !IsDigit(content[HeaderPrefixSize - 1])))
  {
    if IsVdex(content) {
      VersionFileField(content);
      var field := content[|Magic|..HeaderPrefixSize];
      var head := field[..VersionFieldSize - 1];
      assert head == content[|Magic|..HeaderPrefixSize - 1];
      assert field == head + [field[VersionFieldSize - 1]] + [];
      if VersionFile(Some(content)) as int == n {
        if AllDigits(field) {
          EncodeDecode(field);
        } else {
          ParseStopsAtNonDigit(head, field[VersionFieldSize - 1], []);
          EncodeDecode(head);
        }
      }
      if field == EncodeDecimal(n, VersionFieldSize) {
        DecodeEncode(n, VersionFieldSize);
      }
      if n < Pow10(VersionFieldSize - 1) && head == EncodeDecimal(n, VersionFieldSize - 1)
         && !IsDigit(field[VersionFieldSize - 1]) {
        ParseStopsAtNonDigit(head, field[VersionFieldSize - 1], []);
        DecodeEncode(n, VersionFieldSize - 1);
      }
    }
  }

  /** Where the field is four digits, file and buffer variants agree. */
  lemma VersionFileAgreesOnDigitField(content: seq<uint8>)
    requires IsVdex(content) && |content| >= HeaderPrefixSize
    requires AllDigits(content[|Magic|..HeaderPrefixSize])
    ensures VersionFile(Some(content)) == Version(content)
  {
    VersionFileField(content);
  }

  /** The version field "0006" and the runtime's null-terminated field "006\0". */
  const DigitField6: seq<uint8> := [0x30, 0x30, 0x30, 0x36]
  const TerminatedField6: seq<uint8> := [0x30, 0x30, 0x36, 0x00]

  /** The documented examples: "0006" reads as 6; "006\0" reads as 0 from a buffer. */
  lemma VersionExamples()
    ensures Version(Magic + DigitField6) == 6
    ensures Version(Magic + TerminatedField6) == 0
  {
    assert EncodeDecimal(6, VersionFieldSize) == DigitField6;
    VersionRoundTrip(Magic, 6, []);
    assert Magic + DigitField6 + [] == Magic + DigitField6;
    VersionNonDigit(Magic + TerminatedField6, 7);
  }

  /**
   * As written, the two variants disagree on a file laid out as the runtime
   * writes it: the buffer variant checks the terminator as a digit.
   */
  lemma TerminatedFieldDisagreement()
    ensures Version(Magic + TerminatedField6) == 0
    ensures VersionFile(Some(Magic + TerminatedField6)) == 6
  {
    VersionExamples();
    assert EncodeDecimal(6, VersionFieldSize - 1) + [0] == TerminatedField6;
    VersionFileTerminatedField(6, 0, []);
    assert Magic + EncodeDecimal(6, VersionFieldSize - 1) + [0] + [] == Magic + TerminatedField6;
  }

  /** Four zero bytes: not the magic. */
  const NoMagic: seq<uint8> := [0, 0, 0, 0]

  /** As written, the buffer variant extracts a version from data without the signature. */
  lemma UncheckedSignature()
    ensures !IsVdex(NoMagic + DigitField6)
    ensures Version(NoMagic + DigitField6) == 6
  {
    assert (NoMagic + DigitField6)[..|Magic|] == NoMagic;
    assert EncodeDecimal(6, VersionFieldSize) == DigitField6;
    VersionRoundTrip(NoMagic, 6, []);
    assert NoMagic + DigitField6 + [] == NoMagic + DigitField6;
  }

  /**
   * The buffer extraction as evidently intended: the signature gates it, and
   * the field is validated and converted as the file variant does.
   */
  function VersionChecked(raw: seq<uint8>): (v: uint32)
    ensures !IsVdex(raw) ==> v == 0
    ensures v < 10000
  {
    if !IsVdex(raw) || |raw| < HeaderPrefixSize then 0
    else
      var field := raw[|Magic|..HeaderPrefixSize];
      if AllDigits(field[..VersionFieldSize - 1]) then ParseUnsigned(field) as uint32 else 0
  }

  /** The corrected buffer extraction and the file variant agree on the same bytes. */
  lemma VersionCheckedAgreesWithFile(content: seq<uint8>)
    requires VersionReadDecided(Some(content))
    ensures VersionChecked(content) == VersionFile(Some(content))
  {
    if IsVdex(content) {
      VersionFileField(content);
    }
  }

  /** The corrected extraction reads both field layouts behind the magic. */
  lemma VersionCheckedReadsBothLayouts(n: nat, stop: uint8, m: nat, rest: seq<uint8>)
    requires n < Pow10(VersionFieldSize - 1) && !IsDigit(stop) && m < Pow10(VersionFieldSize)
    ensures VersionChecked(Magic + EncodeDecimal(n, VersionFieldSize - 1) + [stop] + rest) as int == n
    ensures VersionChecked(Magic + EncodeDecimal(m, VersionFieldSize) + rest) as int == m
  {
    var terminated := Magic + EncodeDecimal(n, VersionFieldSize - 1) + [stop] + rest;
    assert terminated[..|Magic|] == Magic;
    VersionCheckedAgreesWithFile(terminated);
    VersionFileTerminatedField(n, stop, rest);
    var full := Magic + EncodeDecimal(m, VersionFieldSize) + rest;
    assert full[..|Magic|] == Magic;
    assert full[|Magic|..HeaderPrefixSize] == EncodeDecimal(m, VersionFieldSize);
    VersionCheckedAgreesWithFile(full);
    VersionFileAgreesOnDigitField(full);
    VersionRoundTrip(Magic, m, rest);
  }

  // ---------------------------------------------------------------------------
  // Version-to-release mapper
  // ---------------------------------------------------------------------------

  /** `LIEF::Android::ANDROID_VERSIONS`, the values this unit can return. */
  datatype AndroidVersions = Version800 | Version810 | VersionUnknown

  /** One `std::map` entry: a VDEX version key and its release. */
  datatype TableEntry = TableEntry(key: uint32, release: AndroidVersions)

  /** A `std::map` in iteration order: keys strictly ascending. */
  predicate StrictlyAscending(table: seq<TableEntry>) {
    forall i, j | 0 <= i < j < |table| :: table[i].key < table[j].key
  }

  /** `oat2android`, in key order. */
  const Oat2Android: seq<TableEntry> := [TableEntry(6, Version800), TableEntry(10, Version810)]

  /**
   * `std::map::lower_bound`: the entry with the smallest key not below `v`,
   * or `None` (the end iterator) when every key is below `v`.
   */
  function LowerBound(table: seq<TableEntry>, v: uint32): (r: Option<TableEntry>)
    requires StrictlyAscending(table)
    ensures r.Some? ==> r.value in table && r.value.key >= v
    ensures r.Some? ==> forall e | e in table && e.key >= v :: r.value.key <= e.key
    ensures r.None? <==> forall e | e in table :: e.key < v
  {
    if table == [] then None
    else if table[0].key >= v then Some(table[0])
    else
      assert StrictlyAscending(table[1..]);
      assert forall e | e in table :: e == table[0] || e in table[1..];
      LowerBound(table[1..], v)
  }

  /**
   * `android_version(version)`: a ceiling lookup in `oat2android`, so every
   * version up to 6 (the invalid-version sentinel 0 included) is Android
   * 8.0.0, 7 to 10 is Android 8.1.0 and anything above is unknown.
   */
  function AndroidVersion(version: uint32): (r: AndroidVersions)
    ensures version <= 6 ==> r == Version800
    ensures 6 < version <= 10 ==> r == Version810
    ensures 10 < version ==> r == VersionUnknown
  {
    assert StrictlyAscending(Oat2Android);
    match LowerBound(Oat2Android, version)
    case None => VersionUnknown
    case Some(entry) => entry.release
  }

}
