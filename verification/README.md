# VDEX identification

A Dafny model of the VDEX identification helpers of LIEF (`src/VDEX/utils.cpp`).
VDEX is the Android runtime's container for pre-verified bytecode. The helpers do three things:

- `is_vdex` checks whether a buffer or a file starts with the four-byte VDEX magic.
- `version` reads the four-byte ASCII version field after the magic and returns its value. It returns 0 when the field is invalid.
- `android_version` maps a VDEX version to the Android release that introduced it. It does a ceiling lookup in the table `{6 → 8.0.0, 10 → 8.1.0}`.

Files:

- `wrappers.dfy`: `Option`.
- `ascii_decimal.dfy`: the C library behaviour the helpers use. It models `::isdigit` on a byte and `std::stoul` on a field that starts with a digit. It also has a zero-padded decimal encoder, used as the decoder's inverse.
- `vdex_utils.dfy`: the three helpers and the `oat2android` table.

A file is modelled by its content. `None` means the file cannot be opened; `Some(bytes)` is what a read returns. The magic comes from `LIEF/VDEX/Structures.hpp`, which is not part of this model. It is taken to be the four bytes `"vdex"`, which is consistent with the literal `8` (magic plus field) in the buffer variant's bounds check. `vdex_version_t` is modelled as an unsigned 32-bit newtype. Every conversion into it is proved not to truncate, because results stay below 10000.

The two `version` overloads differ, and the model keeps each as written:

- The file overload checks the magic first (src/VDEX/utils.cpp:57). The buffer overload does not (src/VDEX/utils.cpp:78-95).
- The file overload validates the first three field bytes (src/VDEX/utils.cpp:68). The buffer overload validates all four (src/VDEX/utils.cpp:90).
- As a result, the two overloads give the same answer on the same bytes only when the buffer overload is replaced by the corrected `VersionChecked` (see Findings).

## Model

| member | source | states |
|---|---|---|
| `VdexUtils.IsVdex` | src/VDEX/utils.cpp:42-54 | a buffer shorter than the magic is never a VDEX, whatever it holds |
| `VdexUtils.IsVdexIffMagicPrefix` | src/VDEX/utils.cpp:47-53 | `is_vdex(raw)` holds exactly when raw is the magic followed by some bytes |
| `VdexUtils.IsVdexOnlyReadsPrefix` | src/VDEX/utils.cpp:47-53 | bytes after the first four never change the signature check |
| `VdexUtils.ReadAt` | src/VDEX/utils.cpp:29-30 | `seekg` then `read`: the bytes stored are a prefix of the file from the offset, all n of them unless the file ends first (the short read) |
| `VdexUtils.IsVdexFileAsWritten` | src/VDEX/utils.cpp:24-40 | a file that cannot be opened is not a VDEX; whenever the bytes read decide the comparison, the answer is the buffer check's, whatever the stale stack bytes were |
| `VdexUtils.ShortFileMatchesStaleScratch` | src/VDEX/utils.cpp:27-35 | a file holding only a proper prefix of the magic (the empty file included) fails the buffer check yet is taken for a VDEX when the stale stack bytes complete the magic |
| `VdexUtils.IsVdexFile` | src/VDEX/utils.cpp:24-40 | corrected file check: a file that cannot be opened is not a VDEX; otherwise the answer is exactly the buffer check's on the content, short files included |
| `VdexUtils.IsVdexFileAgreesWhereDecided` | src/VDEX/utils.cpp:24-40 | the corrected file check and the code as written agree on every file whose read decides the comparison, for any stale stack bytes |
| `VdexUtils.Version` | src/VDEX/utils.cpp:78-95 | a buffer shorter than 8 bytes gives 0; every result is below 10000, so it fits `vdex_version_t` |
| `VdexUtils.VersionNonDigit` | src/VDEX/utils.cpp:90-94 | a non-digit at any of offsets 4..7, the terminator included, gives 0 |
| `VdexUtils.VersionRoundTrip` | src/VDEX/utils.cpp:83-91 | for any four leading bytes and any trailing bytes, a field holding n in four zero-padded digits reads back as n |
| `VdexUtils.VersionExact` | src/VDEX/utils.cpp:83-94 | a non-zero result n is returned exactly when bytes 4..7 are n in four zero-padded digits |
| `VdexUtils.VersionIgnoresMagic` | src/VDEX/utils.cpp:78-87 | changing bytes 0..3 never changes the result, because the magic is not re-checked |
| `VdexUtils.VersionExamples` | src/VDEX/utils.cpp:78-95 | magic + "0006" gives 6; magic + "006\0" gives 0 |
| `VdexUtils.VersionFile` | src/VDEX/utils.cpp:56-76 | gives 0 when the file cannot be opened or lacks the signature; every result is below 10000 |
| `VdexUtils.VersionFileField` | src/VDEX/utils.cpp:61-66 | after the 5-byte read, the four bytes kept in the field array are bytes 4..7 of the file |
| `VdexUtils.VersionFileNonDigit` | src/VDEX/utils.cpp:68-71 | a non-digit at offset 4, 5 or 6 gives 0 |
| `VdexUtils.VersionFileTerminatedField` | src/VDEX/utils.cpp:63-70 | magic + three digits of n + any non-digit byte (the runtime writes a zero byte) + anything gives n, because the fourth byte is not validated |
| `VdexUtils.VersionFileExact` | src/VDEX/utils.cpp:56-76 | a non-zero result n is returned exactly when the file has the signature and bytes 4..7 are n in four zero-padded digits, or n in three digits followed by a non-digit |
| `VdexUtils.VersionFileAgreesOnDigitField` | src/VDEX/utils.cpp:56-95 | on a file with the signature and four digits in its field, the file and buffer variants agree |
| `VdexUtils.TerminatedFieldDisagreement` | src/VDEX/utils.cpp:68-91 | on magic + "006\0" the buffer variant gives 0 and the file variant gives 6 |
| `VdexUtils.UncheckedSignature` | src/VDEX/utils.cpp:78-81 | four zero bytes + "0006" fails `is_vdex` but the buffer variant still gives 6 |
| `VdexUtils.VersionChecked` | src/VDEX/utils.cpp:56-95 | corrected buffer extraction: gives 0 for every buffer that fails `is_vdex`; every result is below 10000 |
| `VdexUtils.VersionCheckedAgreesWithFile` | src/VDEX/utils.cpp:56-95 | the corrected buffer extraction equals the file variant on the same content |
| `VdexUtils.VersionCheckedReadsBothLayouts` | src/VDEX/utils.cpp:63-91 | the corrected extraction reads both three digits followed by any non-digit and four digits as their values |
| `VdexUtils.LowerBound` | src/VDEX/utils.cpp:103 | `std::map::lower_bound`: returns the table entry with the smallest key not below v, or end when every key is below v |
| `VdexUtils.AndroidVersion` | src/VDEX/utils.cpp:97-105 | v ≤ 6 (the sentinel 0 included) gives 8.0.0; 7..10 gives 8.1.0; above 10 gives unknown |
| `AsciiDecimal.IsDigitIffDigitChar` | src/VDEX/utils.cpp:90 | `::isdigit`, as used at lines 68 and 90, accepts exactly the ten bytes '0' to '9' |
| `AsciiDecimal.DecimalValue` | src/VDEX/utils.cpp:91 | a run of k digits has a value below 10^k |
| `AsciiDecimal.ParseUnsigned` | src/VDEX/utils.cpp:69 | `std::stoul` on a field that starts with a digit: below 10^width, and equal to the decimal value when every byte is a digit |
| `AsciiDecimal.ParseStopsAtNonDigit` | src/VDEX/utils.cpp:69 | conversion stops at the first non-digit, so a terminator and what follows it are never read |
| `AsciiDecimal.LeadingDigits` | src/VDEX/utils.cpp:69 | the longest prefix made of digits: a prefix, all digits, and followed by a non-digit or nothing |
| `AsciiDecimal.DecodeEncode` | src/VDEX/utils.cpp:91 | reading a zero-padded encoding of n gives back n |
| `AsciiDecimal.EncodeDecode` | src/VDEX/utils.cpp:91 | every digit field is the zero-padded encoding of its own value |

## Findings

| source | as written | input that shows it | evidently intended | confidence | as-written member | corrected member |
|---|---|---|---|---|---|---|
| src/VDEX/utils.cpp:90 | the buffer variant checks all four field bytes, including the terminating byte | magic + "006\0" gives 0 from a buffer but 6 from a file | accept the terminated field, as the file variant does, so both variants agree | medium, not executed | `VdexUtils.TerminatedFieldDisagreement` | `VdexUtils.VersionCheckedAgreesWithFile` |
| src/VDEX/utils.cpp:78-81 | the buffer variant never checks the magic | four zero bytes + "0006" gives 6 | return 0 for data without the signature, as the file variant does | medium, not executed | `VdexUtils.UncheckedSignature` | `VdexUtils.VersionChecked` |
| src/VDEX/utils.cpp:27-35 | the file check compares the whole stack array even when the read stopped short, so stale bytes take part | an empty file, with "vdex" left in the array's stack slot, is taken for a VDEX | a short read never matches | medium, not executed | `VdexUtils.ShortFileMatchesStaleScratch` | `VdexUtils.IsVdexFileAgreesWhereDecided` |

`VdexUtils.Version` and `VdexUtils.IsVdexFileAsWritten` model the code as written. `VdexUtils.VersionChecked` and `VdexUtils.IsVdexFile` are the corrected definitions. `VdexUtils.VersionFile` uses the corrected `IsVdexFile` for its signature gate.

## Left out

- Opening and seeking are not modelled. A file is its content as an `Option`, and `ReadAt` gives the bytes a read stores.
- Both opens made by `version(file)` are assumed to see the same content. A file that changes or disappears between them is not modelled.
- The uninitialised stack array of the file signature check is a parameter of `IsVdexFileAsWritten`. The model does not say which values it can hold.
- VersionFile: requires at least 8 bytes when the signature matches. A shorter file leaves field bytes uninitialised, so the result is indeterminate.
- Version: both variants copy or read 5 bytes into the 4-byte `version` array, which is undefined behaviour. The fifth byte is dropped.
- Version: for a buffer of exactly 8 bytes, the copy at src/VDEX/utils.cpp:86 also reads `raw[8]`, one past the end of the vector, because the bound at line 79 is one byte short. The model's field is `raw[4..8]`, so this out-of-bounds read is not represented.
- Version: `std::stoul` runs past the unterminated array, which is undefined behaviour. The value is defined as the leading digits inside the 4-byte field.
- `::isdigit` on bytes 0x80 and above receives a negative `char`, which is undefined behaviour. Those bytes are modelled as non-digits.
- Idempotence needs no lemma. Every operation is a pure function, so equal inputs give equal results.
- The contents of `LIEF/VDEX/Structures.hpp` and the full `LIEF::Android::ANDROID_VERSIONS` enumeration are not part of this model. Only the three values this unit returns are modelled.
