/**
 One ustar header block (the ustar Interchange Format of the pax utility, IEEE Std 1003.1): the fields that the
 archive reader decodes and checks, the header the archive writer lays out, and that the one reads back the other.
 */
module TarHeader {
  import opened Options
  import opened Splitting
  import opened Utf16

  type Bytes = seq<Byte>

  const BLOCK: nat := 512

  datatype HeaderError = Unsupported | BadChecksum | InvalidField | InvalidNumber | LinksUnsupported | InvalidPath

  // ----- decoding fields

  /** `toString('ascii')` drops the high bit. */
  function Masked(b: Byte): Byte { b % 128 }

  predicate IsOctalDigit(b: Byte) { 48 <= b < 56 }

  function OctalValue(digits: Bytes): nat {
    if digits == [] then 0
    else
      var last := digits[|digits| - 1];
      8 * OctalValue(digits[..|digits| - 1]) + if IsOctalDigit(last) then last - 48 else 0
  }

  function LeadingDigits(text: Bytes): (n: nat)
    ensures n <= |text|
  {
    if text != [] && IsOctalDigit(text[0]) then 1 + LeadingDigits(text[1..]) else 0
  }

  function MaskedText(bytes: Bytes): (r: Bytes)
    ensures |r| == |bytes|
  {
    seq(|bytes|, i requires 0 <= i < |bytes| => Masked(bytes[i]))
  }

  /** Digits, then only NULs and spaces; absent when the field is not of that form. */
  function Octal(field: Bytes): Option<nat> {
    var text := MaskedText(field);
    var digits := LeadingDigits(text);
    if digits > 0 && forall i :: digits <= i < |text| ==> text[i] == 0 || text[i] == 32 then Some(OctalValue(text[..digits]))
    else None
  }

  function FirstZero(bytes: Bytes): (n: nat)
    ensures n <= |bytes|
  {
    if bytes == [] || bytes[0] == 0 then 0 else 1 + FirstZero(bytes[1..])
  }

  /** Printable text, then only NULs; absent when the field is not of that form. */
  function Field(bytes: Bytes): Option<Bytes> {
    var end := FirstZero(bytes);
    if (forall i :: end <= i < |bytes| ==> bytes[i] == 0) && (forall i :: 0 <= i < end ==> 32 <= bytes[i] <= 126) then
      Some(bytes[..end])
    else None
  }

  /** Each byte, with the checksum's own field counted as spaces. */
  function SumTo(header: Bytes, n: nat): nat
    requires n <= |header|
  {
    if n == 0 then 0 else SumTo(header, n - 1) + if 148 <= n - 1 < 156 then 32 else header[n - 1]
  }

  function Checksum(header: Bytes): nat { SumTo(header, |header|) }

  const SLASH: Byte := 0x2F
  const BACKSLASH: Byte := 0x5C

  predicate ValidPart(part: Bytes) { part != [] && part != [0x2E] && part != [0x2E, 0x2E] }

  /** Printable, without backslashes, and without empty or dotted parts. */
  predicate ValidPath(path: Bytes) {
    && path != [] && (forall i :: 0 <= i < |path| ==> 32 <= path[i] <= 126 && path[i] != BACKSLASH)
    && forall i :: 0 <= i < |Split(path, SLASH)| ==> ValidPart(Split(path, SLASH)[i])
  }

  datatype Decoded = Decoded(path: Bytes, size: nat) | Refused(error: HeaderError)

  const MAGIC: Bytes := [117, 115, 116, 97, 114, 0]
  const VERSION: Bytes := [48, 48]
  const REGULAR: Byte := 48

  /** The checks on a header, in the order they are made; `room` is whether another entry is allowed. */
  function Decode(header: Bytes, room: bool, previous: Bytes): Decoded
    requires |header| == BLOCK
  {
    if !room || MaskedText(header[257..263]) != MAGIC || MaskedText(header[263..265]) != VERSION || header[156] != REGULAR then
      Refused(Unsupported)
    else
      var checksum := Octal(header[148..156]);
      if checksum.None? then Refused(InvalidNumber)
      else if checksum.value != Checksum(header) then Refused(BadChecksum)
      else
        var link, prefix := Field(header[157..257]), Field(header[345..500]);
        if link.None? then Refused(InvalidField)
        else if link.value != [] then Refused(LinksUnsupported)
        else if prefix.None? then Refused(InvalidField)
        else if prefix.value != [] then Refused(LinksUnsupported)
        else
          var path := Field(header[0..100]);
          if path.None? then Refused(InvalidField)
          else if !ValidPath(path.value) || !Less(previous, path.value) then Refused(InvalidPath)
          else
            var size := Octal(header[124..136]);
            if size.None? then Refused(InvalidNumber) else Decoded(path.value, size.value)
  }

  /** Digits, then only NULs and spaces, when the high bits are dropped. */
  ghost predicate SpellsOctal(field: Bytes, n: nat)
    requires n <= |field|
  {
    && n > 0 && (forall i :: 0 <= i < n ==> '0' as int <= MaskedText(field)[i] <= '7' as int)
    && (forall i :: n <= i < |field| ==> MaskedText(field)[i] == 0 || MaskedText(field)[i] == ' ' as int)
  }

  lemma {:induction false} LeadingIsMost(text: Bytes)
    ensures forall i :: 0 <= i < LeadingDigits(text) ==> IsOctalDigit(text[i])
    ensures LeadingDigits(text) < |text| ==> !IsOctalDigit(text[LeadingDigits(text)])
  {
    if text == [] {
    } else {
      LeadingIsMost(text[1..]);
      assert forall i :: 0 < i < |text| ==> text[i] == text[1..][i - 1];
    }
  }

  /** A numeric field has a value exactly when it is of that form, and then the digits are its value. */
  lemma OctalIff(field: Bytes)
    ensures Octal(field).Some? <==> exists n: nat :: n <= |field| && SpellsOctal(field, n)
    ensures forall n: nat :: n <= |field| && SpellsOctal(field, n) ==> Octal(field) == Some(OctalValue(MaskedText(field)[..n]))
    ensures forall i :: 0 <= i < |field| ==> MaskedText(field)[i] == if field[i] < 128 then field[i] else field[i] - 128
  {
    hide OctalValue, LeadingDigits;
    var text := MaskedText(field);
    LeadingIsMost(text);
    if Octal(field).Some? { assert SpellsOctal(field, LeadingDigits(text)); }
    forall n: nat | n <= |field| && SpellsOctal(field, n) ensures Octal(field) == Some(OctalValue(text[..n])) {
      assert text == text[..n] + text[n..];
      LeadingAll(text[..n], text[n..]);
    }
  }

  /** The entry is a regular ustar file. */
  predicate IsRegular(header: Bytes)
    requires |header| == BLOCK
  {
    MaskedText(header[257..263]) == Ascii("ustar") + [0] && MaskedText(header[263..265]) == Ascii("00") && header[156] == '0' as int
  }

  /** The stored checksum is that of the header, and no link or prefix is given. */
  ghost predicate IsIntact(header: Bytes)
    requires |header| == BLOCK
  {
    Octal(header[148..156]) == Some(Checksum(header)) && Field(header[157..257]) == Some([]) && Field(header[345..500]) == Some([])
  }

  /** A header is decoded exactly when every check passes; a wrong checksum is refused as such. */
  lemma DecodeIff(header: Bytes, room: bool, previous: Bytes, path: Bytes, size: nat)
    requires |header| == BLOCK
    ensures Decode(header, room, previous) == Decoded(path, size) <==>
      && room && IsRegular(header) && IsIntact(header)
      && Field(header[0..100]) == Some(path) && ValidPath(path) && Less(previous, path) && Octal(header[124..136]) == Some(size)
    ensures room && IsRegular(header) && Octal(header[148..156]).Some? && Octal(header[148..156]) != Some(Checksum(header)) ==>
      Decode(header, room, previous) == Refused(BadChecksum)
    ensures !room || !IsRegular(header) ==> Decode(header, room, previous) == Refused(Unsupported)
  {
    hide Octal, Field, ValidPath, Less, Checksum, MaskedText;
    assert Ascii("ustar") + [0] == MAGIC && Ascii("00") == VERSION;
  }

  /** A text field reads as a text exactly when it is that text, printable, and NULs up to its end. */
  lemma FieldIff(bytes: Bytes, text: Bytes)
    ensures Field(bytes) == Some(text) <==>
      && text <= bytes && (forall i :: |text| <= i < |bytes| ==> bytes[i] == 0)
      && (forall i :: 0 <= i < |text| ==> ' ' as int <= text[i] <= '~' as int)
  {
    FirstZeroIsFirst(bytes);
    if text <= bytes && 0 !in text && forall i :: |text| <= i < |bytes| ==> bytes[i] == 0 {
      assert bytes == text + Repeat(0, |bytes| - |text|);
      FirstZeroAfter(text, |bytes| - |text|);
    }
  }

  lemma {:induction false} FirstZeroIsFirst(bytes: Bytes)
    ensures 0 !in bytes[..FirstZero(bytes)] && (FirstZero(bytes) < |bytes| ==> bytes[FirstZero(bytes)] == 0)
  {
    if bytes == [] || bytes[0] == 0 {
    } else {
      FirstZeroIsFirst(bytes[1..]);
      assert bytes[..FirstZero(bytes)] == [bytes[0]] + bytes[1..][..FirstZero(bytes[1..])];
    }
  }

  /** Names that may stand between the slashes of a path. */
  ghost predicate AreNames(parts: seq<Bytes>) {
    parts != [] && forall part :: part in parts ==> '/' as int !in part && part != [] && part != Ascii(".") && part != Ascii("..")
  }

  /** A path is valid exactly when it is printable without backslashes and is such names joined by slashes. */
  lemma ValidPathIff(path: Bytes)
    ensures ValidPath(path) <==>
      && (forall i :: 0 <= i < |path| ==> ' ' as int <= path[i] <= '~' as int && path[i] != '\\' as int)
      && exists parts :: AreNames(parts) && Join(parts, SLASH) == path
  {
    var split := Split(path, SLASH);
    assert Ascii(".") == [0x2E] && Ascii("..") == [0x2E, 0x2E];
    if ValidPath(path) {
      JoinSplit(path, SLASH);
      PartsHaveNone(path, SLASH);
      assert AreNames(split) && Join(split, SLASH) == path;
    }
    forall parts | AreNames(parts) && Join(parts, SLASH) == path
      ensures path != [] && forall i :: 0 <= i < |split| ==> ValidPart(split[i])
    {
      assert forall i :: 0 <= i < |parts| ==> parts[i] in parts;
      SplitJoin(parts, SLASH);
    }
  }

  // ----- writing fields

  /** `toString(8)`. */
  function OctalText(n: nat): (r: Bytes)
    ensures r != []
  {
    if n < 8 then [48 + n] else OctalText(n / 8) + [48 + n % 8]
  }

  function Repeat(b: Byte, n: nat): (r: Bytes)
    ensures |r| == n
  {
    seq(n, i requires 0 <= i < n => b)
  }

  /** `padStart(width, '0')`. */
  function PadStart(text: Bytes, width: nat): Bytes {
    if |text| >= width then text else Repeat(48, width - |text|) + text
  }

  function Power8(n: nat): nat { if n == 0 then 1 else 8 * Power8(n - 1) }

  /** The writer's numeric field; it throws, and is absent, when the digits do not fit. */
  function OctalField(value: nat, length: nat): Option<Bytes> {
    if |OctalText(value)| >= length then None else Some(PadStart(OctalText(value), length - 1) + [0])
  }

  lemma {:induction false} OctalTextFits(n: nat, width: nat)
    requires width >= 1
    ensures |OctalText(n)| <= width <==> n < Power8(width)
    decreases width
  {
    if n >= 8 {
      if width == 1 {
        assert |OctalText(n / 8)| >= 1;
      } else {
        OctalTextFits(n / 8, width - 1);
        assert n / 8 < Power8(width - 1) <==> n < 8 * Power8(width - 1);
      }
    } else {
      PowerPositive(width - 1);
    }
  }

  lemma {:induction false} PowerPositive(n: nat)
    ensures Power8(n) >= 1
  {
    if n == 0 {
    } else {
      PowerPositive(n - 1);
    }
  }

  ghost predicate AllOctal(digits: Bytes) { forall i :: 0 <= i < |digits| ==> IsOctalDigit(digits[i]) }

  lemma {:induction false} OctalTextValue(n: nat)
    ensures AllOctal(OctalText(n)) && OctalValue(OctalText(n)) == n
  {
    if n < 8 {
      assert OctalText(n)[..0] == [];
    } else {
      OctalTextValue(n / 8);
      var t := OctalText(n);
      assert t[..|t| - 1] == OctalText(n / 8);
    }
  }

  lemma {:induction false} ZerosInFront(zeros: nat, text: Bytes)
    ensures OctalValue(Repeat(48, zeros) + text) == OctalValue(text)
    decreases |text|
  {
    var padded := Repeat(48, zeros) + text;
    if text == [] {
      assert padded == Repeat(48, zeros);
      OnlyZeros(zeros);
    } else {
      assert padded[..|padded| - 1] == Repeat(48, zeros) + text[..|text| - 1];
      ZerosInFront(zeros, text[..|text| - 1]);
    }
  }

  lemma {:induction false} OnlyZeros(n: nat)
    ensures OctalValue(Repeat(48, n)) == 0
  {
    if n == 0 {
    } else {
      assert Repeat(48, n)[..n - 1] == Repeat(48, n - 1);
      OnlyZeros(n - 1);
    }
  }

  lemma {:induction false} LeadingAll(digits: Bytes, rest: Bytes)
    requires AllOctal(digits) && (rest == [] || !IsOctalDigit(rest[0]))
    ensures LeadingDigits(digits + rest) == |digits|
  {
    if digits == [] {
      assert digits + rest == rest;
    } else {
      assert (digits + rest)[1..] == digits[1..] + rest;
      assert AllOctal(digits[1..]);
      LeadingAll(digits[1..], rest);
    }
  }

  /** Digits followed by NULs and spaces read as their value. */
  lemma OctalReads(digits: Bytes, rest: Bytes)
    requires digits != [] && AllOctal(digits) && forall i :: 0 <= i < |rest| ==> rest[i] == 0 || rest[i] == 32
    ensures Octal(digits + rest) == Some(OctalValue(digits))
  {
    var field := digits + rest;
    assert MaskedText(field) == field;
    LeadingAll(digits, rest);
    assert field[..|digits|] == digits;
  }

  /** A number that fits its field reads back. */
  lemma OctalFieldReads(value: nat, length: nat)
    requires OctalField(value, length).Some?
    ensures |OctalField(value, length).value| == length && Octal(OctalField(value, length).value) == Some(value)
  {
    var text := OctalText(value);
    var digits := PadStart(text, length - 1);
    OctalTextValue(value);
    if |text| < length - 1 { ZerosInFront(length - 1 - |text|, text); }
    OctalReads(digits, [0]);
  }

  lemma {:induction false} FirstZeroAfter(text: Bytes, zeros: nat)
    requires 0 !in text
    ensures FirstZero(text + Repeat(0, zeros)) == |text|
  {
    var padded := text + Repeat(0, zeros);
    if text == [] {
    } else {
      assert padded[1..] == text[1..] + Repeat(0, zeros);
      FirstZeroAfter(text[1..], zeros);
    }
  }

  /** Printable text padded with NULs reads back. */
  lemma FieldReads(text: Bytes, zeros: nat)
    requires forall i :: 0 <= i < |text| ==> 32 <= text[i] <= 126
    ensures Field(text + Repeat(0, zeros)) == Some(text)
  {
    FirstZeroAfter(text, zeros);
    assert (text + Repeat(0, zeros))[..|text|] == text;
  }

  // ----- the header the writer lays out

  const PATH_BYTES: nat := 100
  const SIZE_FIELD: nat := 12
  const MODE: nat := 420

  function FieldOf(value: nat, length: nat): (r: Bytes)
    ensures OctalField(value, length).Some? ==> |r| == length
  {
    if OctalField(value, length).Some? then
      OctalFieldReads(value, length);
      OctalField(value, length).value
    else []
  }

  /** Byte i of the header with a given checksum field; every field not listed is NUL. */
  function HeaderByte(path: Bytes, size: Bytes, checksum: Bytes, i: nat): Byte
    requires |path| <= PATH_BYTES && |size| == SIZE_FIELD && |checksum| == 8
  {
    if i < 100 then (if i < |path| then path[i] else 0)
    else if i < 108 then DigitAt(MODE, 8, i - 100)
    else if i < 116 then DigitAt(0, 8, i - 108)
    else if i < 124 then DigitAt(0, 8, i - 116)
    else if i < 136 then size[i - 124]
    else if i < 148 then DigitAt(0, 12, i - 136)
    else if i < 156 then checksum[i - 148]
    else if i == 156 then REGULAR
    else if i < 257 then 0
    else if i < 263 then MAGIC[i - 257]
    else if i < 265 then VERSION[i - 263]
    else if i < 329 then 0
    else if i < 337 then DigitAt(0, 8, i - 329)
    else if i < 345 then DigitAt(0, 8, i - 337)
    else 0
  }

  /** A byte of a constant numeric field. */
  function DigitAt(value: nat, length: nat, i: nat): Byte {
    var field := FieldOf(value, length);
    if i < |field| then field[i] else 0
  }

  function HeaderWith(path: Bytes, size: Bytes, checksum: Bytes): (h: Bytes)
    requires |path| <= PATH_BYTES && |size| == SIZE_FIELD && |checksum| == 8
    ensures |h| == BLOCK
  {
    seq(BLOCK, i requires 0 <= i < BLOCK => HeaderByte(path, size, checksum, i))
  }

  const SPACES: Bytes := [32, 32, 32, 32, 32, 32, 32, 32]

  /** Six digits, a NUL and a space. */
  function ChecksumField(sum: nat): Bytes { PadStart(OctalText(sum), 6) + [0, 32] }

  /** The plain sum of the header whose checksum field is still blank. */
  function PlainSum(header: Bytes): nat {
    if header == [] then 0 else PlainSum(header[..|header| - 1]) + header[|header| - 1]
  }

  lemma {:induction false} SumBounded(header: Bytes, n: nat)
    requires n <= |header|
    ensures SumTo(header, n) <= 255 * n
  {
    if n == 0 {
    } else {
      SumBounded(header, n - 1);
    }
  }

  /** The checksum does not depend on its own field. */
  lemma {:induction false} SumIgnoresItself(a: Bytes, b: Bytes, n: nat)
    requires n <= |a| == |b| && forall i :: 0 <= i < |a| && !(148 <= i < 156) ==> a[i] == b[i]
    ensures SumTo(a, n) == SumTo(b, n)
  {
    if n == 0 {
    } else {
      SumIgnoresItself(a, b, n - 1);
    }
  }

  lemma {:induction false} PlainSumIs(header: Bytes, n: nat)
    requires n <= |header| && forall i :: 148 <= i < 156 && i < |header| ==> header[i] == 32
    ensures PlainSum(header[..n]) == SumTo(header, n)
  {
    if n == 0 {
    } else {
      assert header[..n][..n - 1] == header[..n - 1];
      PlainSumIs(header, n - 1);
    }
  }

  function WrittenSum(path: Bytes, size: Bytes): nat
    requires |path| <= PATH_BYTES && |size| == SIZE_FIELD
  {
    PlainSum(HeaderWith(path, size, SPACES))
  }

  lemma WrittenSumFits(path: Bytes, size: Bytes)
    requires |path| <= PATH_BYTES && |size| == SIZE_FIELD
    ensures WrittenSum(path, size) == Checksum(HeaderWith(path, size, SPACES))
    ensures |ChecksumField(WrittenSum(path, size))| == 8
    ensures Octal(ChecksumField(WrittenSum(path, size))) == Some(WrittenSum(path, size))
  {
    hide HeaderByte;
    var blank := HeaderWith(path, size, SPACES);
    BlankBytes(path, size);
    PlainSumIs(blank, BLOCK);
    assert blank[..BLOCK] == blank;
    SumBounded(blank, BLOCK);
    var sum := WrittenSum(path, size);
    assert sum < Power8(6) by { assert Power8(6) == 262144; }
    OctalTextFits(sum, 6);
    OctalTextValue(sum);
    var text := OctalText(sum);
    if |text| < 6 { ZerosInFront(6 - |text|, text); }
    OctalReads(PadStart(text, 6), [0, 32]);
  }

  lemma BlankBytes(path: Bytes, size: Bytes)
    requires |path| <= PATH_BYTES && |size| == SIZE_FIELD
    ensures forall i :: 148 <= i < 156 ==> HeaderWith(path, size, SPACES)[i] == 32
  {
    forall i | 148 <= i < 156 ensures HeaderWith(path, size, SPACES)[i] == 32 {
      assert HeaderWith(path, size, SPACES)[i] == HeaderByte(path, size, SPACES, i) == SPACES[i - 148];
    }
  }

  /** The finished header of a file; absent when the writer refuses its size. */
  function Header(path: Bytes, size: nat): (h: Option<Bytes>)
    requires |path| <= PATH_BYTES
    ensures h.Some? ==> |h.value| == BLOCK
  {
    var field := OctalField(size, SIZE_FIELD);
    if field.None? then None
    else
      OctalFieldReads(size, SIZE_FIELD);
      WrittenSumFits(path, field.value);
      Some(HeaderWith(path, field.value, ChecksumField(WrittenSum(path, field.value))))
  }

  /** The writer refuses exactly the sizes of more than eleven octal digits. */
  lemma HeaderIff(path: Bytes, size: nat)
    requires |path| <= PATH_BYTES
    ensures Header(path, size).Some? <==> size < Power8(11)
  {
    OctalTextFits(size, 11);
  }

  // ----- reading back what was written

  lemma HeaderSlices(path: Bytes, size: Bytes, checksum: Bytes)
    requires |path| <= PATH_BYTES && |size| == SIZE_FIELD && |checksum| == 8
    ensures var h := HeaderWith(path, size, checksum);
      && h[0..100] == path + Repeat(0, 100 - |path|) && h[124..136] == size && h[148..156] == checksum
      && h[156] == REGULAR && h[157..257] == Repeat(0, 100) && h[257..263] == MAGIC && h[263..265] == VERSION
      && h[345..500] == Repeat(0, 155)
  {
    hide DigitAt;
    var h := HeaderWith(path, size, checksum);
    assert forall i :: 0 <= i < BLOCK ==> h[i] == HeaderByte(path, size, checksum, i);
    assert h[0..100] == path + Repeat(0, 100 - |path|);
    assert h[124..136] == size;
    assert h[148..156] == checksum;
    assert h[157..257] == Repeat(0, 100);
    assert h[257..263] == MAGIC;
    assert h[263..265] == VERSION;
    assert h[345..500] == Repeat(0, 155);
  }

  lemma ChecksumWritten(path: Bytes, size: Bytes, checksum: Bytes)
    requires |path| <= PATH_BYTES && |size| == SIZE_FIELD && |checksum| == 8
    ensures Checksum(HeaderWith(path, size, checksum)) == Checksum(HeaderWith(path, size, SPACES))
  {
    hide DigitAt;
    var a, b := HeaderWith(path, size, checksum), HeaderWith(path, size, SPACES);
    forall i | 0 <= i < BLOCK && !(148 <= i < 156) ensures a[i] == b[i] {
      assert a[i] == HeaderByte(path, size, checksum, i) && b[i] == HeaderByte(path, size, SPACES, i);
    }
    SumIgnoresItself(a, b, BLOCK);
  }

  /** A padded number is all digits and keeps its value. */
  lemma OctalFieldDigits(value: nat, width: nat)
    requires |OctalText(value)| <= width
    ensures |PadStart(OctalText(value), width)| == width && AllOctal(PadStart(OctalText(value), width))
    ensures OctalValue(PadStart(OctalText(value), width)) == value
  {
    OctalTextValue(value);
    ZerosInFront(width - |OctalText(value)|, OctalText(value));
    assert Repeat(48, 0) + OctalText(value) == OctalText(value);
  }

  lemma ConstantFields()
    ensures FieldOf(MODE, 8) == Ascii("0000644") + [0]
    ensures FieldOf(0, 8) == Ascii("0000000") + [0]
    ensures FieldOf(0, 12) == Ascii("00000000000") + [0]
  {
    assert OctalText(52) == OctalText(6) + [52] == [54, 52];
    assert OctalText(MODE) == [54, 52, 52];
    assert OctalText(0) == [48];
    assert Repeat(48, 4) + [54, 52, 52] == Ascii("0000644");
    assert Repeat(48, 6) + [48] == Ascii("0000000");
    assert Repeat(48, 10) + [48] == Ascii("00000000000");
  }

  ghost predicate Says(h: Bytes, at: nat, text: Bytes) { at + |text| <= |h| && h[at..at + |text|] == text }

  ghost predicate IsBlank(h: Bytes, start: nat, end: nat)
    requires end <= |h|
  {
    forall i :: start <= i < end ==> h[i] == 0
  }

  lemma ConstantsSaid(path: Bytes, size: Bytes, checksum: Bytes)
    requires |path| <= PATH_BYTES && |size| == SIZE_FIELD && |checksum| == 8
    ensures var h := HeaderWith(path, size, checksum);
      && Says(h, 100, Ascii("0000644") + [0]) && Says(h, 108, Ascii("0000000") + [0]) && Says(h, 116, Ascii("0000000") + [0])
      && Says(h, 136, Ascii("00000000000") + [0]) && Says(h, 329, Ascii("0000000") + [0]) && Says(h, 337, Ascii("0000000") + [0])
      && IsBlank(h, 265, 329) && IsBlank(h, 345, 512)
  {
    hide FieldOf, Ascii;
    ConstantFields();
    var h := HeaderWith(path, size, checksum);
    assert forall i :: 0 <= i < BLOCK ==> h[i] == HeaderByte(path, size, checksum, i);
  }

  lemma OthersSaid(path: Bytes, size: Bytes, checksum: Bytes)
    requires |path| <= PATH_BYTES && |size| == SIZE_FIELD && |checksum| == 8
    ensures var h := HeaderWith(path, size, checksum);
      && Says(h, 0, path) && Says(h, 156, Ascii("0")) && Says(h, 257, Ascii("ustar") + [0] + Ascii("00"))
      && IsBlank(h, |path|, 100) && IsBlank(h, 157, 257)
      && h[124..135] == size[..11] && h[135] == size[11] && h[148..154] == checksum[..6] && h[154..156] == checksum[6..]
  {
    hide DigitAt;
    var h := HeaderWith(path, size, checksum);
    assert Ascii("ustar") + [0] + Ascii("00") == MAGIC + VERSION && Ascii("0") == [REGULAR];
    assert forall i :: 0 <= i < BLOCK ==> h[i] == HeaderByte(path, size, checksum, i);
  }

  /** The header byte by byte: its constant fields, the path, and the digits and terminators of size and checksum. */
  lemma HeaderSays(path: Bytes, size: nat)
    requires |path| <= PATH_BYTES && Header(path, size).Some?
    ensures var h := Header(path, size).value;
      && Says(h, 0, path) && Says(h, 100, Ascii("0000644") + [0]) && Says(h, 108, Ascii("0000000") + [0])
      && Says(h, 116, Ascii("0000000") + [0]) && Says(h, 136, Ascii("00000000000") + [0]) && Says(h, 156, Ascii("0"))
      && Says(h, 257, Ascii("ustar") + [0] + Ascii("00")) && Says(h, 329, Ascii("0000000") + [0]) && Says(h, 337, Ascii("0000000") + [0])
      && IsBlank(h, |path|, 100) && IsBlank(h, 157, 257) && IsBlank(h, 265, 329) && IsBlank(h, 345, 512)
      && AllOctal(h[124..135]) && OctalValue(h[124..135]) == size && h[135] == 0
      && AllOctal(h[148..154]) && OctalValue(h[148..154]) == Checksum(h) && h[154] == 0 && h[155] == ' ' as int
  {
    hide HeaderWith, WrittenSum, OctalText, Checksum, OctalValue, Says, IsBlank, AllOctal, Octal, Ascii;
    var field := OctalField(size, SIZE_FIELD).value;
    var sum := WrittenSum(path, field);
    WrittenSumFits(path, field);
    ChecksumWritten(path, field, ChecksumField(sum));
    OctalFieldReads(size, SIZE_FIELD);
    ConstantsSaid(path, field, ChecksumField(sum));
    OthersSaid(path, field, ChecksumField(sum));
    OctalFieldDigits(size, 11);
    OctalFieldDigits(sum, 6);
  }

  /** The reader decodes what the writer wrote. */
  lemma HeaderRoundTrip(path: Bytes, size: nat, previous: Bytes)
    requires |path| <= PATH_BYTES && ValidPath(path) && Less(previous, path) && Header(path, size).Some?
    ensures Decode(Header(path, size).value, true, previous) == Decoded(path, size)
  {
    hide HeaderWith, ValidPath, Less, Octal, Field, Checksum, WrittenSum, ChecksumField, OctalField;
    var field := OctalField(size, SIZE_FIELD).value;
    OctalFieldReads(size, SIZE_FIELD);
    WrittenSumFits(path, field);
    var checksum := ChecksumField(WrittenSum(path, field));
    HeaderSlices(path, field, checksum);
    ChecksumWritten(path, field, checksum);
    assert MaskedText(MAGIC) == MAGIC && MaskedText(VERSION) == VERSION;
    assert [] + Repeat(0, 100) == Repeat(0, 100) && [] + Repeat(0, 155) == Repeat(0, 155);
    FieldReads([], 100);
    FieldReads([], 155);
    assert forall i :: 0 <= i < |path| ==> 32 <= path[i] <= 126 by { PrintablePath(path); }
    FieldReads(path, 100 - |path|);
  }

  lemma PrintablePath(path: Bytes)
    requires ValidPath(path)
    ensures forall i :: 0 <= i < |path| ==> 32 <= path[i] <= 126
  {
  }

  /** A header is never mistaken for a terminator block. */
  lemma HeaderIsNotZero(path: Bytes, size: nat)
    requires |path| <= PATH_BYTES && Header(path, size).Some?
    ensures Header(path, size).value[156] != 0
  {
    hide HeaderByte, ChecksumField, WrittenSum;
    var field := OctalField(size, SIZE_FIELD).value;
    OctalFieldReads(size, SIZE_FIELD);
    WrittenSumFits(path, field);
    HeaderSlices(path, field, ChecksumField(WrittenSum(path, field)));
  }
}
