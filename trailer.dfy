/**
 * The store-path trailer that the patcher binary writes at the tail of an
 * executable: `<path bytes><8 upper-case hex digits = path length>`.
 *
 * `Locate` is the locating step of the patcher (scan back to the last ASCII hex
 * digit, read the 8-byte length field ending there, compute where the old path
 * starts); `Patched` is the file content the patcher leaves behind; and
 * `ExeFile.PatchTrailer` performs the same sequence step by step on a file
 * handle (content plus cursor). Every `u64`/`u32` underflow or overflow of the
 * source is reported as an error here.
 */
module Trailer {
  import opened Common
  import Utf8

  /** Width of the length field (`{:08X}`). */
  const LEN_FIELD_WIDTH: nat := 8
  const U32_MAX: int := 0xFFFF_FFFF
  const I32_MAX: int := 0x7FFF_FFFF
  const I32_MIN: int := -0x8000_0000

  datatype PatchError =
    | SeekBeforeStart      // `seek(End(-1))` on an empty file
    | IndexUnderflow       // a `u64` index went below zero
    | LenFieldNotUtf8      // `str::from_utf8` on the length field failed
    | LenFieldNotI32       // `i32::from_str_radix(_, 16)` failed
    | AbsOverflow          // `i32::abs` of `i32::MIN`; an 8-byte field never gets here (FieldNeverI32Min)
    | PathTooLong          // `u32::try_from` of the new path length failed
    | LenSumOverflow       // `new_cfg_path_len + 8` overflowed `u32`

  datatype Location = Location(pathStart: nat, dataEnd: nat)

  // ---------------------------------------------------------------- hex digits

  predicate IsAsciiHexDigit(b: byte) {
    (48 <= b <= 57) || (65 <= b <= 70) || (97 <= b <= 102)
  }

  predicate AllHexDigits(s: Bytes) {
    forall i :: 0 <= i < |s| ==> IsAsciiHexDigit(s[i])
  }

  function DigitValue(b: byte): (v: nat)
    requires IsAsciiHexDigit(b)
    ensures v < 16
  {
    if b <= 57 then (b - 48) as nat
    else if b <= 70 then (b - 55) as nat
    else (b - 87) as nat
  }

  /** Value of a string of hex digits, most significant first. */
  function HexValue(s: Bytes): nat
    requires AllHexDigits(s)
  {
    if s == [] then 0 else HexValue(s[..|s| - 1]) * 16 + DigitValue(s[|s| - 1])
  }

  function Pow16(w: nat): (p: nat)
    ensures p > 0
  {
    if w == 0 then 1 else 16 * Pow16(w - 1)
  }

  function UpperHexDigit(d: nat): (b: byte)
    requires d < 16
    ensures IsAsciiHexDigit(b) && DigitValue(b) == d && b < 97
  {
    if d < 10 then (48 + d) as byte else (55 + d) as byte
  }

  /** The `w` low hex digits of `n`, upper case, zero padded. */
  function HexDigits(n: nat, w: nat): (s: Bytes)
    ensures |s| == w && AllHexDigits(s)
    ensures forall i :: 0 <= i < |s| ==> s[i] < 97
  {
    if w == 0 then [] else HexDigits(n / 16, w - 1) + [UpperHexDigit(n % 16)]
  }

  lemma {:induction false} HexDigitsValue(n: nat, w: nat)
    requires n < Pow16(w)
    ensures HexValue(HexDigits(n, w)) == n
  {
    if w > 0 {
      var s := HexDigits(n, w);
      assert s[..|s| - 1] == HexDigits(n / 16, w - 1);
      HexDigitsValue(n / 16, w - 1);
    }
  }

  /** `format!("{:08X}", n)` for a `u32` `n`. */
  function LenField(n: nat): (s: Bytes)
    requires n <= U32_MAX
    ensures |s| == LEN_FIELD_WIDTH && AllHexDigits(s)
    ensures forall i :: 0 <= i < |s| ==> s[i] < 97
    ensures HexValue(s) == n
  {
    assert Pow16(8) == U32_MAX + 1;
    HexDigitsValue(n, 8);
    HexDigits(n, 8)
  }

  // ---------------------------------------------------------- locating a trailer

  /**
   * `seek_data_end`: the highest index at or below `idx` holding an ASCII hex
   * digit; running below index 0 is the `idx - 1` underflow.
   */
  function SeekDataEnd(file: Bytes, idx: nat): (r: Result<nat, PatchError>)
    requires idx < |file|
    ensures r.Ok? ==> r.value <= idx && IsAsciiHexDigit(file[r.value])
    ensures r.Ok? ==> forall j :: r.value < j <= idx ==> !IsAsciiHexDigit(file[j])
    ensures r.Err? ==> r.error == IndexUnderflow
    ensures r.Err? ==> forall j :: 0 <= j <= idx ==> !IsAsciiHexDigit(file[j])
    decreases idx
  {
    if IsAsciiHexDigit(file[idx]) then Ok(idx)
    else if idx == 0 then Err(IndexUnderflow)
    else SeekDataEnd(file, idx - 1)
  }

  /** The digits of a length field: what follows a leading `+` or `-`. */
  function Unsigned(s: Bytes): Bytes {
    if |s| > 0 && (s[0] == 43 || s[0] == 45) then s[1..] else s
  }

  /** The syntax `from_str_radix` accepts: an optional sign, then one or more hex digits. */
  predicate HexSyntax(s: Bytes) {
    Unsigned(s) != [] && AllHexDigits(Unsigned(s))
  }

  /** The signed value of a field of that syntax. */
  function SignedValue(s: Bytes): int
    requires HexSyntax(s)
  {
    var v: int := HexValue(Unsigned(s));
    if s[0] == 45 then -v else v
  }

  /**
   * `str::from_utf8` followed by `i32::from_str_radix(_, 16)`: bytes that are
   * not UTF-8 are the first error; then an optional sign, one or more hex
   * digits of either case, and a value within the `i32` range.
   */
  function ParseI32Hex(s: Bytes): (r: Result<int, PatchError>)
    ensures !Utf8.Valid(s) ==> r == Err(LenFieldNotUtf8)
    ensures Utf8.Valid(s) && r.Err? ==> r.error == LenFieldNotI32
    ensures r.Ok? && AllHexDigits(s) ==> r.value == HexValue(s)
  {
    if !Utf8.Valid(s) then Err(LenFieldNotUtf8)
    else if |s| == 0 then Err(LenFieldNotI32)
    else
      var signed := s[0] == 43 || s[0] == 45;   // '+' or '-'
      var digits := if signed then s[1..] else s;
      if digits == [] || !AllHexDigits(digits) then Err(LenFieldNotI32)
      else if s[0] == 45 then
        var v: int := HexValue(digits);
        if v > -I32_MIN then Err(LenFieldNotI32) else Ok(-v)
      else
        if HexValue(digits) > I32_MAX then Err(LenFieldNotI32) else Ok(HexValue(digits))
  }

  /**
   * Which UTF-8 length fields `from_str_radix` accepts, and their value: an
   * optional sign, then one or more hex digits whose signed value is an `i32`.
   */
  lemma ParseI32HexSpec(s: Bytes)
    ensures Utf8.Valid(s) ==>
      (ParseI32Hex(s).Ok? <==> HexSyntax(s) && I32_MIN <= SignedValue(s) <= I32_MAX)
    ensures ParseI32Hex(s).Ok? ==> ParseI32Hex(s).value == SignedValue(s)
  {
  }

  /** `w` hex digits stay below `16^w`. */
  lemma {:induction false} HexValueBound(s: Bytes)
    requires AllHexDigits(s)
    ensures HexValue(s) < Pow16(|s|)
  {
    if s != [] {
      HexValueBound(s[..|s| - 1]);
    }
  }

  /**
   * A field of 8 bytes never parses to `i32::MIN`: a `-` leaves 7 digits,
   * which stay below 16^7, so the `abs` overflow in locating cannot happen.
   */
  lemma FieldNeverI32Min(s: Bytes)
    requires |s| == LEN_FIELD_WIDTH
    ensures ParseI32Hex(s) != Ok(I32_MIN)
  {
    if ParseI32Hex(s).Ok? && s[0] == 45 {
      HexValueBound(s[1..]);
      assert Pow16(7) == 268435456;
    }
  }

  /** A byte after the sign that is not a hex digit rejects the field. */
  lemma NonHexByteRejected(s: Bytes, i: nat)
    requires Utf8.Valid(s) && i < |Unsigned(s)| && !IsAsciiHexDigit(Unsigned(s)[i])
    ensures ParseI32Hex(s) == Err(LenFieldNotI32)
  {
    ParseI32HexSpec(s);
  }

  function Abs(v: int): nat { if v < 0 then -v else v }

  /**
   * The locating steps of the patcher: the field end, the 8-byte length field
   * ending there (read at `data_end - 7`), and the old path's start
   * `data_end - (7 + |len|)`.
   */
  function Locate(file: Bytes): (r: Result<Location, PatchError>)
    ensures r.Ok? ==> r.value.pathStart + 7 <= r.value.dataEnd < |file|
  {
    if |file| == 0 then Err(SeekBeforeStart)
    else
      match SeekDataEnd(file, |file| - 1)
      case Err(e) => Err(e)
      case Ok(dataEnd) =>
        if dataEnd < 7 then Err(IndexUnderflow)
        else
          match ParseI32Hex(file[dataEnd - 7 .. dataEnd + 1])
          case Err(e) => Err(e)
          case Ok(v) =>
            if v == I32_MIN then Err(AbsOverflow)
            else if dataEnd < 7 + Abs(v) then Err(IndexUnderflow)
            else Ok(Location(dataEnd - (7 + Abs(v)), dataEnd))
  }

  /**
   * Where a located trailer lies: its length field ends at the last hex digit
   * of the file, the 8 bytes read from 7 before it parse as the length, and
   * the old path starts 7 + abs(length) bytes before the field's end.
   */
  lemma LocateSpec(file: Bytes)
    requires Locate(file).Ok?
    ensures var loc := Locate(file).value;
      && SeekDataEnd(file, |file| - 1) == Ok(loc.dataEnd)
      && loc.dataEnd >= 7
      && ParseI32Hex(file[loc.dataEnd - 7 .. loc.dataEnd + 1]).Ok?
      && loc.pathStart == loc.dataEnd - 7 - Abs(ParseI32Hex(file[loc.dataEnd - 7 .. loc.dataEnd + 1]).value)
  {
  }

  /**
   * Every way locating fails: an empty file, no hex digit, a field end below
   * index 7, a field that does not parse, or a path start below 0. The
   * `i32::MIN` branch is listed for completeness; FieldNeverI32Min shows that
   * an 8-byte field never reaches it.
   */
  lemma LocateFails(file: Bytes)
    ensures |file| == 0 ==> Locate(file) == Err(SeekBeforeStart)
    ensures |file| > 0 && SeekDataEnd(file, |file| - 1).Err? ==> Locate(file) == Err(IndexUnderflow)
    ensures |file| > 0 && SeekDataEnd(file, |file| - 1).Ok? ==>
      var dataEnd := SeekDataEnd(file, |file| - 1).value;
      && (dataEnd < 7 ==> Locate(file) == Err(IndexUnderflow))
      && (dataEnd >= 7 ==>
            var field := ParseI32Hex(file[dataEnd - 7 .. dataEnd + 1]);
            && (field.Err? ==> Locate(file) == Err(field.error))
            && (field == Ok(I32_MIN) ==> Locate(file) == Err(AbsOverflow))
            && (field.Ok? && field.value != I32_MIN && dataEnd < 7 + Abs(field.value) ==>
                  Locate(file) == Err(IndexUnderflow)))
  {
  }

  /** The stored path, as far as the locating step defines it: the bytes between the path start and the length field. */
  function ReadTrailer(file: Bytes): (r: Result<Bytes, PatchError>)
  {
    match Locate(file)
    case Err(e) => Err(e)
    case Ok(loc) => Ok(file[loc.pathStart .. loc.dataEnd - 7])
  }

  // ----------------------------------------------------------------- patching

  /** The file content after the patcher ran with `newPath`. */
  function Patched(file: Bytes, newPath: Bytes): (r: Result<Bytes, PatchError>)
  {
    match Locate(file)
    case Err(e) => Err(e)
    case Ok(loc) =>
      if |newPath| > U32_MAX then Err(PathTooLong)
      else if |newPath| + LEN_FIELD_WIDTH > U32_MAX then Err(LenSumOverflow)
      else Ok(file[..loc.pathStart] + newPath + LenField(|newPath|))
  }

  /** File primitives on the content of an open file. */
  function SetLen(content: Bytes, n: nat): (r: Bytes)
    ensures |r| == n
    ensures n <= |content| ==> r == content[..n]
    ensures n > |content| ==> r[..|content|] == content
  {
    if n <= |content| then content[..n] else content + seq(n - |content|, _ => 0 as byte)
  }

  function WriteAt(content: Bytes, pos: nat, data: Bytes): (r: Bytes)
    requires pos <= |content|
    ensures |r| == if pos + |data| <= |content| then |content| else pos + |data|
    ensures r[..pos] == content[..pos] && r[pos..pos + |data|] == data
  {
    content[..pos] + data + (if pos + |data| <= |content| then content[pos + |data|..] else [])
  }

  /** An executable opened read/write: its content and the handle's cursor. */
  class ExeFile {
    var content: Bytes
    var cursor: nat

    constructor (content: Bytes)
      ensures this.content == content && cursor == 0
    {
      this.content := content;
      cursor := 0;
    }

    /**
     * The positional reads of the locating step (`read_exact_at` does not
     * move the cursor): `seek_data_end` from `fileEndIdx`, then the length
     * field and the old path's start.
     */
    /** `seek_data_end`: read one byte at a time, moving backwards from `idx`. */
    method SeekBack(idx: nat) returns (r: Result<nat, PatchError>)
      requires idx < |content|
      ensures r == SeekDataEnd(content, idx)
    {
      var i: nat := idx;
      while !IsAsciiHexDigit(content[i])
        invariant i <= idx
        invariant SeekDataEnd(content, idx) == SeekDataEnd(content, i)
        decreases i
      {
        if i == 0 {
          return Err(IndexUnderflow);
        }
        i := i - 1;
      }
      r := Ok(i);
    }

    method LocateFrom(fileEndIdx: nat) returns (r: Result<Location, PatchError>)
      requires fileEndIdx == |content| - 1
      ensures r == Locate(content)
    {
      var dataEnd := SeekBack(fileEndIdx);
      if dataEnd.Err? {
        return Err(dataEnd.error);
      }
      var dataEndIdx := dataEnd.value;

      // read the 8-byte length field ending at data_end
      if dataEndIdx < 7 {
        return Err(IndexUnderflow);
      }
      var pathLenBuf := content[dataEndIdx - 7 .. dataEndIdx + 1];
      var parsed := ParseI32Hex(pathLenBuf);
      if parsed.Err? {
        return Err(parsed.error);
      }
      var pathLenInt := parsed.value;
      if pathLenInt == I32_MIN {
        // unreachable for an 8-byte field: FieldNeverI32Min
        return Err(AbsOverflow);
      }
      if dataEndIdx < 7 + Abs(pathLenInt) {
        return Err(IndexUnderflow);
      }
      LocateOk(content, dataEndIdx, pathLenInt);
      r := Ok(Location(dataEndIdx - (7 + Abs(pathLenInt)), dataEndIdx));
    }

    /**
     * The patcher's locate/parse/patch sequence on this file. On success the
     * content is exactly `Patched(old(content), newCfgPath)`; every failure
     * happens before the file is resized, so it leaves the content unchanged.
     */
    method PatchTrailer(newCfgPath: Bytes) returns (r: Result<(), PatchError>)
      modifies this
      ensures r.Ok? <==> Patched(old(content), newCfgPath).Ok?
      ensures r.Ok? ==> content == Patched(old(content), newCfgPath).value
      ensures r.Err? ==> r.error == Patched(old(content), newCfgPath).error
      ensures r.Err? ==> content == old(content)
    {
      // seek(End(-1))
      if |content| == 0 {
        return Err(SeekBeforeStart);
      }
      var fileEndIdx := |content| - 1;
      cursor := fileEndIdx;

      var located := LocateFrom(fileEndIdx);
      if located.Err? {
        return Err(located.error);
      }
      // seek(Start(path_start))
      var pathStartIdx := located.value.pathStart;
      cursor := pathStartIdx;

      // new length field
      if |newCfgPath| > U32_MAX {
        return Err(PathTooLong);
      }
      var hexstr := LenField(|newCfgPath|);
      if |newCfgPath| + |hexstr| > U32_MAX {
        return Err(LenSumOverflow);
      }
      var totalNewPathLen := |newCfgPath| + |hexstr|;

      // set_len, then write_all at the cursor
      var appendData := newCfgPath + hexstr;
      var resized := SetLen(content, pathStartIdx + totalNewPathLen);
      var written := WriteAt(resized, cursor, appendData);
      assert written == Patched(content, newCfgPath).value by {
        PatchedOfLocated(content, located.value, newCfgPath);
        assert content[..pathStartIdx] + appendData == content[..pathStartIdx] + newCfgPath + hexstr;
        SetLenThenWrite(content, pathStartIdx, appendData);
      }
      content := resized;
      content := written;
      cursor := cursor + |appendData|;
      r := Ok(());
    }
  }

  /** Truncating (or extending) to `start + |data|`, then writing `data` at `start`. */
  lemma SetLenThenWrite(content: Bytes, start: nat, data: Bytes)
    requires start <= |content|
    ensures WriteAt(SetLen(content, start + |data|), start, data) == content[..start] + data
  {
    var t := SetLen(content, start + |data|);
    assert t[..start] == content[..start];
  }

  // ------------------------------------------------------------------ lemmas

  /** An empty file has no last byte to seek to. */
  lemma EmptyFileFails(newPath: Bytes)
    ensures Patched([], newPath) == Err(SeekBeforeStart)
  {
  }

  /** A file without any ASCII hex digit runs the backward scan below index 0. */
  lemma NoHexDigitFails(file: Bytes, newPath: Bytes)
    requires |file| > 0
    requires forall i :: 0 <= i < |file| ==> !IsAsciiHexDigit(file[i])
    ensures Patched(file, newPath) == Err(IndexUnderflow)
  {
  }

  /** The length field ends at the last hex digit of the file; anything after it is skipped. */
  lemma LocateFindsLastHexDigit(file: Bytes)
    requires Locate(file).Ok?
    ensures IsAsciiHexDigit(file[Locate(file).value.dataEnd])
    ensures forall j :: Locate(file).value.dataEnd < j < |file| ==> !IsAsciiHexDigit(file[j])
  {
  }

  /** A new path longer than `u32::MAX` bytes is rejected, once a trailer was located. */
  lemma LongPathRejected(file: Bytes, newPath: Bytes)
    requires Locate(file).Ok? && |newPath| > U32_MAX
    ensures Patched(file, newPath) == Err(PathTooLong)
  {
  }

  /**
   * Layout after patching: everything before the old path start is kept, then
   * the new path, then its length as 8 upper-case hex digits; the old path,
   * the old length field and any trailing bytes are gone.
   */
  lemma PatchedLayout(file: Bytes, newPath: Bytes)
    requires Patched(file, newPath).Ok?
    ensures var out := Patched(file, newPath).value;
      var start := Locate(file).value.pathStart;
      && |out| == start + |newPath| + LEN_FIELD_WIDTH
      && out[..start] == file[..start]
      && out[start .. start + |newPath|] == newPath
      && HexValue(out[start + |newPath|..]) == |newPath|
      && AllHexDigits(out[start + |newPath|..])
  {
    var out := Patched(file, newPath).value;
    var start := Locate(file).value.pathStart;
    assert out[start + |newPath|..] == LenField(|newPath|);
  }

  /** The length field just written parses back as the path length. */
  lemma LenFieldParses(n: nat)
    requires n <= I32_MAX
    ensures ParseI32Hex(LenField(n)) == Ok(n)
  {
    var s := LenField(n);
    Utf8.AsciiIsValid(s);
  }

  /** Locating succeeds when the field end is found, its field parses, and the path start is not below 0. */
  lemma LocateOk(file: Bytes, dataEnd: nat, v: int)
    requires |file| > 0 && SeekDataEnd(file, |file| - 1) == Ok(dataEnd) && dataEnd >= 7
    requires ParseI32Hex(file[dataEnd - 7 .. dataEnd + 1]) == Ok(v) && v != I32_MIN && dataEnd >= 7 + Abs(v)
    ensures Locate(file) == Ok(Location(dataEnd - (7 + Abs(v)), dataEnd))
  {
  }

  /** Locating succeeds from a hex digit at the file's end whose 8-byte field parses to a short enough length. */
  lemma LocateAtEnd(file: Bytes, v: int)
    requires |file| >= 8 && IsAsciiHexDigit(file[|file| - 1])
    requires ParseI32Hex(file[|file| - 8 ..]) == Ok(v) && v != I32_MIN && |file| - 1 >= 7 + Abs(v)
    ensures Locate(file) == Ok(Location(|file| - 8 - Abs(v), |file| - 1))
  {
    assert file[|file| - 8 .. |file|] == file[|file| - 8 ..];
    LocateOk(file, |file| - 1, v);
  }

  /** Locating the trailer of a file of the shape `prefix + path + LenField(|path|)`. */
  lemma LocateOwnOutput(prefix: Bytes, path: Bytes)
    requires |path| <= I32_MAX
    ensures Locate(prefix + path + LenField(|path|)) == Ok(Location(|prefix|, |prefix| + |path| + 7))
  {
    var field := LenField(|path|);
    var g := prefix + path + field;
    assert g[|g| - 8 ..] == field;
    LenFieldParses(|path|);
    LocateAtEnd(g, |path|);
  }

  /** A patched file is the kept prefix, the new path and its length field. */
  lemma PatchedOk(file: Bytes, newPath: Bytes)
    requires Patched(file, newPath).Ok?
    ensures Locate(file).Ok? && |newPath| + LEN_FIELD_WIDTH <= U32_MAX
    ensures Patched(file, newPath).value == file[..Locate(file).value.pathStart] + newPath + LenField(|newPath|)
  {
  }

  /** Patching a file whose trailer was located at `loc`. */
  lemma PatchedOfLocated(file: Bytes, loc: Location, newPath: Bytes)
    requires Locate(file) == Ok(loc) && |newPath| + LEN_FIELD_WIDTH <= U32_MAX
    ensures Patched(file, newPath) == Ok(file[..loc.pathStart] + newPath + LenField(|newPath|))
  {
  }

  /** Round trip: reading the trailer of a patched file yields exactly the new path. */
  lemma PatchRoundTrip(file: Bytes, newPath: Bytes)
    requires Patched(file, newPath).Ok?
    requires |newPath| <= I32_MAX
    ensures ReadTrailer(Patched(file, newPath).value) == Ok(newPath)
  {
    PatchedOk(file, newPath);
    var prefix := file[..Locate(file).value.pathStart];
    var g := prefix + newPath + LenField(|newPath|);
    LocateOwnOutput(prefix, newPath);
    assert g[|prefix| .. |prefix| + |newPath|] == newPath;
  }

  /** Relocating twice to the same path gives the same bytes as relocating once. */
  lemma PatchIdempotent(file: Bytes, newPath: Bytes)
    requires Patched(file, newPath).Ok?
    requires |newPath| <= I32_MAX
    ensures Patched(Patched(file, newPath).value, newPath) == Patched(file, newPath)
  {
    PatchedOk(file, newPath);
    var prefix := file[..Locate(file).value.pathStart];
    var g := prefix + newPath + LenField(|newPath|);
    LocateOwnOutput(prefix, newPath);
    PatchedOfLocated(g, Location(|prefix|, |prefix| + |newPath| + 7), newPath);
    assert g[..|prefix|] == prefix;
  }

  /**
   * The writer accepts lengths up to `u32` range but the reader parses an
   * `i32`: a path of 2^31 bytes or more is written, and the next relocation
   * of that file then fails on its own length field.
   */
  lemma LongPathNotReRead(file: Bytes, newPath: Bytes)
    requires Patched(file, newPath).Ok?
    requires |newPath| > I32_MAX
    ensures Patched(Patched(file, newPath).value, newPath) == Err(LenFieldNotI32)
  {
    PatchedOk(file, newPath);
    var prefix := file[..Locate(file).value.pathStart];
    LocateLongOutput(prefix, newPath);
  }

  /** The patcher's own output with a length of 2^31 or more does not parse back. */
  lemma LocateLongOutput(prefix: Bytes, path: Bytes)
    requires I32_MAX < |path| <= U32_MAX
    ensures Locate(prefix + path + LenField(|path|)) == Err(LenFieldNotI32)
  {
    var field := LenField(|path|);
    var g := prefix + path + field;
    var dataEnd := |g| - 1;
    assert SeekDataEnd(g, dataEnd) == Ok(dataEnd) by {
      assert g[dataEnd] == field[7];
    }
    assert ParseI32Hex(g[dataEnd - 7 .. dataEnd + 1]) == Err(LenFieldNotI32) by {
      assert g[dataEnd - 7 .. dataEnd + 1] == field;
      Utf8.AsciiIsValid(field);
      assert Unsigned(field) == field;
    }
  }
}
