/** The DPL image upload (backend/device_controller/printers/dpl/upload_image.py):
    `build_dpl_image_upload_commands` picks a format designator from the file's
    suffix, sanitises the stored name, and sends an optional `<SOH>D<CR>` prefix,
    the `<STX>I` header and the payload, raw or as upper-case hex. The file system
    and the raster conversion are inputs here: whether the file exists, its bytes,
    and the bytes the conversion would produce. None stands for the ValueError,
    FileNotFoundError, IndexError or UnicodeEncodeError the builder raises. */
module ImageUpload {
  import opened Common
  import opened ControlCodes
  import opened DplNames
  import FontUpload

  /** The longest stored image name, and the name used when nothing is left. */
  const NameLimit: nat := 16
  const DefaultName: string := "IMAGE"

  /** The arguments of `build_dpl_image_upload_commands`; `imageName` "" stands for
      None as well, since both are falsy. */
  datatype Request = Request(
    path: string, memModule: string, imageName: string, dialect: int,
    asciiHex: bool, includeSohDisable: bool, threshold: int, maxWidth: int, maxHeight: int)

  /** What the file system and the raster conversion give for the request's path. */
  datatype ImageFile = ImageFile(isFile: bool, content: seq<Byte>, converted: seq<Byte>)

  /** The format designator for a lower-cased suffix, and whether the image is
      converted to BMP first; None for an unsupported suffix. */
  function FormatOf(ext: string): (r: Option<(char, bool)>)
    ensures r.Some? ==> r.value.0 == 'b' || r.value.0 == 'p' || r.value.0 == 'i'
    ensures r.Some? ==> ext in Formats
  {
    if ext == ".png" || ext == ".jpg" || ext == ".jpeg" then Some(('b', true))
    else if ext == ".bmp" then Some(('b', false))
    else if ext == ".pcx" then Some(('p', false))
    else if ext == ".img" then Some(('i', false))
    else None
  }

  /** The suffixes the builder accepts. */
  const Formats: seq<string> := [".png", ".jpg", ".jpeg", ".bmp", ".pcx", ".img"]

  /** The argument checks of `convert_raster_to_monochrome_bmp_bytes`; the pixel
      work itself is the `converted` input. */
  predicate ConversionArgsOk(threshold: int, maxWidth: int, maxHeight: int)
  {
    0 <= threshold <= 255 && maxWidth > 0 && maxHeight > 0
  }

  /** `bytes.hex().upper()`: two upper-case hex digits per byte. */
  function HexUpper(b: seq<Byte>): (h: string)
    ensures AllHexDigits(h) && IsAscii(h)
  {
    if b == [] then []
    else
      HexPadFacts(b[0], 2);
      HexPad(b[0], 2) + HexUpper(b[1..])
  }

  /** The stored name: the given name or else the stem, sanitised, truncated, or IMAGE. */
  function ImageName(r: Request): (n: string)
    ensures n != [] && |n| <= NameLimit && IsName(n) && IsAscii(n)
  {
    var raw := if r.imageName != "" then r.imageName else Stem(r.path);
    SafeNameFacts(raw, NameLimit, DefaultName);
    SafeName(raw, NameLimit, DefaultName)
  }

  /** `<STX> I module [A] format name <CR>`. */
  function Header(c: Codes, memModule: seq<Byte>, asciiHex: bool, format: char, name: string): seq<Byte>
    requires format as int < 0x80 && IsAscii(name)
  {
    [c.stx, 'I' as int] + memModule + (if asciiHex then ['A' as int] else []) + [format as int]
      + AsciiBytes(name) + [c.cr]
  }

  /** `<SOH>D<CR>` when the SOH disable is asked for and the data is raw. */
  function Prefix(c: Codes, asciiHex: bool, includeSohDisable: bool): seq<Byte>
  {
    if includeSohDisable && !asciiHex then [c.soh, 'D' as int, c.cr] else []
  }

  /** The image bytes, raw or as upper-case hex text. */
  function Payload(image: seq<Byte>, asciiHex: bool): seq<Byte>
  {
    if asciiHex then AsciiBytes(HexUpper(image)) else image
  }

  /** `build_dpl_image_upload_commands`. */
  function BuildImageUpload(r: Request, f: ImageFile): Option<seq<Byte>>
  {
    var codes := GetControlCodes(r.dialect);
    var ext := AsciiLower(Suffix(r.path));
    var format := FormatOf(ext);
    if codes.None? || !f.isFile || format.None? then None
    else if format.value.1 && !ConversionArgsOk(r.threshold, r.maxWidth, r.maxHeight) then None
    else if !IsAscii(r.memModule) then None
    else
      var c := codes.value;
      var image := if format.value.1 then f.converted else f.content;
      Some(Prefix(c, r.asciiHex, r.includeSohDisable)
        + Header(c, AsciiBytes(r.memModule), r.asciiHex, format.value.0, ImageName(r))
        + Payload(image, r.asciiHex))
  }

  /** The printer's reading of upper-case hex text, two digits per byte. */
  function Unhex(h: seq<Byte>): seq<int>
    requires |h| % 2 == 0
  {
    if h == [] then []
    else [HexValue(h[0] as char) * 16 + HexValue(h[1] as char)] + Unhex(h[2..])
  }

  /** What a reader of an upload stream recovers. */
  datatype Upload = Upload(memModule: seq<Byte>, asciiHex: bool, format: Byte, name: seq<Byte>, payload: seq<Byte>)

  /** Reads an upload stream whose module is `moduleLen` bytes long: the optional
      prefix, then the header and the payload. */
  function ParseImageStream(b: seq<Byte>, c: Codes, moduleLen: nat): Option<Upload>
  {
    var s := if |b| >= 3 && b[..3] == [c.soh, 'D' as int, c.cr] then b[3..] else b;
    ParseHeader(s, c, moduleLen)
  }

  /** STX, 'I', the module and an optional 'A', then the record. */
  function ParseHeader(s: seq<Byte>, c: Codes, moduleLen: nat): Option<Upload>
  {
    var m := moduleLen;
    if |s| < m + 3 || s[0] != c.stx || s[1] != 'I' as int then None
    else
      var hex := s[m + 2] == 'A' as int;
      ParseRecord(s[2..m + 2], hex, if hex then s[m + 3..] else s[m + 2..], c.cr)
  }

  /** The format byte, the name up to CR, and the payload. */
  function ParseRecord(memModule: seq<Byte>, hex: bool, rest: seq<Byte>, cr: Byte): Option<Upload>
  {
    if rest == [] then None
    else
      var e := FindFrom(rest, cr, 1);
      if e == -1 then None
      else Some(Upload(memModule, hex, rest[0], rest[1..e], rest[e + 1..]))
  }

  // ---------------------------------------------------------------------
  // Properties.

  /** The suffix table: png, jpg and jpeg are converted and sent as BMP, bmp as
      `b`, pcx as `p`, img as `i`, in any letter case. */
  lemma FormatTable()
    ensures forall ext :: ext in Formats ==> FormatOf(ext).Some?
    ensures FormatOf(".png") == Some(('b', true)) && FormatOf(".jpg") == Some(('b', true))
    ensures FormatOf(".jpeg") == Some(('b', true))
    ensures FormatOf(".bmp") == Some(('b', false)) && FormatOf(".pcx") == Some(('p', false))
    ensures FormatOf(".img") == Some(('i', false))
  {
  }

  /** The builder refuses exactly an unknown dialect, a missing file, an unsupported
      suffix, bad conversion arguments for a converted format, or a non-ASCII module. */
  lemma Refuses(r: Request, f: ImageFile)
    ensures var format := FormatOf(AsciiLower(Suffix(r.path)));
      BuildImageUpload(r, f).None?
      <==> (!(-3 <= r.dialect <= 2) || !f.isFile || format.None?
            || (format.value.1 && !ConversionArgsOk(r.threshold, r.maxWidth, r.maxHeight))
            || !IsAscii(r.memModule))
  {
  }

  /** Two hex digits per byte, and the hex text reads back as the bytes. */
  lemma {:induction false} HexUpperRoundTrip(b: seq<Byte>)
    ensures |HexUpper(b)| == 2 * |b|
    ensures Unhex(AsciiBytes(HexUpper(b))) == b
  {
    if b != [] {
      assert Pow(16, 2) == 256;
      HexPadExact(b[0], 2);
      HexUpperRoundTrip(b[1..]);
      var d := HexPad(b[0], 2);
      var rest := HexUpper(b[1..]);
      AsciiBytesAppend(d, rest);
      var h := AsciiBytes(HexUpper(b));
      assert h == AsciiBytes(d) + AsciiBytes(rest);
      assert h[2..] == AsciiBytes(rest);
      assert h[0] as char == d[0] && h[1] as char == d[1];
      assert d[..1][..0] == [] && d[..1][0] == d[0];
      assert HexNumValue(d) == HexValue(d[0]) * 16 + HexValue(d[1]);
    }
  }

  /** The SOH prefix is there exactly when asked for with raw data: a stream
      without it starts with STX, which differs from SOH in every dialect. */
  lemma PrefixPresent(r: Request, f: ImageFile)
    requires BuildImageUpload(r, f).Some?
    ensures var out := BuildImageUpload(r, f).value;
      var c := GetControlCodes(r.dialect).value;
      (|out| >= 1 && out[0] == c.soh) <==> r.includeSohDisable && !r.asciiHex
  {
  }

  /** The stream reads back: module, the hex flag, the format, the name, and a
      payload that is the image itself or its hex text. */
  lemma ParseRoundTrip(r: Request, f: ImageFile)
    requires BuildImageUpload(r, f).Some?
    ensures var out := BuildImageUpload(r, f).value;
      var c := GetControlCodes(r.dialect).value;
      var format := FormatOf(AsciiLower(Suffix(r.path))).value;
      var image := if format.1 then f.converted else f.content;
      ParseImageStream(out, c, |r.memModule|)
        == Some(Upload(AsciiBytes(r.memModule), r.asciiHex, format.0 as int, AsciiBytes(ImageName(r)),
                       Payload(image, r.asciiHex)))
  {
    var c := GetControlCodes(r.dialect).value;
    var format := FormatOf(AsciiLower(Suffix(r.path))).value;
    var image := if format.1 then f.converted else f.content;
    var name := ImageName(r);
    var mm := AsciiBytes(r.memModule);
    assert BuildImageUpload(r, f).value == Prefix(c, r.asciiHex, r.includeSohDisable)
      + Header(c, mm, r.asciiHex, format.0, name) + Payload(image, r.asciiHex);
    FontUpload.NameBytesNoCr(name, c.cr);
    ParseStream(c, AsciiBytes(r.memModule), r.asciiHex, r.includeSohDisable, format.0 as int,
      AsciiBytes(name), Payload(image, r.asciiHex));
  }

  /** Any stream of the builder's shape reads back, whatever its parts. */
  lemma ParseStream(c: Codes, mm: seq<Byte>, asciiHex: bool, includeSohDisable: bool, format: Byte,
                    name: seq<Byte>, p: seq<Byte>)
    requires c in Tables && c.cr !in name && format != 'A' as int
    ensures ParseImageStream(Prefix(c, asciiHex, includeSohDisable)
        + ([c.stx, 'I' as int] + mm + (if asciiHex then ['A' as int] else []) + [format] + name + [c.cr])
        + p, c, |mm|)
      == Some(Upload(mm, asciiHex, format, name, p))
  {
    var tail := [format] + name + [c.cr] + p;
    var s := [c.stx, 'I' as int] + mm + (if asciiHex then ['A' as int] else []) + tail;
    var pre := Prefix(c, asciiHex, includeSohDisable);
    assert pre + ([c.stx, 'I' as int] + mm + (if asciiHex then ['A' as int] else []) + [format] + name + [c.cr]) + p
      == pre + s;
    ParseAfterPrefix(c, asciiHex, includeSohDisable, s);
    NameEnds(format, name, c.cr, p);
    ParseHead(c, mm, asciiHex, tail);
  }

  /** The prefix is recognised and skipped. */
  lemma ParseAfterPrefix(c: Codes, asciiHex: bool, includeSohDisable: bool, s: seq<Byte>)
    requires |s| >= 1 && s[0] == c.stx && c in Tables
    ensures var b := Prefix(c, asciiHex, includeSohDisable) + s;
      (if |b| >= 3 && b[..3] == [c.soh, 'D' as int, c.cr] then b[3..] else b) == s
  {
    var b := Prefix(c, asciiHex, includeSohDisable) + s;
    if includeSohDisable && !asciiHex {
      assert b[..3] == [c.soh, 'D' as int, c.cr];
      assert b[3..] == s;
    } else {
      assert b == s;
    }
  }

  /** The head `STX I module [A]` is read back and the record follows. */
  lemma ParseHead(c: Codes, mm: seq<Byte>, asciiHex: bool, tail: seq<Byte>)
    requires |tail| >= 1 && (asciiHex || tail[0] != 'A' as int)
    ensures ParseHeader([c.stx, 'I' as int] + mm + (if asciiHex then ['A' as int] else []) + tail, c, |mm|)
      == ParseRecord(mm, asciiHex, tail, c.cr)
  {
    var head := [c.stx, 'I' as int] + mm;
    var s := head + (if asciiHex then ['A' as int] else []) + tail;
    var m := |mm|;
    assert s[0] == c.stx && s[1] == 'I' as int;
    assert s[2..m + 2] == mm;
    if asciiHex {
      assert s[m + 2] == 'A' as int;
      assert s[m + 3..] == tail;
    } else {
      assert s[m + 2] == tail[0];
      assert s[m + 2..] == tail;
    }
  }

  /** The name ends at the first CR after the format byte. */
  lemma NameEnds(format: Byte, name: seq<Byte>, cr: Byte, p: seq<Byte>)
    requires cr !in name
    ensures var tail := [format] + name + [cr] + p;
      FindFrom(tail, cr, 1) == |name| + 1
      && tail[0] == format && tail[1..|name| + 1] == name && tail[|name| + 2..] == p
  {
    var tail := [format] + name + [cr] + p;
    forall k | 1 <= k < |name| + 1 ensures tail[k] != cr {
      assert tail[k] == name[k - 1];
    }
    FindFromAt(tail, cr, 1, |name| + 1);
    assert tail[1..|name| + 1] == name;
    assert tail[|name| + 2..] == p;
  }
}
