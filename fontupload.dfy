/** The two revisions of the DPL scalable-font upload (`build_dpl_ttf_upload_commands`):
    backend/device_controller/printers/dpl/upload_font.py takes the font bytes and
    a numeric id 11..99; device_controller/devices/printers/dpl/upload_font.py
    takes a file path (its bytes are a parameter here) and any two printable ASCII
    characters as id. Both send `<STX> i module T id name <CR> size` and the font.
    None stands for the ValueError, the IndexError of an unknown dialect, or the
    UnicodeEncodeError of a non-ASCII module. */
module FontUpload {
  import opened Common
  import opened ControlCodes
  import opened DplNames

  /** The longest stored font name, and the name used when nothing is left. */
  const NameLimit: nat := 32
  const DefaultName: string := "FONT"

  /** The id argument of the backend revision: an `int` or a `str`. */
  datatype FontRef = IntRef(n: int) | StrRef(s: string)

  /** The pieces of a font-upload stream, as a reader of the stream sees them. */
  datatype Upload = Upload(memModule: seq<Byte>, id: seq<Byte>, name: seq<Byte>, size: nat, data: seq<Byte>)

  /** The header `STX i module T id name CR size8` followed by the font bytes. */
  function FontStream(c: Codes, memModule: seq<Byte>, id: string, name: string, data: seq<Byte>): seq<Byte>
    requires IsAscii(id) && IsAscii(name)
  {
    HexPadFacts(|data|, 8);
    [c.stx, 'i' as int] + memModule + ['T' as int] + AsciiBytes(id) + AsciiBytes(name) + [c.cr]
      + AsciiBytes(HexPad(|data|, 8)) + data
  }

  /** The stored name: the sanitised, truncated name, or FONT. */
  function FontName(raw: string): (n: string)
    ensures n != [] && |n| <= NameLimit && IsName(n) && IsAscii(n)
  {
    SafeNameFacts(raw, NameLimit, DefaultName);
    SafeName(raw, NameLimit, DefaultName)
  }

  /** The backend revision's id check: the id as text (`%02d` for an int) and its
      number (-1 for text that is not all digits); None unless the text is two
      digits worth 11..99. */
  function BackendId(ref: FontRef): Option<string>
  {
    var text := match ref
      case IntRef(n) => DecPad(n, 2)
      case StrRef(s) => s;
    var num := match ref
      case IntRef(n) => n
      case StrRef(s) => if s != [] && AllDigits(s) then DecValue(s) else -1;
    if |text| != 2 || !AllDigits(text) || !(11 <= num <= 99) then None else Some(text)
  }

  /** `build_dpl_ttf_upload_commands` of the backend revision. */
  function BackendFontUpload(ttf: seq<Byte>, ref: FontRef, filename: string, memModule: string, dialect: int): Option<seq<Byte>>
  {
    var codes := GetControlCodes(dialect);
    var id := BackendId(ref);
    if codes.None? || id.None? || !IsAscii(memModule) then None
    else
      assert IsAscii(id.value) by { assert AllDigits(id.value); }
      Some(FontStream(codes.value, AsciiBytes(memModule), id.value, FontName(BeforeLastDot(filename)), ttf))
  }

  /** The device revision's id check: two characters in 0x21..0x7E. */
  predicate DeviceIdOk(id: string)
  {
    |id| == 2 && forall k :: 0 <= k < 2 ==> 0x21 <= id[k] as int <= 0x7E
  }

  /** `build_dpl_ttf_upload_commands` of the device revision; `data` is the content
      of the file at `path`. */
  function DeviceFontUpload(path: string, data: seq<Byte>, id: string, memModule: string, dialect: int): Option<seq<Byte>>
  {
    var codes := GetControlCodes(dialect);
    if codes.None? || !DeviceIdOk(id) || !IsAscii(memModule) then None
    else Some(FontStream(codes.value, AsciiBytes(memModule), id, FontName(Stem(path)), data))
  }

  /** The characters of a byte string. */
  function Chars(b: seq<Byte>): (s: string)
    ensures |s| == |b| && forall k :: 0 <= k < |b| ==> s[k] as int == b[k]
  {
    seq(|b|, k requires 0 <= k < |b| => b[k] as char)
  }

  /** A printer's reading of an upload stream whose module is `moduleLen` bytes
      long: STX, 'i', the module, 'T', two id bytes, then the tail. */
  function ParseFontStream(b: seq<Byte>, c: Codes, moduleLen: nat): Option<Upload>
  {
    var m := moduleLen;
    if |b| < m + 5 || b[0] != c.stx || b[1] != 'i' as int || b[m + 2] != 'T' as int then None
    else
      var t := ParseTail(b[m + 5..], c.cr);
      if t.None? then None
      else Some(Upload(b[2..m + 2], b[m + 3..m + 5], t.value.0, t.value.1, t.value.2))
  }

  /** The tail of an upload stream: the name up to CR, eight hex digits of size,
      and the data. */
  function ParseTail(rest: seq<Byte>, cr: Byte): Option<(seq<Byte>, nat, seq<Byte>)>
  {
    var e := FindFrom(rest, cr, 0);
    if e == -1 || |rest| < e + 9 then None
    else Some((rest[..e], HexNumValue(Chars(rest[e + 1..e + 9])), rest[e + 9..]))
  }

  // ---------------------------------------------------------------------
  // Properties.

  /** The backend revision accepts an int id exactly in 11..99 and a text id
      exactly when it is two digits worth 11..99. */
  lemma BackendIdAccepts(ref: FontRef)
    ensures ref.IntRef? ==> (BackendId(ref).Some? <==> 11 <= ref.n <= 99)
    ensures ref.StrRef? ==> (BackendId(ref).Some? <==> |ref.s| == 2 && AllDigits(ref.s) && 11 <= DecValue(ref.s))
    ensures BackendId(ref).Some? ==> |BackendId(ref).value| == 2 && AllDigits(BackendId(ref).value)
  {
    if ref.IntRef? && 11 <= ref.n <= 99 {
      assert Pow(10, 2) == 100;
      DecPadExact(ref.n, 2);
    }
    if ref.StrRef? && |ref.s| == 2 && AllDigits(ref.s) {
      var s := ref.s;
      var h := s[..1];
      assert h[..0] == [] && h[0] == s[0];
      assert DecValue(h) == HexValue(s[0]);
      assert DecValue(s) == HexValue(s[0]) * 10 + HexValue(s[1]);
    }
  }

  /** An int id is sent as its two decimal digits. */
  lemma BackendIntId(n: int)
    requires 11 <= n <= 99
    ensures BackendId(IntRef(n)) == Some(DecPad(n, 2))
    ensures DecValue(DecPad(n, 2)) == n
  {
    assert Pow(10, 2) == 100;
    DecPadExact(n, 2);
  }

  /** The device revision accepts `5A`, which the backend revision refuses. */
  lemma RevisionsDisagree()
    ensures DeviceIdOk("5A")
    ensures BackendId(StrRef("5A")).None?
  {
    assert !IsAsciiDigit("5A"[1]);
  }

  /** Only the dialect's STX and CR bytes occur in the header. */
  lemma DialectsDifferOnlyInStxCr(c1: Codes, c2: Codes, memModule: seq<Byte>, id: string, name: string, data: seq<Byte>)
    requires IsAscii(id) && IsAscii(name)
    requires c1.stx == c2.stx && c1.cr == c2.cr
    ensures FontStream(c1, memModule, id, name, data) == FontStream(c2, memModule, id, name, data)
  {
  }

  /** A CR byte of any dialect is not a name character, so the name ends at it. */
  lemma CrNotInName(id: int)
    requires GetControlCodes(id).Some?
    ensures !IsNameChar(GetControlCodes(id).value.cr as char)
  {
  }

  /** The tail reads back when the name holds no CR byte. */
  lemma ParseTailRoundTrip(name: seq<Byte>, cr: Byte, size: string, data: seq<Byte>)
    requires cr !in name && |size| == 8 && IsAscii(size)
    ensures ParseTail(name + [cr] + AsciiBytes(size) + data, cr) == Some((name, HexNumValue(size), data))
  {
    var rest := name + [cr] + AsciiBytes(size) + data;
    var e := |name|;
    forall k | 0 <= k < e ensures rest[k] != cr {
      assert rest[k] == name[k];
    }
    FindFromAt(rest, cr, 0, e);
    assert rest[..e] == name;
    assert rest[e + 1..e + 9] == AsciiBytes(size);
    assert Chars(AsciiBytes(size)) == size;
    assert rest[e + 9..] == data;
  }

  /** The stream reads back: module, id, name, the size field worth the data's
      length, and the data. */
  lemma ParseFontStreamRoundTrip(c: Codes, memModule: seq<Byte>, id: string, name: string, data: seq<Byte>)
    requires |id| == 2 && IsAscii(id) && IsName(name) && IsAscii(name)
    requires !IsNameChar(c.cr as char) && |data| < 0x1_0000_0000
    ensures ParseFontStream(FontStream(c, memModule, id, name, data), c, |memModule|)
      == Some(Upload(memModule, AsciiBytes(id), AsciiBytes(name), |data|, data))
  {
    SizeField(|data|);
    NameBytesNoCr(name, c.cr);
    var size := HexPad(|data|, 8);
    var nameBytes := AsciiBytes(name);
    ParseTailRoundTrip(nameBytes, c.cr, size, data);
    var rest := nameBytes + [c.cr] + AsciiBytes(size) + data;
    StreamShape(c, memModule, id, name, data);
    ParseHead(c, memModule, AsciiBytes(id), rest);
  }

  /** A length below 2^32 fills the size field exactly. */
  lemma SizeField(n: nat)
    requires n < 0x1_0000_0000
    ensures |HexPad(n, 8)| == 8 && IsAscii(HexPad(n, 8)) && HexNumValue(HexPad(n, 8)) == n
  {
    assert Pow(16, 8) == 0x1_0000_0000;
    HexPadExact(n, 8);
  }

  lemma NameBytesNoCr(name: string, cr: Byte)
    requires IsName(name) && IsAscii(name) && !IsNameChar(cr as char)
    ensures cr !in AsciiBytes(name)
  {
    var nameBytes := AsciiBytes(name);
    forall k | 0 <= k < |nameBytes| ensures nameBytes[k] != cr {
      assert IsNameChar(name[k]);
    }
  }

  lemma StreamShape(c: Codes, memModule: seq<Byte>, id: string, name: string, data: seq<Byte>)
    requires IsAscii(id) && IsAscii(name) && IsAscii(HexPad(|data|, 8))
    ensures FontStream(c, memModule, id, name, data)
      == [c.stx, 'i' as int] + memModule + ['T' as int] + AsciiBytes(id)
         + (AsciiBytes(name) + [c.cr] + AsciiBytes(HexPad(|data|, 8)) + data)
  {
  }

  /** The fixed-width head of a stream reads back, and the tail follows. */
  lemma ParseHead(c: Codes, memModule: seq<Byte>, id: seq<Byte>, rest: seq<Byte>)
    requires |id| == 2
    ensures var t := ParseTail(rest, c.cr);
      ParseFontStream([c.stx, 'i' as int] + memModule + ['T' as int] + id + rest, c, |memModule|)
        == if t.None? then None else Some(Upload(memModule, id, t.value.0, t.value.1, t.value.2))
  {
    var b := [c.stx, 'i' as int] + memModule + ['T' as int] + id + rest;
    var m := |memModule|;
    assert b[m + 5..] == rest;
    assert b[2..m + 2] == memModule;
    assert b[m + 3..m + 5] == id;
  }

  /** Everything before the font bytes is the header; the font follows verbatim
      and its length is in the size field. */
  lemma BackendLayout(ttf: seq<Byte>, ref: FontRef, filename: string, memModule: string, dialect: int)
    requires BackendFontUpload(ttf, ref, filename, memModule, dialect).Some?
    requires |ttf| < 0x1_0000_0000
    ensures var out := BackendFontUpload(ttf, ref, filename, memModule, dialect).value;
      var c := GetControlCodes(dialect).value;
      ParseFontStream(out, c, |memModule|)
        == Some(Upload(AsciiBytes(memModule), AsciiBytes(BackendId(ref).value),
                       AsciiBytes(FontName(BeforeLastDot(filename))), |ttf|, ttf))
  {
    BackendIdAccepts(ref);
    var id := BackendId(ref).value;
    assert IsAscii(id) by { assert AllDigits(id); }
    CrNotInName(dialect);
    ParseFontStreamRoundTrip(GetControlCodes(dialect).value, AsciiBytes(memModule), id,
      FontName(BeforeLastDot(filename)), ttf);
  }

  /** The device revision's stream reads back the same way, with the stem as name. */
  lemma DeviceLayout(path: string, data: seq<Byte>, id: string, memModule: string, dialect: int)
    requires DeviceFontUpload(path, data, id, memModule, dialect).Some?
    requires |data| < 0x1_0000_0000
    ensures var out := DeviceFontUpload(path, data, id, memModule, dialect).value;
      var c := GetControlCodes(dialect).value;
      ParseFontStream(out, c, |memModule|)
        == Some(Upload(AsciiBytes(memModule), AsciiBytes(id), AsciiBytes(FontName(Stem(path))), |data|, data))
  {
    CrNotInName(dialect);
    ParseFontStreamRoundTrip(GetControlCodes(dialect).value, AsciiBytes(memModule), id, FontName(Stem(path)), data);
  }

  /** The device revision refuses exactly an unknown dialect, a bad id or a
      non-ASCII module. */
  lemma DeviceRefuses(path: string, data: seq<Byte>, id: string, memModule: string, dialect: int)
    ensures DeviceFontUpload(path, data, id, memModule, dialect).None?
      <==> !(-3 <= dialect <= 2) || !DeviceIdOk(id) || !IsAscii(memModule)
  {
  }
}
