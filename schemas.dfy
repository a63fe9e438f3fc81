/** The printer upload schemas (backend/printers/schemas.py): the file-name
    validator shared by the font and the image schema, the font-id range and the
    accepted content types. None stands for the ValueError a validator raises,
    which the schema reports as a validation error. */
module Schemas {
  import opened Common
  import opened DplNames
  import Dpl

  /** The longest file name the schemas keep. */
  const FilenameLimit: nat := 15

  /** The content types a font upload may declare. */
  const FontContentTypes: seq<string> := ["ttf", "font/ttf", "application/octet-stream"]

  /** `filename_length`: refuses an empty name and keeps the first 15 characters. */
  function FilenameLength(value: string): (r: Option<string>)
    ensures r.None? <==> value == []
    ensures r.Some? ==> |r.value| == (if |value| <= FilenameLimit then |value| else FilenameLimit)
    ensures r.Some? ==> r.value == value[..|r.value|]
  {
    if |value| == 0 then None else Some(Take(value, FilenameLimit))
  }

  /** `font_id_range_validator`: `value in range(11, 100)`. */
  function FontIdRange(value: int): (r: Option<int>)
    ensures r.Some? <==> 11 <= value <= 99
    ensures r.Some? ==> r.value == value
  {
    if 11 <= value < 100 then Some(value) else None
  }

  /** `content_type_validator`. */
  function ContentType(value: string): (r: Option<string>)
    ensures r.Some? <==> value in FontContentTypes
    ensures r.Some? ==> r.value == value
  {
    if value in FontContentTypes then Some(value) else None
  }

  /** `PrinterFontSchema` once validated. */
  datatype PrinterFont = PrinterFont(fontId: int, fileBytes: seq<Byte>, filename: string, contentType: string)

  /** `PrinterImageSchema` once validated. */
  datatype PrinterImage = PrinterImage(fileBytes: seq<Byte>, filename: string)

  /** Validation of a font upload: every field validator must pass. */
  function ValidateFont(fontId: int, fileBytes: seq<Byte>, filename: string, contentType: string): Option<PrinterFont>
  {
    var f := FilenameLength(filename);
    var i := FontIdRange(fontId);
    var t := ContentType(contentType);
    if f.None? || i.None? || t.None? then None
    else Some(PrinterFont(i.value, fileBytes, f.value, t.value))
  }

  /** Validation of an image upload. */
  function ValidateImage(fileBytes: seq<Byte>, filename: string): Option<PrinterImage>
  {
    var f := FilenameLength(filename);
    if f.None? then None else Some(PrinterImage(fileBytes, f.value))
  }

  // ---------------------------------------------------------------------
  // Properties.

  /** Truncating a kept name again changes nothing. */
  lemma FilenameIdempotent(value: string)
    requires FilenameLength(value).Some?
    ensures FilenameLength(FilenameLength(value).value) == FilenameLength(value)
  {
  }

  /** A font passes the schema exactly with a non-empty name, an id in 11..99 and
      one of the three content types; it then keeps the id, the bytes, the type and
      the truncated name. */
  lemma FontSchema(fontId: int, fileBytes: seq<Byte>, filename: string, contentType: string)
    ensures ValidateFont(fontId, fileBytes, filename, contentType).Some?
      <==> filename != [] && 11 <= fontId <= 99 && contentType in FontContentTypes
    ensures var v := ValidateFont(fontId, fileBytes, filename, contentType);
      v.Some? ==> (v.value.fontId == fontId && v.value.fileBytes == fileBytes && v.value.contentType == contentType
                   && v.value.filename == FilenameLength(filename).value)
  {
  }

  /** An image passes the schema exactly with a non-empty name, truncated the
      same way. */
  lemma ImageSchema(fileBytes: seq<Byte>, filename: string)
    ensures ValidateImage(fileBytes, filename).Some? <==> filename != []
    ensures var v := ValidateImage(fileBytes, filename);
      v.Some? ==> v.value.fileBytes == fileBytes && v.value.filename == FilenameLength(filename).value
  {
  }

  /** The ids the schema accepts are exactly the ids the DPL font upload accepts. */
  lemma SchemaIdsMatchUpload(fontId: int, fileBytes: seq<Byte>, filename: string)
    ensures FontIdRange(fontId).Some? <==> Dpl.EncodeLoadFont(fileBytes, filename, fontId).Some?
  {
    Dpl.EncodeLoadFontIds(fileBytes, filename, fontId);
  }
}
