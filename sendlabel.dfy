/** The DPL label encoder (device_controller/devices/printers/dpl/send_label.py):
    a tokenised command stream is cut into records at `<CR>`, inline tokens become
    the dialect's control bytes, and the text of a text record goes out as
    four-digit hexadecimal code points. None stands for the ValueError the
    encoder raises. */
module SendLabel {
  import opened Common
  import opened ControlCodes

  /** A token table: token names and their bytes, in the order of the source's dictionary. */
  type Table = seq<(string, seq<Byte>)>

  /** `token_to_bytes`: the inline tokens and their bytes in dialect `c`; `<CR>`
      maps to no bytes, since it separates records. */
  function TokenTable(c: Codes): Table
  {
    [("<STX>", [c.stx]), ("<SOH>", [c.soh]), ("<ESC>", [c.esc]), ("<CR>", []),
     ("<FNC1>", c.fnc1), ("<GS>", [c.gs])]
  }

  /** Dictionary lookup in a table of pairs; the first entry with the key wins. */
  function Lookup<K(==), V>(table: seq<(K, V)>, key: K): Option<V>
  {
    if table == [] then None
    else if table[0].0 == key then Some(table[0].1)
    else Lookup(table[1..], key)
  }

  /** The bytes a token is replaced by inline: one in the table other than `<CR>`. */
  function InlineToken(token: string, table: Table): Option<seq<Byte>>
  {
    if token == "<CR>" then None else Lookup(table, token)
  }

  /** One step of the scan: how many characters it consumes and what it emits, None
      standing for the error a character above 0x7F raises. */
  datatype Piece = Piece(width: nat, bytes: Option<seq<Byte>>)

  /** The step at position `i`: `s[i]` is '<', a '>' follows, and the text up to it
      is a token replaced inline, which is consumed whole; otherwise the one character
      at `i`, which must be ASCII. */
  function PieceAt(s: string, i: nat, table: Table): (p: Piece)
    requires i < |s|
    ensures 1 <= p.width && i + p.width <= |s|
  {
    var end := FindFrom(s, '>', i + 1);
    if s[i] == '<' && end != -1 && InlineToken(s[i..end + 1], table).Some? then
      Piece(end + 1 - i, InlineToken(s[i..end + 1], table))
    else if s[i] as int > 0x7F then Piece(1, None)
    else Piece(1, Some([s[i] as int]))
  }

  /** `p` in front of a result; an error stays an error. */
  function Prepend(p: seq<Byte>, r: Option<seq<Byte>>): (q: Option<seq<Byte>>)
    ensures q.Some? <==> r.Some?
  {
    if r.None? then None else Some(p + r.value)
  }

  /** What `substitute_inline_tokens` produces from position `i` on: the steps'
      bytes in order, or None when a step fails. */
  function SubstituteFrom(s: string, i: nat, table: Table): Option<seq<Byte>>
    requires i <= |s|
    decreases |s| - i
  {
    if i == |s| then Some([])
    else
      var p := PieceAt(s, i, table);
      if p.bytes.None? then None else Prepend(p.bytes.value, SubstituteFrom(s, i + p.width, table))
  }

  /** The substitution of a whole segment. */
  function Substitute(s: string, table: Table): Option<seq<Byte>>
  {
    SubstituteFrom(s, 0, table)
  }

  lemma PrependPrepend(p: seq<Byte>, q: seq<Byte>, r: Option<seq<Byte>>)
    ensures Prepend(p, Prepend(q, r)) == Prepend(p + q, r)
  {
    if r.Some? {
      assert p + (q + r.value) == (p + q) + r.value;
    }
  }

  /** A token step of the scan loop keeps the invariant of SubstituteInlineTokens. */
  lemma TokenStep(s: string, i: nat, end: int, table: Table, out: seq<Byte>)
    requires i < |s| && s[i] == '<' && end == FindFrom(s, '>', i + 1) && end != -1
    requires InlineToken(s[i..end + 1], table).Some?
    ensures Prepend(out, SubstituteFrom(s, i, table))
      == Prepend(out + InlineToken(s[i..end + 1], table).value, SubstituteFrom(s, end + 1, table))
  {
    var b := InlineToken(s[i..end + 1], table).value;
    assert PieceAt(s, i, table) == Piece(end + 1 - i, Some(b));
    PrependPrepend(out, b, SubstituteFrom(s, end + 1, table));
  }

  /** A character step of the scan loop keeps the invariant of SubstituteInlineTokens:
      the scan stops at a non-ASCII character and copies any other. */
  lemma CharStep(s: string, i: nat, table: Table, out: seq<Byte>)
    requires i < |s|
    requires s[i] == '<' ==>
      (FindFrom(s, '>', i + 1) == -1 || InlineToken(s[i..FindFrom(s, '>', i + 1) + 1], table).None?)
    ensures s[i] as int > 0x7F ==> SubstituteFrom(s, i, table).None?
    ensures s[i] as int <= 0x7F ==>
      Prepend(out, SubstituteFrom(s, i, table)) == Prepend(out + [s[i] as int], SubstituteFrom(s, i + 1, table))
  {
    if s[i] as int <= 0x7F {
      PrependPrepend(out, [s[i] as int], SubstituteFrom(s, i + 1, table));
    }
  }

  /** `substitute_inline_tokens`: scans the segment, appending token bytes or
      character codes, and stops with an error at the first non-ASCII character. */
  method SubstituteInlineTokens(segment: string, table: Table) returns (r: Option<seq<Byte>>)
    ensures r == Substitute(segment, table)
  {
    var out: seq<Byte> := [];
    var i := 0;
    assert Prepend([], SubstituteFrom(segment, 0, table)) == SubstituteFrom(segment, 0, table) by {
      if SubstituteFrom(segment, 0, table).Some? {
        assert [] + SubstituteFrom(segment, 0, table).value == SubstituteFrom(segment, 0, table).value;
      }
    }
    while i < |segment|
      invariant 0 <= i <= |segment|
      invariant Substitute(segment, table) == Prepend(out, SubstituteFrom(segment, i, table))
      decreases |segment| - i
    {
      if segment[i] == '<' {
        var end := FindFrom(segment, '>', i + 1);
        if end != -1 {
          var token := segment[i..end + 1];
          var bytes := InlineToken(token, table);
          if bytes.Some? {
            TokenStep(segment, i, end, table, out);
            out := out + bytes.value;
            i := end + 1;
            continue;
          }
          CharStep(segment, i, table, out);
        } else {
          CharStep(segment, i, table, out);
        }
      } else {
        CharStep(segment, i, table, out);
      }
      var code := segment[i] as int;
      if code > 0x7F {
        return None;
      }
      var b: Byte := code;
      out := out + [b];
      i := i + 1;
    }
    assert out + [] == out;
    r := Some(out);
  }

  // ---------------------------------------------------------------------
  // Properties of the substitution.

  /** Every token name of the table is ASCII. */
  predicate KeysAscii(table: Table)
  {
    forall k :: 0 <= k < |table| ==> IsAscii(table[k].0)
  }

  /** Every byte the table maps a token to is 7-bit. */
  predicate ValuesSevenBit(table: Table)
  {
    forall k, j :: 0 <= k < |table| && 0 <= j < |table[k].1| ==> table[k].1[j] < 0x80
  }

  predicate SevenBitBytes(b: seq<Byte>)
  {
    forall j :: 0 <= j < |b| ==> b[j] < 0x80
  }

  /** A successful lookup returns the value of an entry with that key. */
  lemma {:induction false} LookupFound<K, V>(table: seq<(K, V)>, key: K)
    requires Lookup(table, key).Some?
    ensures exists k :: 0 <= k < |table| && table[k] == (key, Lookup(table, key).value)
    decreases |table|
  {
    if table[0].0 != key {
      LookupFound(table[1..], key);
      var k :| 0 <= k < |table[1..]| && table[1..][k] == (key, Lookup(table, key).value);
      assert table[k + 1] == table[1..][k];
    }
  }

  /** A step fails exactly when it would consume a non-ASCII character. */
  lemma PieceAscii(s: string, i: nat, table: Table)
    requires i < |s| && KeysAscii(table)
    ensures var p := PieceAt(s, i, table);
      p.bytes.Some? <==> forall j :: i <= j < i + p.width ==> s[j] as int < 0x80
  {
    var p := PieceAt(s, i, table);
    var end := FindFrom(s, '>', i + 1);
    if s[i] == '<' && end != -1 && InlineToken(s[i..end + 1], table).Some? {
      var token := s[i..end + 1];
      LookupFound(table, token);
      forall j | i <= j < i + p.width ensures s[j] as int < 0x80 {
        assert s[j] == token[j - i];
      }
    }
  }

  /** Each step's bytes are 7-bit when the table's are. */
  lemma PieceSevenBit(s: string, i: nat, table: Table)
    requires i < |s| && ValuesSevenBit(table)
    ensures var p := PieceAt(s, i, table); p.bytes.Some? ==> SevenBitBytes(p.bytes.value)
  {
    var end := FindFrom(s, '>', i + 1);
    if s[i] == '<' && end != -1 && InlineToken(s[i..end + 1], table).Some? {
      LookupFound(table, s[i..end + 1]);
    }
  }

  /** The substitution succeeds exactly when the rest of the segment is ASCII:
      the only error is a non-ASCII character. */
  lemma {:induction false} SubstituteFromAscii(s: string, i: nat, table: Table)
    requires i <= |s| && KeysAscii(table)
    ensures SubstituteFrom(s, i, table).Some? <==> forall j :: i <= j < |s| ==> s[j] as int < 0x80
    decreases |s| - i
  {
    if i < |s| {
      var p := PieceAt(s, i, table);
      PieceAscii(s, i, table);
      if p.bytes.Some? {
        SubstituteFromAscii(s, i + p.width, table);
      }
    }
  }

  /** `substitute_inline_tokens` raises exactly on a segment that is not ASCII. */
  lemma SubstituteFailsOnNonAscii(s: string, table: Table)
    requires KeysAscii(table)
    ensures Substitute(s, table).Some? <==> IsAscii(s)
  {
    SubstituteFromAscii(s, 0, table);
  }

  /** With 7-bit token bytes, everything the substitution emits is 7-bit. */
  lemma {:induction false} SubstituteFromSevenBit(s: string, i: nat, table: Table)
    requires i <= |s| && ValuesSevenBit(table)
    ensures SubstituteFrom(s, i, table).Some? ==> SevenBitBytes(SubstituteFrom(s, i, table).value)
    decreases |s| - i
  {
    if i < |s| {
      var p := PieceAt(s, i, table);
      PieceSevenBit(s, i, table);
      if p.bytes.Some? {
        SubstituteFromSevenBit(s, i + p.width, table);
      }
    }
  }

  /** Text without '<' is copied byte for byte when it is ASCII. */
  lemma {:induction false} SubstituteFromVerbatim(s: string, i: nat, table: Table)
    requires i <= |s| && IsAscii(s) && '<' !in s
    ensures SubstituteFrom(s, i, table) == Some(AsciiBytes(s[i..]))
    decreases |s| - i
  {
    if i < |s| {
      assert s[i] != '<' && s[i] as int < 0x80;
      assert PieceAt(s, i, table) == Piece(1, Some([s[i] as int]));
      SubstituteFromVerbatim(s, i + 1, table);
      var t := s[i..];
      assert t[0] == s[i] && t[1..] == s[i + 1..];
      assert AsciiBytes(t) == [s[i] as int] + AsciiBytes(s[i + 1..]);
    }
  }

  lemma SubstituteVerbatim(s: string, table: Table)
    requires IsAscii(s) && '<' !in s
    ensures Substitute(s, table) == Some(AsciiBytes(s))
  {
    SubstituteFromVerbatim(s, 0, table);
    assert s[0..] == s;
  }

  /** A step in a suffix is the step at the same place in the whole. */
  lemma PieceShift(w: string, d: nat, s: string, j: nat, table: Table)
    requires d <= |w| && w[d..] == s && j < |s|
    ensures PieceAt(w, d + j, table) == PieceAt(s, j, table)
  {
    var i := d + j;
    FindFromSuffix(w, '>', d, j + 1);
    var end := FindFrom(w, '>', i + 1);
    assert d + (j + 1) == i + 1;
    if end != -1 {
      assert s[j..end - d + 1] == w[i..end + 1];
    }
    assert s[j] == w[i];
  }

  /** Substituting a suffix is substituting the whole from the same place on. */
  lemma {:induction false} SubstituteShift(w: string, d: nat, s: string, j: nat, table: Table)
    requires d <= |w| && w[d..] == s && j <= |s|
    ensures SubstituteFrom(w, d + j, table) == SubstituteFrom(s, j, table)
    decreases |s| - j
  {
    if j < |s| {
      var i := d + j;
      PieceShift(w, d, s, j, table);
      var p := PieceAt(s, j, table);
      var k := j + p.width;
      SubstituteShift(w, d, s, k, table);
      assert d + k == i + p.width;
      assert SubstituteFrom(w, i + p.width, table) == SubstituteFrom(s, k, table);
    }
  }

  /** A token of the table other than `<CR>`, written '<', name, '>', is replaced
      by its bytes and the scan goes on right after it. */
  lemma SubstituteToken(token: string, rest: string, table: Table)
    requires 2 <= |token| && token[0] == '<' && token[|token| - 1] == '>'
    requires forall k :: 0 < k < |token| - 1 ==> token[k] != '>'
    requires InlineToken(token, table).Some?
    ensures Substitute(token + rest, table) == Prepend(InlineToken(token, table).value, Substitute(rest, table))
  {
    var s := token + rest;
    var n := |token|;
    forall k | 1 <= k < n - 1 ensures s[k] != '>' {
      assert s[k] == token[k];
    }
    assert s[n - 1] == '>';
    FindFromAt(s, '>', 1, n - 1);
    assert s[0..n] == token;
    assert PieceAt(s, 0, table) == Piece(n, InlineToken(token, table));
    assert s[n..] == rest;
    SubstituteShift(s, n, rest, 0, table);
  }

  /** The dialect's table: each inline token gives its dialect bytes and `<CR>` is
      not replaced inline. */
  lemma TokenTableFacts(c: Codes)
    ensures InlineToken("<STX>", TokenTable(c)) == Some([c.stx])
    ensures InlineToken("<SOH>", TokenTable(c)) == Some([c.soh])
    ensures InlineToken("<ESC>", TokenTable(c)) == Some([c.esc])
    ensures InlineToken("<FNC1>", TokenTable(c)) == Some(c.fnc1)
    ensures InlineToken("<GS>", TokenTable(c)) == Some([c.gs])
    ensures InlineToken("<CR>", TokenTable(c)) == None
  {
    var t := TokenTable(c);
    assert "<STX>"[2] != "<SOH>"[2] && "<STX>"[1] != "<ESC>"[1] && "<SOH>"[1] != "<ESC>"[1];
    LookupSkip(t, "<SOH>");
    LookupSkip(t, "<ESC>");
    LookupSkip(t[1..], "<ESC>");
    LookupSkip(t, "<FNC1>");
    LookupSkip(t[1..], "<FNC1>");
    LookupSkip(t[2..], "<FNC1>");
    LookupSkip(t[3..], "<FNC1>");
    LookupSkip(t, "<GS>");
    LookupSkip(t[1..], "<GS>");
    LookupSkip(t[2..], "<GS>");
    LookupSkip(t[3..], "<GS>");
    LookupSkip(t[4..], "<GS>");
    assert t[1..][1..] == t[2..] && t[2..][1..] == t[3..] && t[3..][1..] == t[4..] && t[4..][1..] == t[5..];
  }

  /** Every token name is ASCII, and the bytes are 7-bit in a 7-bit dialect. */
  lemma TokenTableSevenBit(c: Codes)
    ensures KeysAscii(TokenTable(c))
    ensures SevenBit(c) ==> ValuesSevenBit(TokenTable(c))
  {
  }

  /** Lookup passes over an entry with another key. */
  lemma LookupSkip<V>(table: seq<(string, V)>, key: string)
    requires table != [] && table[0].0 != key
    ensures Lookup(table, key) == Lookup(table[1..], key)
  {
  }

  // ---------------------------------------------------------------------
  // The Unicode text of a text record.

  /** `f"{ord(ch):04X}"` for each character, concatenated: four upper-case hex
      digits per character of the Basic Multilingual Plane, more above it. */
  function HexText(t: string): (h: string)
    ensures AllHexDigits(h) && IsAscii(h)
  {
    if t == [] then []
    else
      HexPadFacts(t[0] as int, 4);
      HexPad(t[0] as int, 4) + HexText(t[1..])
  }

  /** `encode_unicode_hex(text)`. */
  function EncodeUnicodeHex(t: string): seq<Byte>
  {
    AsciiBytes(HexText(t))
  }

  /** Every character is in the Basic Multilingual Plane. */
  predicate Bmp(t: string)
  {
    forall k :: 0 <= k < |t| ==> t[k] as int < 0x10000
  }

  /** The code points of a string. */
  function CodePoints(t: string): (r: seq<int>)
    ensures |r| == |t| && forall k :: 0 <= k < |t| ==> r[k] == t[k] as int
  {
    if t == [] then [] else [t[0] as int] + CodePoints(t[1..])
  }

  /** The printer's reading of the hex text: four digits per code point. */
  function HexCodes(h: string): seq<int>
    requires |h| % 4 == 0
  {
    if h == [] then [] else [HexNumValue(h[..4]) as int] + HexCodes(h[4..])
  }

  /** For BMP text the hex text is four digits per character, and reading it back
      four digits at a time gives the code points. */
  lemma {:induction false} HexTextRoundTrip(t: string)
    requires Bmp(t)
    ensures |HexText(t)| == 4 * |t|
    ensures HexCodes(HexText(t)) == CodePoints(t)
  {
    if t != [] {
      var c := t[0] as int;
      assert Pow(16, 4) == 0x10000;
      HexPadExact(c, 4);
      HexTextRoundTrip(t[1..]);
      var h := HexText(t);
      assert h[..4] == HexPad(c, 4);
      assert h[4..] == HexText(t[1..]);
    }
  }

  // ---------------------------------------------------------------------
  // Records.

  /** A text record: its first character is a digit and its second is '9'. */
  predicate IsTextRecord(raw: string)
  {
    |raw| >= 2 && IsAsciiDigit(raw[0]) && raw[1] == '9'
  }

  /** The control tokens a text field may not hold. */
  predicate HasControlToken(t: string)
  {
    Contains(t, "<FNC1>") || Contains(t, "<GS>") || Contains(t, "<ESC>")
    || Contains(t, "<STX>") || Contains(t, "<SOH>")
  }

  /** One non-empty record and its terminator. A non-text record is substituted;
      a text record keeps its prefix up to three characters past the second 'P'
      (substituted) and sends the rest as hex code points. None is the ValueError
      for a non-ASCII prefix or record, a missing or incomplete P-field, or a control
      token in the text. */
  function EncodeRecord(raw: string, table: Table, cr: Byte): Option<seq<Byte>>
  {
    if !IsTextRecord(raw) then
      var body := Substitute(raw, table);
      if body.None? then None else Some(body.value + [cr])
    else
      var firstP := FindFrom(raw, 'P', 0);
      var secondP := FindFrom(raw, 'P', firstP + 1);
      if firstP == -1 || secondP == -1 then None
      else if secondP + 4 > |raw| then None
      else
        var prefix := Substitute(raw[..secondP + 4], table);
        var text := raw[secondP + 4..];
        if prefix.None? || HasControlToken(text) then None
        else Some(prefix.value + EncodeUnicodeHex(text) + [cr])
  }

  /** Every encoded record ends with the dialect's CR byte. */
  lemma RecordTerminated(raw: string, table: Table, cr: Byte)
    requires EncodeRecord(raw, table, cr).Some?
    ensures var b := EncodeRecord(raw, table, cr).value; |b| >= 1 && b[|b| - 1] == cr
  {
  }

  /** A non-text record is encoded exactly when it is ASCII. */
  lemma NonTextRecord(raw: string, table: Table, cr: Byte)
    requires !IsTextRecord(raw) && KeysAscii(table)
    ensures EncodeRecord(raw, table, cr).Some? <==> IsAscii(raw)
  {
    SubstituteFailsOnNonAscii(raw, table);
  }

  /** A text record with fewer than two 'P's is refused. */
  lemma TextRecordNeedsTwoP(raw: string, table: Table, cr: Byte)
    requires IsTextRecord(raw)
    requires forall k, l :: 0 <= k < l < |raw| && raw[k] == 'P' ==> raw[l] != 'P'
    ensures EncodeRecord(raw, table, cr).None?
  {
  }

  /** A text record whose first two 'P's are at `p1` and `p2` is encoded exactly
      when the second P-field has its three digits, the prefix through them is ASCII
      and the text after them holds no control token; the output is then the
      substituted prefix, the text as hex code points, and CR. */
  lemma TextRecordFields(raw: string, p1: nat, p2: nat, table: Table, cr: Byte)
    requires IsTextRecord(raw) && KeysAscii(table)
    requires p1 < p2 < |raw| && raw[p1] == 'P' && raw[p2] == 'P'
    requires forall k :: 0 <= k < p2 && k != p1 ==> raw[k] != 'P'
    ensures EncodeRecord(raw, table, cr).Some?
      <==> p2 + 4 <= |raw| && IsAscii(raw[..p2 + 4]) && !HasControlToken(raw[p2 + 4..])
    ensures EncodeRecord(raw, table, cr).Some? ==>
      p2 + 4 <= |raw| && Substitute(raw[..p2 + 4], table).Some?
      && EncodeRecord(raw, table, cr).value
        == Substitute(raw[..p2 + 4], table).value + EncodeUnicodeHex(raw[p2 + 4..]) + [cr]
  {
    FindFromAt(raw, 'P', 0, p1);
    FindFromAt(raw, 'P', p1 + 1, p2);
    if p2 + 4 <= |raw| {
      SubstituteFailsOnNonAscii(raw[..p2 + 4], table);
    }
  }

  /** With a 7-bit table and CR byte every encoded record is 7-bit. */
  lemma RecordSevenBit(raw: string, table: Table, cr: Byte)
    requires ValuesSevenBit(table) && cr < 0x80
    requires EncodeRecord(raw, table, cr).Some?
    ensures SevenBitBytes(EncodeRecord(raw, table, cr).value)
  {
    if !IsTextRecord(raw) {
      SubstituteFromSevenBit(raw, 0, table);
    } else {
      var firstP := FindFrom(raw, 'P', 0);
      var secondP := FindFrom(raw, 'P', firstP + 1);
      var prefix := raw[..secondP + 4];
      SubstituteFromSevenBit(prefix, 0, table);
      var hex := EncodeUnicodeHex(raw[secondP + 4..]);
      assert SevenBitBytes(hex);
    }
  }

  // ---------------------------------------------------------------------
  // The label.

  /** The loop over the raw segments: empty ones are skipped, the others are
      encoded in order; the first refused record refuses the label. */
  function EncodeAll(segs: seq<string>, table: Table, cr: Byte): Option<seq<Byte>>
  {
    if segs == [] then Some([])
    else if segs[0] == "" then EncodeAll(segs[1..], table, cr)
    else
      var r := EncodeRecord(segs[0], table, cr);
      if r.None? then None else Prepend(r.value, EncodeAll(segs[1..], table, cr))
  }

  /** `build_dpl_unicode_label(data, control_codes)`: None is the ValueError for
      an id other than 0, 1 or 2 or for a refused record. */
  function BuildLabel(data: string, id: int): Option<seq<Byte>>
  {
    if !(0 <= id <= 2) then None
    else
      var c := GetControlCodes(id).value;
      EncodeAll(Split(data, "<CR>"), TokenTable(c), c.cr)
  }

  /** The label is refused exactly when some non-empty segment is. */
  lemma {:induction false} EncodeAllNone(segs: seq<string>, table: Table, cr: Byte)
    ensures EncodeAll(segs, table, cr).None?
      <==> exists k :: 0 <= k < |segs| && segs[k] != "" && EncodeRecord(segs[k], table, cr).None?
  {
    if segs != [] {
      EncodeAllNone(segs[1..], table, cr);
      if EncodeAll(segs[1..], table, cr).None? {
        var k :| 0 <= k < |segs[1..]| && segs[1..][k] != "" && EncodeRecord(segs[1..][k], table, cr).None?;
        assert segs[k + 1] == segs[1..][k];
      }
      forall k | 1 <= k < |segs| ensures segs[k] == segs[1..][k - 1] { }
    }
  }

  /** Encoding two runs of segments one after the other is encoding their concatenation. */
  lemma {:induction false} EncodeAllAppend(a: seq<string>, b: seq<string>, table: Table, cr: Byte)
    ensures EncodeAll(a + b, table, cr)
      == if EncodeAll(a, table, cr).None? then None else Prepend(EncodeAll(a, table, cr).value, EncodeAll(b, table, cr))
  {
    if a == [] {
      assert a + b == b;
      var r := EncodeAll(b, table, cr);
      if r.Some? { assert [] + r.value == r.value; }
    } else {
      assert (a + b)[1..] == a[1..] + b;
      assert (a + b)[0] == a[0];
      EncodeAllAppend(a[1..], b, table, cr);
      var r := EncodeRecord(a[0], table, cr);
      if a[0] != "" && r.Some? && EncodeAll(a[1..], table, cr).Some? {
        PrependPrepend(r.value, EncodeAll(a[1..], table, cr).value, EncodeAll(b, table, cr));
      }
    }
  }

  /** An empty segment, such as the one after a trailing `<CR>`, adds nothing. */
  lemma EmptySegmentIgnored(a: seq<string>, b: seq<string>, table: Table, cr: Byte)
    ensures EncodeAll(a + [""] + b, table, cr) == EncodeAll(a + b, table, cr)
  {
    EncodeAllAppend(a, [""] + b, table, cr);
    EncodeAllAppend(a, b, table, cr);
    assert a + [""] + b == a + ([""] + b);
    assert ([""] + b)[1..] == b;
  }

  /** Every byte of an encoded label run is 7-bit. */
  lemma {:induction false} EncodeAllSevenBit(segs: seq<string>, table: Table, cr: Byte)
    requires ValuesSevenBit(table) && cr < 0x80
    ensures EncodeAll(segs, table, cr).Some? ==> SevenBitBytes(EncodeAll(segs, table, cr).value)
  {
    if segs != [] {
      EncodeAllSevenBit(segs[1..], table, cr);
      if segs[0] != "" && EncodeRecord(segs[0], table, cr).Some? {
        RecordSevenBit(segs[0], table, cr);
      }
    }
  }

  /** Only ids 0, 1 and 2 are accepted, although `get_control_codes` itself also
      takes -3..-1. */
  lemma LabelIds(data: string, id: int)
    ensures BuildLabel(data, id).Some? ==> 0 <= id <= 2 && GetControlCodes(id).Some?
  {
  }

  /** The label is pure 7-bit: token bytes, ASCII characters, hex digits and CR. */
  lemma LabelSevenBit(data: string, id: int)
    ensures BuildLabel(data, id).Some? ==> SevenBitBytes(BuildLabel(data, id).value)
  {
    if 0 <= id <= 2 {
      SharedCodes(id);
      var c := GetControlCodes(id).value;
      TokenTableSevenBit(c);
      EncodeAllSevenBit(Split(data, "<CR>"), TokenTable(c), c.cr);
    }
  }

  /** A step of the loop of BuildDplUnicodeLabel. */
  lemma EncodeStep(segs: seq<string>, k: nat, table: Table, cr: Byte, out: seq<Byte>)
    requires k < |segs|
    ensures Prepend(out, EncodeAll(segs[k..], table, cr))
      == if segs[k] == "" then Prepend(out, EncodeAll(segs[k + 1..], table, cr))
         else if EncodeRecord(segs[k], table, cr).None? then None
         else Prepend(out + EncodeRecord(segs[k], table, cr).value, EncodeAll(segs[k + 1..], table, cr))
  {
    assert segs[k..][1..] == segs[k + 1..];
    assert segs[k..][0] == segs[k];
    var r := EncodeRecord(segs[k], table, cr);
    if segs[k] != "" && r.Some? {
      PrependPrepend(out, r.value, EncodeAll(segs[k + 1..], table, cr));
    }
  }

  /** `build_dpl_unicode_label`: splits the stream at `<CR>`, skips empty segments,
      and encodes each record in turn, failing on the first refused one. */
  method BuildDplUnicodeLabel(data: string, controlCodes: int) returns (r: Option<seq<Byte>>)
    ensures r == BuildLabel(data, controlCodes)
  {
    if !(0 <= controlCodes <= 2) {
      return None;
    }
    var codes := GetControlCodes(controlCodes).value;
    var table := TokenTable(codes);
    var cr := codes.cr;
    var segs := Split(data, "<CR>");
    var output: seq<Byte> := [];
    var k := 0;
    assert Prepend([], EncodeAll(segs, table, cr)) == EncodeAll(segs, table, cr) by {
      if EncodeAll(segs, table, cr).Some? {
        assert [] + EncodeAll(segs, table, cr).value == EncodeAll(segs, table, cr).value;
      }
    }
    assert segs[0..] == segs;
    while k < |segs|
      invariant 0 <= k <= |segs|
      invariant BuildLabel(data, controlCodes) == Prepend(output, EncodeAll(segs[k..], table, cr))
      decreases |segs| - k
    {
      var raw := segs[k];
      EncodeStep(segs, k, table, cr, output);
      if raw == "" {
        k := k + 1;
        continue;
      }
      var isTextRecord := |raw| >= 2 && IsAsciiDigit(raw[0]) && raw[1] == '9';
      if !isTextRecord {
        var body := SubstituteInlineTokens(raw, table);
        if body.None? {
          return None;
        }
        output := output + (body.value + [cr]);
        k := k + 1;
        continue;
      }
      var firstP := FindFrom(raw, 'P', 0);
      var secondP := FindFrom(raw, 'P', firstP + 1);
      if firstP == -1 || secondP == -1 {
        return None;
      }
      var textStart := secondP + 4;
      if textStart > |raw| {
        return None;
      }
      var prefix := SubstituteInlineTokens(raw[..textStart], table);
      if prefix.None? {
        return None;
      }
      var text := raw[textStart..];
      if HasControlToken(text) {
        return None;
      }
      output := output + (prefix.value + EncodeUnicodeHex(text) + [cr]);
      k := k + 1;
    }
    assert output + [] == output;
    r := Some(output);
  }
}
