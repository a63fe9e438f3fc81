/** The backend's DPL printer controller (backend/device_controller/printers/dpl/dpl.py):
    the command constants, the encoding of a command as a label in the standard
    dialect, the font and image uploads it delegates to, the normalisation of the
    printer's answer and the connection test. The answer is taken after its UTF-8
    decoding: the decoder with replacement characters is not part of this model. */
module Dpl {
  import opened Common
  import opened ControlCodes
  import opened SendLabel
  import FontUpload
  import ImageUpload

  /** The command constants of the module. */
  const PrintQualityLabel: string := "<STX>T<CR>"
  const PrintConfigurationLabel: string := "<STX>Z<CR>"
  const GetConfiguration: string := "<STX>KC<CR>"
  const SetMetricMode: string := "<STX>m<CR>"
  const GetMemoryModuleInfo: string := "<STX>Wse*<CR>"
  const SetStandardControlCodeMode: string := "~KcCCS|"
  const SetAlternate2ControlCodeMode: string := "<STX>KcCC2<CR>"
  const SelectFontSymbolSet: string := "<STX>ySCP<CR>"

  /** The phrase a configuration report starts with. */
  const TestReply: string := "PRINTER INFORMATION"

  /** `_encode_command`: the label encoder with its default, the standard dialect. */
  function EncodeCommand(command: string): Option<seq<Byte>>
  {
    BuildLabel(command, DefaultDialect)
  }

  /** `_encode_load_font`: the backend font upload with its defaults, module `D`
      and the standard dialect. */
  function EncodeLoadFont(fontFileBytes: seq<Byte>, filename: string, fontId: int): Option<seq<Byte>>
  {
    FontUpload.BackendFontUpload(fontFileBytes, FontUpload.IntRef(fontId), filename, "D", DefaultDialect)
  }

  /** `_encode_load_image` hands the image bytes to `build_dpl_image_upload_commands`
      as its path and the file name as its memory module. `Path` refuses a bytes
      argument with a TypeError, so every call fails; None stands for that error. */
  function EncodeLoadImage(imageFileBytes: seq<Byte>, filename: string): Option<seq<Byte>>
  {
    None
  }

  /** `str.replace('\r\n', '\n')`: each CR LF pair, taken from the left, becomes LF. */
  function ReplaceCrLf(s: string): string
  {
    if s == [] then []
    else if |s| >= 2 && s[0] == '\r' && s[1] == '\n' then "\n" + ReplaceCrLf(s[2..])
    else [s[0]] + ReplaceCrLf(s[1..])
  }

  /** `str.replace('\r', '\n')`. */
  function ReplaceCr(s: string): string
  {
    if s == [] then [] else [if s[0] == '\r' then '\n' else s[0]] + ReplaceCr(s[1..])
  }

  /** `_decode_response` after the decoding: the two replacements in turn. */
  function DecodeResponse(text: string): string
  {
    ReplaceCr(ReplaceCrLf(text))
  }

  /** A one-pass reading of the same rule: every line break, CR LF, a lone CR or
      LF, becomes one LF. One step reads a line break or a character. */
  function NormalizeStep(s: string): (r: (string, nat))
    requires s != []
    ensures 1 <= r.1 <= |s|
  {
    if s[0] == '\r' then ("\n", if |s| >= 2 && s[1] == '\n' then 2 else 1) else ([s[0]], 1)
  }

  function NormalizeNewlines(s: string): string
    decreases |s|
  {
    if s == [] then []
    else
      var (out, width) := NormalizeStep(s);
      out + NormalizeNewlines(s[width..])
  }

  /** `_get_default_command` and `_get_test_connection_command`. */
  function DefaultCommand(): string { GetConfiguration }

  function TestConnectionCommand(): string { GetConfiguration }

  /** `_evaluate_test_connection`. */
  predicate EvaluateTestConnection(response: string)
  {
    Contains(response, TestReply)
  }

  // ---------------------------------------------------------------------
  // Properties.

  /** The two replacements do what the one-pass rule says. */
  lemma {:induction false} DecodeIsNormalize(s: string)
    ensures DecodeResponse(s) == NormalizeNewlines(s)
    decreases |s|
  {
    if s != [] {
      if |s| >= 2 && s[0] == '\r' && s[1] == '\n' {
        DecodeIsNormalize(s[2..]);
        var t := ReplaceCrLf(s[2..]);
        assert ("\n" + t)[0] == '\n' && ("\n" + t)[1..] == t;
      } else {
        DecodeIsNormalize(s[1..]);
        var t := ReplaceCrLf(s[1..]);
        assert ([s[0]] + t)[0] == s[0] && ([s[0]] + t)[1..] == t;
      }
    }
  }

  /** No CR is left in a normalised answer. */
  lemma {:induction false} NormalizeNoCr(s: string)
    ensures '\r' !in NormalizeNewlines(s)
    decreases |s|
  {
    if s != [] {
      NormalizeNoCr(s[NormalizeStep(s).1..]);
    }
  }

  /** Text that holds no CR is left exactly as it is. */
  lemma {:induction false} NormalizeKeeps(s: string)
    requires '\r' !in s
    ensures NormalizeNewlines(s) == s
    decreases |s|
  {
    if s != [] {
      assert s[0] in s;
      NormalizeKeeps(s[1..]);
    }
  }

  /** The decoded answer holds no CR, text without CR is kept, and decoding twice
      is decoding once. */
  lemma DecodeResponseFacts(s: string)
    ensures '\r' !in DecodeResponse(s)
    ensures '\r' !in s ==> DecodeResponse(s) == s
    ensures DecodeResponse(DecodeResponse(s)) == DecodeResponse(s)
  {
    DecodeIsNormalize(s);
    NormalizeNoCr(s);
    if '\r' !in s {
      NormalizeKeeps(s);
    }
    DecodeIsNormalize(DecodeResponse(s));
    NormalizeKeeps(DecodeResponse(s));
  }

  /** A step inside `x` reads the same when more text follows, unless that text
      starts with the LF of a CR ending `x`. */
  lemma StepAppend(x: string, y: string)
    requires x != [] && (y == [] || y[0] != '\n')
    ensures NormalizeStep(x + y) == NormalizeStep(x)
  {
    var s := x + y;
    assert s[0] == x[0];
    if |x| >= 2 {
      assert s[1] == x[1];
    } else if y != [] {
      assert s[1] == y[0];
    }
  }

  /** Normalising splits at any point that does not separate a CR from its LF. */
  lemma {:induction false} NormalizeAppend(x: string, y: string)
    requires y == [] || y[0] != '\n'
    ensures NormalizeNewlines(x + y) == NormalizeNewlines(x) + NormalizeNewlines(y)
    decreases |x|
  {
    if x == [] {
      assert x + y == y;
    } else {
      StepAppend(x, y);
      var (out, width) := NormalizeStep(x);
      assert (x + y)[width..] == x[width..] + y;
      NormalizeAppend(x[width..], y);
    }
  }

  /** Text without CR in front of the rest passes through normalisation. */
  lemma {:induction false} NormalizePlain(w: string, z: string)
    requires '\r' !in w
    ensures NormalizeNewlines(w + z) == w + NormalizeNewlines(z)
    decreases |w|
  {
    if w == [] {
      assert w + z == z;
    } else {
      assert w[0] in w;
      assert (w + z)[0] == w[0] && (w + z)[1..] == w[1..] + z;
      NormalizePlain(w[1..], z);
    }
  }

  /** A phrase without line breaks survives the decoding. */
  lemma PhraseSurvivesDecoding(s: string, phrase: string)
    requires Contains(s, phrase) && phrase != [] && '\r' !in phrase && '\n' !in phrase
    ensures Contains(DecodeResponse(s), phrase)
  {
    var i :| 0 <= i <= |s| - |phrase| && OccursAt(s, phrase, i);
    var x := s[..i];
    var z := s[i + |phrase|..];
    assert s == x + (phrase + z);
    assert (phrase + z)[0] == phrase[0] && phrase[0] in phrase;
    NormalizeAppend(x, phrase + z);
    NormalizePlain(phrase, z);
    DecodeIsNormalize(s);
    var d := DecodeResponse(s);
    var j := |NormalizeNewlines(x)|;
    assert d == NormalizeNewlines(x) + phrase + NormalizeNewlines(z);
    assert d[j..j + |phrase|] == phrase;
    assert OccursAt(d, phrase, j);
  }

  /** An answer that passes the connection test still passes once decoded. */
  lemma TestSurvivesDecoding(s: string)
    requires EvaluateTestConnection(s)
    ensures EvaluateTestConnection(DecodeResponse(s))
  {
    var p := TestReply;
    assert p != [] && '\r' !in p && '\n' !in p;
    PhraseSurvivesDecoding(s, p);
  }

  /** Finding a separator: the first place it occurs from `from` on. */
  lemma {:induction false} FindSeqAt<T>(s: seq<T>, sep: seq<T>, from: nat, k: nat)
    requires from <= k && OccursAt(s, sep, k)
    requires forall i :: from <= i < k ==> !OccursAt(s, sep, i)
    ensures FindSeq(s, sep, from) == k
    decreases k - from
  {
    if from < k {
      assert !OccursAt(s, sep, from);
      FindSeqAt(s, sep, from + 1, k);
    }
  }

  /** A sequence with the separator only at its end splits into the part before
      it and an empty piece. */
  lemma SplitAtEnd<T>(w: seq<T>, sep: seq<T>)
    requires |sep| > 0 && forall i :: 0 <= i < |w| ==> !OccursAt(w + sep, sep, i)
    ensures Split(w + sep, sep) == [w, []]
  {
    var s := w + sep;
    assert s[|w|..|w| + |sep|] == sep;
    FindSeqAt(s, sep, 0, |w|);
    assert s[..|w|] == w && s[|w| + |sep|..] == [];
  }

  /** A command that is one record ended by `<CR>` is that record, encoded in the
      standard dialect. */
  lemma OneRecord(data: string, w: string)
    requires w != [] && Split(data, "<CR>") == [w, []]
    ensures EncodeCommand(data) == EncodeRecord(w, TokenTable(Standard), Standard.cr)
  {
    var t := TokenTable(Standard);
    var segs := [w, []];
    assert segs[1..] == [[]];
    assert EncodeAll(segs[1..], t, Standard.cr) == Some([]);
    var r := EncodeRecord(w, t, Standard.cr);
    if r.Some? {
      assert r.value + [] == r.value;
    }
  }

  /** No `<CR>` starts inside `<STX>` followed by text without '<'. */
  lemma NoCrToken(body: string)
    requires '<' !in body
    ensures var w := "<STX>" + body;
      forall i :: 0 <= i < |w| ==> !OccursAt(w + "<CR>", "<CR>", i)
  {
    var w := "<STX>" + body;
    var s := w + "<CR>";
    var sep := "<CR>";
    assert sep[0] == '<' && sep[1] == 'C';
    forall i | 0 <= i < |w| ensures !OccursAt(s, sep, i) {
      if i + 4 <= |s| {
        assert s[i..i + 4][0] == s[i] && s[i..i + 4][1] == s[i + 1];
      }
      if i == 0 {
        assert s[1] == 'S';
      } else if i < 5 {
        assert s[i] == "<STX>"[i];
      } else {
        assert s[i] == body[i - 5];
      }
    }
  }

  /** A command `<STX> body <CR>` whose body is plain ASCII without '<' is sent as
      STX, the body and CR of the standard dialect. */
  lemma StxCommand(body: string)
    requires IsAscii(body) && '<' !in body
    ensures EncodeCommand("<STX>" + body + "<CR>") == Some([0x02] + AsciiBytes(body) + [0x0D])
  {
    var w := "<STX>" + body;
    NoCrToken(body);
    SplitAtEnd(w, "<CR>");
    OneRecord(w + "<CR>", w);
    var t := TokenTable(Standard);
    TokenTableFacts(Standard);
    SubstituteToken("<STX>", body, t);
    SubstituteVerbatim(body, t);
    assert !IsTextRecord(w) by { assert w[0] == '<'; }
  }

  /** The default and the test command are the configuration query, bytes 02 4B 43 0D. */
  lemma DefaultCommandBytes(command: string)
    requires command == DefaultCommand()
    ensures command == TestConnectionCommand() == GetConfiguration
    ensures EncodeCommand(command) == Some([0x02, 0x4B, 0x43, 0x0D])
  {
    var body := ConfigurationBody(command);
    StxCommand(body);
    assert [0x02] + AsciiBytes(body) + [0x0D] == [0x02, 0x4B, 0x43, 0x0D];
  }

  /** The configuration query is `<STX>`, `KC` and `<CR>`. */
  lemma ConfigurationBody(command: string) returns (body: string)
    requires command == GetConfiguration
    ensures command == "<STX>" + body + "<CR>"
    ensures IsAscii(body) && '<' !in body && AsciiBytes(body) == [0x4B, 0x43]
  {
    body := "KC";
    assert command == "<STX>" + body + "<CR>";
    assert IsAscii(body) && '<' !in body;
    var b := AsciiBytes(body);
    assert b == [0x4B, 0x43];
  }

  /** A command without tokens goes out verbatim, followed by the standard CR. */
  lemma VerbatimCommand(command: string)
    requires command != [] && IsAscii(command) && '<' !in command && !IsTextRecord(command)
    ensures EncodeCommand(command) == Some(AsciiBytes(command) + [0x0D])
  {
    var sep := "<CR>";
    assert sep[0] == '<';
    forall i | 0 <= i ensures !OccursAt(command, sep, i) {
      if i + 4 <= |command| {
        assert command[i] in command;
        assert command[i..i + 4][0] == command[i];
      }
    }
    assert FindSeq(command, sep, 0) == -1;
    assert Split(command, sep) == [command];
    var t := TokenTable(Standard);
    SubstituteVerbatim(command, t);
    assert EncodeRecord(command, t, Standard.cr) == Some(AsciiBytes(command) + [0x0D]);
    assert [command][1..] == [];
    assert EncodeAll([command][1..], t, Standard.cr) == Some([]);
    assert AsciiBytes(command) + [0x0D] + [] == AsciiBytes(command) + [0x0D];
  }

  /** The switch back to the standard mode is written in the alternate-2 dialect's
      own characters: it goes out as `~KcCCS|` and the standard CR, which a printer
      in that mode reads as its STX, `KcCCS` and its CR. */
  lemma StandardModeSwitch(command: string)
    requires command == SetStandardControlCodeMode
    ensures EncodeCommand(command) == Some(AsciiBytes(command) + [0x0D])
    ensures |command| == 7 && command[1..6] == "KcCCS"
    ensures command[0] as int == Alternate2.stx && command[6] as int == Alternate2.cr
  {
    ModeSwitchText(command);
    VerbatimCommand(command);
  }

  /** The characters of the mode switch. */
  lemma ModeSwitchText(s: string)
    requires s == SetStandardControlCodeMode
    ensures s != [] && IsAscii(s) && '<' !in s && !IsTextRecord(s)
    ensures |s| == 7 && s[1..6] == "KcCCS" && s[0] == '~' && s[6] == '|'
  {
    assert |s| == 7 && s[0] == '~' && s[6] == '|';
    assert IsAscii(s) && '<' !in s;
  }

  /** A font is accepted exactly for an id in 11..99. */
  lemma EncodeLoadFontIds(fontFileBytes: seq<Byte>, filename: string, fontId: int)
    ensures EncodeLoadFont(fontFileBytes, filename, fontId).Some? <==> 11 <= fontId <= 99
  {
    FontUpload.BackendIdAccepts(FontUpload.IntRef(fontId));
    assert IsAscii("D");
  }
}
