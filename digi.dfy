/** The DIGI DI-160 stream (backend/device_controller/scales/digi/utils.py):
    CR-separated segments, of which the first non-blank one holds the weight. */
module Digi {
  import opened Common
  import opened Weights

  const CR: char := '\r'

  /** `not ln.strip()`: nothing but whitespace (see `BlankStrips`). */
  predicate Blank(s: string) { forall i :: 0 <= i < |s| ==> IsWs(s[i]) }

  /** A segment is blank exactly when `strip()` leaves nothing of it. */
  lemma BlankStrips(s: string)
    ensures Blank(s) <==> Strip(s) == []
  {
    StripSlice(s);
    var l := StripLeft(s);
    assert l == s[|s| - |l|..];
    assert |l| > 0 ==> !IsWs(s[|s| - |l|]);
  }

  /** The segments the list comprehension keeps, in their order. */
  function NonBlank(segments: seq<string>): seq<string>
  {
    if segments == [] then []
    else (if Blank(segments[0]) then [] else [segments[0]]) + NonBlank(segments[1..])
  }

  /** One segment read as a weight: stripped, then `float()`. The flags are
      constant: stable is set and overload is not (the docstring says the
      opposite for stable; the code sets it). */
  function ReadSegment(segment: string): (r: Option<Reading>)
    ensures r.Some? ==> r.value.stable && !r.value.overload
    ensures r.Some? <==> ParseFloat(Strip(segment)).Some?
  {
    match ParseFloat(Strip(segment))
    case None => None
    case Some(w) => Some(Reading(w, true, false))
  }

  /** `decode_response` on the text of the bytes. */
  function DecodeText(text: string): Option<Reading>
  {
    var lines := NonBlank(Split(text, [CR]));
    if lines == [] then None else ReadSegment(lines[0])
  }

  /** `decode_response`: None when no segment has anything but whitespace, or when
      the first such segment is not a number. */
  function DecodeResponse(data: seq<Byte>): Option<Reading>
  {
    DecodeText(Chars(data))
  }

  /** Nothing is kept exactly when every segment is blank. */
  lemma {:induction false} NonBlankEmpty(segments: seq<string>)
    ensures NonBlank(segments) == [] <==> forall i :: 0 <= i < |segments| ==> Blank(segments[i])
    decreases |segments|
  {
    if segments != [] {
      NonBlankEmpty(segments[1..]);
      assert forall i :: 1 <= i < |segments| ==> segments[i] == segments[1..][i - 1];
    }
  }

  /** Input whose every CR-separated segment is blank decodes to nothing. */
  lemma AllBlankIsNone(data: seq<Byte>)
    requires forall i :: 0 <= i < |Split(Chars(data), [CR])| ==> Blank(Split(Chars(data), [CR])[i])
    ensures DecodeResponse(data) == None
  {
    NonBlankEmpty(Split(Chars(data), [CR]));
  }

  /** A non-blank first segment decides the reading; what follows it is ignored. */
  lemma FirstDecides(first: string, rest: string)
    requires CR !in first && !Blank(first)
    ensures DecodeText(first + ([CR] + rest)) == ReadSegment(first)
  {
    SplitFirst(first, CR, rest);
    var segments := [first] + Split(rest, [CR]);
    assert segments[1..] == Split(rest, [CR]);
  }

  /** A blank leading segment is skipped. */
  lemma BlankSkipped(first: string, rest: string)
    requires CR !in first && Blank(first)
    ensures DecodeText(first + ([CR] + rest)) == DecodeText(rest)
  {
    SplitFirst(first, CR, rest);
    var segments := [first] + Split(rest, [CR]);
    assert segments[1..] == Split(rest, [CR]);
  }

  /** Text without a CR is one segment. */
  lemma SingleSegment(text: string)
    requires CR !in text
    ensures DecodeText(text) == if Blank(text) then None else ReadSegment(text)
  {
    SplitWhole(text, CR);
    assert [text][1..] == [];
    assert NonBlank([text]) == (if Blank(text) then [] else [text]) + NonBlank([]);
  }

  /** The documented sample `000.745 CR 000.000 CR LF` reads 0.745, stable. */
  lemma SampleStream(data: seq<Byte>)
    requires Chars(data) == "000.745\r000.000\r\n"
    ensures DecodeResponse(data) == Some(Reading(Decimal(false, 745, 3), true, false))
  {
    SampleSegments();
    SampleFirst();
    FirstDecides("000.745", "000.000\r\n");
  }

  lemma SampleSegments()
    ensures "000.745\r000.000\r\n" == "000.745" + ([CR] + "000.000\r\n")
    ensures CR !in "000.745"
  {
  }

  lemma SampleFirst()
    ensures !Blank("000.745")
    ensures ReadSegment("000.745") == Some(Reading(Decimal(false, 745, 3), true, false))
  {
    assert "000" + "." + "745" == "000.745";
    assert AllDigits("000") && AllDigits("745");
    ReadDotted("000", "745");
    SampleValue();
  }

  /** Digits, a dot and digits read as that decimal. */
  lemma ReadDotted(a: string, b: string)
    requires AllDigits(a) && AllDigits(b) && |a| >= 1 && |b| >= 1
    ensures !Blank(a + "." + b)
    ensures ReadSegment(a + "." + b) == Some(Reading(Decimal(false, DecValue(a + b), |b|), true, false))
  {
    var u := a + "." + b;
    assert u[0] == a[0] && u[|u| - 1] == b[|b| - 1];
    StripNoWs(u);
    ParseUnsignedDotted(a, b, false);
    ParseUnsignedOnly(u);
    ReadParsed(u, Decimal(false, DecValue(a + b), |b|));
  }

  lemma ReadParsed(u: string, d: Decimal)
    requires Strip(u) == u && ParseFloat(u) == Some(d)
    ensures ReadSegment(u) == Some(Reading(d, true, false))
  {
  }

  lemma SampleValue()
    ensures DecValue("000" + "745") == 745
  {
    assert DecValue("000") == 0 by {
      DecValueSnoc([], '0');
      assert [] + ['0'] == "0";
      DecValueSnoc("0", '0');
      assert "0" + ['0'] == "00";
      DecValueSnoc("00", '0');
      assert "00" + ['0'] == "000";
    }
    DecValueSnoc("000", '7');
    assert "000" + ['7'] == "0007";
    DecValueSnoc("0007", '4');
    assert "0007" + ['4'] == "00074";
    DecValueSnoc("00074", '5');
    assert "00074" + ['5'] == "000" + "745";
  }
}
