/** The Mettler-Toledo MT-SICS weight line (backend/device_controller/scales/
    mettler_toledo/utils.py): a command of one to three capital letters, a status
    letter, an optionally signed decimal and a unit, separated by whitespace. */
module MtSics {
  import opened Common
  import opened Weights

  datatype CharClass = Upper | Space | Numeric | Letter

  predicate InClass(c: char, k: CharClass)
  {
    match k
    case Upper => 'A' <= c <= 'Z'
    case Space => IsWs(c)
    case Numeric => IsAsciiDigit(c) || c == '.'
    case Letter => 'A' <= c <= 'Z' || 'a' <= c <= 'z'
  }

  predicate AllIn(s: string, k: CharClass) { forall i :: 0 <= i < |s| ==> InClass(s[i], k) }

  /** The length of the longest prefix of `s` in class `k`. */
  function Lead(s: string, k: CharClass): (n: nat)
    ensures n <= |s|
  {
    RunEnd(s, k, 0)
  }

  /** The end of the run of class `k` that starts at `from`. */
  function RunEnd(s: string, k: CharClass, from: nat): (r: nat)
    requires from <= |s|
    ensures from <= r <= |s|
    decreases |s| - from
  {
    if from < |s| && InClass(s[from], k) then RunEnd(s, k, from + 1) else from
  }

  /** `s` with its leading run of class `k` removed. */
  function Skip(s: string, k: CharClass): string
  {
    s[Lead(s, k)..]
  }

  /** The text `\d*\.?\d+` matches in full: digits, or digits, a dot and at least
      one digit. */
  predicate NumberShape(n: string)
  {
    var dot := FindFrom(n, '.', 0);
    if dot == -1 then |n| >= 1 && AllDigits(n)
    else AllDigits(n[..dot]) && AllDigits(n[dot + 1..]) && dot + 1 < |n|
  }

  datatype Groups = Groups(cmd: string, status: char, value: string, unit: string)

  /** `_MT_SICS_PATTERN.match(line)`. Each part of the pattern is followed by a part
      of a disjoint character class, so the backtracking matcher succeeds only with
      every run taken whole, and its greedy first choice is then the match; this
      scanner takes the runs in order: leading whitespace, capitals (1 to 3), then
      the rest of the line as `AfterCommand` reads it. */
  function Match(line: string): (r: Option<Groups>)
  {
    var a := Skip(line, Space);
    var n := Lead(a, Upper);
    if !(1 <= n <= 3) then None
    else
      match AfterCommand(a[n..])
      case None => None
      case Some((status, value, unit)) => Some(Groups(a[..n], status, value, unit))
  }

  /** Whitespace (at least one), the status capital, whitespace (at least one), then
      the value and the unit. */
  function AfterCommand(b: string): Option<(char, string, string)>
  {
    var c := Skip(b, Space);
    if |c| == |b| || c == [] || !InClass(c[0], Upper) then None
    else
      var d := Skip(c[1..], Space);
      if |d| == |c| - 1 then None
      else
        match ValueAndUnit(d)
        case None => None
        case Some((value, unit)) => Some((c[0], value, unit))
  }

  /** An optional sign, whitespace, the run of digits and dots (which must have the
      number shape), then the unit; the value is everything up to the end of the run. */
  function ValueAndUnit(d: string): Option<(string, string)>
  {
    var f := Skip(Unsigned(d), Space);
    var k := Lead(f, Numeric);
    match UnitPart(f[k..])
    case None => None
    case Some(unit) =>
      if NumberShape(f[..k]) then Some((d[..|d| - |f| + k], unit)) else None
  }

  /** `d` without its sign, if it starts with one. */
  function Unsigned(d: string): string
  {
    if d != [] && (d[0] == '+' || d[0] == '-') then d[1..] else d
  }

  /** Whitespace, letters (at least one), whitespace, end. */
  function UnitPart(g: string): Option<string>
  {
    var h := Skip(g, Space);
    var k := Lead(h, Letter);
    if k == 0 || Skip(h[k..], Space) != [] then None else Some(h[..k])
  }

  /** The status letter's meaning: S stable, D dynamic, I overload or underload. */
  function StatusFlags(status: char): (r: Option<(bool, bool)>)
    ensures r.Some? <==> status in {'S', 'D', 'I'}
  {
    if status == 'S' then Some((true, false))
    else if status == 'D' then Some((false, false))
    else if status == 'I' then Some((false, true))
    else None
  }

  /** `decode_response`: None for a blank line, a line the pattern refuses, a value
      `float()` refuses (a tab between sign and digits survives the space removal)
      or an unknown status. */
  function DecodeResponse(data: seq<Byte>): Option<Reading>
  {
    var line := Strip(Chars(data));
    if line == [] then None
    else
      match Match(line)
      case None => None
      case Some(g) => Interpret(g)
  }

  /** What the decoder makes of the matched groups: the value with its spaces
      removed read as a number, and the status letter mapped to the flags. */
  function Interpret(g: Groups): Option<Reading>
  {
    var value := ParseFloat(Without(g.value, ' '));
    if value.None? then None
    else
      match StatusFlags(g.status)
      case None => None
      case Some(flags) => Some(Reading(value.value, flags.0, flags.1))
  }

  // ---------------------------------------------------------------------
  // The pattern, both ways.

  /** The run from `from` lies in its class, and what follows it does not. */
  lemma {:induction false} RunEndFacts(s: string, k: CharClass, from: nat)
    requires from <= |s|
    ensures forall i :: from <= i < RunEnd(s, k, from) ==> InClass(s[i], k)
    ensures RunEnd(s, k, from) == |s| || !InClass(s[RunEnd(s, k, from)], k)
    decreases |s| - from
  {
    if from < |s| && InClass(s[from], k) {
      RunEndFacts(s, k, from + 1);
    }
  }

  /** The leading run lies in its class, and what follows it does not. */
  lemma LeadRun(s: string, k: CharClass)
    ensures AllIn(s[..Lead(s, k)], k) && (Lead(s, k) == |s| || !InClass(s[Lead(s, k)], k))
  {
    RunEndFacts(s, k, 0);
    var n := Lead(s, k);
    assert forall i :: 0 <= i < n ==> s[..n][i] == s[i];
  }

  /** The leading run of `seg + rest` is `seg` when `rest` starts with another class. */
  lemma LeadOf(seg: string, rest: string, k: CharClass)
    requires AllIn(seg, k) && (rest == [] || !InClass(rest[0], k))
    ensures Lead(seg + rest, k) == |seg| && Skip(seg + rest, k) == rest
    ensures (seg + rest)[..|seg|] == seg
  {
    var s := seg + rest;
    LeadRun(s, k);
    var n := Lead(s, k);
    assert forall i :: 0 <= i < n ==> s[..n][i] == s[i];
    assert forall i :: 0 <= i < |seg| ==> s[i] == seg[i];
    assert |seg| < |s| ==> s[|seg|] == rest[0];
    TakeCat(seg, rest);
    DropCat(seg, rest);
  }

  /** Splitting a sequence at `n` and joining the halves gives it back. */
  lemma Cut(s: string, n: nat)
    requires n <= |s|
    ensures s == s[..n] + s[n..]
  {
  }

  lemma TakeCat(a: string, b: string)
    ensures (a + b)[..|a|] == a
  {
  }

  lemma DropCat(a: string, b: string)
    ensures (a + b)[|a|..] == b
  {
  }

  lemma Assoc(a: string, b: string, c: string)
    ensures (a + b) + c == a + (b + c)
  {
  }

  lemma NumberShapeChars(n: string)
    requires NumberShape(n)
    ensures |n| >= 1 && AllIn(n, Numeric) && !IsWs(n[0]) && n[0] != '+' && n[0] != '-'
  {
    var dot := FindFrom(n, '.', 0);
    if dot != -1 {
      forall i | 0 <= i < |n| ensures InClass(n[i], Numeric) {
        if i < dot { assert n[i] == n[..dot][i]; }
        else if i > dot { assert n[i] == n[dot + 1..][i - dot - 1]; }
      }
    }
  }

  predicate IsSign(sign: string) { sign == "" || sign == "+" || sign == "-" }

  lemma UnitComplete(w3: string, unit: string, w4: string)
    requires AllIn(w3, Space) && AllIn(w4, Space) && |unit| >= 1 && AllIn(unit, Letter)
    ensures UnitPart(w3 + (unit + w4)) == Some(unit)
  {
    LeadOf(w3, unit + w4, Space);
    LeadOf(unit, w4, Letter);
    LeadOf(w4, [], Space);
    assert w4 + [] == w4;
  }

  lemma UnitSound(g: string) returns (w3: string, w4: string)
    requires UnitPart(g).Some?
    ensures var unit := UnitPart(g).value;
      g == w3 + (unit + w4) && AllIn(w3, Space) && AllIn(w4, Space)
      && |unit| >= 1 && AllIn(unit, Letter)
  {
    var h := Skip(g, Space);
    var k := Lead(h, Letter);
    w3, w4 := g[..Lead(g, Space)], h[k..];
    LeadRun(g, Space);
    LeadRun(h, Letter);
    LeadRun(w4, Space);
    Cut(g, Lead(g, Space));
    Cut(h, k);
    assert Lead(w4, Space) == |w4|;
    assert w4[..|w4|] == w4;
  }

  /** A text the unit part accepts starts with whitespace or a letter. */
  lemma UnitStart(g: string)
    requires UnitPart(g).Some?
    ensures g != [] && !InClass(g[0], Numeric)
  {
    var h := Skip(g, Space);
    LeadRun(g, Space);
    LeadRun(h, Letter);
    if Lead(g, Space) == 0 {
      assert g[0] == h[0];
    } else {
      assert g[..Lead(g, Space)][0] == g[0];
    }
  }

  /** How the value stage splits `sign + sp + num + rest` when the number's run
      ends where `rest` begins. */
  lemma ValueSplit(sign: string, sp: string, num: string, rest: string)
    requires IsSign(sign) && AllIn(sp, Space) && (sign == "" ==> sp == [])
    requires |num| >= 1 && AllIn(num, Numeric) && !IsWs(num[0]) && num[0] != '+' && num[0] != '-'
    requires rest == [] || !InClass(rest[0], Numeric)
    ensures var d := sign + (sp + (num + rest));
      var f := Skip(Unsigned(d), Space);
      var k := Lead(f, Numeric);
      f[..k] == num && f[k..] == rest && d[..|d| - |f| + k] == sign + (sp + num)
  {
    var t7 := num + rest;
    var t6 := sp + t7;
    assert t6 == [] || (t6[0] != '+' && t6[0] != '-') by {
      if sp == [] { assert t6[0] == num[0]; } else { assert t6[0] == sp[0]; }
    }
    UnsignedOf(sign, t6);
    LeadOf(sp, t7, Space);
    LeadOf(num, rest, Numeric);
    PrefixBeforeRest(sign + t6, sign, sp, num, rest);
  }

  lemma ValueComplete(sign: string, sp: string, num: string, rest: string)
    requires IsSign(sign) && AllIn(sp, Space) && (sign == "" ==> sp == []) && NumberShape(num)
    requires UnitPart(rest).Some?
    ensures ValueAndUnit(sign + (sp + (num + rest))) == Some((sign + (sp + num), UnitPart(rest).value))
  {
    NumberShapeChars(num);
    UnitStart(rest);
    ValueSplit(sign, sp, num, rest);
  }

  lemma UnsignedOf(sign: string, t: string)
    requires IsSign(sign) && (t == [] || (t[0] != '+' && t[0] != '-'))
    ensures Unsigned(sign + t) == t
  {
    if sign == "" {
      assert sign + t == t;
    } else {
      DropCat(sign, t);
    }
  }

  lemma SignSplit(d: string) returns (sign: string)
    ensures d == sign + Unsigned(d) && IsSign(sign)
  {
    sign := d[..|d| - |Unsigned(d)|];
    if d != [] && (d[0] == '+' || d[0] == '-') { assert sign == [d[0]]; } else { assert sign == []; }
    Cut(d, |sign|);
  }

  lemma Regroup(sign: string, sp: string, num: string, rest: string)
    ensures sign + (sp + (num + rest)) == (sign + (sp + num)) + rest
  {
    Assoc(sp, num, rest);
    Assoc(sign, sp + num, rest);
  }

  lemma PrefixBeforeRest(d: string, sign: string, sp: string, num: string, rest: string)
    requires d == sign + (sp + (num + rest))
    ensures d[..|d| - |rest|] == sign + (sp + num)
  {
    Regroup(sign, sp, num, rest);
    TakeCat(sign + (sp + num), rest);
  }

  /** The pieces the value stage cuts `d` into, whether or not it accepts. */
  lemma ValuePieces(d: string) returns (sign: string, sp: string, num: string, rest: string)
    ensures var f := Skip(Unsigned(d), Space);
      var k := Lead(f, Numeric);
      num == f[..k] && rest == f[k..] && d[..|d| - |f| + k] == sign + (sp + num)
    ensures d == sign + (sp + (num + rest)) && IsSign(sign) && AllIn(sp, Space)
  {
    var e := Unsigned(d);
    sign := SignSplit(d);
    var f := Skip(e, Space);
    sp := e[..Lead(e, Space)];
    Cut(e, |sp|);
    LeadRun(e, Space);
    var k := Lead(f, Numeric);
    num, rest := f[..k], f[k..];
    Cut(f, k);
    PrefixBeforeRest(d, sign, sp, num, rest);
  }

  lemma ValueSound(d: string) returns (sign: string, sp: string, num: string, rest: string)
    requires ValueAndUnit(d).Some?
    ensures d == sign + (sp + (num + rest)) && ValueAndUnit(d).value.0 == sign + (sp + num)
    ensures IsSign(sign) && AllIn(sp, Space) && NumberShape(num)
    ensures UnitPart(rest) == Some(ValueAndUnit(d).value.1)
  {
    sign, sp, num, rest := ValuePieces(d);
  }

  lemma AfterCommandComplete(w1: string, status: char, w2: string, d: string)
    requires AllIn(w1, Space) && AllIn(w2, Space) && |w1| >= 1 && |w2| >= 1
    requires InClass(status, Upper) && ValueAndUnit(d).Some? && (d == [] || !IsWs(d[0]))
    ensures AfterCommand(w1 + ([status] + (w2 + d)))
      == Some((status, ValueAndUnit(d).value.0, ValueAndUnit(d).value.1))
  {
    var t3 := [status] + (w2 + d);
    LeadOf(w1, t3, Space);
    DropCat([status], w2 + d);
    LeadOf(w2, d, Space);
  }

  lemma AfterCommandSound(b: string) returns (w1: string, status: char, w2: string, d: string)
    requires AfterCommand(b).Some?
    ensures b == w1 + ([status] + (w2 + d)) && AllIn(w1, Space) && AllIn(w2, Space)
    ensures |w1| >= 1 && |w2| >= 1 && InClass(status, Upper) && ValueAndUnit(d).Some?
    ensures AfterCommand(b) == Some((status, ValueAndUnit(d).value.0, ValueAndUnit(d).value.1))
  {
    var c := Skip(b, Space);
    d := Skip(c[1..], Space);
    w1, status, w2 := b[..Lead(b, Space)], c[0], c[1..][..Lead(c[1..], Space)];
    LeadRun(b, Space);
    LeadRun(c[1..], Space);
    Cut(b, |w1|);
    Cut(c, 1);
    assert c[..1] == [status];
    Cut(c[1..], |w2|);
  }

  /** The line the pattern describes, assembled from its parts. */
  function Layout(w0: string, cmd: string, w1: string, status: char, w2: string, value: string,
                  w3: string, unit: string, w4: string): string
  {
    w0 + (cmd + (w1 + ([status] + (w2 + (value + (w3 + (unit + w4)))))))
  }

  /** Every line of the documented layout matches, and the groups are its parts. */
  lemma MatchComplete(w0: string, cmd: string, w1: string, status: char, w2: string, sign: string,
                      sp: string, num: string, w3: string, unit: string, w4: string)
    requires AllIn(w0, Space) && AllIn(w1, Space) && AllIn(w2, Space) && AllIn(sp, Space)
    requires AllIn(w3, Space) && AllIn(w4, Space) && |w1| >= 1 && |w2| >= 1
    requires 1 <= |cmd| <= 3 && AllIn(cmd, Upper) && InClass(status, Upper)
    requires IsSign(sign) && (sign == "" ==> sp == []) && NumberShape(num)
    requires |unit| >= 1 && AllIn(unit, Letter)
    ensures Match(Layout(w0, cmd, w1, status, w2, sign + (sp + num), w3, unit, w4))
      == Some(Groups(cmd, status, sign + (sp + num), unit))
  {
    var rest := w3 + (unit + w4);
    UnitComplete(w3, unit, w4);
    ValueComplete(sign, sp, num, rest);
    var d := sign + (sp + (num + rest));
    NumberShapeChars(num);
    ValueStart(sign, sp, num, rest);
    AfterCommandComplete(w1, status, w2, d);
    var b := w1 + ([status] + (w2 + d));
    assert b[0] == w1[0];
    CommandComplete(w0, cmd, b);
    Regroup(sign, sp, num, rest);
  }

  /** The value never starts with whitespace: a sign or the first digit comes first. */
  lemma ValueStart(sign: string, sp: string, num: string, rest: string)
    requires IsSign(sign) && (sign == "" ==> sp == []) && |num| >= 1 && !IsWs(num[0])
    ensures var d := sign + (sp + (num + rest)); d != [] && !IsWs(d[0])
  {
    var d := sign + (sp + (num + rest));
    if sign == "" {
      assert d[0] == num[0];
    } else {
      assert d[0] == sign[0];
    }
  }

  /** Leading whitespace and a command of one to three capitals, followed by text
      the rest of the pattern accepts that starts with whitespace. */
  lemma CommandComplete(w0: string, cmd: string, b: string)
    requires AllIn(w0, Space) && 1 <= |cmd| <= 3 && AllIn(cmd, Upper)
    requires AfterCommand(b).Some? && b != [] && IsWs(b[0])
    ensures Match(w0 + (cmd + b))
      == Some(Groups(cmd, AfterCommand(b).value.0, AfterCommand(b).value.1, AfterCommand(b).value.2))
  {
    CommandSplit(w0, cmd, b);
    CommandStage(w0 + (cmd + b), cmd, b);
  }

  lemma CommandSplit(w0: string, cmd: string, b: string)
    requires AllIn(w0, Space) && |cmd| >= 1 && AllIn(cmd, Upper) && b != [] && IsWs(b[0])
    ensures var a := Skip(w0 + (cmd + b), Space);
      a == cmd + b && Lead(a, Upper) == |cmd| && a[|cmd|..] == b && a[..|cmd|] == cmd
  {
    LeadOf(w0, cmd + b, Space);
    LeadOf(cmd, b, Upper);
  }

  /** `Match` once the line is known to be whitespace, `cmd` and `b`. */
  lemma CommandStage(line: string, cmd: string, b: string)
    requires var a := Skip(line, Space);
      a == cmd + b && Lead(a, Upper) == |cmd| && a[|cmd|..] == b && a[..|cmd|] == cmd
    requires 1 <= |cmd| <= 3 && AfterCommand(b).Some?
    ensures Match(line)
      == Some(Groups(cmd, AfterCommand(b).value.0, AfterCommand(b).value.1, AfterCommand(b).value.2))
  {
  }

  /** Conversely, a line the pattern matches has that layout. */
  lemma MatchSound(line: string) returns (w0: string, w1: string, w2: string, w3: string, w4: string,
                                            sign: string, sp: string, num: string)
    requires Match(line).Some?
    ensures var g := Match(line).value;
      line == Layout(w0, g.cmd, w1, g.status, w2, g.value, w3, g.unit, w4)
      && g.value == sign + (sp + num)
      && AllIn(w0, Space) && AllIn(w1, Space) && AllIn(w2, Space) && AllIn(sp, Space)
      && AllIn(w3, Space) && AllIn(w4, Space) && |w1| >= 1 && |w2| >= 1
      && 1 <= |g.cmd| <= 3 && AllIn(g.cmd, Upper) && InClass(g.status, Upper)
      && IsSign(sign) && NumberShape(num) && |g.unit| >= 1 && AllIn(g.unit, Letter)
  {
    var a := Skip(line, Space);
    var n := Lead(a, Upper);
    LeadRun(line, Space);
    LeadRun(a, Upper);
    var status, d;
    w1, status, w2, d := AfterCommandSound(a[n..]);
    var rest;
    sign, sp, num, rest := ValueSound(d);
    w3, w4 := UnitSound(rest);
    w0 := line[..Lead(line, Space)];
    Cut(line, |w0|);
    Cut(a, n);
    Regroup(sign, sp, num, rest);
  }

  // ---------------------------------------------------------------------
  // The decoder.

  /** An empty or all-whitespace line decodes to nothing. */
  lemma BlankIsNone(data: seq<Byte>)
    requires AllIn(Chars(data), Space)
    ensures DecodeResponse(data) == None
  {
    BlankStrips(Chars(data));
  }

  lemma BlankStrips(s: string)
    requires AllIn(s, Space)
    ensures Strip(s) == []
  {
    var l := StripLeft(s);
    assert l == s[|s| - |l|..];
  }

  /** Once the line matches and its value reads as a number, the status letter
      alone decides: S is stable, D is moving, I is overload, anything else is
      refused. */
  lemma InterpretStatus(g: Groups, v: Decimal)
    requires ParseFloat(Without(g.value, ' ')) == Some(v)
    ensures g.status == 'S' ==> Interpret(g) == Some(Reading(v, true, false))
    ensures g.status == 'D' ==> Interpret(g) == Some(Reading(v, false, false))
    ensures g.status == 'I' ==> Interpret(g) == Some(Reading(v, false, true))
    ensures g.status !in {'S', 'D', 'I'} ==> Interpret(g) == None
  {
  }

  /** A value the pattern accepts that `float()` refuses makes the line decode to
      nothing, whatever the status. */
  lemma UnreadableValue(g: Groups)
    requires ParseFloat(Without(g.value, ' ')) == None
    ensures Interpret(g) == None
  {
  }

  /** A line that strips to something the pattern matches decodes as its groups say. */
  lemma DecodeMatched(data: seq<Byte>, g: Groups)
    requires Match(Strip(Chars(data))) == Some(g)
    ensures DecodeResponse(data) == Interpret(g)
  {
    var line := Strip(Chars(data));
    MatchNonEmpty(line);
  }

  lemma MatchNonEmpty(line: string)
    requires Match(line).Some?
    ensures line != []
  {
  }

  /** The unsigned spelling of a decimal is a number the pattern accepts. */
  lemma FormatShape(d: Decimal)
    ensures NumberShape(FormatUnsigned(d))
  {
    var digits := DecPad(d.raw, d.pos + 1);
    DecPadNat(d.raw, d.pos + 1);
    if d.pos == 0 {
      FindFromNone(digits, '.', 0);
    } else {
      var k := |digits| - d.pos;
      var a, b := digits[..k], digits[k..];
      SplitDigits(digits, k);
      DottedParts(a, b);
    }
  }

  lemma DottedParts(a: string, b: string)
    requires AllDigits(a) && AllDigits(b) && |b| >= 1
    ensures NumberShape(a + "." + b)
  {
    var u := a + "." + b;
    forall i | 0 <= i < |a| ensures u[i] != '.' { assert u[i] == a[i]; }
    FindFromAt(u, '.', 0, |a|);
    assert u[..|a|] == a;
    assert u[|a| + 1..] == b;
  }

  /** The text between the sign and the digits is only spaces, so removing spaces
      leaves the sign followed by the digits. */
  lemma SpacesRemoved(sign: string, sp: string, num: string)
    requires IsSign(sign) && (forall i :: 0 <= i < |sp| ==> sp[i] == ' ') && AllIn(num, Numeric)
    ensures Without(sign + (sp + num), ' ') == sign + num
  {
    WithoutAppend(sign, sp + num, ' ');
    WithoutAppend(sp, num, ' ');
    WithoutOnly(sp, ' ');
    WithoutAbsent(num, ' ');
    WithoutAbsent(sign, ' ');
    assert [] + num == num;
  }

  /** A sign in front of a decimal's unsigned spelling reads back as that decimal:
      '-' for a negative one, '+' or nothing for the others. */
  lemma SignedReadsBack(sign: string, d: Decimal)
    requires sign == (if d.negative then "-" else "") || (sign == "+" && !d.negative)
    ensures ParseFloat(sign + FormatUnsigned(d)) == Some(d)
  {
    var u := FormatUnsigned(d);
    FormatUnsignedFacts(d);
    if sign == "+" {
      assert (sign + u)[1..] == u;
    } else {
      ParseSigned(d.negative, u);
    }
  }

  /** The decoded line, without whitespace at its ends, is its own `strip()`. */
  lemma LineStripped(cmd: string, w1: string, status: char, w2: string, value: string,
                     w3: string, unit: string)
    requires |cmd| >= 1 && AllIn(cmd, Upper) && |unit| >= 1 && AllIn(unit, Letter)
    ensures var line := Layout([], cmd, w1, status, w2, value, w3, unit, []);
      line != [] && Strip(line) == line
  {
    var line := Layout([], cmd, w1, status, w2, value, w3, unit, []);
    var tail := w1 + ([status] + (w2 + (value + w3)));
    LayoutEnds(cmd, w1, status, w2, value, w3, unit, tail);
    EndsOf(cmd, tail, unit);
    StripNoWs(line);
  }

  lemma LayoutEnds(cmd: string, w1: string, status: char, w2: string, value: string,
                   w3: string, unit: string, tail: string)
    requires tail == w1 + ([status] + (w2 + (value + w3)))
    ensures Layout([], cmd, w1, status, w2, value, w3, unit, []) == cmd + (tail + unit)
  {
    assert unit + [] == unit;
    assert [] + cmd == cmd;
    Assoc(value, w3, unit);
    Assoc(w2, value + w3, unit);
    Assoc([status], w2 + (value + w3), unit);
    Assoc(w1, [status] + (w2 + (value + w3)), unit);
  }

  lemma EndsOf(cmd: string, tail: string, unit: string)
    requires |cmd| >= 1 && AllIn(cmd, Upper) && |unit| >= 1 && AllIn(unit, Letter)
    ensures NoWsAtEnds(cmd + (tail + unit))
  {
    var line := cmd + (tail + unit);
    assert line[0] == cmd[0];
    assert line[|line| - 1] == unit[|unit| - 1];
  }

  /** Round trip: a line laid out as the pattern describes, whose value is a
      decimal's spelling with spaces after its sign, decodes to that decimal with
      the flags its status letter gives, or to nothing for any other status. */
  lemma DecodeLayout(data: seq<Byte>, cmd: string, w1: string, status: char, w2: string,
                     sign: string, sp: string, d: Decimal, w3: string, unit: string)
    requires AllIn(w1, Space) && AllIn(w2, Space) && AllIn(w3, Space) && |w1| >= 1 && |w2| >= 1
    requires 1 <= |cmd| <= 3 && AllIn(cmd, Upper) && InClass(status, Upper)
    requires sign == (if d.negative then "-" else "") || (sign == "+" && !d.negative)
    requires (sign == "" ==> sp == []) && forall i :: 0 <= i < |sp| ==> sp[i] == ' '
    requires |unit| >= 1 && AllIn(unit, Letter)
    requires Chars(data) == Layout([], cmd, w1, status, w2, sign + (sp + FormatUnsigned(d)), w3, unit, [])
    ensures DecodeResponse(data)
      == if status in {'S', 'D', 'I'} then Some(Reading(d, status == 'S', status == 'I')) else None
  {
    var value := sign + (sp + FormatUnsigned(d));
    var g := Groups(cmd, status, value, unit);
    LayoutMatches(cmd, w1, status, w2, sign, sp, d, w3, unit);
    ValueReadsBack(sign, sp, d);
    InterpretStatus(g, d);
    DecodeMatched(data, g);
  }

  lemma LayoutMatches(cmd: string, w1: string, status: char, w2: string,
                      sign: string, sp: string, d: Decimal, w3: string, unit: string)
    requires AllIn(w1, Space) && AllIn(w2, Space) && AllIn(w3, Space) && |w1| >= 1 && |w2| >= 1
    requires 1 <= |cmd| <= 3 && AllIn(cmd, Upper) && InClass(status, Upper)
    requires IsSign(sign) && (sign == "" ==> sp == []) && forall i :: 0 <= i < |sp| ==> sp[i] == ' '
    requires |unit| >= 1 && AllIn(unit, Letter)
    ensures var value := sign + (sp + FormatUnsigned(d));
      var line := Layout([], cmd, w1, status, w2, value, w3, unit, []);
      Match(Strip(line)) == Some(Groups(cmd, status, value, unit))
  {
    var num := FormatUnsigned(d);
    FormatShape(d);
    assert AllIn(sp, Space);
    MatchComplete([], cmd, w1, status, w2, sign, sp, num, w3, unit, []);
    LineStripped(cmd, w1, status, w2, sign + (sp + num), w3, unit);
  }

  lemma ValueReadsBack(sign: string, sp: string, d: Decimal)
    requires sign == (if d.negative then "-" else "") || (sign == "+" && !d.negative)
    requires forall i :: 0 <= i < |sp| ==> sp[i] == ' '
    ensures ParseFloat(Without(sign + (sp + FormatUnsigned(d)), ' ')) == Some(d)
  {
    var num := FormatUnsigned(d);
    FormatShape(d);
    NumberShapeChars(num);
    SpacesRemoved(sign, sp, num);
    SignedReadsBack(sign, d);
  }

  /** The documented sample line: 2.168 kg, stable, no overload. */
  lemma SampleLine(data: seq<Byte>)
    requires Chars(data) == "S S      2.168 kg"
    ensures DecodeResponse(data) == Some(Reading(Decimal(false, 2168, 3), true, false))
  {
    var d := Decimal(false, 2168, 3);
    SampleSpelling();
    SampleLayout();
    DecodeLayout(data, "S", " ", 'S', "      ", "", [], d, " ", "kg");
  }

  lemma SampleLayout()
    ensures "S S      2.168 kg" == Layout([], "S", " ", 'S', "      ", "" + ([] + "2.168"), " ", "kg", [])
  {
  }

  lemma SampleSpelling()
    ensures FormatUnsigned(Decimal(false, 2168, 3)) == "2.168"
  {
    SampleDigits();
    FormatDotted(Decimal(false, 2168, 3), "2168");
    assert "2168"[..1] + "." + "2168"[1..] == "2.168";
  }

  lemma SampleDigits()
    ensures DecPad(2168, 4) == "2168"
  {
    assert DecDigits(2) == "2";
    assert DecDigits(21) == "21";
    assert DecDigits(216) == "216";
    assert DecDigits(2168) == "2168";
  }

  /** The spelling of a decimal with a fraction, given its padded digits. */
  lemma FormatDotted(d: Decimal, digits: string)
    requires d.pos > 0 && DecPad(d.raw, d.pos + 1) == digits
    ensures FormatUnsigned(d) == digits[..|digits| - d.pos] + "." + digits[|digits| - d.pos..]
  {
  }

  /** Spaces between the sign and the digits are dropped before the number is read. */
  lemma SpaceAfterSign(data: seq<Byte>)
    requires Chars(data) == "S S - 5 kg"
    ensures DecodeResponse(data) == Some(Reading(Decimal(true, 5, 0), true, false))
  {
    FiveSpelling();
    assert "S S - 5 kg" == Layout([], "S", " ", 'S', " ", "-" + (" " + "5"), " ", "kg", []);
    DecodeLayout(data, "S", " ", 'S', " ", "-", " ", Decimal(true, 5, 0), " ", "kg");
  }

  lemma FiveSpelling()
    ensures FormatUnsigned(Decimal(true, 5, 0)) == "5"
  {
    DecPadNat(5, 1);
    assert DecDigits(5) == "5";
    assert ZeroPad("5", 1) == "5";
  }

  /** Whitespace other than spaces between the sign and the digits survives the
      space removal, and `float()` refuses the value, so the line decodes to nothing. */
  lemma WsAfterSign(data: seq<Byte>, cmd: string, w1: string, status: char, w2: string,
                    sign: string, sp: string, num: string, w3: string, unit: string)
    requires AllIn(w1, Space) && AllIn(w2, Space) && AllIn(w3, Space) && |w1| >= 1 && |w2| >= 1
    requires 1 <= |cmd| <= 3 && AllIn(cmd, Upper) && InClass(status, Upper)
    requires (sign == "+" || sign == "-") && AllIn(sp, Space) && Without(sp, ' ') != []
    requires NumberShape(num) && |unit| >= 1 && AllIn(unit, Letter)
    requires Chars(data) == Layout([], cmd, w1, status, w2, sign + (sp + num), w3, unit, [])
    ensures DecodeResponse(data) == None
  {
    var value := sign + (sp + num);
    MatchComplete([], cmd, w1, status, w2, sign, sp, num, w3, unit, []);
    LineStripped(cmd, w1, status, w2, value, w3, unit);
    NumberShapeChars(num);
    SignThenWs(sign, sp, num);
    UnreadableValue(Groups(cmd, status, value, unit));
    DecodeMatched(data, Groups(cmd, status, value, unit));
  }

  lemma SignThenWs(sign: string, sp: string, num: string)
    requires (sign == "+" || sign == "-") && AllIn(sp, Space) && Without(sp, ' ') != []
    requires AllIn(num, Numeric)
    ensures ParseFloat(Without(sign + (sp + num), ' ')) == None
  {
    var r := Without(sp, ' ');
    WithoutAppend(sign, sp + num, ' ');
    WithoutAppend(sp, num, ' ');
    WithoutAbsent(sign, ' ');
    WithoutAbsent(num, ' ');
    WithoutKeeps(sp, ' ', Space);
    assert (sign + (r + num))[1..] == r + num;
    assert (r + num)[0] == r[0];
    LeadingWsRefused(r + num, sign == "-");
  }

  /** Removing a character keeps every remaining character in its class. */
  lemma {:induction false} WithoutKeeps(s: string, c: char, k: CharClass)
    requires AllIn(s, k)
    ensures AllIn(Without(s, c), k)
    decreases |s|
  {
    if s != [] {
      WithoutKeeps(s[1..], c, k);
    }
  }

  /** `float()` refuses a body that starts with whitespace (after a sign). */
  lemma LeadingWsRefused(body: string, negative: bool)
    requires body != [] && IsWs(body[0])
    ensures ParseUnsigned(body, negative) == None
  {
    var dot := FindFrom(body, '.', 0);
    if dot != -1 {
      assert body[..dot][0] == body[0];
    }
  }

  /** The tab example: "S S -<TAB>5 kg" decodes to nothing. */
  lemma TabAfterSign(data: seq<Byte>)
    requires Chars(data) == "S S -\t5 kg"
    ensures DecodeResponse(data) == None
  {
    assert NumberShape("5") by { FindFromNone("5", '.', 0); }
    assert Without("\t", ' ') == "\t";
    assert "S S -\t5 kg" == Layout([], "S", " ", 'S', " ", "-" + ("\t" + "5"), " ", "kg", []);
    WsAfterSign(data, "S", " ", 'S', " ", "-", "\t", "5", " ", "kg");
  }
}
