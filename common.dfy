/** Shared vocabulary of the gateway model: bytes, optional and fallible results,
    and the fixed-width hexadecimal and decimal renderings (Python's `%0NX` and
    `%0Nd` format specifications) that the codecs put on the wire. */
module Common {

  /** One octet, as Python's `bytes` hands it out. */
  type Byte = x: int | 0 <= x < 0x100

  datatype Option<+T> = None | Some(value: T)

  /** A value or the exception the source raises instead. */
  datatype Result<+T, +E> = Ok(value: T) | Err(error: E)

  function Pow(base: nat, n: nat): (r: nat)
    ensures base >= 1 ==> r >= 1
  {
    if n == 0 then 1 else base * Pow(base, n - 1)
  }

  predicate IsAsciiDigit(c: char) { '0' <= c <= '9' }

  predicate IsUpperHexDigit(c: char) { '0' <= c <= '9' || 'A' <= c <= 'F' }

  predicate IsAscii(s: string) { forall i :: 0 <= i < |s| ==> s[i] as int < 0x80 }

  /** `s.encode("ascii")` for a string that is known to be ASCII. */
  function AsciiBytes(s: string): (r: seq<Byte>)
    requires IsAscii(s)
    ensures |r| == |s| && forall i :: 0 <= i < |s| ==> r[i] == s[i] as int
  {
    if s == [] then [] else [s[0] as int] + AsciiBytes(s[1..])
  }

  lemma AsciiBytesAppend(a: string, b: string)
    requires IsAscii(a) && IsAscii(b)
    ensures IsAscii(a + b) && AsciiBytes(a + b) == AsciiBytes(a) + AsciiBytes(b)
  {
    assert IsAscii(a + b) by {
      forall i | 0 <= i < |a + b| ensures (a + b)[i] as int < 0x80 {
        if i < |a| { assert (a + b)[i] == a[i]; } else { assert (a + b)[i] == b[i - |a|]; }
      }
    }
  }

  /** The upper-case hexadecimal digit of a nibble. */
  function HexDigit(n: nat): (c: char)
    requires n < 16
    ensures IsUpperHexDigit(c) && HexValue(c) == n
  {
    if n < 10 then ('0' as int + n) as char else ('A' as int + n - 10) as char
  }

  /** The value of an upper-case hexadecimal digit (0 for any other character). */
  function HexValue(c: char): (n: nat)
    ensures n < 16
  {
    if '0' <= c <= '9' then c as int - '0' as int
    else if 'A' <= c <= 'F' then c as int - 'A' as int + 10
    else 0
  }

  function DecDigit(n: nat): (c: char)
    requires n < 10
    ensures IsAsciiDigit(c) && c as int - '0' as int == n
  {
    ('0' as int + n) as char
  }

  /** Python's `%d` of a non-negative number: "0" for zero, no leading zeros otherwise. */
  function DecDigits(n: nat): (s: string)
    ensures |s| >= 1
    decreases n
  {
    if n < 10 then [DecDigit(n)] else DecDigits(n / 10) + [DecDigit(n % 10)]
  }

  /** Python's `%X` of a non-negative number. */
  function HexDigits(n: nat): (s: string)
    ensures |s| >= 1
    decreases n
  {
    if n < 16 then [HexDigit(n)] else HexDigits(n / 16) + [HexDigit(n % 16)]
  }

  /** Left zero padding up to `width` characters; never truncates. */
  function ZeroPad(s: string, width: nat): (r: string)
    ensures |r| == if |s| < width then width else |s|
  {
    if |s| < width then seq(width - |s|, _ => '0') + s else s
  }

  /** Python's `f"{n:0{width}X}"`: at least `width` upper-case hex digits. */
  function HexPad(n: nat, width: nat): string
  {
    ZeroPad(HexDigits(n), width)
  }

  /** Python's `f"{n:0{width}d}"`: the sign counts towards the width. */
  function DecPad(n: int, width: nat): string
  {
    if n < 0 then "-" + ZeroPad(DecDigits(-n), if width == 0 then 0 else width - 1)
    else ZeroPad(DecDigits(n), width)
  }

  /** The value of a string of decimal digits. */
  function DecValue(s: string): nat
  {
    if s == [] then 0 else DecValue(s[..|s| - 1]) * 10 + HexValue(s[|s| - 1])
  }

  /** Appending a digit multiplies the value by ten and adds the digit. */
  lemma DecValueSnoc(s: string, c: char)
    ensures DecValue(s + [c]) == DecValue(s) * 10 + HexValue(c)
  {
    assert (s + [c])[..|s|] == s;
  }

  /** The value of a string of upper-case hexadecimal digits. */
  function HexNumValue(s: string): nat
  {
    if s == [] then 0 else HexNumValue(s[..|s| - 1]) * 16 + HexValue(s[|s| - 1])
  }

  predicate AllDigits(s: string) { forall i :: 0 <= i < |s| ==> IsAsciiDigit(s[i]) }

  predicate AllHexDigits(s: string) { forall i :: 0 <= i < |s| ==> IsUpperHexDigit(s[i]) }

  lemma {:induction false} DecDigitsFacts(n: nat)
    ensures DecValue(DecDigits(n)) == n && AllDigits(DecDigits(n))
    ensures n < 10 ==> |DecDigits(n)| == 1
    decreases n
  {
    var s := DecDigits(n);
    if n >= 10 {
      DecDigitsFacts(n / 10);
      assert s[..|s| - 1] == DecDigits(n / 10);
    }
  }

  lemma {:induction false} HexDigitsFacts(n: nat)
    ensures HexNumValue(HexDigits(n)) == n && AllHexDigits(HexDigits(n))
    ensures n < 16 ==> |HexDigits(n)| == 1
    decreases n
  {
    var s := HexDigits(n);
    if n >= 16 {
      HexDigitsFacts(n / 16);
      assert s[..|s| - 1] == HexDigits(n / 16);
    }
  }

  lemma {:induction false} ZerosPrefixValue(k: nat, s: string)
    ensures DecValue(seq(k, _ => '0') + s) == DecValue(s)
    ensures HexNumValue(seq(k, _ => '0') + s) == HexNumValue(s)
    decreases |s|
  {
    var z := seq(k, _ => '0');
    if s == [] {
      assert z + s == z;
      ZerosValue(k);
    } else {
      var t := z + s;
      assert t[..|t| - 1] == z + s[..|s| - 1];
      ZerosPrefixValue(k, s[..|s| - 1]);
    }
  }

  lemma {:induction false} ZerosValue(k: nat)
    ensures DecValue(seq(k, _ => '0')) == 0 && HexNumValue(seq(k, _ => '0')) == 0
  {
    if k > 0 {
      assert seq(k, _ => '0')[..k - 1] == seq(k - 1, _ => '0');
      ZerosValue(k - 1);
    }
  }

  lemma ZeroPadDigits(s: string, w: nat)
    ensures AllDigits(s) ==> AllDigits(ZeroPad(s, w))
    ensures AllHexDigits(s) ==> AllHexDigits(ZeroPad(s, w))
    ensures DecValue(ZeroPad(s, w)) == DecValue(s) && HexNumValue(ZeroPad(s, w)) == HexNumValue(s)
  {
    if |s| < w { ZerosPrefixValue(w - |s|, s); }
  }

  lemma {:induction false} DecDigitsLength(n: nat, w: nat)
    requires 1 <= w && n < Pow(10, w)
    ensures |DecDigits(n)| <= w
    decreases w
  {
    if n >= 10 {
      assert w >= 2;
      assert n / 10 < Pow(10, w - 1);
      DecDigitsLength(n / 10, w - 1);
    }
  }

  lemma {:induction false} DecDigitsLengthAtLeast(n: nat, w: nat)
    requires 1 <= w && Pow(10, w - 1) <= n
    ensures |DecDigits(n)| >= w
    decreases w
  {
    if w > 1 {
      assert n >= 10;
      assert Pow(10, w - 2) <= n / 10;
      DecDigitsLengthAtLeast(n / 10, w - 1);
    }
  }

  lemma {:induction false} HexDigitsLength(n: nat, w: nat)
    requires 1 <= w && n < Pow(16, w)
    ensures |HexDigits(n)| <= w
    decreases w
  {
    if n >= 16 {
      assert w >= 2;
      assert n / 16 < Pow(16, w - 1);
      HexDigitsLength(n / 16, w - 1);
    }
  }

  /** `%0wd` of a non-negative number: at least `w` decimal digits worth `n`. */
  lemma DecPadNat(n: nat, w: nat)
    ensures DecPad(n, w) == ZeroPad(DecDigits(n), w)
    ensures |DecPad(n, w)| >= w && |DecPad(n, w)| >= 1
    ensures AllDigits(DecPad(n, w)) && DecValue(DecPad(n, w)) == n
  {
    DecDigitsFacts(n);
    ZeroPadDigits(DecDigits(n), w);
  }

  /** `%0wX`: at least `w` upper-case hex digits worth `n`. */
  lemma HexPadFacts(n: nat, w: nat)
    ensures |HexPad(n, w)| >= w && |HexPad(n, w)| >= 1
    ensures AllHexDigits(HexPad(n, w)) && HexNumValue(HexPad(n, w)) == n
  {
    HexDigitsFacts(n);
    ZeroPadDigits(HexDigits(n), w);
  }

  /** For a number that fits, `%0wX` is exactly `w` digits long. */
  lemma HexPadExact(n: nat, w: nat)
    requires 1 <= w && n < Pow(16, w)
    ensures |HexPad(n, w)| == w
    ensures AllHexDigits(HexPad(n, w)) && HexNumValue(HexPad(n, w)) == n
  {
    HexDigitsLength(n, w);
    HexPadFacts(n, w);
  }

  lemma DecPadExact(n: nat, w: nat)
    requires 1 <= w && n < Pow(10, w)
    ensures |DecPad(n, w)| == w
    ensures AllDigits(DecPad(n, w)) && DecValue(DecPad(n, w)) == n
  {
    DecDigitsLength(n, w);
    DecPadNat(n, w);
  }

  /** The first index at or after `from` where `c` occurs, or -1 (Python's `str.find`). */
  function FindFrom<T(==)>(s: seq<T>, c: T, from: nat): (r: int)
    ensures r == -1 || (from <= r < |s| && s[r] == c)
    decreases |s| - from
  {
    if from >= |s| then -1 else if s[from] == c then from else FindFrom(s, c, from + 1)
  }

  /** FindFrom skips no occurrence: none lies between `from` and the result. */
  lemma {:induction false} FindFromSkips<T>(s: seq<T>, c: T, from: nat)
    ensures var r := FindFrom(s, c, from);
      forall i :: from <= i < (if r == -1 then |s| else r) ==> s[i] != c
    decreases |s| - from
  {
    if from < |s| && s[from] != c {
      FindFromSkips(s, c, from + 1);
    }
  }

  lemma {:induction false} FindFromAt<T>(s: seq<T>, c: T, from: nat, k: nat)
    requires from <= k < |s| && s[k] == c
    requires forall i :: from <= i < k ==> s[i] != c
    ensures FindFrom(s, c, from) == k
    decreases k - from
  {
    if from < k {
      FindFromAt(s, c, from + 1, k);
    }
  }

  lemma {:induction false} FindFromNone<T>(s: seq<T>, c: T, from: nat)
    requires forall i :: from <= i < |s| ==> s[i] != c
    ensures FindFrom(s, c, from) == -1
    decreases |s| - from
  {
    if from < |s| {
      FindFromNone(s, c, from + 1);
    }
  }

  /** Searching a suffix is searching the whole from further on. */
  lemma FindFromSuffix<T>(s: seq<T>, c: T, i: nat, from: nat)
    requires i <= |s|
    ensures var r := FindFrom(s, c, i + from);
      FindFrom(s[i..], c, from) == if r == -1 then -1 else r - i
  {
    var r := FindFrom(s, c, i + from);
    var t := s[i..];
    FindFromSkips(s, c, i + from);
    if r == -1 {
      forall j | from <= j < |t| ensures t[j] != c { assert t[j] == s[i + j]; }
      FindFromNone(t, c, from);
    } else {
      forall j | from <= j < r - i ensures t[j] != c { assert t[j] == s[i + j]; }
      FindFromAt(t, c, from, r - i);
    }
  }

  /** Python's `sub in s` for strings and byte strings. */
  predicate Contains<T(==)>(s: seq<T>, sub: seq<T>)
  {
    exists i :: 0 <= i <= |s| - |sub| && OccursAt(s, sub, i)
  }

  predicate OccursAt<T(==)>(s: seq<T>, sub: seq<T>, i: int)
  {
    0 <= i <= |s| - |sub| && s[i..i + |sub|] == sub
  }

  // ---------------------------------------------------------------------
  // Python text helpers.

  /** The ASCII whitespace of `bytes.strip()` and of `\s` in a bytes pattern:
      space, tab, LF, VT, FF and CR. */
  predicate IsWs(c: char) { c == ' ' || '\t' <= c <= '\r' }

  predicate NoWsAtEnds(s: string)
  {
    s == [] || (!IsWs(s[0]) && !IsWs(s[|s| - 1]))
  }

  function StripLeft(s: string): (r: string)
    ensures |r| <= |s| && r == s[|s| - |r|..]
    ensures r == [] || !IsWs(r[0])
    ensures forall i :: 0 <= i < |s| - |r| ==> IsWs(s[i])
  {
    if s != [] && IsWs(s[0]) then StripLeft(s[1..]) else s
  }

  function StripRight(s: string): (r: string)
    ensures |r| <= |s| && r == s[..|r|]
    ensures r == [] || !IsWs(r[|r| - 1])
    ensures forall i :: |r| <= i < |s| ==> IsWs(s[i])
  {
    if s != [] && IsWs(s[|s| - 1]) then StripRight(s[..|s| - 1]) else s
  }

  /** Python's `strip()` with no argument, on ASCII whitespace. */
  function Strip(s: string): string
  {
    StripRight(StripLeft(s))
  }

  /** `strip()` cuts whitespace off both ends and nothing else. */
  lemma StripSpec(s: string)
    ensures NoWsAtEnds(Strip(s))
    ensures var i := |s| - |StripLeft(s)|; var j := i + |Strip(s)|;
      j <= |s| && Strip(s) == s[i..j]
      && (forall k :: 0 <= k < i ==> IsWs(s[k])) && (forall k :: j <= k < |s| ==> IsWs(s[k]))
  {
    StripEnds(s);
    StripSlice(s);
  }

  lemma StripEnds(s: string)
    ensures NoWsAtEnds(Strip(s))
  {
    var l := StripLeft(s);
    var r := StripRight(l);
    if r != [] {
      assert r[0] == l[0];
    }
  }

  lemma StripSlice(s: string)
    ensures var i := |s| - |StripLeft(s)|; var j := i + |Strip(s)|;
      j <= |s| && Strip(s) == s[i..j]
      && (forall k :: 0 <= k < i ==> IsWs(s[k])) && (forall k :: j <= k < |s| ==> IsWs(s[k]))
  {
    var l := StripLeft(s);
    var r := StripRight(l);
    var i := |s| - |l|;
    SliceOfSuffix(s, l, i, |r|);
    TrailingWs(s, l, i, |r|);
  }

  lemma SliceOfSuffix(s: string, l: string, i: nat, n: nat)
    requires i + n <= |s| && l == s[i..]
    ensures l[..n] == s[i..i + n]
  {
  }

  /** Whitespace after position `n` of `s[i..]` is whitespace after `i + n` in `s`. */
  lemma TrailingWs(s: string, l: string, i: nat, n: nat)
    requires i + n <= |s| && l == s[i..]
    requires forall k :: n <= k < |l| ==> IsWs(l[k])
    ensures forall k :: i + n <= k < |s| ==> IsWs(s[k])
  {
    forall k | i + n <= k < |s| ensures IsWs(s[k]) {
      assert s[k] == l[k - i];
    }
  }

  /** A string with no whitespace at either end is its own `strip()`. */
  lemma StripNoWs(s: string)
    requires NoWsAtEnds(s)
    ensures Strip(s) == s
  {
  }

  /** `str.isspace()` on one character, the whitespace `str.strip()` removes: the
      ASCII whitespace, the separators U+001C..U+001F, NEL, the no-break space, the
      Ogham space mark, the spaces U+2000..U+200A, the line and paragraph separators,
      the narrow no-break space, the medium mathematical space and the ideographic
      space. */
  predicate IsSpace(c: char)
  {
    IsWs(c) || '\U{1C}' <= c <= '\U{1F}' || c == '\U{85}' || c == '\U{A0}' || c == '\U{1680}'
    || '\U{2000}' <= c <= '\U{200A}' || c == '\U{2028}' || c == '\U{2029}' || c == '\U{202F}'
    || c == '\U{205F}' || c == '\U{3000}'
  }

  predicate NoSpaceAtEnds(s: string)
  {
    s == [] || (!IsSpace(s[0]) && !IsSpace(s[|s| - 1]))
  }

  function TextStripLeft(s: string): (r: string)
    ensures |r| <= |s| && r == s[|s| - |r|..]
    ensures r == [] || !IsSpace(r[0])
    ensures forall i :: 0 <= i < |s| - |r| ==> IsSpace(s[i])
  {
    if s != [] && IsSpace(s[0]) then TextStripLeft(s[1..]) else s
  }

  function TextStripRight(s: string): (r: string)
    ensures |r| <= |s| && r == s[..|r|]
    ensures r == [] || !IsSpace(r[|r| - 1])
    ensures forall i :: |r| <= i < |s| ==> IsSpace(s[i])
  {
    if s != [] && IsSpace(s[|s| - 1]) then TextStripRight(s[..|s| - 1]) else s
  }

  /** `str.strip()` with no argument. */
  function TextStrip(s: string): string
  {
    TextStripRight(TextStripLeft(s))
  }

  /** `str.strip()` cuts whitespace off both ends and nothing else. */
  lemma TextStripSpec(s: string)
    ensures NoSpaceAtEnds(TextStrip(s))
    ensures var i := |s| - |TextStripLeft(s)|; var j := i + |TextStrip(s)|;
      j <= |s| && TextStrip(s) == s[i..j]
      && (forall k :: 0 <= k < i ==> IsSpace(s[k])) && (forall k :: j <= k < |s| ==> IsSpace(s[k]))
  {
    TextStripEnds(s);
    TextStripSlice(s);
  }

  lemma TextStripEnds(s: string)
    ensures NoSpaceAtEnds(TextStrip(s))
  {
    var l := TextStripLeft(s);
    var r := TextStripRight(l);
    if r != [] {
      assert r[0] == l[0];
    }
  }

  lemma TextStripSlice(s: string)
    ensures var i := |s| - |TextStripLeft(s)|; var j := i + |TextStrip(s)|;
      j <= |s| && TextStrip(s) == s[i..j]
      && (forall k :: 0 <= k < i ==> IsSpace(s[k])) && (forall k :: j <= k < |s| ==> IsSpace(s[k]))
  {
    var l := TextStripLeft(s);
    var r := TextStripRight(l);
    var i := |s| - |l|;
    SliceOfSuffix(s, l, i, |r|);
    TrailingSpace(s, l, i, |r|);
  }

  /** Whitespace after position `n` of `s[i..]` is whitespace after `i + n` in `s`. */
  lemma TrailingSpace(s: string, l: string, i: nat, n: nat)
    requires i + n <= |s| && l == s[i..]
    requires forall k :: n <= k < |l| ==> IsSpace(l[k])
    ensures forall k :: i + n <= k < |s| ==> IsSpace(s[k])
  {
    forall k | i + n <= k < |s| ensures IsSpace(s[k]) {
      assert s[k] == l[k - i];
    }
  }

  /** A text with no whitespace at either end is its own `strip()`. */
  lemma TextStripNoSpace(s: string)
    requires NoSpaceAtEnds(s)
    ensures TextStrip(s) == s
  {
  }

  /** A text is blank for `str.strip()` exactly when all of it is whitespace. */
  lemma TextStripBlank(s: string)
    ensures TextStrip(s) == [] <==> forall k :: 0 <= k < |s| ==> IsSpace(s[k])
  {
    TextStripSpec(s);
    var l := TextStripLeft(s);
    assert |l| > 0 ==> !IsSpace(s[|s| - |l|]);
  }

  /** `s.replace(c, "")`. */
  function Without(s: string, c: char): (r: string)
    ensures forall i :: 0 <= i < |r| ==> r[i] != c
  {
    if s == [] then [] else (if s[0] == c then [] else [s[0]]) + Without(s[1..], c)
  }

  lemma {:induction false} WithoutAppend(a: string, b: string, c: char)
    ensures Without(a + b, c) == Without(a, c) + Without(b, c)
    decreases |a|
  {
    if a == [] {
      assert a + b == b;
    } else {
      assert (a + b)[1..] == a[1..] + b;
      WithoutAppend(a[1..], b, c);
    }
  }

  lemma {:induction false} WithoutOnly(s: string, c: char)
    requires forall i :: 0 <= i < |s| ==> s[i] == c
    ensures Without(s, c) == []
    decreases |s|
  {
    if s != [] { WithoutOnly(s[1..], c); }
  }

  lemma {:induction false} WithoutAbsent(s: string, c: char)
    requires forall i :: 0 <= i < |s| ==> s[i] != c
    ensures Without(s, c) == s
    decreases |s|
  {
    if s != [] { WithoutAbsent(s[1..], c); }
  }

  /** The first index at or after `from` where `sep` occurs, or -1. */
  function FindSeq<T(==)>(s: seq<T>, sep: seq<T>, from: nat): (r: int)
    ensures r == -1 || (from <= r && OccursAt(s, sep, r))
    ensures r == -1 ==> forall i :: from <= i ==> !OccursAt(s, sep, i)
    ensures r != -1 ==> forall i :: from <= i < r ==> !OccursAt(s, sep, i)
    decreases |s| - from
  {
    if from + |sep| > |s| then -1
    else if s[from..from + |sep|] == sep then from
    else FindSeq(s, sep, from + 1)
  }

  /** Python's `s.split(sep)` for a non-empty separator: the pieces between
      non-overlapping occurrences found from the left. */
  function Split<T(==)>(s: seq<T>, sep: seq<T>): (parts: seq<seq<T>>)
    requires |sep| > 0
    ensures |parts| >= 1
    decreases |s|
  {
    var i := FindSeq(s, sep, 0);
    if i == -1 then [s] else [s[..i]] + Split(s[i + |sep|..], sep)
  }

  /** Python's `sep.join(parts)`. */
  function Join<T>(parts: seq<seq<T>>, sep: seq<T>): seq<T>
  {
    if parts == [] then [] else if |parts| == 1 then parts[0] else parts[0] + sep + Join(parts[1..], sep)
  }

  /** Splitting loses nothing: joining the pieces back gives the input. */
  lemma {:induction false} JoinSplit<T>(s: seq<T>, sep: seq<T>)
    requires |sep| > 0
    ensures Join(Split(s, sep), sep) == s
    decreases |s|
  {
    var i := FindSeq(s, sep, 0);
    if i != -1 {
      var rest := s[i + |sep|..];
      var parts := Split(s, sep);
      JoinSplit(rest, sep);
      assert parts == [s[..i]] + Split(rest, sep);
      assert parts[1..] == Split(rest, sep);
      assert |parts| >= 2;
      assert Join(parts, sep) == s[..i] + sep + Join(Split(rest, sep), sep);
      assert s[i..i + |sep|] == sep;
      assert s == s[..i] + s[i..i + |sep|] + rest;
    }
  }

  /** No piece of a split holds the separator. */
  lemma {:induction false} SplitPiecesFree<T>(s: seq<T>, sep: seq<T>, k: nat)
    requires |sep| > 0 && k < |Split(s, sep)|
    ensures !Contains(Split(s, sep)[k], sep)
    decreases |s|
  {
    var i := FindSeq(s, sep, 0);
    if i == -1 {
      assert Split(s, sep)[k] == s;
    } else if k == 0 {
      var p := s[..i];
      forall j | 0 <= j <= |p| - |sep| ensures !OccursAt(p, sep, j) {
        assert p[j..j + |sep|] == s[j..j + |sep|];
        assert !OccursAt(s, sep, j);
      }
    } else {
      SplitPiecesFree(s[i + |sep|..], sep, k - 1);
    }
  }

  /** Splitting on one separator element at its first occurrence. */
  lemma SplitFirst<T>(w: seq<T>, c: T, rest: seq<T>)
    requires c !in w
    ensures Split(w + ([c] + rest), [c]) == [w] + Split(rest, [c])
  {
    var s := w + ([c] + rest);
    forall i | 0 <= i < |w| ensures !OccursAt(s, [c], i) {
      assert s[i..i + 1] == [w[i]];
    }
    assert s[|w|..|w| + 1] == [c];
    assert OccursAt(s, [c], |w|);
    assert s[..|w|] == w;
    assert s[|w| + 1..] == rest;
  }

  /** A sequence without the separator splits into itself alone. */
  lemma SplitWhole<T>(w: seq<T>, c: T)
    requires c !in w
    ensures Split(w, [c]) == [w]
  {
    forall i | 0 <= i ensures !OccursAt(w, [c], i) {
      if 0 <= i < |w| { assert w[i..i + 1] == [w[i]]; }
    }
  }
}
