/** Label templates (backend/labels/utils.py): `build_print_command` replaces each
    `{prefix.path}` or `{prefix.path:n}` in a DPL template by the value the path
    reaches in the record given for the prefix; successive `:n` occurrences of one
    variable take its text in space-aware chunks. A Python value is one of the
    cases of `Value`; the names a path can take from it and its `str()` rendering,
    where the source uses them, are part of the value. Whitespace is that of
    `str.strip()`. */
module Labels {
  import opened Common
  import opened DplNames

  /** The text put in place of a malformed variable. */
  const InvalidVarMsg: string := "Некорретная структура переменной"

  /** A value a path can reach: None; a string, with the attributes `hasattr` finds on
      it (its methods); or any other value, with the names a path can take from it and
      its `str()`. For a mapping those names are its keys; for a model, a number, a date
      or any other object they are the attributes `hasattr` finds. */
  datatype Value = Null | Str(s: string, attrs: map<string, Value>) | Obj(members: map<string, Value>, text: string)

  /** `str(value)` for a value that is not None. */
  function Text(v: Value): string
    requires !v.Null?
  {
    match v
    case Str(s, _) => s
    case Obj(_, text) => text
  }

  /** What one part of a path can name in a value that is not None: the keys of a
      mapping (`part in cur`), or the attributes of anything else (`hasattr`). */
  function Members(v: Value): map<string, Value>
    requires !v.Null?
  {
    match v
    case Str(_, attrs) => attrs
    case Obj(members, _) => members
  }

  // ---------------------------------------------------------------------
  // `_resolve_path`.

  /** Walking the parts of a dotted path: a part must name a key or an attribute of
      the current value; None, or a part it does not have, ends the walk
      unsuccessfully. */
  function Resolve(cur: Value, parts: seq<string>): (r: (bool, Value))
    ensures !r.0 ==> r.1 == Null
    decreases |parts|
  {
    if parts == [] then (true, cur)
    else if !cur.Null? && parts[0] in Members(cur) then Resolve(Members(cur)[parts[0]], parts[1..])
    else (false, Null)
  }

  /** `_resolve_path(root, path)`: returns (found, value). */
  method ResolvePath(root: Value, path: string) returns (found: bool, value: Value)
    ensures (found, value) == Resolve(root, Split(path, "."))
  {
    var parts := Split(path, ".");
    var cur := root;
    var k := 0;
    while k < |parts|
      invariant 0 <= k <= |parts|
      invariant Resolve(root, parts) == Resolve(cur, parts[k..])
    {
      assert parts[k..][0] == parts[k] && parts[k..][1..] == parts[k + 1..];
      if cur.Null? {
        return false, Null;
      }
      if parts[k] in Members(cur) {
        cur := Members(cur)[parts[k]];
        k := k + 1;
        continue;
      }
      return false, Null;
    }
    assert parts[k..] == [];
    return true, cur;
  }

  // ---------------------------------------------------------------------
  // `_consume_chunk`.

  /** `_consume_chunk(text, max_len)`: the next chunk of at most `max_len`
      characters, cut at the last space of the window when there is one past its
      first character (the space is dropped), else cut hard; and the rest. */
  function ConsumeChunk(text: string, maxLen: int): (string, string)
  {
    if maxLen <= 0 || text == [] then ([], text)
    else if |text| <= maxLen then (text, [])
    else
      var window := text[..maxLen];
      var cut := LastIndex(window, ' ');
      if cut > 0 then (window[..cut], text[cut + 1..])
      else (window, text[maxLen..])
  }

  // ---------------------------------------------------------------------
  // One variable: the `replace` callback.

  /** A well-formed variable: its prefix, its path and its length, if any. */
  datatype Var = Var(prefix: string, path: string, maxLen: Option<int>)

  /** The digits `int()` reads in base 10: ASCII digits, where a single underscore may
      stand between two of them. */
  predicate IntDigits(d: string)
  {
    d != [] && IsAsciiDigit(d[0]) && IsAsciiDigit(d[|d| - 1])
    && (forall i :: 0 <= i < |d| ==> IsAsciiDigit(d[i]) || d[i] == '_')
    && (forall i :: 0 < i < |d| && d[i] == '_' ==> d[i - 1] != '_')
  }

  /** Python's `int()` of a stripped text: an optional sign, then digits, read
      without their underscores. */
  function ParseInt(s: string): Option<int>
  {
    var signed := s != [] && (s[0] == '+' || s[0] == '-');
    var d := if signed then s[1..] else s;
    if !IntDigits(d) then None
    else
      var n: int := DecValue(Without(d, '_'));
      Some(if signed && s[0] == '-' then -n else n)
  }

  /** The structure checks of `replace` on the text between the braces: None
      is a malformed variable. */
  function ParseVar(inner: string): Option<Var>
  {
    ParseRaw(TextStrip(inner))
  }

  /** The stripped text is split at its first ':' into the name and the length;
      both parts are stripped and must not be empty, and the length must be an
      integer. */
  function ParseRaw(raw: string): Option<Var>
  {
    if raw == [] then None
    else
      var colon := FindFrom(raw, ':', 0);
      if colon == -1 then ParseName(raw, None)
      else
        var varPart := TextStrip(raw[..colon]);
        var lenPart := TextStrip(raw[colon + 1..]);
        if varPart == [] || lenPart == [] then None
        else
          match ParseInt(lenPart)
          case None => None
          case Some(n) => ParseName(varPart, Some(n))
  }

  /** The name must have a dot; it is split at the first one into the prefix and
      the path, both stripped and non-empty. */
  function ParseName(varPart: string, maxLen: Option<int>): Option<Var>
  {
    var dot := FindFrom(varPart, '.', 0);
    if dot == -1 then None
    else
      var prefix := TextStrip(varPart[..dot]);
      var path := TextStrip(varPart[dot + 1..]);
      if prefix == [] || path == [] then None
      else Some(Var(prefix, path, maxLen))
  }

  /** The key under which the unconsumed text of a variable is kept. */
  function FullKey(v: Var): string
  {
    v.prefix + "." + v.path
  }

  /** `replace` for the text `inner` between the braces: the replacement and the
      new map of unconsumed texts. */
  function Replace(inner: string, values: map<string, Value>, rem: map<string, string>): (string, map<string, string>)
  {
    match ParseVar(inner)
    case None => (InvalidVarMsg, rem)
    case Some(x) => Lookup(x, "{" + inner + "}", values, rem)
  }

  /** A well-formed variable: kept as written (`original`) when its prefix has no
      values, else rendered from where its path leads. */
  function Lookup(x: Var, original: string, values: map<string, Value>, rem: map<string, string>)
    : (string, map<string, string>)
  {
    if x.prefix !in values || values[x.prefix].Null? then (original, rem)
    else Render(x, original, Resolve(values[x.prefix], Split(x.path, ".")), rem)
  }

  /** The outcome `res` of walking the path: kept as written when not found, the
      empty text for None, `str()` without a length, the next chunk of a string
      with one, and malformed for a length on anything else. */
  function Render(x: Var, original: string, res: (bool, Value), rem: map<string, string>)
    : (string, map<string, string>)
  {
    if !res.0 then (original, rem)
    else if res.1.Null? then ("", rem)
    else if x.maxLen.None? then (Text(res.1), rem)
    else if !res.1.Str? then (InvalidVarMsg, rem)
    else TakeChunk(FullKey(x), res.1.s, x.maxLen.value, rem)
  }

  /** The next chunk of the variable `key` whose string is `s`: taken from the
      text left by its earlier occurrences, or from `s` the first time. */
  function TakeChunk(key: string, s: string, maxLen: int, rem: map<string, string>)
    : (string, map<string, string>)
  {
    var remaining := if key in rem then rem[key] else s;
    var c := ConsumeChunk(remaining, maxLen);
    (c.0, rem[key := c.1])
  }

  /** `replace(match)`: as Replace, with the path walked by ResolvePath and the
      map of unconsumed texts updated in place. */
  method ReplaceMatch(inner: string, values: map<string, Value>, rem: map<string, string>)
    returns (text: string, rem': map<string, string>)
    ensures text == Replace(inner, values, rem).0 && rem' == Replace(inner, values, rem).1
  {
    rem' := rem;
    var v := ParseVar(inner);
    if v.None? {
      return InvalidVarMsg, rem';
    }
    var x := v.value;
    if x.prefix !in values || values[x.prefix].Null? {
      return "{" + inner + "}", rem';
    }
    var found, value := ResolvePath(values[x.prefix], x.path);
    if !found {
      return "{" + inner + "}", rem';
    }
    if value.Null? {
      return "", rem';
    }
    if x.maxLen.None? {
      return Text(value), rem';
    }
    if !value.Str? {
      return InvalidVarMsg, rem';
    }
    var key := FullKey(x);
    var remaining := if key in rem' then rem'[key] else value.s;
    var chunk, rest := ConsumeChunk(remaining, x.maxLen.value).0, ConsumeChunk(remaining, x.maxLen.value).1;
    rem' := rem'[key := rest];
    return chunk, rem';
  }

  // ---------------------------------------------------------------------
  // The template.

  /** The first brace at or after `j`, or the end of the text. */
  function NextBrace(s: string, j: nat): (k: nat)
    requires j <= |s|
    ensures j <= k <= |s| && (k < |s| ==> s[k] == '{' || s[k] == '}')
    ensures forall m :: j <= m < k ==> s[m] != '{' && s[m] != '}'
    decreases |s| - j
  {
    if j == |s| || s[j] == '{' || s[j] == '}' then j else NextBrace(s, j + 1)
  }

  /** Where the pattern `\{([^{}]+)\}` matches at `i`: the index of its closing
      brace, or -1. The run of non-brace characters stops at the first brace, which
      must close it, and must not be empty. */
  function TokenEnd(s: string, i: nat): (e: int)
    requires i < |s|
    ensures e == -1 || (i + 1 < e < |s| && s[i] == '{' && s[e] == '}')
  {
    if s[i] != '{' then -1
    else
      var k := NextBrace(s, i + 1);
      if k < |s| && s[k] == '}' && k > i + 1 then k else -1
  }

  /** One step of `_VAR_PATTERN.sub` at `i`: what the scan emits, where it goes on
      and the new map of unconsumed texts. A variable starting at `i` is
      replaced and the scan goes on after its closing brace; any other character
      is kept. */
  function Step(s: string, i: nat, values: map<string, Value>, rem: map<string, string>)
    : (r: (string, nat, map<string, string>))
    requires i < |s|
    ensures i < r.1 <= |s|
  {
    var e := TokenEnd(s, i);
    if e == -1 then ([s[i]], i + 1, rem)
    else
      var r := Replace(s[i + 1..e], values, rem);
      (r.0, e + 1, r.1)
  }

  /** `_VAR_PATTERN.sub(replace, s[i..])` with the map of unconsumed texts `rem`:
      the scan goes from left to right, step by step. */
  function SubFrom(s: string, i: nat, values: map<string, Value>, rem: map<string, string>): string
    requires i <= |s|
    decreases |s| - i
  {
    if i == |s| then []
    else
      var st := Step(s, i, values, rem);
      st.0 + SubFrom(s, st.1, values, st.2)
  }

  /** `build_print_command`: None for a blank template, the template itself when
      no values are given, else every variable replaced. */
  function PrintCommand(template: string, values: map<string, Value>): Option<string>
  {
    if TextStrip(template) == [] then None
    else if |values| == 0 then Some(template)
    else Some(SubFrom(template, 0, values, map[]))
  }

  /** One step of the scan: a kept character, or a variable replaced by
      ReplaceMatch. */
  method ScanStep(s: string, i: nat, values: map<string, Value>, rem: map<string, string>)
    returns (piece: string, next: nat, rem': map<string, string>)
    requires i < |s|
    ensures piece == Step(s, i, values, rem).0 && next == Step(s, i, values, rem).1
    ensures rem' == Step(s, i, values, rem).2
  {
    var e := TokenEnd(s, i);
    if e == -1 {
      piece, next, rem' := [s[i]], i + 1, rem;
    } else {
      var inner := s[i + 1..e];
      piece, rem' := ReplaceMatch(inner, values, rem);
      next := e + 1;
    }
  }

  /** `build_print_command`, the scan written as a loop that keeps the map of
      unconsumed texts across matches. */
  method BuildPrintCommand(template: string, values: map<string, Value>) returns (r: Option<string>)
    ensures r == PrintCommand(template, values)
  {
    if TextStrip(template) == [] {
      return None;
    }
    if |values| == 0 {
      return Some(template);
    }
    var out := "";
    var rem: map<string, string> := map[];
    var i := 0;
    ghost var whole := SubFrom(template, i, values, rem);
    while i < |template|
      invariant 0 <= i <= |template|
      invariant whole == out + SubFrom(template, i, values, rem)
      decreases |template| - i
    {
      var piece, next, rem' := ScanStep(template, i, values, rem);
      ghost var tail := SubFrom(template, next, values, rem');
      assert SubFrom(template, i, values, rem) == piece + tail;
      AppendAssoc(out, piece, tail);
      out := out + piece;
      rem := rem';
      i := next;
    }
    assert SubFrom(template, i, values, rem) == [];
    assert out + [] == out;
    return Some(out);
  }

  lemma AppendAssoc(a: string, b: string, c: string)
    ensures (a + b) + c == a + (b + c)
  {
  }

  // ---------------------------------------------------------------------
  // Properties.

  /** A path is walked part by part: walking `a + b` walks `a`, then `b` from
      where `a` ended, and fails as soon as `a` does. */
  lemma {:induction false} ResolveAppend(v: Value, a: seq<string>, b: seq<string>)
    ensures Resolve(v, a + b) == if Resolve(v, a).0 then Resolve(Resolve(v, a).1, b) else (false, Null)
    decreases |a|
  {
    if a == [] {
      assert a + b == b;
    } else {
      assert (a + b)[0] == a[0] && (a + b)[1..] == a[1..] + b;
      if !v.Null? && a[0] in Members(v) {
        ResolveAppend(Members(v)[a[0]], a[1..], b);
      }
    }
  }

  /** `first.rest` names the key or attribute `first` of a value, then `rest` inside
      it; a value that is None or lacks `first` is not found. */
  lemma ResolveDotted(v: Value, first: string, rest: string)
    requires '.' !in first
    ensures Resolve(v, Split(first + "." + rest, ".")) ==
      if !v.Null? && first in Members(v) then Resolve(Members(v)[first], Split(rest, ".")) else (false, Null)
  {
    SplitFirst(first, '.', rest);
    assert first + "." + rest == first + (['.'] + rest);
    var parts := [first] + Split(rest, ".");
    assert parts[0] == first && parts[1..] == Split(rest, ".");
  }

  /** A name without a dot is one key or attribute. */
  lemma ResolveField(v: Value, name: string)
    requires '.' !in name
    ensures Resolve(v, Split(name, ".")) ==
      if !v.Null? && name in Members(v) then (true, Members(v)[name]) else (false, Null)
  {
    SplitWhole(name, '.');
    assert [name][1..] == [];
  }

  /** `_consume_chunk`: nothing is taken for a non-positive length or an empty
      text; a text that fits is taken whole; otherwise the chunk ends at the last
      space after the first character of the window, which is dropped, or, when
      there is none, at exactly `maxLen` characters. Every chunk of a non-empty
      text is non-empty and the text left is shorter. */
  lemma ConsumeChunkSpec(text: string, maxLen: int)
    ensures var (chunk, rest) := ConsumeChunk(text, maxLen);
      (maxLen <= 0 || text == [] ==> chunk == [] && rest == text)
      && (0 < maxLen && text != [] ==> chunk != [] && |chunk| <= maxLen && |rest| < |text|)
      && (0 < maxLen && |text| <= maxLen ==> chunk == text && rest == [])
      && (0 < maxLen < |text| && ' ' in text[1..maxLen] ==>
            chunk + " " + rest == text && ' ' !in text[|chunk| + 1..maxLen])
      && (0 < maxLen < |text| && ' ' !in text[1..maxLen] ==>
            chunk == text[..maxLen] && rest == text[maxLen..])
  {
    if 0 < maxLen < |text| {
      var window := text[..maxLen];
      var cut := LastIndex(window, ' ');
      if cut > 0 {
        assert text[cut] == ' ';
        assert text[1..maxLen][cut - 1] == text[cut];
        assert window[..cut] + " " + text[cut + 1..] == text;
        var tail := text[cut + 1..maxLen];
        forall k | 0 <= k < |tail| ensures tail[k] != ' ' {
          assert tail[k] == window[cut + 1 + k];
        }
      } else {
        forall k | 0 <= k < |text[1..maxLen]| ensures text[1..maxLen][k] != ' ' {
          assert text[1..maxLen][k] == window[1 + k];
        }
      }
    }
  }

  /** How a variable is written in a template: `{prefix.path}` or
      `{prefix.path:n}` without the braces. */
  function VarText(prefix: string, path: string, n: Option<nat>): string
  {
    prefix + "." + path + (if n.Some? then ":" + DecDigits(n.value) else "")
  }

  /** A variable written as VarText is read back as written, when its prefix has
      no dot and neither part has a colon or whitespace at its ends. */
  lemma ParseVarRoundTrip(prefix: string, path: string, n: Option<nat>)
    requires prefix != [] && path != [] && NoSpaceAtEnds(prefix) && NoSpaceAtEnds(path)
    requires '.' !in prefix && ':' !in prefix && ':' !in path
    ensures ParseVar(VarText(prefix, path, n)) ==
      Some(Var(prefix, path, if n.Some? then Some(n.value as int) else None))
  {
    var name := prefix + "." + path;
    NameParts(prefix, path);
    if n.None? {
      assert VarText(prefix, path, n) == name;
      PlainName(name);
    } else {
      assert VarText(prefix, path, n) == name + ":" + DecDigits(n.value);
      LengthParts(name, n.value);
    }
  }

  /** A name without a colon has no length. */
  lemma PlainName(name: string)
    requires name != [] && NoSpaceAtEnds(name) && ':' !in name
    ensures ParseVar(name) == ParseName(name, None)
  {
    TextStripNoSpace(name);
    FindFromNone(name, ':', 0);
  }

  /** `name:n` splits back at its colon into the name and the length. */
  lemma LengthParts(name: string, n: nat)
    requires name != [] && NoSpaceAtEnds(name) && ':' !in name
    ensures ParseVar(name + ":" + DecDigits(n)) == ParseName(name, Some(n as int))
  {
    var digits := DecDigits(n);
    LengthText(n);
    JoinedNoSpace(name, digits);
    TextStripNoSpace(name);
    ParseRawAt(name + ":" + digits, name, digits, n);
  }

  /** The written length is its own `strip()` and `int()` reads it back. */
  lemma LengthText(n: nat)
    ensures var d := DecDigits(n);
      d != [] && AllDigits(d) && TextStrip(d) == d && ParseInt(d) == Some(n as int)
  {
    var d := DecDigits(n);
    DecDigitsFacts(n);
    assert IsAsciiDigit(d[0]) && IsAsciiDigit(d[|d| - 1]);
    TextStripNoSpace(d);
    ParseIntDigits(d);
  }

  /** A name and a length joined by a colon have no whitespace at their ends. */
  lemma JoinedNoSpace(name: string, digits: string)
    requires name != [] && NoSpaceAtEnds(name) && digits != [] && AllDigits(digits)
    ensures TextStrip(name + ":" + digits) == name + ":" + digits
  {
    var inner := name + ":" + digits;
    assert IsAsciiDigit(digits[|digits| - 1]);
    assert inner[0] == name[0] && inner[|inner| - 1] == digits[|digits| - 1];
    TextStripNoSpace(inner);
  }

  /** A text split at its only colon into a stripped name and a stripped
      integer. */
  lemma ParseRawAt(raw: string, name: string, digits: string, n: int)
    requires raw == name + ":" + digits && name != [] && digits != [] && ':' !in name
    requires TextStrip(name) == name && TextStrip(digits) == digits && ParseInt(digits) == Some(n)
    ensures ParseRaw(raw) == ParseName(name, Some(n))
  {
    FindFromAt(raw, ':', 0, |name|);
    assert raw[..|name|] == name;
    assert raw[|name| + 1..] == digits;
  }

  /** ASCII digits are read as their decimal value. */
  lemma ParseIntDigits(d: string)
    requires d != [] && AllDigits(d)
    ensures ParseInt(d) == Some(DecValue(d))
  {
    assert IsAsciiDigit(d[0]) && IsAsciiDigit(d[|d| - 1]);
    WithoutAbsent(d, '_');
  }

  /** An underscore between two runs of digits does not change the value `int()`
      reads, and a doubled underscore is refused. */
  lemma UnderscoreIgnored(a: string, b: string)
    requires IntDigits(a) && IntDigits(b)
    ensures ParseInt(a + "_" + b) == ParseInt(a + b) && ParseInt(a + b).Some?
    ensures ParseInt(a + "__" + b) == None
  {
    IntDigitsJoin(a, b, "");
    IntDigitsJoin(a, b, "_");
    assert a + "" + b == a + b;
    UnsignedValue(a + b);
    UnsignedValue(a + "_" + b);
    WithoutJoin(a, b);
    DoubledUnderscore(a, b);
  }

  /** Leaving out the underscores, an underscore between two texts disappears. */
  lemma WithoutJoin(a: string, b: string)
    ensures Without(a + "_" + b, '_') == Without(a + b, '_')
  {
    assert a + "_" + b == a + ("_" + b);
    WithoutAppend(a, "_" + b, '_');
    WithoutAppend("_", b, '_');
    WithoutAppend(a, b, '_');
    assert Without("_", '_') == [];
  }

  /** Two runs of digits joined directly or by one underscore are digits `int()`
      reads. */
  lemma IntDigitsJoin(a: string, b: string, sep: string)
    requires IntDigits(a) && IntDigits(b) && (sep == "" || sep == "_")
    ensures IntDigits(a + sep + b)
  {
    var d := a + sep + b;
    var m := |a| + |sep|;
    assert d[0] == a[0] && d[|d| - 1] == b[|b| - 1];
    forall i | 0 <= i < |d| ensures IsAsciiDigit(d[i]) || d[i] == '_' {
      if i >= m { assert d[i] == b[i - m]; }
    }
    forall i | 0 < i < |d| && d[i] == '_' ensures d[i - 1] != '_' {
      if i > m { assert d[i] == b[i - m] && d[i - 1] == b[i - 1 - m]; }
    }
  }

  /** Digits without a sign are read as the value of their digits. */
  lemma UnsignedValue(d: string)
    requires IntDigits(d)
    ensures ParseInt(d) == Some(DecValue(Without(d, '_')) as int)
  {
    assert IsAsciiDigit(d[0]);
  }

  /** Two underscores in a row are refused. */
  lemma DoubledUnderscore(a: string, b: string)
    requires IntDigits(a) && IntDigits(b)
    ensures ParseInt(a + "__" + b) == None
  {
    var d := a + "__" + b;
    assert d[0] == a[0] && d[|a|] == '_' && d[|a| + 1] == '_';
    assert !IntDigits(d);
  }

  /** The name part `prefix.path` splits back at its first dot. */
  lemma NameParts(prefix: string, path: string)
    requires prefix != [] && path != [] && NoSpaceAtEnds(prefix) && NoSpaceAtEnds(path)
    requires '.' !in prefix && ':' !in prefix && ':' !in path
    ensures var name := prefix + "." + path;
      name != [] && NoSpaceAtEnds(name) && ':' !in name
      && forall m: Option<int> :: ParseName(name, m) == Some(Var(prefix, path, m))
  {
    var name := prefix + "." + path;
    assert name[0] == prefix[0] && name[|name| - 1] == path[|path| - 1];
    FindFromAt(name, '.', 0, |prefix|);
    assert name[..|prefix|] == prefix && name[|prefix| + 1..] == path;
    StripNoWs(prefix);
    StripNoWs(path);
  }

  /** A variable without a dot is malformed, and so is its replacement. */
  lemma NoDotInvalid(inner: string, values: map<string, Value>, rem: map<string, string>)
    requires '.' !in inner
    ensures ParseVar(inner).None?
    ensures Replace(inner, values, rem) == (InvalidVarMsg, rem)
  {
    var raw := TextStrip(inner);
    TextStripSpec(inner);
    assert '.' !in raw;
    var colon := FindFrom(raw, ':', 0);
    if colon != -1 {
      var head := raw[..colon];
      TextStripSpec(head);
      assert '.' !in TextStrip(head);
    }
  }

  /** The next chunk of a variable is taken from the text it has left, or from
      its whole string the first time: the chunk is a prefix of that text, the
      text left is a suffix of it, and no other variable's text changes. */
  lemma TakeChunkSpec(key: string, s: string, maxLen: int, rem: map<string, string>)
    ensures var remaining := if key in rem then rem[key] else s;
      var (text, rem') := TakeChunk(key, s, maxLen, rem);
      key in rem' && rem' == rem[key := rem'[key]]
      && text == remaining[..|text|] && rem'[key] == remaining[|remaining| - |rem'[key]|..]
      && (0 < maxLen && remaining != [] ==> text != [] && |text| <= maxLen && |rem'[key]| < |remaining|)
  {
    var remaining := if key in rem then rem[key] else s;
    ConsumeChunkParts(remaining, maxLen);
    var c := ConsumeChunk(remaining, maxLen);
    assert rem[key := c.1][key] == c.1;
  }

  /** The chunk is a prefix of the text and what is left is a suffix of it. */
  lemma ConsumeChunkParts(text: string, maxLen: int)
    ensures var (chunk, rest) := ConsumeChunk(text, maxLen);
      |chunk| <= |text| && chunk == text[..|chunk|]
      && |rest| <= |text| && rest == text[|text| - |rest|..]
      && (0 < maxLen && text != [] ==> chunk != [] && |chunk| <= maxLen && |rest| < |text|)
  {
    ConsumeChunkSpec(text, maxLen);
    var c := ConsumeChunk(text, maxLen);
    if 0 < maxLen < |text| && ' ' in text[1..maxLen] {
      assert c.0 + " " + c.1 == text;
      assert text[..|c.0|] == c.0;
      assert text[|text| - |c.1|..] == c.1;
    }
  }

  /** Once a variable's text is used up, every later occurrence is replaced by
      nothing and leaves the map as it was. */
  lemma ExhaustedIsEmpty(key: string, s: string, maxLen: int, rem: map<string, string>)
    requires key in rem && rem[key] == []
    ensures TakeChunk(key, s, maxLen, rem) == ("", rem)
  {
    assert rem[key := []] == rem;
  }

  /** The scan keeps every character of a text with no opening brace. */
  lemma {:induction false} NoVarsUnchanged(s: string, i: nat, values: map<string, Value>, rem: map<string, string>)
    requires i <= |s| && forall k :: i <= k < |s| ==> s[k] != '{'
    ensures SubFrom(s, i, values, rem) == s[i..]
    decreases |s| - i
  {
    if i < |s| {
      assert TokenEnd(s, i) == -1;
      NoVarsUnchanged(s, i + 1, values, rem);
      assert s[i..] == [s[i]] + s[i + 1..];
    }
  }

  /** `build_print_command` refuses exactly the blank templates, those made of
      whitespace only, and keeps a template with no variables, or with no values to
      put in, as it is. */
  lemma PrintCommandFacts(template: string, values: map<string, Value>)
    ensures PrintCommand(template, values).None? <==> TextStrip(template) == []
    ensures PrintCommand(template, values).None? <==> forall k :: 0 <= k < |template| ==> IsSpace(template[k])
    ensures TextStrip(template) != [] && ('{' !in template || |values| == 0) ==>
      PrintCommand(template, values) == Some(template)
  {
    TextStripBlank(template);
    if TextStrip(template) != [] && '{' !in template {
      NoVarsUnchanged(template, 0, values, map[]);
    }
  }

  /** The first brace at or after `j` is the one at `k` when none comes between. */
  lemma {:induction false} NextBraceAt(s: string, j: nat, k: nat)
    requires j <= k < |s| && (s[k] == '{' || s[k] == '}')
    requires forall m :: j <= m < k ==> s[m] != '{' && s[m] != '}'
    ensures NextBrace(s, j) == k
    decreases k - j
  {
    if j < k {
      NextBraceAt(s, j + 1, k);
    }
  }

  /** A well-formed variable whose prefix has no values is left in the template
      as it was written, braces included. */
  lemma UnknownPrefixKept(inner: string, values: map<string, Value>, rem: map<string, string>)
    requires inner != [] && '{' !in inner && '}' !in inner
    requires ParseVar(inner).Some?
    requires ParseVar(inner).value.prefix !in values || values[ParseVar(inner).value.prefix].Null?
    ensures SubFrom("{" + inner + "}", 0, values, rem) == "{" + inner + "}"
  {
    var t := "{" + inner + "}";
    BracedToken(inner);
    UnknownPrefixReplace(inner, values, rem);
    assert Step(t, 0, values, rem).1 == |t|;
    WholeStep(t, values, rem);
  }

  /** A well-formed variable whose prefix has no values is replaced by itself. */
  lemma UnknownPrefixReplace(inner: string, values: map<string, Value>, rem: map<string, string>)
    requires ParseVar(inner).Some?
    requires ParseVar(inner).value.prefix !in values || values[ParseVar(inner).value.prefix].Null?
    ensures Replace(inner, values, rem) == ("{" + inner + "}", rem)
  {
  }

  /** A text that one step of the scan consumes whole becomes what that step
      emits. */
  lemma WholeStep(s: string, values: map<string, Value>, rem: map<string, string>)
    requires s != [] && Step(s, 0, values, rem).1 == |s|
    ensures SubFrom(s, 0, values, rem) == Step(s, 0, values, rem).0
  {
    var st := Step(s, 0, values, rem);
    assert SubFrom(s, |s|, values, st.2) == [];
    assert st.0 + [] == st.0;
  }

  /** The pattern matches a whole braced text with no brace inside. */
  lemma BracedToken(inner: string)
    requires inner != [] && '{' !in inner && '}' !in inner
    ensures var t := "{" + inner + "}";
      TokenEnd(t, 0) == |inner| + 1 && t[1..|inner| + 1] == inner
  {
    var t := "{" + inner + "}";
    forall m | 1 <= m < |inner| + 1 ensures t[m] != '{' && t[m] != '}' {
      assert t[m] == inner[m - 1];
    }
    NextBraceAt(t, 1, |inner| + 1);
  }
}
