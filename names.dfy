/** The file-name handling shared by the DPL upload builders
    (backend/device_controller/printers/dpl/upload_font.py,
    device_controller/devices/printers/dpl/upload_font.py and
    backend/device_controller/printers/dpl/upload_image.py): the stored name is
    sanitised with `re.sub(r"[^A-Za-z0-9_.-]+", "_", ...)`, truncated, and
    replaced by a default when empty; names come from `pathlib` stems and
    `str.rsplit`. */
module DplNames {
  import opened Common

  /** A character of the class `[A-Za-z0-9_.-]`. */
  predicate IsNameChar(c: char)
  {
    'A' <= c <= 'Z' || 'a' <= c <= 'z' || '0' <= c <= '9' || c == '_' || c == '.' || c == '-'
  }

  predicate IsName(s: string)
  {
    forall i :: 0 <= i < |s| ==> IsNameChar(s[i])
  }

  /** Drops the leading run of characters outside the class. */
  function SkipRun(s: string): (r: string)
    ensures |r| <= |s| && r == s[|s| - |r|..]
    ensures r == [] || IsNameChar(r[0])
  {
    if s != [] && !IsNameChar(s[0]) then SkipRun(s[1..]) else s
  }

  /** `re.sub(r"[^A-Za-z0-9_.-]+", "_", s)`: each maximal run of characters
      outside the class becomes one underscore. */
  function Sanitize(s: string): string
    decreases |s|
  {
    if s == [] then []
    else if IsNameChar(s[0]) then [s[0]] + Sanitize(s[1..])
    else "_" + Sanitize(SkipRun(s[1..]))
  }

  /** The first `n` characters, or all of them (Python's `s[:n]`). */
  function Take(s: string, n: nat): (r: string)
    ensures |r| == (if |s| < n then |s| else n) && r == s[..|r|]
  {
    if |s| <= n then s else s[..n]
  }

  /** `re.sub(...)[:limit] or fallback`. */
  function SafeName(raw: string, limit: nat, fallback: string): string
  {
    var t := Take(Sanitize(raw), limit);
    if t == [] then fallback else t
  }

  /** The index of the last `c` in `s`, or -1 (Python's `str.rfind`). */
  function LastIndex(s: string, c: char): (r: int)
    ensures r == -1 || (0 <= r < |s| && s[r] == c)
    ensures forall i :: r < i < |s| ==> s[i] != c
  {
    if s == [] then -1
    else if s[|s| - 1] == c then |s| - 1
    else LastIndex(s[..|s| - 1], c)
  }

  /** `filename.rsplit(".", 1)[0]`: everything before the last dot, or the whole name. */
  function BeforeLastDot(s: string): string
  {
    var i := LastIndex(s, '.');
    if i == -1 then s else s[..i]
  }

  /** `PurePosixPath(p).name`: the text after the last '/'. */
  function FileName(p: string): string
  {
    p[LastIndex(p, '/') + 1..]
  }

  /** Where `pathlib`'s suffix starts in a name: the last dot, unless it is the
      first or the last character; -1 when there is no suffix. */
  function SuffixStart(name: string): int
  {
    var i := LastIndex(name, '.');
    if 0 < i < |name| - 1 then i else -1
  }

  /** `Path(p).stem`. */
  function Stem(p: string): string
  {
    var name := FileName(p);
    var i := SuffixStart(name);
    if i == -1 then name else name[..i]
  }

  /** `Path(p).suffix`. */
  function Suffix(p: string): string
  {
    var name := FileName(p);
    var i := SuffixStart(name);
    if i == -1 then "" else name[i..]
  }

  /** `str.lower()` on the ASCII letters; every other character is kept. */
  function AsciiLower(s: string): (r: string)
    ensures |r| == |s|
    ensures forall i :: 0 <= i < |s| ==>
      r[i] == if 'A' <= s[i] <= 'Z' then (s[i] as int + 32) as char else s[i]
  {
    if s == [] then [] else [if 'A' <= s[0] <= 'Z' then (s[0] as int + 32) as char else s[0]] + AsciiLower(s[1..])
  }

  // ---------------------------------------------------------------------
  // Properties.

  /** The sanitised name uses only the class and is never longer than the input. */
  lemma {:induction false} SanitizeIsName(s: string)
    ensures IsName(Sanitize(s)) && |Sanitize(s)| <= |s|
    ensures s != [] ==> Sanitize(s) != []
    decreases |s|
  {
    if s != [] {
      if IsNameChar(s[0]) {
        SanitizeIsName(s[1..]);
      } else {
        SanitizeIsName(SkipRun(s[1..]));
      }
    }
  }

  /** A name already in the class is kept as it is, and only such a name is. */
  lemma {:induction false} SanitizeKeeps(s: string)
    ensures Sanitize(s) == s <==> IsName(s)
    decreases |s|
  {
    SanitizeIsName(s);
    if s != [] && IsNameChar(s[0]) {
      SanitizeKeeps(s[1..]);
      if Sanitize(s) == s {
        assert Sanitize(s[1..]) == Sanitize(s)[1..];
      }
      if IsName(s) {
        assert IsName(s[1..]) by {
          forall i | 0 <= i < |s[1..]| ensures IsNameChar(s[1..][i]) { assert s[1..][i] == s[i + 1]; }
        }
      }
    }
  }

  /** Sanitising is idempotent. */
  lemma SanitizeIdempotent(s: string)
    ensures Sanitize(Sanitize(s)) == Sanitize(s)
  {
    SanitizeIsName(s);
    SanitizeKeeps(Sanitize(s));
  }

  /** A run of characters outside the class, followed by a name character or by
      nothing, becomes exactly one underscore. */
  lemma {:induction false} SanitizeRun(run: string, rest: string)
    requires run != [] && forall i :: 0 <= i < |run| ==> !IsNameChar(run[i])
    requires rest == [] || IsNameChar(rest[0])
    ensures Sanitize(run + rest) == "_" + Sanitize(rest)
  {
    SkipRunPrefix(run[1..], rest);
    assert (run + rest)[1..] == run[1..] + rest;
  }

  lemma {:induction false} SkipRunPrefix(run: string, rest: string)
    requires forall i :: 0 <= i < |run| ==> !IsNameChar(run[i])
    requires rest == [] || IsNameChar(rest[0])
    ensures SkipRun(run + rest) == rest
    decreases |run|
  {
    if run == [] {
      assert run + rest == rest;
    } else {
      assert (run + rest)[0] == run[0];
      assert (run + rest)[1..] == run[1..] + rest;
      SkipRunPrefix(run[1..], rest);
    }
  }

  /** The stored name is non-empty, at most `limit` characters long and within
      the class, provided the default is. */
  lemma SafeNameFacts(raw: string, limit: nat, fallback: string)
    requires fallback != [] && |fallback| <= limit && IsName(fallback)
    ensures var n := SafeName(raw, limit, fallback);
      n != [] && |n| <= limit && IsName(n)
    ensures SafeName(raw, limit, fallback) == fallback <==> raw == [] || Take(Sanitize(raw), limit) == fallback
  {
    SanitizeIsName(raw);
    var t := Take(Sanitize(raw), limit);
    assert IsName(t) by {
      forall i | 0 <= i < |t| ensures IsNameChar(t[i]) { assert t[i] == Sanitize(raw)[i]; }
    }
  }

  /** The stem and the suffix of a path put its last component back together. */
  lemma StemSuffix(p: string)
    ensures Stem(p) + Suffix(p) == FileName(p)
    ensures Suffix(p) == [] || (Suffix(p)[0] == '.' && '.' !in Suffix(p)[1..])
  {
    var name := FileName(p);
    var i := SuffixStart(name);
    if i != -1 {
      assert name[..i] + name[i..] == name;
      forall k | 0 <= k < |name[i..][1..]| ensures name[i..][1..][k] != '.' {
        assert name[i..][1..][k] == name[i + 1 + k];
      }
    }
  }

  /** `rsplit(".", 1)[0]` keeps no part of the text after the last dot. */
  lemma BeforeLastDotFacts(s: string)
    ensures var h := BeforeLastDot(s);
      h == s[..|h|] && ('.' in s <==> |h| < |s| && s[|h|] == '.' && '.' !in s[|h| + 1..])
  {
    var i := LastIndex(s, '.');
    if i == -1 {
      assert '.' !in s;
    } else {
      var tail := s[i + 1..];
      forall k | 0 <= k < |tail| ensures tail[k] != '.' { assert tail[k] == s[i + 1 + k]; }
    }
  }
}
