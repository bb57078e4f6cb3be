/** The upload rules: which files are accepted (an unanchored pattern tested
    on the lower-cased extension and on the raw mimetype) and the name a
    stored file gets. `ExtName` follows the POSIX `path.extname` of Node. */
module Uploads {
  import opened Common
  import opened Numerals

  /** The alternatives of `/jpeg|jpg|png|heic|pdf|doc|docx/`, in order. */
  const AllowedTypes: seq<string> := ["jpeg", "jpg", "png", "heic", "pdf", "doc", "docx"]
  const InvalidFileType: string := "Invalid file type"

  // ---------------------------------------------------------------------
  // The pattern

  /** `w` occurs in `s` at position `i`. */
  predicate MatchesAt(s: string, i: nat, w: string)
  {
    i + |w| <= |s| && s[i..i + |w|] == w
  }

  ghost predicate ContainsSubstring(s: string, w: string)
  {
    exists i: nat :: MatchesAt(s, i, w)
  }

  /** Some alternative of `alts` occurs at position `i`. */
  function MatchesAny(s: string, i: nat, alts: seq<string>): (b: bool)
    ensures b <==> exists k :: 0 <= k < |alts| && MatchesAt(s, i, alts[k])
  {
    if alts == [] then false
    else MatchesAt(s, i, alts[0]) || MatchesAny(s, i, alts[1..])
  }

  /** The regular expression's search for the alternatives `alts`: try
      every start position from `i` on, left to right. */
  function TestFrom(s: string, i: nat, alts: seq<string>): bool
    requires i <= |s|
    decreases |s| - i
  {
    MatchesAny(s, i, alts) || (i < |s| && TestFrom(s, i + 1, alts))
  }

  /** `allowedTypes.test(s)`. */
  function AllowedPattern(s: string): bool
  {
    TestFrom(s, 0, AllowedTypes)
  }

  /** The pattern holds of `s` when one of `words` occurs in it. */
  ghost predicate ContainsOneOf(s: string, words: seq<string>)
  {
    exists k :: 0 <= k < |words| && ContainsSubstring(s, words[k])
  }

  /** The search from `i` succeeds exactly when some alternative occurs at
      a position from `i` on. */
  lemma {:induction false} TestFromMeaning(s: string, i: nat, alts: seq<string>)
    requires i <= |s|
    decreases |s| - i
    ensures TestFrom(s, i, alts) <==> exists j: nat :: i <= j <= |s| && MatchesAny(s, j, alts)
  {
    if MatchesAny(s, i, alts) {
      assert i <= i <= |s| && MatchesAny(s, i, alts);
    }
    if i < |s| {
      TestFromMeaning(s, i + 1, alts);
      if exists j: nat :: i <= j <= |s| && MatchesAny(s, j, alts) {
        var j: nat :| i <= j <= |s| && MatchesAny(s, j, alts);
        if j > i {
          assert i + 1 <= j <= |s| && MatchesAny(s, j, alts);
        }
      }
    } else {
      if exists j: nat :: i <= j <= |s| && MatchesAny(s, j, alts) {
        var j: nat :| i <= j <= |s| && MatchesAny(s, j, alts);
        assert j == i;
      }
    }
  }

  /** The pattern is unanchored: it holds exactly when one of its seven
      alternatives occurs anywhere in the text. */
  lemma PatternIsSubstringTest(s: string)
    ensures AllowedPattern(s) <==> ContainsOneOf(s, AllowedTypes)
  {
    TestFromMeaning(s, 0, AllowedTypes);
    if AllowedPattern(s) {
      var j: nat :| j <= |s| && MatchesAny(s, j, AllowedTypes);
      var k :| 0 <= k < |AllowedTypes| && MatchesAt(s, j, AllowedTypes[k]);
      assert ContainsSubstring(s, AllowedTypes[k]);
    }
    if ContainsOneOf(s, AllowedTypes) {
      var k :| 0 <= k < |AllowedTypes| && ContainsSubstring(s, AllowedTypes[k]);
      var j: nat :| MatchesAt(s, j, AllowedTypes[k]);
      assert j <= |s| && MatchesAny(s, j, AllowedTypes);
    }
  }

  /** "docx" adds nothing: any text containing it contains "doc". */
  lemma DocxSubsumed(s: string)
    ensures ContainsSubstring(s, "docx") ==> ContainsSubstring(s, "doc")
  {
    if ContainsSubstring(s, "docx") {
      var i: nat :| MatchesAt(s, i, "docx");
      assert s[i..i + 3] == s[i..i + 4][..3];
      assert MatchesAt(s, i, "doc");
    }
  }

  /** So the pattern is the six-word substring test. */
  lemma PatternSixWords(s: string)
    ensures AllowedPattern(s) <==> ContainsOneOf(s, ["jpeg", "jpg", "png", "heic", "pdf", "doc"])
  {
    PatternIsSubstringTest(s);
    DocxSubsumed(s);
    var six := ["jpeg", "jpg", "png", "heic", "pdf", "doc"];
    if ContainsOneOf(s, AllowedTypes) {
      var k :| 0 <= k < |AllowedTypes| && ContainsSubstring(s, AllowedTypes[k]);
      if k == 6 {
        assert ContainsSubstring(s, six[5]);
      } else {
        assert ContainsSubstring(s, six[k]);
      }
    }
    if ContainsOneOf(s, six) {
      var k :| 0 <= k < |six| && ContainsSubstring(s, six[k]);
      assert ContainsSubstring(s, AllowedTypes[k]);
    }
  }

  // ---------------------------------------------------------------------
  // Lower case and the extension

  /** `toLowerCase` on one character, for the ASCII letters. */
  function LowerChar(c: char): (r: char)
    ensures 'A' <= c <= 'Z' ==> r as int == c as int + 32
    ensures !('A' <= c <= 'Z') ==> r == c
  {
    if 'A' <= c <= 'Z' then (c as int + 32) as char else c
  }

  function ToLowerAscii(s: string): (r: string)
    ensures |r| == |s| && forall i :: 0 <= i < |s| ==> r[i] == LowerChar(s[i])
  {
    seq(|s|, i requires 0 <= i < |s| => LowerChar(s[i]))
  }

  /** End of `p[..n]` once its trailing '/' characters are dropped. */
  function TrimmedEnd(p: string, n: nat): (e: nat)
    requires n <= |p|
    ensures e <= n && (e == 0 || p[e - 1] != '/')
    ensures forall i :: e <= i < n ==> p[i] == '/'
  {
    if n > 0 && p[n - 1] == '/' then TrimmedEnd(p, n - 1) else n
  }

  /** Start of the last segment of `p[..n]`: just after its last '/'. */
  function SegmentStart(p: string, n: nat): (b: nat)
    requires n <= |p|
    ensures b <= n && (b == 0 || p[b - 1] == '/')
    ensures forall i :: b <= i < n ==> p[i] != '/'
  {
    if n == 0 || p[n - 1] == '/' then n else SegmentStart(p, n - 1)
  }

  /** Index of the last '.' of `p[lo..n]`. */
  function LastDotIn(p: string, lo: nat, n: nat): (d: Option<nat>)
    requires lo <= n <= |p|
    ensures d.Some? ==> lo <= d.value < n && p[d.value] == '.'
                        && forall i :: d.value < i < n ==> p[i] != '.'
    ensures d.None? ==> forall i :: lo <= i < n ==> p[i] != '.'
  {
    if n == lo then None
    else if p[n - 1] == '.' then Some(n - 1)
    else LastDotIn(p, lo, n - 1)
  }

  /** The segment "..", which has no extension. */
  predicate IsDotDot(s: string)
  {
    |s| == 2 && s[0] == '.' && s[1] == '.'
  }

  /** `path.extname(p)`: in the last segment (trailing '/' ignored), the
      text from its last '.'; empty when there is no '.', when that '.'
      starts the segment, and for the segment "..". The result is a suffix
      of the path without its trailing '/'. */
  function ExtName(p: string): (r: string)
    ensures r == [] || (r[0] == '.' && '.' !in r[1..] && '/' !in r)
    ensures var e := TrimmedEnd(p, |p|); |r| <= e && r == p[e - |r|..e]
    ensures (forall i :: 0 <= i < |p| ==> p[i] != '/') && !IsDotDot(p) ==>
      (r == [] <==> forall i :: 0 < i < |p| ==> p[i] != '.')
  {
    var e := TrimmedEnd(p, |p|);
    var b := SegmentStart(p, e);
    var d := LastDotIn(p, b, e);
    assert (forall i :: 0 <= i < |p| ==> p[i] != '/') ==> e == |p| && b == 0 && p[b..e] == p;
    if d.None? || d.value == b || IsDotDot(p[b..e]) then []
    else
      ExtensionShape(p, b, d.value, e);
      p[d.value..e]
  }

  /** The text from the last '.' of a segment is a '.' followed by no
      other '.' and holds no '/'. */
  lemma ExtensionShape(p: string, b: nat, d: nat, e: nat)
    requires b <= d < e <= |p| && p[d] == '.'
    requires forall i :: d < i < e ==> p[i] != '.'
    requires forall i :: b <= i < e ==> p[i] != '/'
    ensures var r := p[d..e]; r[0] == '.' && '.' !in r[1..] && '/' !in r
  {
    var r := p[d..e];
    forall j | 0 <= j < |r| ensures r[j] != '/' && (j > 0 ==> r[j] != '.') {
      assert r[j] == p[d + j];
    }
    forall j | 0 <= j < |r| - 1 ensures r[1..][j] != '.' {
      assert r[1..][j] == r[j + 1];
    }
  }

  /** A name without '/' made of a non-empty stem and an extension (empty,
      or one '.' and no further '.') has that extension. */
  lemma ExtNameOfName(stem: string, ext: string)
    requires stem != [] && '/' !in stem && '/' !in ext && !IsDotDot(stem + ext)
    requires ext == [] ==> '.' !in stem
    requires ext != [] ==> ext[0] == '.' && '.' !in ext[1..]
    ensures ExtName(stem + ext) == ext
  {
    var p := stem + ext;
    assert forall i :: 0 <= i < |p| ==> p[i] != '/' by {
      forall i | 0 <= i < |p| ensures p[i] != '/' {
        if i < |stem| { assert p[i] == stem[i]; } else { assert p[i] == ext[i - |stem|]; }
      }
    }
    var e := TrimmedEnd(p, |p|);
    assert e == |p|;
    var b := SegmentStart(p, e);
    assert b == 0;
    assert p[b..e] == p;
    var d := LastDotIn(p, b, e);
    if ext == [] {
      assert p == stem;
      assert d.None?;
    } else {
      assert p[|stem|] == '.';
      assert forall i :: |stem| < i < |p| ==> p[i] != '.' by {
        forall i | |stem| < i < |p| ensures p[i] != '.' {
          assert p[i] == ext[1..][i - |stem| - 1];
        }
      }
      assert d == Some(|stem|);
      assert p[|stem|..|p|] == ext;
    }
  }

  /** Only the part after the last '.' is the extension. */
  lemma ExtNameDoubleExtension()
    ensures ExtName("archive.tar.gz") == ".gz"
  {
    assert "archive.tar.gz" == "archive.tar" + ".gz";
    ExtNameOfName("archive.tar", ".gz");
  }

  /** A leading '.' does not start an extension. */
  lemma ExtNameDotfile()
    ensures ExtName(".profile") == ""
  {
    var p := ".profile";
    assert forall i :: 0 <= i < |p| ==> p[i] != '/';
    assert forall i :: 0 < i < |p| ==> p[i] != '.';
    var e := TrimmedEnd(p, |p|);
    assert e == |p|;
    assert SegmentStart(p, e) == 0;
    var d := LastDotIn(p, 0, e);
    assert p[0] == '.';
    assert d == Some(0);
  }

  // ---------------------------------------------------------------------
  // fileFilter and filename

  /** `fileFilter`: accepted exactly when the lower-cased extension of the
      original name and the mimetype, as sent, both contain an allowed
      word; otherwise "Invalid file type". */
  function FileFilter(originalname: string, mimetype: string): (r: Result<()>)
    ensures r.Ok? <==> ContainsOneOf(ToLowerAscii(ExtName(originalname)), AllowedTypes)
                       && ContainsOneOf(mimetype, AllowedTypes)
    ensures r.Err? ==> r.msg == InvalidFileType
  {
    PatternIsSubstringTest(ToLowerAscii(ExtName(originalname)));
    PatternIsSubstringTest(mimetype);
    if AllowedPattern(ToLowerAscii(ExtName(originalname))) && AllowedPattern(mimetype) then Ok(())
    else Err(InvalidFileType)
  }

  /** Every allowed word starts with a lower-case letter, so a text
      without one matches none of them. */
  lemma NoLowerCaseNoMatch(s: string)
    requires forall i :: 0 <= i < |s| ==> !('a' <= s[i] <= 'z')
    ensures !ContainsOneOf(s, AllowedTypes)
  {
    forall k, i: nat | 0 <= k < |AllowedTypes| ensures !MatchesAt(s, i, AllowedTypes[k]) {
      var w := AllowedTypes[k];
      assert 'a' <= w[0] <= 'z';
      if i + |w| <= |s| {
        assert s[i..i + |w|][0] == s[i];
        assert s[i..i + |w|][0] != w[0];
      }
    }
  }

  /** The mimetype is not lower-cased: one without a lower-case letter is
      refused, whatever the file is called. */
  lemma FileFilterMimetypeCase(originalname: string, mimetype: string)
    requires forall i :: 0 <= i < |mimetype| ==> !('a' <= mimetype[i] <= 'z')
    ensures FileFilter(originalname, mimetype) == Err(InvalidFileType)
  {
    NoLowerCaseNoMatch(mimetype);
  }

  /** The extension is lower-cased before the test: changing the case of
      an extension's letters never changes the verdict. */
  lemma FileFilterExtensionCase(stem: string, ext: string, mimetype: string)
    requires stem != [] && '/' !in stem && '/' !in ext && !IsDotDot(stem + ext)
    requires ext != [] && ext[0] == '.' && '.' !in ext[1..]
    ensures FileFilter(stem + ext, mimetype) == FileFilter(stem + ToLowerAscii(ext), mimetype)
  {
    var low := ToLowerAscii(ext);
    LowerKeepsExtensionShape(ext);
    LowerIdempotent(ext);
    assert !IsDotDot(stem + low) by {
      assert |stem + low| == |stem + ext|;
      assert |stem + low| == 2 ==> |stem| == 1 && (stem + low)[1] == low[0] == '.' == ext[0] == (stem + ext)[1];
    }
    ExtNameOfName(stem, ext);
    ExtNameOfName(stem, low);
    assert ToLowerAscii(ExtName(stem + ext)) == ToLowerAscii(ExtName(stem + low));
  }

  lemma LowerIdempotent(s: string)
    ensures ToLowerAscii(ToLowerAscii(s)) == ToLowerAscii(s)
  {
  }

  /** Lower-casing keeps '.' and '/' where they are. */
  lemma LowerKeepsExtensionShape(ext: string)
    requires '/' !in ext && ext != [] && ext[0] == '.' && '.' !in ext[1..]
    ensures var low := ToLowerAscii(ext); '/' !in low && low != [] && low[0] == '.' && '.' !in low[1..]
  {
    var low := ToLowerAscii(ext);
    forall i | 0 <= i < |low| ensures (i > 0 ==> low[i] != '.') && low[i] != '/' {
      assert i > 0 ==> ext[i] == ext[1..][i - 1];
    }
  }

  /** A file without an extension is refused whatever its mimetype. */
  lemma FileFilterNoExtension(originalname: string, mimetype: string)
    requires '.' !in originalname
    ensures FileFilter(originalname, mimetype) == Err(InvalidFileType)
  {
    NoLowerCaseNoMatch(ToLowerAscii(ExtName(originalname)));
  }

  /** The name a stored upload gets: field name, '-', the upload time in
      decimal, and the original extension. */
  function StoredFilename(fieldname: string, now: int, originalname: string): (r: string)
    ensures |fieldname| + 1 < |r| - |ExtName(originalname)|
    ensures r[..|fieldname| + 1] == fieldname + "-"
    ensures r[|r| - |ExtName(originalname)|..] == ExtName(originalname)
    ensures var mid := r[|fieldname| + 1..|r| - |ExtName(originalname)|];
      && (now >= 0 ==> AllDigits(mid) && ParseDecimal(mid) == now && (|mid| == 1 || mid[0] != '0'))
      && (now < 0 ==> mid[0] == '-' && AllDigits(mid[1..]) && ParseDecimal(mid[1..]) == -now
                      && (|mid| == 2 || mid[1] != '0'))
  {
    var head, time, ext := fieldname + "-", IntToString(now), ExtName(originalname);
    TimeReadsBack(now);
    ConcatParts(head, time, ext);
    head + time + ext
  }

  /** The decimal text of the time reads back as the time, after its sign
      when negative. */
  lemma TimeReadsBack(now: int)
    ensures var m := IntToString(now);
      && |m| >= 1
      && (now >= 0 ==> AllDigits(m) && ParseDecimal(m) == now && (|m| == 1 || m[0] != '0'))
      && (now < 0 ==> m[0] == '-' && AllDigits(m[1..]) && ParseDecimal(m[1..]) == -now
                      && (|m| == 2 || m[1] != '0'))
  {
    ParseNatToDecimal(if now >= 0 then now else -now);
    assert now < 0 ==> IntToString(now)[1..] == NatToDecimal(-now);
  }

  /** A concatenation of three texts starts with the first, ends with the
      last and holds the second in between. */
  lemma ConcatParts(a: string, b: string, c: string)
    ensures var r := a + b + c; r[..|a|] == a && r[|r| - |c|..] == c && r[|a|..|r| - |c|] == b
  {
  }

  /** Two uploads of the same file under the same field at different times
      get different names. */
  lemma StoredFilenameDistinctTimes(fieldname: string, t1: int, t2: int, originalname: string)
    requires t1 != t2
    ensures StoredFilename(fieldname, t1, originalname) != StoredFilename(fieldname, t2, originalname)
  {
    var a, b := StoredFilename(fieldname, t1, originalname), StoredFilename(fieldname, t2, originalname);
    var e := ExtName(originalname);
    var n := |fieldname| + 1;
    if a == b {
      assert a[n..|a| - |e|] == IntToString(t1);
      assert b[n..|b| - |e|] == IntToString(t2);
      IntToStringInjective(t1, t2);
    }
  }

  /** A stored file keeps the extension of the uploaded one, when the field
      name holds no '.' and no '/'. */
  lemma StoredFilenameKeepsExtension(fieldname: string, now: int, originalname: string)
    requires '.' !in fieldname && '/' !in fieldname
    ensures ExtName(StoredFilename(fieldname, now, originalname)) == ExtName(originalname)
  {
    var e := ExtName(originalname);
    var head := fieldname + "-" + IntToString(now);
    assert StoredFilename(fieldname, now, originalname) == head + e;
    StemFree(fieldname, now);
    ExtNameOfName(head, e);
  }

  /** The part before the extension holds no '.' and no '/', and is not
      empty. */
  lemma StemFree(fieldname: string, now: int)
    requires '.' !in fieldname && '/' !in fieldname
    ensures var head := fieldname + "-" + IntToString(now);
      '.' !in head && '/' !in head && |head| > 0
  {
    var head := fieldname + "-" + IntToString(now);
    var digits := if now >= 0 then NatToDecimal(now) else NatToDecimal(-now);
    assert '.' !in digits && '/' !in digits by {
      assert !IsDigit('.') && !IsDigit('/');
    }
    assert '-' in head;
  }
}
