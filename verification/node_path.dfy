/** `isFileType` and the part of Node's POSIX `path.extname` it depends on. */
module NodePath {
  import opened Wrappers

  /** `p` without its trailing `/` characters; Node ignores them when it
      looks for the final path segment. */
  function TrimTrailingSlashes(p: string): (r: string)
    ensures |r| <= |p| && r == p[..|r|]
    ensures |r| > 0 ==> r[|r| - 1] != '/'
    ensures forall i :: |r| <= i < |p| ==> p[i] == '/'
  {
    if |p| > 0 && p[|p| - 1] == '/' then TrimTrailingSlashes(p[..|p| - 1]) else p
  }

  /** Index of the last `c` in `s`. */
  function LastIndexOf(s: string, c: char): (r: Option<nat>)
    ensures r.Some? ==> r.value < |s| && s[r.value] == c
    ensures r.Some? ==> forall j :: r.value < j < |s| ==> s[j] != c
    ensures r.None? ==> forall j :: 0 <= j < |s| ==> s[j] != c
  {
    if |s| == 0 then None
    else if s[|s| - 1] == c then Some(|s| - 1)
    else LastIndexOf(s[..|s| - 1], c)
  }

  /** The final segment of `t`: everything after its last `/`. */
  function LastSegment(t: string): (r: string)
    ensures '/' !in r
    ensures |r| <= |t| && r == t[|t| - |r|..]
    ensures |r| < |t| ==> t[|t| - |r| - 1] == '/'
  {
    match LastIndexOf(t, '/')
    case None => t
    case Some(i) => t[i + 1..]
  }

  /** Segment `b` has an extension: it is not `..` and has a `.` after its
      first character. */
  ghost predicate HasExtension(b: string)
  {
    b != ".." && exists i :: 0 < i < |b| && b[i] == '.'
  }

  /** The extension of one path segment `b`: from its last `.` on; empty when
      there is no `.`, when that `.` is the first character, or when `b` is `..`. */
  function SegmentExt(b: string): (r: string)
    ensures r == [] || (|r| < |b| && r == b[|b| - |r|..])
    ensures r == [] || (r[0] == '.' && forall i :: 1 <= i < |r| ==> r[i] != '.')
    ensures r != [] <==> HasExtension(b)
  {
    match LastIndexOf(b, '.')
    case None => ""
    case Some(i) =>
      if i == 0 || b == ".." then ""
      else
        var r := b[i..];
        assert forall k :: 1 <= k < |r| ==> r[k] == b[i + k];
        r
  }

  /** `path.extname(p)`: the extension of the final segment of `p` once
      trailing slashes are dropped. */
  function Extname(p: string): (r: string)
    ensures r == [] || (r[0] == '.' && '/' !in r)
    ensures forall i :: 1 <= i < |r| ==> r[i] != '.'
    ensures r != [] <==> HasExtension(LastSegment(TrimTrailingSlashes(p)))
  {
    var t := TrimTrailingSlashes(p);
    TrimmedExt(t)
  }

  /** `path.extname(p)` is a proper suffix of the last segment of `p` once
      trailing slashes are dropped: the part from that segment's last `.`. */
  lemma ExtnameIsSegmentSuffix(p: string)
    ensures var t := TrimTrailingSlashes(p);
      Extname(p) == [] || (|Extname(p)| < |LastSegment(t)| && Extname(p) == t[|t| - |Extname(p)|..])
  {
  }

  /** The extension of a path that has no trailing slash. */
  function TrimmedExt(t: string): (r: string)
    ensures r == [] || (r[0] == '.' && '/' !in r)
    ensures forall i :: 1 <= i < |r| ==> r[i] != '.'
    ensures r == [] || (|r| < |LastSegment(t)| && r == t[|t| - |r|..])
    ensures r != [] <==> HasExtension(LastSegment(t))
  {
    var b := LastSegment(t);
    var r := SegmentExt(b);
    SuffixOfSegment(t, b, r);
    r
  }

  /** A suffix of the slash-free final segment `b` of `t` is a slash-free
      suffix of `t`. */
  lemma SuffixOfSegment(t: string, b: string, r: string)
    requires '/' !in b && |b| <= |t| && b == t[|t| - |b|..]
    requires |r| <= |b| && r == b[|b| - |r|..]
    ensures '/' !in r && r == t[|t| - |r|..]
  {
    forall k | 0 <= k < |r| ensures r[k] != '/' {
      assert r[k] == b[|b| - |r| + k];
    }
  }

  /** ASCII lower-casing of one character. */
  function LowerChar(c: char): char
  {
    if 'A' <= c <= 'Z' then (c as int + 32) as char else c
  }

  /** `s.toLowerCase()` restricted to ASCII letters. */
  function Lower(s: string): (r: string)
    ensures |r| == |s|
    ensures forall i :: 0 <= i < |r| ==> !('A' <= r[i] <= 'Z')
    ensures forall i :: 0 <= i < |s| && !('A' <= s[i] <= 'Z') ==> r[i] == s[i]
    ensures forall i :: 0 <= i < |s| && 'A' <= s[i] <= 'Z' ==> r[i] as int - s[i] as int == 'a' as int - 'A' as int
  {
    seq(|s|, i requires 0 <= i < |s| => LowerChar(s[i]))
  }

  /** Lower-casing works character by character. */
  lemma LowerAt(s: string, i: nat)
    requires i < |s|
    ensures Lower(s)[i] == LowerChar(s[i])
  {
  }

  /** `isFileType(filePath, type)`: the extension of `p`, lower-cased, is `ext`. */
  predicate IsFileType(p: string, ext: string)
  {
    Lower(Extname(p)) == ext
  }

  /** An extension in the form `isFileType` is called with: a dot followed by at
      least one character that is neither a dot nor a slash. */
  ghost predicate WellFormedExt(ext: string)
  {
    |ext| >= 2 && ext[0] == '.' && forall i :: 1 <= i < |ext| ==> ext[i] != '.' && ext[i] != '/'
  }

  /** `t` ends in `ext` in any letter case, and the character before that
      ending is not a slash. */
  ghost predicate EndsWithExt(t: string, ext: string)
  {
    && |t| > |ext|
    && t[|t| - |ext| - 1] != '/'
    && forall i :: 0 <= i < |ext| ==> LowerChar(t[|t| - |ext| + i]) == ext[i]
  }

  /** Lower-casing `s` gives `ext` when it does so character by character. */
  lemma LowerEq(s: string, ext: string)
    requires |s| == |ext| && forall i :: 0 <= i < |s| ==> LowerChar(s[i]) == ext[i]
    ensures Lower(s) == ext
  {
    forall i | 0 <= i < |s| ensures Lower(s)[i] == ext[i] {
      LowerAt(s, i);
    }
  }

  /** A path whose extension matches ends in that extension. */
  lemma ExtMatchEndsPath(p: string, ext: string)
    requires WellFormedExt(ext) && IsFileType(p, ext)
    ensures EndsWithExt(TrimTrailingSlashes(p), ext)
  {
    var t := TrimTrailingSlashes(p);
    var b := LastSegment(t);
    var e := SegmentExt(b);
    assert Extname(p) == e;
    InnerSuffix(t, b, e);
    LowerSuffixEnds(t, e, ext);
  }

  /** A suffix of `t` that lower-cases to `ext` and is preceded by a
      non-slash character makes `t` end in `ext`. */
  lemma LowerSuffixEnds(t: string, e: string, ext: string)
    requires |t| > |e| && t[|t| - |e|..] == e && t[|t| - |e| - 1] != '/'
    requires Lower(e) == ext
    ensures EndsWithExt(t, ext)
  {
    assert |ext| == |e|;
    forall i | 0 <= i < |ext| ensures LowerChar(t[|t| - |ext| + i]) == ext[i] {
      LowerAt(e, i);
      assert t[|t| - |e| + i] == e[i];
    }
  }

  /** A proper suffix `e` of the slash-free final segment `b` of `t` is a
      suffix of `t` preceded by a character other than a slash. */
  lemma InnerSuffix(t: string, b: string, e: string)
    requires |b| <= |t| && b == t[|t| - |b|..] && '/' !in b
    requires |e| < |b| && e == b[|b| - |e|..]
    ensures |t| > |e| && t[|t| - |e|..] == e && t[|t| - |e| - 1] != '/'
  {
    var k := |b| - |e| - 1;
    assert b[k] == t[|t| - |b| + k];
  }

  /** What a case-insensitive match with a well-formed extension says of the
      matched text: lower-casing maps no other character to `.` or `/`. */
  lemma LowerMatchShape(tail: string, ext: string)
    requires WellFormedExt(ext) && |tail| == |ext|
    requires forall i :: 0 <= i < |tail| ==> LowerChar(tail[i]) == ext[i]
    ensures tail[0] == '.'
    ensures forall i :: 1 <= i < |tail| ==> tail[i] != '.' && tail[i] != '/'
  {
  }

  /** The segment after the last slash of `t` contains the dotted ending `tail`
      of `t` when the character before that ending is not a slash. */
  lemma SegmentCoversTail(t: string, tail: string)
    requires |t| > |tail| >= 1 && t[|t| - |tail|..] == tail && t[|t| - |tail| - 1] != '/'
    requires forall i :: 0 <= i < |tail| ==> tail[i] != '/'
    ensures |LastSegment(t)| > |tail|
  {
  }

  /** The segment extension of a segment that ends in a dot followed by
      dot-free text is that ending. */
  lemma SegmentExtOfEnding(b: string, tail: string)
    requires |b| > |tail| >= 2 && b[|b| - |tail|..] == tail
    requires tail[0] == '.' && forall i :: 1 <= i < |tail| ==> tail[i] != '.'
    ensures SegmentExt(b) == tail
  {
    var dot := |b| - |tail|;
    assert b[dot] == tail[0];
    forall j | dot < j < |b| ensures b[j] != '.' {
      assert b[j] == tail[j - dot];
    }
    assert b != ".." by {
      assert b[|b| - 1] == tail[|tail| - 1];
    }
    assert LastIndexOf(b, '.') == Some(dot);
  }

  /** A path ending in the extension, preceded by a character of the same
      segment, has that extension. */
  lemma PathEndMatchesExt(p: string, ext: string)
    requires WellFormedExt(ext)
    requires EndsWithExt(TrimTrailingSlashes(p), ext)
    ensures IsFileType(p, ext)
  {
    var t := TrimTrailingSlashes(p);
    TrimmedExtIsEnding(t, ext);
    EndingLowersToExt(t, ext);
  }

  /** The extension of a slash-trimmed path that ends in a well-formed
      extension is its ending of that extension's length. */
  lemma TrimmedExtIsEnding(t: string, ext: string)
    requires WellFormedExt(ext) && EndsWithExt(t, ext)
    ensures TrimmedExt(t) == t[|t| - |ext|..]
  {
    var tail := t[|t| - |ext|..];
    EndingShape(t, tail, ext);
    SegmentCoversTail(t, tail);
    var b := LastSegment(t);
    assert b[|b| - |tail|..] == tail by {
      assert b == t[|t| - |b|..];
    }
    SegmentExtOfEnding(b, tail);
  }

  /** The ending of a path that ends in `ext` lower-cases to `ext`. */
  lemma EndingLowersToExt(t: string, ext: string)
    requires EndsWithExt(t, ext)
    ensures Lower(t[|t| - |ext|..]) == ext
  {
    var tail := t[|t| - |ext|..];
    forall i | 0 <= i < |ext| ensures LowerChar(tail[i]) == ext[i] {
      assert tail[i] == t[|t| - |ext| + i];
    }
    LowerEq(tail, ext);
  }

  /** The ending of a path that ends in a well-formed extension is a dot
      followed by characters that are neither dots nor slashes. */
  lemma EndingShape(t: string, tail: string, ext: string)
    requires WellFormedExt(ext) && EndsWithExt(t, ext) && tail == t[|t| - |ext|..]
    ensures |t| > |tail| >= 2 && t[|t| - |tail|..] == tail && t[|t| - |tail| - 1] != '/'
    ensures tail[0] == '.' && forall i :: 1 <= i < |tail| ==> tail[i] != '.' && tail[i] != '/'
  {
    forall i | 0 <= i < |ext| ensures LowerChar(tail[i]) == ext[i] {
      assert tail[i] == t[|t| - |ext| + i];
    }
    LowerMatchShape(tail, ext);
  }

  /** For such an extension, `isFileType` holds exactly when the path, trailing
      slashes dropped, ends in that extension in any letter case, preceded by
      at least one character of the same segment. */
  lemma IsFileTypeIff(p: string, ext: string)
    requires WellFormedExt(ext)
    ensures IsFileType(p, ext) <==> EndsWithExt(TrimTrailingSlashes(p), ext)
  {
    if IsFileType(p, ext) {
      ExtMatchEndsPath(p, ext);
    }
    if EndsWithExt(TrimTrailingSlashes(p), ext) {
      PathEndMatchesExt(p, ext);
    }
  }

  /** The archive argument check accepts an upper-case extension and a
      trailing slash, and rejects a path that is only the extension. */
  lemma IsFileTypeUpperCase()
    ensures IsFileType("dir/App.ASAR", ".asar")
  {
    var p := "dir/App.ASAR";
    assert TrimTrailingSlashes(p) == p;
    assert p[|p| - 5..] == ".ASAR";
    assert Lower(".ASAR") == ".asar";
    PathEndMatchesExt(p, ".asar");
  }

  lemma IsFileTypeTrailingSlash()
    ensures IsFileType("app.json/", ".json")
  {
    var p := "app.json/";
    assert TrimTrailingSlashes(p) == "app.json";
    assert Lower(".json") == ".json";
    PathEndMatchesExt(p, ".json");
  }

  lemma IsFileTypeDotFile()
    ensures !IsFileType(".asar", ".asar")
  {
    var p := ".asar";
    assert TrimTrailingSlashes(p) == p;
    if IsFileType(p, ".asar") {
      ExtMatchEndsPath(p, ".asar");
    }
  }
}
