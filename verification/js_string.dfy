/** The two JavaScript string operations `applyPatches` relies on:
    `String.prototype.includes` and `String.prototype.replace` with a string
    (not a regular expression) as the search value. Replacement templates go
    through the GetSubstitution operation of ECMA-262 (section 22.1.3.19.1 of
    the 2023 edition), so `$$`, `$&`, `` $` `` and `$'` are expanded. */
module JsString {
  import opened Wrappers

  /** `find` occurs in `s` starting at index `i`. */
  predicate OccursAt(s: string, find: string, i: int)
  {
    0 <= i && i + |find| <= |s| && s[i..i + |find|] == find
  }

  /** `find` is a substring of `s` (the empty string is a substring of every string). */
  ghost predicate Contains(s: string, find: string)
  {
    exists i :: OccursAt(s, find, i)
  }

  /** `i` is the least index at which `find` occurs in `s`. */
  ghost predicate IsFirstOccurrence(s: string, find: string, i: int)
  {
    OccursAt(s, find, i) && forall j :: 0 <= j < i ==> !OccursAt(s, find, j)
  }

  /** Searches for `find` in `s` from index `k` onwards. */
  function FirstIndexFrom(s: string, find: string, k: nat): (r: Option<nat>)
    ensures r.Some? ==> k <= r.value && OccursAt(s, find, r.value)
    ensures r.Some? ==> forall j :: k <= j < r.value ==> !OccursAt(s, find, j)
    ensures r.None? ==> forall j :: k <= j ==> !OccursAt(s, find, j)
    decreases |s| - k
  {
    if k + |find| > |s| then None
    else if s[k..k + |find|] == find then Some(k)
    else FirstIndexFrom(s, find, k + 1)
  }

  /** The position `String.prototype.indexOf` reports: the first occurrence,
      or nothing when `find` does not occur. */
  function FirstIndex(s: string, find: string): (r: Option<nat>)
    ensures r.Some? <==> Contains(s, find)
    ensures r.Some? ==> IsFirstOccurrence(s, find, r.value)
  {
    FirstIndexFrom(s, find, 0)
  }

  /** `s.includes(find)`. */
  predicate Includes(s: string, find: string)
    ensures Includes(s, find) <==> Contains(s, find)
  {
    FirstIndex(s, find).Some?
  }

  /** GetSubstitution for a match of `matched` at `position` in `str`, with no
      capture groups and no named groups. `$$` stands for `$`, `$&` for the
      match, `` $` `` for the text before it and `$'` for the text after it.
      Any other `$` is copied verbatim: `$1`..`$99` and `$<` refer to groups
      that a string search value never has, so the standard copies them
      unchanged, which is the same output as copying them one character at
      a time. */
  function GetSubstitution(matched: string, str: string, position: nat, template: string): (r: string)
    requires position + |matched| <= |str|
    ensures '$' !in template ==> r == template
    decreases |template|
  {
    if |template| == 0 then ""
    else if template[0] == '$' && |template| >= 2 && template[1] == '$' then
      "$" + GetSubstitution(matched, str, position, template[2..])
    else if template[0] == '$' && |template| >= 2 && template[1] == '&' then
      matched + GetSubstitution(matched, str, position, template[2..])
    else if template[0] == '$' && |template| >= 2 && template[1] == '`' then
      str[..position] + GetSubstitution(matched, str, position, template[2..])
    else if template[0] == '$' && |template| >= 2 && template[1] == '\'' then
      str[position + |matched|..] + GetSubstitution(matched, str, position, template[2..])
    else
      [template[0]] + GetSubstitution(matched, str, position, template[1..])
  }

  /** The template a caller would write to have `s` inserted literally:
      every `$` doubled. */
  function EscapeDollars(s: string): (r: string)
    ensures |r| >= |s|
    ensures '$' !in s ==> r == s
  {
    if |s| == 0 then ""
    else if s[0] == '$' then "$$" + EscapeDollars(s[1..])
    else [s[0]] + EscapeDollars(s[1..])
  }

  /** `s.replace(find, replacement)` with a string search value: only the first
      occurrence is replaced; when there is none, `s` comes back unchanged. */
  function Replace(s: string, find: string, replacement: string): (r: string)
    ensures !Contains(s, find) ==> r == s
    ensures forall i :: IsFirstOccurrence(s, find, i) ==>
      r == s[..i] + GetSubstitution(find, s, i, replacement) + s[i + |find|..]
    ensures '$' !in replacement && Contains(s, find) ==>
      |r| == |s| - |find| + |replacement|
  {
    match FirstIndex(s, find)
    case None => s
    case Some(i) => s[..i] + GetSubstitution(find, s, i, replacement) + s[i + |find|..]
  }

  /** Doubling every `$` makes a replacement template insert its text literally. */
  lemma {:induction false} SubstituteEscaped(matched: string, str: string, position: nat, s: string)
    requires position + |matched| <= |str|
    ensures GetSubstitution(matched, str, position, EscapeDollars(s)) == s
    decreases |s|
  {
    if |s| > 0 {
      var t := EscapeDollars(s);
      SubstituteEscaped(matched, str, position, s[1..]);
      if s[0] == '$' {
        assert t[..2] == "$$" && t[2..] == EscapeDollars(s[1..]);
      } else {
        assert t[0] == s[0] && t[1..] == EscapeDollars(s[1..]);
      }
    }
  }

  /** With a `$`-free replacement, the result is the text before the first
      occurrence, the replacement, then everything after the occurrence. */
  lemma ReplaceLiteral(s: string, find: string, replacement: string, i: int)
    requires '$' !in replacement
    requires IsFirstOccurrence(s, find, i)
    ensures Replace(s, find, replacement) == s[..i] + replacement + s[i + |find|..]
  {
  }

  /** An occurrence of `find` after the first one (not overlapping it) survives
      the replacement, shifted by the change in length. */
  lemma LaterOccurrenceKept(s: string, find: string, replacement: string, i: int, j: int)
    requires IsFirstOccurrence(s, find, i)
    requires OccursAt(s, find, j) && i + |find| <= j
    ensures OccursAt(Replace(s, find, replacement), find,
                     j - |find| + |GetSubstitution(find, s, i, replacement)|)
  {
    var sub := GetSubstitution(find, s, i, replacement);
    OccurrenceShifted(s, find, sub, i, j, Replace(s, find, replacement));
  }

  /** Splicing `sub` over the occurrence at `i` moves the later occurrence at
      `j` to `j - |find| + |sub|`. */
  lemma OccurrenceShifted(s: string, find: string, sub: string, i: int, j: int, spliced: string)
    requires 0 <= i && i + |find| <= j && OccursAt(s, find, j)
    requires spliced == s[..i] + sub + s[i + |find|..]
    ensures OccursAt(spliced, find, j - |find| + |sub|)
  {
    var head := s[..i] + sub;
    var tail := s[i + |find|..];
    var d := j - i - |find|;
    assert |head| == i + |sub|;
    SliceOfConcat(head, tail, d, d + |find|);
    assert tail[d..d + |find|] == s[j..j + |find|];
  }

  /** A slice lying inside the right operand of a concatenation. */
  lemma SliceOfConcat(a: string, b: string, lo: int, hi: int)
    requires 0 <= lo <= hi <= |b|
    ensures (a + b)[|a| + lo..|a| + hi] == b[lo..hi]
  {
  }

  /** The empty search string matches at index 0, so the replacement is prepended. */
  lemma EmptyFindPrepends(s: string, replacement: string)
    requires '$' !in replacement
    ensures Includes(s, "")
    ensures Replace(s, "", replacement) == replacement + s
  {
    assert OccursAt(s, "", 0);
    assert IsFirstOccurrence(s, "", 0);
    assert s[..0] == [] && s[0..] == s;
  }

  /** Only the first of two occurrences is replaced. */
  lemma ReplaceFirstOnlyExample()
    ensures Replace("XaX", "X", "Y") == "YaX"
  {
    assert IsFirstOccurrence("XaX", "X", 0) by {
      assert "XaX"[0..1] == "X";
    }
  }

  /** `$&` in the replacement stands for the matched text. */
  lemma MatchPatternExample()
    ensures Replace("abc", "b", "[$&]") == "a[b]c"
  {
    assert IsFirstOccurrence("abc", "b", 1) by {
      assert "abc"[1..2] == "b";
      assert "abc"[0..1] == "a";
    }
  }

  /** `` $` `` in the replacement stands for the text before the match. */
  lemma PrefixPatternExample()
    ensures Replace("abc", "b", "$`") == "aac"
  {
    assert IsFirstOccurrence("abc", "b", 1) by {
      assert "abc"[1..2] == "b";
      assert "abc"[0..1] == "a";
    }
  }

  /** `$'` in the replacement stands for the text after the match. */
  lemma SuffixPatternExample()
    ensures Replace("abc", "b", "$'") == "acc"
  {
    assert IsFirstOccurrence("abc", "b", 1) by {
      assert "abc"[1..2] == "b";
      assert "abc"[0..1] == "a";
    }
  }

  /** `$$` stands for one `$`, and `$1` names a group a string search value
      never has, so it is copied as it stands. */
  lemma DollarPatternExample()
    ensures Replace("abc", "b", "$$$1") == "a$$1c"
  {
    assert IsFirstOccurrence("abc", "b", 1) by {
      assert "abc"[1..2] == "b";
      assert "abc"[0..1] == "a";
    }
  }
}
