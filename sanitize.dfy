/** The backend's filename sanitiser (`sanitize_filename`) and the part of
    `os.path.splitext` the download route feeds it with. */
module Sanitize {
  import opened Text

  /** Length limit applied by the slice `[:150]`. */
  const MaxLength: nat := 150

  /** Name returned when nothing is left after cleaning. */
  const DefaultName: string := "downloaded_video"

  /** The nine characters backslash, slash, star, question mark, colon, double
      quote, less-than, greater-than and bar, which step 1 deletes. */
  predicate IsForbidden(c: char) {
    c == '\\' || c == '/' || c == '*' || c == '?' || c == ':' || c == '"' || c == '<' || c == '>' || c == '|'
  }

  /** Python's `\s` on str patterns: the characters for which `str.isspace()` holds. */
  predicate IsPySpace(c: char) {
    var n := c as int;
    (0x09 <= n <= 0x0D) || (0x1C <= n <= 0x20) || n == 0x85 || n == 0xA0 || n == 0x1680 ||
    (0x2000 <= n <= 0x200A) || n == 0x2028 || n == 0x2029 || n == 0x202F || n == 0x205F || n == 0x3000
  }

  /** Members of the class `[\s_]`. */
  predicate IsRunChar(c: char) {
    IsPySpace(c) || c == '_'
  }

  /** Members of the argument of `strip('_ ')`. */
  predicate IsStripChar(c: char) {
    c == '_' || c == ' '
  }

  predicate NoForbidden(s: string) {
    forall i :: 0 <= i < |s| ==> !IsForbidden(s[i])
  }

  predicate NoSpace(s: string) {
    forall i :: 0 <= i < |s| ==> !IsPySpace(s[i])
  }

  predicate NoDoubleUnderscore(s: string) {
    forall i :: 0 <= i < |s| - 1 ==> !(s[i] == '_' && s[i + 1] == '_')
  }

  /** Everything `sanitize_filename` guarantees of every result. */
  predicate IsSafeName(s: string) {
    1 <= |s| <= MaxLength && s[0] != '_' && NoForbidden(s) && NoSpace(s) && NoDoubleUnderscore(s)
  }

  /** A safe name that also does not end in '_': exactly the fixed points (see SanitizeFixedPoint). */
  predicate IsClean(s: string) {
    IsSafeName(s) && s[|s| - 1] != '_'
  }

  /** Step 1, the substitution that deletes every forbidden character. */
  function RemoveForbidden(s: string): (r: string)
    ensures |r| <= |s| && NoForbidden(r)
    ensures NoForbidden(s) ==> r == s
  {
    if s == [] then []
    else (if IsForbidden(s[0]) then [] else [s[0]]) + RemoveForbidden(s[1..])
  }

  /** Skips the run of `[\s_]` characters at the front of `s`. */
  function DropRun(s: string): (r: string)
    ensures |r| <= |s| && r == s[|s| - |r|..]
    ensures r == [] || !IsRunChar(r[0])
  {
    if s != [] && IsRunChar(s[0]) then DropRun(s[1..]) else s
  }

  /** Step 2, `re.sub(r'[\s_]+', '_', s)`: every maximal run of whitespace and
      underscores becomes one underscore. */
  function CollapseRuns(s: string): (r: string)
    ensures |r| <= |s|
    ensures r == [] <==> s == []
    ensures r != [] ==> (r[0] == '_' <==> IsRunChar(s[0]))
    decreases |s|
  {
    if s == [] then []
    else if IsRunChar(s[0]) then ['_'] + CollapseRuns(DropRun(s[1..]))
    else [s[0]] + CollapseRuns(s[1..])
  }

  /** What the collapse guarantees: no whitespace, no two adjacent
      underscores, and no forbidden character that was not already there. */
  lemma {:induction false} CollapseRunsSafe(s: string)
    ensures NoSpace(CollapseRuns(s)) && NoDoubleUnderscore(CollapseRuns(s))
    ensures NoForbidden(s) ==> NoForbidden(CollapseRuns(s))
    decreases |s|
  {
    if s != [] {
      if IsRunChar(s[0]) {
        var rest := DropRun(s[1..]);
        SuffixNoForbidden(s, |s| - |rest|);
        CollapseRunsSafe(rest);
        PrependSafe('_', CollapseRuns(rest));
      } else {
        SuffixNoForbidden(s, 1);
        CollapseRunsSafe(s[1..]);
        PrependSafe(s[0], CollapseRuns(s[1..]));
      }
    }
  }

  lemma SuffixNoForbidden(s: string, k: nat)
    requires k <= |s|
    ensures NoForbidden(s) ==> NoForbidden(s[k..])
  {
    assert forall i :: 0 <= i < |s| - k ==> s[k..][i] == s[k + i];
  }

  /** Putting one character in front keeps the guarantees when it is no
      space and does not make two underscores. */
  lemma PrependSafe(c: char, r: string)
    requires !IsPySpace(c) && NoSpace(r) && NoDoubleUnderscore(r)
    requires c == '_' ==> r == [] || r[0] != '_'
    ensures NoSpace([c] + r) && NoDoubleUnderscore([c] + r)
    ensures !IsForbidden(c) && NoForbidden(r) ==> NoForbidden([c] + r)
  {
    var t := [c] + r;
    assert forall i :: 1 <= i < |t| ==> t[i] == r[i - 1];
  }

  /** The leading half of `strip('_ ')`. */
  function StripLeft(s: string): (r: string)
    ensures |r| <= |s| && r == s[|s| - |r|..]
    ensures r == [] || !IsStripChar(r[0])
    ensures s != [] && !IsStripChar(s[0]) ==> r == s
  {
    if s != [] && IsStripChar(s[0]) then StripLeft(s[1..]) else s
  }

  /** The trailing half of `strip('_ ')`. */
  function StripRight(s: string): (r: string)
    ensures |r| <= |s| && r == s[..|r|]
    ensures r == [] || !IsStripChar(r[|r| - 1])
    ensures s != [] && !IsStripChar(s[|s| - 1]) ==> r == s
  {
    if s != [] && IsStripChar(s[|s| - 1]) then StripRight(s[..|s| - 1]) else s
  }

  /** Step 3, `strip('_ ')`: what is left is a slice of `s` that neither
      starts nor ends with '_' or ' '. */
  function Strip(s: string): (r: string)
    ensures |r| <= |s|
    ensures r == [] || (!IsStripChar(r[0]) && !IsStripChar(r[|r| - 1]))
    ensures |r| <= |StripLeft(s)|
    ensures r == s[|s| - |StripLeft(s)|..|s| - |StripLeft(s)| + |r|]
  {
    var l := StripLeft(s);
    var r := StripRight(l);
    assert r == s[|s| - |l|..|s| - |l| + |r|];
    r
  }

  /** Steps 1 to 4 of `sanitize_filename`, before the default is applied. */
  function Cleaned(s: string): string {
    var stripped := Strip(CollapseRuns(RemoveForbidden(s)));
    if |stripped| <= MaxLength then stripped else stripped[..MaxLength]
  }

  lemma InfixKeepsSafety(s: string, a: nat, b: nat)
    requires a <= b <= |s|
    requires NoForbidden(s) && NoSpace(s) && NoDoubleUnderscore(s)
    ensures NoForbidden(s[a..b]) && NoSpace(s[a..b]) && NoDoubleUnderscore(s[a..b])
  {
    assert forall i :: 0 <= i < b - a ==> s[a..b][i] == s[a + i];
  }

  /** Whatever the input, the cleaned text is empty or a safe name. */
  lemma CleanedSafe(s: string)
    ensures Cleaned(s) == [] || IsSafeName(Cleaned(s))
  {
    var collapsed := CollapseRuns(RemoveForbidden(s));
    CollapseRunsSafe(RemoveForbidden(s));
    StripKeepsSafety(collapsed);
    CutKeepsSafety(Strip(collapsed));
  }

  /** The slice to 150 characters keeps the guarantees and the first character. */
  lemma CutKeepsSafety(t: string)
    requires NoForbidden(t) && NoSpace(t) && NoDoubleUnderscore(t)
    requires t == [] || t[0] != '_'
    ensures var cut := if |t| <= MaxLength then t else t[..MaxLength];
            cut == [] || IsSafeName(cut)
  {
    if |t| > MaxLength {
      InfixKeepsSafety(t, 0, MaxLength);
      assert t[..MaxLength] == t[0..MaxLength];
    }
  }

  /** The strip takes a slice, so it keeps the three guarantees. */
  lemma StripKeepsSafety(c: string)
    requires NoForbidden(c) && NoSpace(c) && NoDoubleUnderscore(c)
    ensures var t := Strip(c); NoForbidden(t) && NoSpace(t) && NoDoubleUnderscore(t)
  {
    var a := |c| - |StripLeft(c)|;
    InfixKeepsSafety(c, a, a + |Strip(c)|);
  }

  lemma DefaultNameIsClean()
    ensures IsClean(DefaultName)
  {
    assert NoDoubleUnderscore(DefaultName) by {
      forall i | 0 <= i < |DefaultName| - 1 ensures !(DefaultName[i] == '_' && DefaultName[i + 1] == '_') {
        assert DefaultName[9] == 'd' && DefaultName[10] == '_' && DefaultName[11] == 'v';
      }
    }
  }

  /** `sanitize_filename`: every result is a safe name, and the default is
      used exactly when cleaning leaves nothing. */
  function SanitizeFilename(s: string): (r: string)
    ensures IsSafeName(r)
    ensures Cleaned(s) == [] ==> r == DefaultName
    ensures Cleaned(s) != [] ==> r == Cleaned(s)
  {
    CleanedSafe(s);
    DefaultNameIsClean();
    var cut := Cleaned(s);
    if cut == [] then DefaultName else cut
  }

  lemma {:induction false} CollapseKeepsClean(s: string)
    requires NoSpace(s) && NoDoubleUnderscore(s)
    ensures CollapseRuns(s) == s
    decreases |s|
  {
    if s != [] {
      var tail := s[1..];
      InfixKeepsSafetyWeak(s, 1, |s|);
      CollapseKeepsClean(tail);
      if IsRunChar(s[0]) {
        assert s[0] == '_';
        assert DropRun(tail) == tail by {
          if tail != [] {
            assert tail[0] == s[1];
            assert !IsRunChar(tail[0]);
          }
        }
        assert CollapseRuns(s) == ['_'] + tail;
      } else {
        assert CollapseRuns(s) == [s[0]] + tail;
      }
      assert [s[0]] + tail == s;
    }
  }

  lemma InfixKeepsSafetyWeak(s: string, a: nat, b: nat)
    requires a <= b <= |s|
    requires NoSpace(s) && NoDoubleUnderscore(s)
    ensures NoSpace(s[a..b]) && NoDoubleUnderscore(s[a..b])
  {
    assert forall i :: 0 <= i < b - a ==> s[a..b][i] == s[a + i];
  }

  /** The fixed points of `sanitize_filename` are exactly the clean names:
      safe names that do not end in an underscore. */
  lemma SanitizeFixedPoint(t: string)
    ensures SanitizeFilename(t) == t <==> IsClean(t)
  {
    DefaultNameIsClean();
    if IsClean(t) {
      assert RemoveForbidden(t) == t;
      CollapseKeepsClean(t);
      assert StripLeft(t) == t;
      assert Strip(t) == t;
      assert Cleaned(t) == t;
    }
    if SanitizeFilename(t) == t && Cleaned(t) != [] {
      var stripped := Strip(CollapseRuns(RemoveForbidden(t)));
      assert |stripped| <= |t| <= MaxLength;
      assert Cleaned(t) == stripped;
    }
  }

  /** Sanitising a result again changes it exactly when it ends in '_' (the
      slice to 150 characters runs after the strip, so it can expose one). */
  lemma SanitizeTwiceIff(s: string)
    ensures var r := SanitizeFilename(s);
            SanitizeFilename(r) == r <==> r[|r| - 1] != '_'
  {
    var r := SanitizeFilename(s);
    assert IsSafeName(r);
    SanitizeFixedPoint(r);
  }

  /** On a safe name the pipeline only strips: nothing to delete or collapse. */
  lemma CleanedSafeName(t: string)
    requires IsSafeName(t)
    ensures Cleaned(t) == Strip(t)
  {
    assert RemoveForbidden(t) == t;
    CollapseKeepsClean(t);
  }

  lemma StripTrailingUnderscore(t: string)
    requires IsSafeName(t) && t[|t| - 1] == '_'
    ensures Strip(t) == t[..|t| - 1]
  {
    var u := t[..|t| - 1];
    assert StripLeft(t) == t;
    assert t[|t| - 2] != '_';
    assert u[|u| - 1] == t[|t| - 2];
    assert StripRight(t) == StripRight(u);
    assert StripRight(u) == u;
  }

  /** A safe name that ends in '_' loses exactly that underscore when sanitised again. */
  lemma SanitizeSafeName(t: string)
    requires IsSafeName(t)
    ensures SanitizeFilename(t) == if t[|t| - 1] == '_' then t[..|t| - 1] else t
    ensures IsClean(SanitizeFilename(t))
  {
    SanitizeFixedPoint(t);
    if t[|t| - 1] == '_' {
      var u := t[..|t| - 1];
      CleanedSafeName(t);
      StripTrailingUnderscore(t);
      InfixKeepsSafety(t, 0, |u|);
      assert IsClean(u);
    }
  }

  /** A second pass always reaches a fixed point: sanitising three times is
      the same as sanitising twice. */
  lemma SanitizeStabilises(s: string)
    ensures var r2 := SanitizeFilename(SanitizeFilename(s));
            SanitizeFilename(r2) == r2 && IsClean(r2)
  {
    SanitizeSafeName(SanitizeFilename(s));
    SanitizeFixedPoint(SanitizeFilename(SanitizeFilename(s)));
  }

  /** Index of the last occurrence of `c` in `s`, or -1 (`str.rfind`). */
  function LastIndexOf(s: string, c: char): (i: int)
    ensures -1 <= i < |s|
    ensures i >= 0 ==> s[i] == c
    ensures forall j :: i < j < |s| ==> s[j] != c
  {
    if s == [] then -1
    else if s[|s| - 1] == c then |s| - 1
    else LastIndexOf(s[..|s| - 1], c)
  }

  /** Whether `s[from..to]` holds a character other than '.'. */
  predicate HasNonDot(s: string, lo: nat, hi: nat)
    requires lo <= hi <= |s|
  {
    exists i :: lo <= i < hi && s[i] != '.'
  }

  /** `os.path.splitext(p)` on POSIX: the extension starts at the last '.' of
      the last path component, unless that component has only dots before it. */
  function SplitExt(p: string): (r: (string, string))
    ensures r.0 + r.1 == p
    ensures r.1 == [] || (r.1[0] == '.' && forall i :: 1 <= i < |r.1| ==> r.1[i] != '.' && r.1[i] != '/')
  {
    var sep := LastIndexOf(p, '/');
    var dot := LastIndexOf(p, '.');
    if dot > sep && HasNonDot(p, sep + 1, dot) then
      assert p[..dot] + p[dot..] == p;
      (p[..dot], p[dot..])
    else
      (p, [])
  }
}
