/**
 * The part of Node's `path` module that the upload server relies on, for
 * POSIX paths: the final segment of a path, its extension (`path.extname`)
 * and the segment without that extension (`path.basename(p, path.extname(p))`).
 */
module PathNames {

  /** Index of the last occurrence of `c` in `s`, or -1 if `c` does not occur. */
  function LastIndexOf(s: string, c: char): (r: int)
    ensures -1 <= r < |s|
    ensures r >= 0 ==> s[r] == c
    ensures forall j :: r < j < |s| ==> s[j] != c
  {
    if |s| == 0 then -1
    else if s[|s| - 1] == c then |s| - 1
    else LastIndexOf(s[..|s| - 1], c)
  }

  /** The three facts LastIndexOf ensures pin its value down. */
  lemma LastIndexOfUnique(s: string, c: char, r: int)
    requires -1 <= r < |s|
    requires r >= 0 ==> s[r] == c
    requires forall j :: r < j < |s| ==> s[j] != c
    ensures LastIndexOf(s, c) == r
  {
  }

  /** The part of `p` after its last '/'. */
  function FinalSegment(p: string): (seg: string)
    ensures '/' !in seg
    ensures |seg| <= |p| && seg == p[|p| - |seg|..]
    ensures |seg| < |p| ==> p[|p| - |seg| - 1] == '/'
  {
    p[LastIndexOf(p, '/') + 1..]
  }

  /**
   * `path.extname`: the final segment from its last '.', or "" when the
   * segment has no '.', has its only '.' in first position, or is "..".
   */
  function Extname(p: string): (ext: string)
    ensures '/' !in ext
    ensures ext == "" || (ext[0] == '.' && '.' !in ext[1..])
    ensures ext != "" ==> |ext| < |FinalSegment(p)|
    ensures ext == FinalSegment(p)[|FinalSegment(p)| - |ext|..]
  {
    var seg := FinalSegment(p);
    var dot := LastIndexOf(seg, '.');
    if dot <= 0 || seg == ".." then "" else seg[dot..]
  }

  /** The extension is empty exactly for the segment "..", and for a segment with no '.' past its first character. */
  lemma ExtnameEmptyIff(p: string)
    ensures Extname(p) == "" <==> (FinalSegment(p) == ".." ||
      forall j :: 0 < j < |FinalSegment(p)| ==> FinalSegment(p)[j] != '.')
  {
    var seg := FinalSegment(p);
    var dot := LastIndexOf(seg, '.');
    if dot > 0 && seg != ".." {
      assert seg[dot] == '.';
    }
  }

  /** `path.basename(p, path.extname(p))`: the final segment without its extension. */
  function Stem(p: string): (stem: string)
    ensures '/' !in stem
    ensures FinalSegment(p) == stem + Extname(p)
  {
    var seg, ext := FinalSegment(p), Extname(p);
    var k := |seg| - |ext|;
    assert seg == seg[..k] + seg[k..];
    seg[..k]
  }

  /** Appending characters other than `c` leaves the last `c` where it was. */
  lemma LastIndexOfAppend(a: string, b: string, c: char)
    requires c !in b
    ensures LastIndexOf(a + b, c) == LastIndexOf(a, c)
  {
    var r := LastIndexOf(a, c);
    forall j | r < j < |a + b|
      ensures (a + b)[j] != c
    {
      if j >= |a| {
        assert (a + b)[j] == b[j - |a|];
      }
    }
    LastIndexOfUnique(a + b, c, r);
  }

  /** A name without '/' is its own final segment. */
  lemma FinalSegmentOfPlainName(p: string)
    requires '/' !in p
    ensures FinalSegment(p) == p
  {
    LastIndexOfUnique(p, '/', -1);
  }

  /** Below a directory `dir/`, a path keeps its final segment. */
  lemma FinalSegmentUnderDirectory(dir: string, p: string)
    requires |dir| > 0 && dir[|dir| - 1] == '/'
    ensures FinalSegment(dir + p) == FinalSegment(p)
  {
    var q := dir + p;
    var k := LastIndexOf(p, '/');
    var r := |dir| + k;
    assert q[r] == '/' by {
      if k < 0 { assert q[r] == dir[|dir| - 1]; } else { assert q[r] == p[k]; }
    }
    forall j | r < j < |q|
      ensures q[j] != '/'
    {
      assert q[j] == p[j - |dir|];
    }
    LastIndexOfUnique(q, '/', r);
    assert q[r + 1..] == p[k + 1..];
  }

  /** Below a directory `dir/`, a path keeps its extension and stem. */
  lemma ExtnameUnderDirectory(dir: string, p: string)
    requires |dir| > 0 && dir[|dir| - 1] == '/'
    ensures Extname(dir + p) == Extname(p) && Stem(dir + p) == Stem(p)
  {
    FinalSegmentUnderDirectory(dir, p);
  }

  /** A '/'-free name with no '.' past its first character has no extension. */
  lemma ExtnameOfPlainName(p: string)
    requires '/' !in p && p != ".." && LastIndexOf(p, '.') <= 0
    ensures Extname(p) == "" && Stem(p) == p
  {
    FinalSegmentOfPlainName(p);
  }

  /**
   * A '/'-free name written as `stem + ext`, where `ext` is a '.' followed by
   * no other '.', and `stem` is not empty, has (the name ".." excepted) extension `ext` and stem `stem`.
   */
  lemma ExtnameOfParts(stem: string, ext: string)
    requires '/' !in stem && '/' !in ext && stem != ""
    requires ext != "" && ext[0] == '.' && '.' !in ext[1..] && stem + ext != ".."
    ensures Extname(stem + ext) == ext && Stem(stem + ext) == stem
  {
    var p := stem + ext;
    FinalSegmentOfPlainName(p);
    var d := |stem|;
    forall j | d < j < |p|
      ensures p[j] != '.'
    {
      assert p[j] == ext[1..][j - d - 1];
    }
    LastIndexOfUnique(p, '.', d);
    assert p[d] == '.' && p[d..] == ext;
    var seg := FinalSegment(p);
    assert seg == p;
    assert Extname(p) == ext;
    assert p[..|p| - |ext|] == stem;
  }
}
