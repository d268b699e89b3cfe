/** The parts of Python's posixpath module that the tools use to derive output
    paths: str.rfind on one character, os.path.splitext, os.path.split and the
    two-argument os.path.join. Paths are strings; '/' is the only separator. */
module PyPath {

  /** Index of the last occurrence of `c` in `s`, or -1 when there is none. */
  function LastIndex(s: string, c: char): (r: int)
    ensures -1 <= r < |s|
    ensures r >= 0 ==> s[r] == c
    ensures forall k :: r < k < |s| ==> s[k] != c
  {
    if |s| == 0 then -1
    else if s[|s| - 1] == c then |s| - 1
    else LastIndex(s[..|s| - 1], c)
  }

  /** The contract of LastIndex determines its value. */
  lemma LastIndexIs(s: string, c: char, i: int)
    requires -1 <= i < |s| && (i >= 0 ==> s[i] == c)
    requires forall k :: i < k < |s| ==> s[k] != c
    ensures LastIndex(s, c) == i
  {
  }

  /** Appending characters other than `c` keeps the last occurrence of `c`. */
  lemma LastIndexAppend(a: string, e: string, c: char)
    requires c !in e
    ensures LastIndex(a + e, c) == LastIndex(a, c)
  {
    var s := a + e;
    var sep := LastIndex(a, c);
    forall k | sep < k < |s| ensures s[k] != c {
      if k >= |a| { assert s[k] == e[k - |a|]; } else { assert s[k] == a[k]; }
    }
    if sep >= 0 { assert s[sep] == a[sep]; }
    LastIndexIs(s, c, sep);
  }

  /** Some character of s[lo..hi] is not a dot. */
  predicate HasNonDot(s: string, lo: int, hi: int)
    requires 0 <= lo <= hi <= |s|
  {
    exists k :: lo <= k < hi && s[k] != '.'
  }

  /** The final component of `p` (after its last '/') holds a character other than '.'. */
  predicate NamedComponent(p: string) {
    HasNonDot(p, LastIndex(p, '/') + 1, |p|)
  }

  /** An extension as splitext returns it: one leading dot, no other dot, no separator. */
  predicate ProperExt(e: string) {
    |e| > 0 && e[0] == '.' && '.' !in e[1..] && '/' !in e
  }

  /** os.path.splitext: split at the last dot of the final component, unless
      everything before that dot in the component is dots (a "hidden" name). */
  function SplitExt(p: string): (r: (string, string))
    ensures r.0 + r.1 == p
    ensures r.1 == "" || ProperExt(r.1)
    ensures r.1 != "" ==> NamedComponent(r.0)
  {
    var sep := LastIndex(p, '/');
    var dot := LastIndex(p, '.');
    if dot > sep && HasNonDot(p, sep + 1, dot) then
      assert LastIndex(p[..dot], '/') == sep;
      (p[..dot], p[dot..])
    else (p, "")
  }

  predicate AllSlashes(s: string) {
    forall k :: 0 <= k < |s| ==> s[k] == '/'
  }

  /** str.rstrip('/') */
  function RStripSlashes(s: string): (r: string)
    ensures |r| <= |s| && r == s[..|r|]
    ensures AllSlashes(s[|r|..])
    ensures r == "" || r[|r| - 1] != '/'
  {
    if |s| > 0 && s[|s| - 1] == '/' then
      var r := RStripSlashes(s[..|s| - 1]);
      assert s[|r|..] == s[..|s| - 1][|r|..] + ['/'];
      r
    else s
  }

  /** A directory as os.path.split returns it: no trailing separator, unless it is
      made only of separators (the root, or the empty string). */
  predicate NormalDir(d: string) {
    AllSlashes(d) || d[|d| - 1] != '/'
  }

  /** os.path.split: the tail is everything after the last '/', the head is
      everything before it with trailing separators removed (unless the head is
      only separators). */
  function Split(p: string): (r: (string, string))
    ensures |r.0| + |r.1| <= |p|
    ensures '/' !in r.1 && r.1 == p[|p| - |r.1|..]
    ensures NormalDir(r.0) && r.0 == p[..|r.0|]
    ensures AllSlashes(p[|r.0|..|p| - |r.1|])
  {
    var i := LastIndex(p, '/') + 1;
    var head := p[..i];
    var tail := p[i..];
    assert '/' !in tail by {
      forall k | 0 <= k < |tail| ensures tail[k] != '/' { assert tail[k] == p[i + k]; }
    }
    if AllSlashes(head) then (head, tail)
    else
      var h := RStripSlashes(head);
      assert p[|h|..i] == head[|h|..];
      (h, tail)
  }

  /** os.path.join(a, b): an absolute `b` replaces `a`; otherwise one '/' is put
      between them unless `a` is empty or already ends with one. */
  function Join(a: string, b: string): string {
    if |b| > 0 && b[0] == '/' then b
    else if a == "" || a[|a| - 1] == '/' then a + b
    else a + "/" + b
  }


  /** Splitting a joined path gives back the directory and the name. */
  lemma SplitJoinRoundTrip(d: string, b: string)
    requires NormalDir(d) && '/' !in b
    ensures Split(Join(d, b)) == (d, b)
  {
    var j := Join(d, b);
    if d == "" {
      assert j == b;
      assert LastIndex(j, '/') == -1;
    } else if d[|d| - 1] == '/' {
      assert j == d + b;
      forall k | |d| - 1 < k < |j| ensures j[k] != '/' {
        assert j[k] == b[k - |d|];
      }
      LastIndexIs(j, '/', |d| - 1);
      assert j[..|d|] == d;
    } else {
      assert j == d + "/" + b;
      forall k | |d| < k < |j| ensures j[k] != '/' {
        assert j[k] == b[k - |d| - 1];
      }
      LastIndexIs(j, '/', |d|);
      var head := j[..|d| + 1];
      assert head == d + "/";
      assert head[|d| - 1] != '/';
      assert RStripSlashes(head) == RStripSlashes(d) == d;
    }
  }

  /** Splitting off an extension that was appended to a named stem gives both back. */
  lemma ExtRoundTrip(a: string, e: string)
    requires ProperExt(e) && NamedComponent(a)
    ensures SplitExt(a + e) == (a, e)
  {
    var p := a + e;
    var sep := LastIndex(a, '/');
    assert LastIndex(p, '/') == sep by {
      forall k | sep < k < |p| ensures p[k] != '/' {
        if k >= |a| { assert p[k] == e[k - |a|]; }
      }
    }
    assert LastIndex(p, '.') == |a| by {
      forall k | |a| < k < |p| ensures p[k] != '.' {
        assert p[k] == e[1..][k - |a| - 1];
      }
    }
    var w :| sep + 1 <= w < |a| && a[w] != '.';
    assert p[w] == a[w];
    assert HasNonDot(p, sep + 1, |a|);
    assert p[..|a|] == a && p[|a|..] == e;
  }

  /** A derived output path `d/stem<ext>` parses back into its directory, stem
      and extension. */
  lemma DerivedPathParsesBack(d: string, stem: string, ext: string)
    requires NormalDir(d) && '/' !in stem && HasNonDot(stem, 0, |stem|) && ProperExt(ext)
    ensures Join(d, stem + ext) == Join(d, stem) + ext
    ensures SplitExt(Join(d, stem + ext)) == (Join(d, stem), ext)
    ensures Split(Join(d, stem)) == (d, stem)
  {
    assert stem[0] != '/' by { assert stem[0] in stem; }
    JoinAppend(d, stem, ext);
    SplitJoinRoundTrip(d, stem);
    JoinedStemIsNamed(d, stem);
    ExtRoundTrip(Join(d, stem), ext);
  }

  /** Appending to a relative name commutes with joining it under a directory. */
  lemma JoinAppend(d: string, stem: string, ext: string)
    requires |stem| > 0 && stem[0] != '/'
    ensures Join(d, stem + ext) == Join(d, stem) + ext
  {
    assert (stem + ext)[0] == stem[0];
    if d == "" || d[|d| - 1] == '/' {
      assert d + (stem + ext) == (d + stem) + ext;
    } else {
      assert d + "/" + (stem + ext) == (d + "/" + stem) + ext;
    }
  }

  /** A stem holding a non-dot character, joined under any directory, is a named component. */
  lemma JoinedStemIsNamed(d: string, stem: string)
    requires '/' !in stem && HasNonDot(stem, 0, |stem|)
    ensures NamedComponent(Join(d, stem))
  {
    var h := if d == "" || d[|d| - 1] == '/' then d else d + "/";
    assert stem[0] != '/' by { assert stem[0] in stem; }
    assert Join(d, stem) == h + stem;
    NamedAfter(h, stem);
  }

  /** Anything followed by a name holding a non-dot character ends in a named component. */
  lemma NamedAfter(h: string, stem: string)
    requires '/' !in stem && HasNonDot(stem, 0, |stem|)
    ensures NamedComponent(h + stem)
  {
    var j := h + stem;
    LastIndexAppend(h, stem, '/');
    var w :| 0 <= w < |stem| && stem[w] != '.';
    assert j[|h| + w] == stem[w];
  }


  /** The source's directory, name and extension, as the tools take them apart:
      `pth, ext = splitext(mov)` then `pth, nam = split(pth)`. */
  function SourceParts(mov: string): (r: (string, string, string))
    ensures NormalDir(r.0) && '/' !in r.1
    ensures r.2 == "" || ProperExt(r.2)
  {
    var se := SplitExt(mov);
    var sp := Split(se.0);
    (sp.0, sp.1, se.1)
  }

  /** The final component of the source is its name followed by its extension. */
  lemma SourceFinalComponent(mov: string)
    ensures Split(mov).1 == SourceParts(mov).1 + SourceParts(mov).2
  {
    var se := SplitExt(mov);
    TailOfAppend(se.0, se.1);
  }

  /** Appending a name without separators to a path extends its final component. */
  lemma TailOfAppend(root: string, ext: string)
    requires '/' !in ext
    ensures Split(root + ext).1 == Split(root).1 + ext
  {
    LastIndexAppend(root, ext, '/');
    var sep := LastIndex(root, '/');
    SplitTail(root + ext);
    SplitTail(root);
    SliceOfAppend(root, ext, sep + 1);
  }

  lemma SliceOfAppend(a: string, e: string, i: nat)
    requires i <= |a|
    ensures (a + e)[i..] == a[i..] + e
  {
  }

  /** The tail os.path.split returns is what follows the last separator. */
  lemma SplitTail(p: string)
    ensures Split(p).1 == p[LastIndex(p, '/') + 1..]
  {
  }

  /** A path derived in the source's directory with a stem of another length
      than the source's name is not the source itself, so deleting an existing
      output never deletes the input. */
  lemma DerivedPathDiffersFromSource(mov: string, stem: string)
    requires '/' !in stem && |stem| != |SourceParts(mov).1|
    ensures Join(SourceParts(mov).0, stem + SourceParts(mov).2) != mov
  {
    var parts := SourceParts(mov);
    var b := stem + parts.2;
    assert '/' !in b by {
      forall k | 0 <= k < |b| ensures b[k] != '/' {
        if k < |stem| { assert b[k] == stem[k]; } else { assert b[k] == parts.2[k - |stem|]; }
      }
    }
    SplitJoinRoundTrip(parts.0, b);
    SourceFinalComponent(mov);
  }

  /** How two sample sources are taken apart. */
  lemma SourcePartsExample()
    ensures SourceParts("clip.mp4") == ("", "clip", ".mp4")
    ensures SourceParts("media/clip.mp4") == ("media", "clip", ".mp4")
  {
    SplitExtExample();
    SplitExample();
  }

  lemma SplitExtExample()
    ensures SplitExt("clip.mp4") == ("clip", ".mp4")
    ensures SplitExt("media/clip.mp4") == ("media/clip", ".mp4")
  {
    var a := "clip.mp4";
    LastIndexIs(a, '/', -1);
    LastIndexIs(a, '.', 4);
    assert a[0] != '.' && HasNonDot(a, 0, 4);
    assert a[..4] == "clip" && a[4..] == ".mp4";
    var b := "media/clip.mp4";
    LastIndexIs(b, '/', 5);
    LastIndexIs(b, '.', 10);
    assert b[6] != '.' && HasNonDot(b, 6, 10);
    assert b[..10] == "media/clip" && b[10..] == ".mp4";
  }

  lemma SplitExample()
    ensures Split("clip") == ("", "clip")
    ensures Split("media/clip") == ("media", "clip")
  {
    LastIndexIs("clip", '/', -1);
    var b := "media/clip";
    LastIndexIs(b, '/', 5);
    assert b[..6] == "media/" && b[6..] == "clip";
    assert !AllSlashes("media/") by { assert "media/"[0] != '/'; }
    assert "media/"[..5] == "media";
    assert RStripSlashes("media/") == "media";
  }
}
