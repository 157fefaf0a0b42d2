/**
  `os.path.splitext` on a POSIX system: the extension is the part from the
  last '.' of the last path component on, unless that component is only
  dots before that '.' (so ".bashrc" has no extension).
 */
module PosixPath {
  import opened Strings

  const Sep := '/'
  const ExtSep := '.'

  predicate AllDots(s: string) {
    forall k :: 0 <= k < |s| ==> s[k] == ExtSep
  }

  /** What `splitext` can return as an extension: empty, or '.' and then no '.' or '/'. */
  predicate IsExtension(ext: string) {
    ext == [] || (ext[0] == ExtSep && forall k :: 1 <= k < |ext| ==> ext[k] != ExtSep && ext[k] != Sep)
  }

  /** `os.path.splitext(p)`, returning `(root, ext)`. */
  function SplitExt(p: string): (r: (string, string))
    ensures r.0 + r.1 == p
    ensures IsExtension(r.1)
  {
    var sepIndex := RFind(p, Sep);
    var dotIndex := RFind(p, ExtSep);
    if dotIndex > sepIndex && !AllDots(p[sepIndex + 1..dotIndex]) then
      SplitAtLastDot(p, sepIndex, dotIndex);
      (p[..dotIndex], p[dotIndex..])
    else
      (p, [])
  }

  /** Cutting at the last '.', when no '/' follows it, leaves an extension on the right. */
  lemma SplitAtLastDot(p: string, sepIndex: int, dotIndex: int)
    requires sepIndex == RFind(p, Sep) && dotIndex == RFind(p, ExtSep)
    requires sepIndex < dotIndex
    ensures p[..dotIndex] + p[dotIndex..] == p
    ensures IsExtension(p[dotIndex..])
  {
    var ext := p[dotIndex..];
    forall k | 1 <= k < |ext| ensures ext[k] != ExtSep && ext[k] != Sep {
      assert ext[k] == p[dotIndex + k];
    }
  }

  /**
    Splitting a joined name gives back its parts, when the root is a plain
    file name and the extension is one `splitext` could have produced.
   */
  lemma SplitExtOfJoin(root: string, ext: string)
    requires Sep !in root
    requires IsExtension(ext)
    requires ext == [] ==> ExtSep !in root
    requires ext != [] ==> !AllDots(root)
    ensures SplitExt(root + ext) == (root, ext)
  {
    var p := root + ext;
    var sepIndex := RFind(p, Sep);
    var dotIndex := RFind(p, ExtSep);
    forall k | 0 <= k < |p| ensures p[k] != Sep {
      if k < |root| { assert p[k] == root[k]; } else { assert p[k] == ext[k - |root|]; }
    }
    assert sepIndex == -1;
    if ext == [] {
      assert p == root;
      assert dotIndex == -1;
      assert p == root;
    } else {
      assert p[|root|] == ExtSep;
      forall k | |root| < k < |p| ensures p[k] != ExtSep {
        assert p[k] == ext[k - |root|];
      }
      assert dotIndex == |root|;
      assert p[sepIndex + 1..dotIndex] == root;
      assert p[..dotIndex] == root && p[dotIndex..] == ext;
    }
  }

  /**
    The leading-period rule: a file name that is some dots (maybe none)
    followed by a dot-free tail, as ".DS_Store", "..x" or "README", has no
    extension. With `SplitExtOfJoin` this settles `splitext` on every name
    without a '/'.
   */
  lemma SplitExtNoExtension(dots: string, tail: string)
    requires AllDots(dots)
    requires ExtSep !in tail && Sep !in tail
    ensures SplitExt(dots + tail) == (dots + tail, [])
  {
    var p := dots + tail;
    forall k | 0 <= k < |p| ensures p[k] != Sep && (k >= |dots| ==> p[k] != ExtSep) {
      if k < |dots| {
        assert p[k] == dots[k];
      } else {
        assert p[k] == tail[k - |dots|];
        assert tail[k - |dots|] in tail;
      }
    }
    var sepIndex := RFind(p, Sep);
    var dotIndex := RFind(p, ExtSep);
    assert sepIndex == -1;
    if dots == [] {
      assert dotIndex == -1;
    } else {
      assert p[|dots| - 1] == ExtSep;
      assert dotIndex == |dots| - 1;
      assert p[sepIndex + 1..dotIndex] == dots[..|dots| - 1];
    }
  }
}
