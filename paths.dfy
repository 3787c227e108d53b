/**
  `os.path.splitext` on POSIX paths, by its documented rule: the extension is
  the part of the final path component from its last '.', provided something
  other than dots comes before that '.' in the component (a leading run of
  dots, as in ".bashrc", does not start an extension). Otherwise the
  extension is empty and the whole path is the root.
 */
module Paths {
  import opened Strings

  const Sep: char := '/'
  const ExtSep: char := '.'

  /** A valid extension: empty, or one '.' followed by neither '.' nor '/'. */
  predicate IsExtension(ext: string) {
    ext == [] || (ext[0] == ExtSep && forall i :: 0 <= i < |ext| ==> ext[i] != Sep && (i > 0 ==> ext[i] != ExtSep))
  }

  /** The final path component: everything after the last '/'. */
  function BaseName(p: string): string {
    p[LastIndexOf(p, Sep) + 1..]
  }

  /** Some character of `s` is not a '.': skipping the dots from the start
      stops before the end. */
  predicate HasNonDot(s: string) {
    SkipDots(s, 0, |s|) < |s|
  }

  /** The loop of `splitext` that skips leading dots: the first index from
      `lo` on, below `hi`, that holds no '.', or `hi` when there is none. */
  function SkipDots(p: string, lo: nat, hi: nat): (r: nat)
    requires lo <= hi <= |p|
    ensures lo <= r <= hi
    ensures r < hi ==> p[r] != ExtSep
    ensures forall j :: lo <= j < r ==> p[j] == ExtSep
    decreases hi - lo
  {
    if lo == hi || p[lo] != ExtSep then lo else SkipDots(p, lo + 1, hi)
  }

  /** The ensures of SkipDots determine its result. */
  lemma {:induction false} SkipDotsUnique(p: string, lo: nat, hi: nat, k: nat)
    requires lo <= k <= hi <= |p|
    requires forall j :: lo <= j < k ==> p[j] == ExtSep
    requires k < hi ==> p[k] != ExtSep
    ensures SkipDots(p, lo, hi) == k
    decreases hi - lo
  {
    if lo < k {
      SkipDotsUnique(p, lo + 1, hi, k);
    }
  }

  /** HasNonDot means what its name says. */
  lemma HasNonDotMeans(s: string)
    ensures HasNonDot(s) <==> exists i :: 0 <= i < |s| && s[i] != ExtSep
  {
  }

  /** `os.path.splitext(p)`, as the pair (root, ext): split at the last '.'
      when it lies in the final component and something other than dots
      comes before it there. SplitExtSound states what the pair satisfies. */
  function SplitExt(p: string): (string, string) {
    var sepIndex := LastIndexOf(p, Sep);
    var dotIndex := LastIndexOf(p, ExtSep);
    if dotIndex > sepIndex && SkipDots(p, sepIndex + 1, dotIndex) < dotIndex then
      (p[..dotIndex], p[dotIndex..])
    else
      (p, [])
  }

  /** The root and the extension put back together give the path; the
      extension is empty or a valid one; and when it is not empty the root's
      final component holds a character other than '.'. */
  lemma SplitExtSound(p: string)
    ensures SplitExt(p).0 + SplitExt(p).1 == p
    ensures IsExtension(SplitExt(p).1)
    ensures SplitExt(p).1 != [] ==> HasNonDot(BaseName(SplitExt(p).0))
  {
    var sepIndex := LastIndexOf(p, Sep);
    var dotIndex := LastIndexOf(p, ExtSep);
    if dotIndex > sepIndex && SkipDots(p, sepIndex + 1, dotIndex) < dotIndex {
      assert SplitExt(p) == (p[..dotIndex], p[dotIndex..]);
      ExtensionAtLastDot(p, dotIndex);
      RootKeepsName(p, sepIndex, dotIndex);
      assert p[..dotIndex] + p[dotIndex..] == p;
    } else {
      assert SplitExt(p) == (p, []);
      assert p + [] == p;
    }
  }

  /** From the last '.' of a path whose last '/' is before it, the rest is a
      valid extension. */
  lemma ExtensionAtLastDot(p: string, dotIndex: int)
    requires dotIndex == LastIndexOf(p, ExtSep) && LastIndexOf(p, Sep) < dotIndex
    ensures IsExtension(p[dotIndex..])
  {
    var ext := p[dotIndex..];
    forall i | 0 <= i < |ext|
      ensures ext[i] != Sep && (i > 0 ==> ext[i] != ExtSep)
    {
      assert ext[i] == p[dotIndex + i];
    }
  }

  /** Cutting the path at a '.' after its last '/' leaves the part of the
      final component before the '.' as the root's final component. */
  lemma RootKeepsName(p: string, sepIndex: int, dotIndex: nat)
    requires sepIndex == LastIndexOf(p, Sep) && sepIndex < dotIndex <= |p|
    requires SkipDots(p, sepIndex + 1, dotIndex) < dotIndex
    ensures HasNonDot(BaseName(p[..dotIndex]))
  {
    LastIndexOfPrefix(p, Sep, dotIndex);
    assert BaseName(p[..dotIndex]) == p[sepIndex + 1..dotIndex];
    SkipDotsSlice(p, sepIndex + 1, dotIndex);
  }

  /** Skipping dots in a slice is skipping them in the whole string. */
  lemma SkipDotsSlice(p: string, lo: nat, hi: nat)
    requires lo <= hi <= |p|
    ensures SkipDots(p[lo..hi], 0, hi - lo) == SkipDots(p, lo, hi) - lo
  {
    var b := p[lo..hi];
    var k := SkipDots(p, lo, hi) - lo;
    forall j | 0 <= j < hi - lo
      ensures b[j] == p[lo + j]
    {
    }
    SkipDotsUnique(b, 0, hi - lo, k);
  }

  /** Soundness and completeness together: whenever `p` splits into a root
      whose final component holds a non-dot character and a non-empty
      extension, that split is the one SplitExt returns. */
  lemma SplitExtFindsExtension(root: string, ext: string)
    requires ext != [] && IsExtension(ext)
    requires HasNonDot(BaseName(root))
    ensures SplitExt(root + ext) == (root, ext)
  {
    var p := root + ext;
    LastSepOfConcat(root, ext);
    LastDotOfConcat(root, ext);
    var front := p[LastIndexOf(root, Sep) + 1..|root|];
    assert front == BaseName(root);
    assert p[..|root|] == root && p[|root|..] == ext;
  }

  lemma LastSepOfConcat(root: string, ext: string)
    requires IsExtension(ext)
    ensures LastIndexOf(root + ext, Sep) == LastIndexOf(root, Sep)
  {
    var p := root + ext;
    var k := LastIndexOf(root, Sep);
    forall j | k < j < |p|
      ensures p[j] != Sep
    {
      if j < |root| {
        assert p[j] == root[j];
      } else {
        assert p[j] == ext[j - |root|];
      }
    }
    LastIndexOfUnique(p, Sep, k);
  }

  lemma LastDotOfConcat(root: string, ext: string)
    requires ext != [] && IsExtension(ext)
    ensures LastIndexOf(root + ext, ExtSep) == |root|
  {
    var p := root + ext;
    forall j | |root| < j < |p|
      ensures p[j] != ExtSep
    {
      assert p[j] == ext[j - |root|];
    }
    LastIndexOfUnique(p, ExtSep, |root|);
  }

  /** The other half: without such a split, the extension is empty. The final
      component either holds no '.', or only dots come before its last '.'. */
  lemma SplitExtNone(p: string)
    requires forall k :: 0 <= k < |BaseName(p)| && BaseName(p)[k] == ExtSep ==>
               forall j :: 0 <= j < k ==> BaseName(p)[j] == ExtSep
    ensures SplitExt(p) == (p, [])
  {
    var sepIndex := LastIndexOf(p, Sep);
    var dotIndex := LastIndexOf(p, ExtSep);
    var b := BaseName(p);
    if dotIndex > sepIndex {
      var k := dotIndex - sepIndex - 1;
      assert b[k] == ExtSep;
      var front := p[sepIndex + 1..dotIndex];
      assert forall i :: 0 <= i < |front| ==> front[i] == b[i];
      assert forall j :: 0 <= j < k ==> b[j] == ExtSep;
      assert !HasNonDot(front);
    }
  }

  /** A path without '/' is its own final component. */
  lemma BaseNameNoSep(p: string)
    requires Sep !in p
    ensures BaseName(p) == p
  {
    LastIndexOfUnique(p, Sep, -1);
  }

  /** A file name (no '/') not starting with '.' splits at its last '.'. */
  lemma SplitExtOfName(p: string, name: string, ext: string)
    requires p == name + ext
    requires Sep !in name && name != [] && name[0] != ExtSep
    requires ext != [] && IsExtension(ext)
    ensures SplitExt(p) == (name, ext)
  {
    BaseNameNoSep(name);
    SplitExtFindsExtension(name, ext);
  }

  // Examples, one per lemma: two applications of SplitExt to literals in
  // one proof make the solver unfold both far more than needed.

  lemma SplitExtLastDot()
    ensures SplitExt("archive.tar.gz") == ("archive.tar", ".gz")
  {
    SplitExtOfName("archive.tar.gz", "archive.tar", ".gz");
  }

  lemma SplitExtTrailingDot()
    ensures SplitExt("archive.") == ("archive", ".")
  {
    SplitExtOfName("archive.", "archive", ".");
  }

  lemma SplitExtLeadingDot()
    ensures SplitExt(".bashrc") == (".bashrc", "")
  {
    LastIndexOfUnique(".bashrc", Sep, -1);
    LastIndexOfUnique(".bashrc", ExtSep, 0);
  }

  lemma SplitExtLeadingDots()
    ensures SplitExt("..notes") == ("..notes", "")
  {
    LastIndexOfUnique("..notes", Sep, -1);
    LastIndexOfUnique("..notes", ExtSep, 1);
    assert "..notes"[0..1] == ".";
  }

  lemma SplitExtNoDot()
    ensures SplitExt("README") == ("README", "")
  {
    LastIndexOfUnique("README", Sep, -1);
    LastIndexOfUnique("README", ExtSep, -1);
  }
}
