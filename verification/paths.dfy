/** The two POSIX path operations the converter uses: `os.path.join` with two
    arguments and `os.path.splitext`. */
module Paths {
  import opened Text

  /** The path separator. */
  const Sep: char := '/'

  /** The extension separator. */
  const ExtSep: char := '.'

  /** `posixpath.join(a, b)`: an absolute `b` replaces `a`; otherwise `b` is
      appended to `a`, with one separator in between unless `a` is empty or
      already ends with one. */
  function Join(a: Str, b: Str): (r: Str)
    ensures EndsWith(r, b)
    ensures |b| > 0 && b[0] == Sep ==> r == b
    ensures !(|b| > 0 && b[0] == Sep) ==>
              && |a| + |b| <= |r| <= |a| + |b| + 1
              && r[..|a|] == a
              && (|r| == |a| + |b| + 1 <==> |a| > 0 && a[|a| - 1] != Sep)
              && (|r| == |a| + |b| + 1 ==> r[|a|] == Sep)
  {
    if |b| > 0 && b[0] == Sep then b
    else if |a| == 0 || a[|a| - 1] == Sep then a + b
    else a + [Sep] + b
  }

  /** Every position of `p` in `[lo, hi)` holds a dot. */
  predicate OnlyDots(p: Str, lo: int, hi: int)
    requires 0 <= lo <= hi <= |p|
  {
    forall k :: lo <= k < hi ==> p[k] == ExtSep
  }

  /** `posixpath.splitext(p)`: the extension is the text from the last dot of
      the last path component, provided something other than a dot precedes
      that dot within the component; otherwise the extension is empty. So
      `a.b.png` splits as (`a.b`, `.png`) and `.png` or `..png` as (whole, ``). */
  function SplitExt(p: Str): (r: (Str, Str))
    ensures r.0 + r.1 == p
    ensures r.1 != [] ==>
              && r.1[0] == ExtSep
              && forall k :: 0 < k < |r.1| ==> r.1[k] != ExtSep && r.1[k] != Sep
    ensures r.1 != [] ==> exists k :: LastIndexOf(p, Sep) < k < |r.0| && p[k] != ExtSep
    ensures r.1 == [] ==>
              forall d :: LastIndexOf(p, Sep) < d < |p| && p[d] == ExtSep ==>
                OnlyDots(p, LastIndexOf(p, Sep) + 1, d)
  {
    var sepIndex := LastIndexOf(p, Sep);
    var dotIndex := LastIndexOf(p, ExtSep);
    if dotIndex > sepIndex && !OnlyDots(p, sepIndex + 1, dotIndex) then
      (p[..dotIndex], p[dotIndex..])
    else
      (p, [])
  }

  /** The first half of `splitext`: the path without its final extension. */
  function Stem(p: Str): Str {
    SplitExt(p).0
  }
}
