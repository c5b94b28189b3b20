/** POSIX `os.path.splitext`: a path splits into a root and an extension.
    The separator is `/`, there is no alternative separator and the
    extension separator is `.`. */
module PosixPath {
  import opened PyText

  /** Some character of `p[lo..hi]` is not a dot. */
  predicate HasNonDot(p: string, lo: int, hi: int)
    requires 0 <= lo && hi <= |p|
  {
    exists k :: lo <= k < hi && p[k] != '.'
  }

  /** `d` is the dot at which the extension of `p` starts: it is the last dot,
      no separator follows it, and some non-dot character precedes it in the
      same path component, so that it is not the leading dot of a hidden file
      such as `.bashrc`. */
  ghost predicate ExtensionDot(p: string, d: int) {
    && 0 <= d < |p|
    && p[d] == '.'
    && (forall k :: d < k < |p| ==> p[k] != '.' && p[k] != '/')
    && (exists k :: 0 <= k < d && p[k] != '.' && forall j :: k <= j < d ==> p[j] != '/')
  }

  /** `os.path.splitext(p)` on POSIX: `(root, ext)` with `root + ext == p`;
      `ext` is empty, or it is a dot followed by neither dot nor separator. */
  function SplitExt(p: string): (r: (string, string))
    ensures r.0 + r.1 == p
    ensures r.1 == [] || (r.1[0] == '.' && '.' !in r.1[1..] && '/' !in r.1[1..])
  {
    var sepIndex := RFind(p, '/');
    var dotIndex := RFind(p, '.');
    if dotIndex > sepIndex && HasNonDot(p, sepIndex + 1, dotIndex) then
      assert p[..dotIndex] + p[dotIndex..] == p;
      (p[..dotIndex], p[dotIndex..])
    else
      (p, [])
  }

  /** The extension is non-empty exactly when `p` has an extension dot, and
      then it is the suffix of `p` that starts at that dot. */
  lemma SplitExtCharacterized(p: string)
    ensures SplitExt(p).1 != [] <==> exists d :: ExtensionDot(p, d)
    ensures forall d :: ExtensionDot(p, d) ==> SplitExt(p) == (p[..d], p[d..])
  {
    var sepIndex := RFind(p, '/');
    var dotIndex := RFind(p, '.');
    forall d | ExtensionDot(p, d)
      ensures SplitExt(p) == (p[..d], p[d..])
    {
      assert dotIndex == d;
      assert sepIndex < d;
      var k :| 0 <= k < d && p[k] != '.' && forall j :: k <= j < d ==> p[j] != '/';
      assert !(k <= sepIndex < d);
      assert HasNonDot(p, sepIndex + 1, dotIndex);
    }
    if SplitExt(p).1 != [] {
      assert dotIndex > sepIndex && HasNonDot(p, sepIndex + 1, dotIndex);
      var k :| sepIndex + 1 <= k < dotIndex && p[k] != '.';
      assert ExtensionDot(p, dotIndex);
    }
  }

  /** A non-empty extension starts at the last dot of the path. */
  lemma ExtensionAtLastDot(p: string)
    requires SplitExt(p).1 != []
    ensures 0 <= RFind(p, '.') && SplitExt(p).1 == p[RFind(p, '.')..]
  {
  }

  /** The scan `os.path.splitext` performs: find the last separator and the
      last dot, then skip the leading dots of the base name; the first
      non-dot character before the last dot makes that dot start the
      extension. */
  method ScanSplitExt(p: string) returns (root: string, ext: string)
    ensures (root, ext) == SplitExt(p)
  {
    var sepIndex := RFind(p, '/');
    var dotIndex := RFind(p, '.');
    if dotIndex > sepIndex {
      var filenameIndex := sepIndex + 1;
      while filenameIndex < dotIndex
        invariant sepIndex + 1 <= filenameIndex <= dotIndex
        invariant forall k :: sepIndex + 1 <= k < filenameIndex ==> p[k] == '.'
      {
        if p[filenameIndex] != '.' {
          return p[..dotIndex], p[dotIndex..];
        }
        filenameIndex := filenameIndex + 1;
      }
    }
    return p, [];
  }
}
