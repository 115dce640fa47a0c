/**
 `os.path.splitext` on POSIX paths: the extension is the part from the last
 `.` of the last path component on, unless everything before that dot in the
 component is dots (a hidden file such as `.bashrc` has no extension).
 */
module Paths {
  import opened Text

  /** Some character of `s` is not a dot. */
  predicate HasNonDot(s: string)
  {
    exists k :: 0 <= k < |s| && s[k] != '.'
  }

  /** `os.path.splitext(p)`: the pair (root, extension). */
  function SplitExt(p: string): (parts: (string, string))
    ensures parts.0 + parts.1 == p
    ensures parts.1 == [] || (parts.1[0] == '.' && '.' !in parts.1[1..] && '/' !in parts.1)
  {
    var sepIndex := LastIndexOf(p, '/');
    var dotIndex := LastIndexOf(p, '.');
    if dotIndex > sepIndex && HasNonDot(p[sepIndex + 1..dotIndex]) then
      ExtensionShape(p);
      (p[..dotIndex], p[dotIndex..])
    else
      (p, [])
  }

  /** The text from the last dot on, when no `/` follows that dot, is a dot and a dot-free, slash-free rest. */
  lemma ExtensionShape(p: string)
    requires LastIndexOf(p, '.') > LastIndexOf(p, '/')
    ensures var ext := p[LastIndexOf(p, '.')..];
      ext[0] == '.' && '.' !in ext[1..] && '/' !in ext
  {
    var sepIndex := LastIndexOf(p, '/');
    var dotIndex := LastIndexOf(p, '.');
    var ext := p[dotIndex..];
    assert p[dotIndex] == '.' && '.' !in p[dotIndex + 1..];
    assert ext[0] == '.';
    assert ext[1..] == p[dotIndex + 1..];
    if sepIndex >= 0 {
      var tail := p[sepIndex + 1..];
      assert '/' !in tail;
      assert ext == tail[dotIndex - sepIndex - 1..];
    } else {
      assert '/' !in p;
      assert forall k :: 0 <= k < |ext| ==> ext[k] == p[dotIndex + k];
    }
  }

  /** `os.path.splitext(p)[0]`: a prefix of the path, all of it when there is no dot. */
  function Root(p: string): (root: string)
    ensures |root| <= |p| && p[..|root|] == root
    ensures '.' !in p ==> root == p
  {
    SplitExt(p).0
  }

  /**
   A file name without `/` and with some non-dot character, followed by `.`
   and a dot-free suffix, loses exactly that suffix: `MAPS_x_AkPnBcht.wav`
   has root `MAPS_x_AkPnBcht`.
   */
  lemma RootOfFileName(name: string, ext: string)
    requires '.' !in ext && '/' !in ext
    ensures '/' !in name && HasNonDot(name) ==>
      SplitExt(name + ['.'] + ext) == (name, ['.'] + ext) && Root(name + "." + ext) == name
  {
    if '/' !in name && HasNonDot(name) {
      var p := name + ['.'] + ext;
      var dotIndex := LastIndexOf(p, '.');
      assert p[|name|] == '.' && p[|name| + 1..] == ext;
      assert dotIndex == |name|;
      assert '/' !in p;
      assert LastIndexOf(p, '/') == -1;
      assert p[0..dotIndex] == name;
      assert p[..dotIndex] == name && p[dotIndex..] == ['.'] + ext;
      assert name + "." + ext == p;
    }
  }

  /** A name made of leading dots and a dot-free rest has no extension. */
  lemma HiddenFileHasNoExtension(dots: string, rest: string)
    requires forall k :: 0 <= k < |dots| ==> dots[k] == '.'
    requires '.' !in rest && '/' !in rest && '/' !in dots
    ensures SplitExt(dots + rest) == (dots + rest, [])
  {
    var p := dots + rest;
    assert '/' !in p;
    var dotIndex := LastIndexOf(p, '.');
    assert forall k :: |dots| <= k < |p| ==> p[k] == rest[k - |dots|];
    if dotIndex >= 0 {
      assert !HasNonDot(p[0..dotIndex]);
    }
  }
}
