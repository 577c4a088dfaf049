/** Go's `filepath.Ext` on a Unix system, where '/' is the only path
    separator: the suffix of a path that starts at the last '.' of its final
    element, or "" when that element has no '.'. */
module FilePath {
  import opened Strs

  const Separator: char := '/'

  /** The backwards scan of `filepath.Ext`, positioned at index `i`: walk
      towards the front until a '.' (the extension starts there) or a
      separator or the front of the path (no extension). */
  function ExtScan(path: string, i: int): (e: string)
    requires -1 <= i < |path|
    ensures HasSuffix(path, e)
    ensures e != [] ==> |path| - |e| <= i && e[0] == '.'
    decreases i + 1
  {
    if i < 0 then []
    else if path[i] == Separator then []
    else if path[i] == '.' then path[i..]
    else ExtScan(path, i - 1)
  }

  /** What the scan passed over: no '.' or separator between the extension's
      dot and `i`, and, when it found no extension, a separator after every
      '.' it saw. */
  lemma {:induction false} ExtScanShape(path: string, i: int)
    requires -1 <= i < |path|
    ensures var e := ExtScan(path, i);
            e != [] ==> forall j :: |path| - |e| < j <= i ==> path[j] != '.' && path[j] != Separator
    ensures ExtScan(path, i) == [] ==> forall j :: 0 <= j <= i && path[j] == '.' ==> Separator in path[j..i + 1]
    decreases i + 1
  {
    if i >= 0 {
      if path[i] == Separator {
        forall j | 0 <= j <= i && path[j] == '.'
          ensures Separator in path[j..i + 1]
        {
          assert path[j..i + 1][i - j] == Separator;
        }
      } else if path[i] != '.' {
        ExtScanShape(path, i - 1);
        assert forall j :: 0 <= j < i ==> path[j..i] <= path[j..i + 1];
      }
    }
  }

  /** filepath.Ext. Its full characterisation is `ExtShape`. */
  function Ext(path: string): (e: string)
    ensures HasSuffix(path, e)
    ensures e != [] ==> e[0] == '.'
  {
    ExtScan(path, |path| - 1)
  }

  /** The extension is the part of the final path element from its last
      '.': it holds no further '.' and no separator, and it is empty only
      when every '.' of the path is followed by a separator. */
  lemma ExtShape(path: string)
    ensures forall j :: 1 <= j < |Ext(path)| ==> Ext(path)[j] != '.'
    ensures forall j :: 0 <= j < |Ext(path)| ==> Ext(path)[j] != Separator
    ensures Ext(path) == [] ==> forall j :: 0 <= j < |path| && path[j] == '.' ==> Separator in path[j..]
  {
    var e := ExtScan(path, |path| - 1);
    ExtScanShape(path, |path| - 1);
    assert forall j :: 0 <= j < |e| ==> e[j] == path[|path| - |e| + j];
    assert path[..|path|] == path;
  }

  /** Appending a well-formed extension (a '.' followed by neither '.' nor a
      separator) to any path makes exactly that the path's extension. */
  lemma ExtOfAppended(base: string, x: string)
    requires |x| >= 1 && x[0] == '.'
    requires forall j :: 1 <= j < |x| ==> x[j] != '.' && x[j] != Separator
    ensures Ext(base + x) == x
  {
    var path := base + x;
    var e := Ext(path);
    ExtShape(path);
    assert path[|base|..] == x;
    assert forall j :: 0 <= j < |x| ==> path[|base| + j] == x[j];
    assert forall j :: 0 <= j < |e| ==> e[j] == path[|path| - |e| + j];
    if e == [] {
      assert false;
    }
    if |e| < |x| {
      assert false;
    }
    if |e| > |x| {
      assert false;
    }
    assert e == path[|path| - |x|..] == x;
  }

  /** A path with no '.' anywhere has no extension. */
  lemma ExtWithoutDot(path: string)
    requires '.' !in path
    ensures Ext(path) == ""
  {
    var e := Ext(path);
    ExtShape(path);
    if e != [] {
      assert false;
    }
  }

  /** In a path without separators the extension starts at the last '.'. */
  lemma ExtStartsAtLastDot(path: string, k: int)
    requires Separator !in path
    requires 0 <= k < |path| && path[k] == '.'
    requires forall j :: k < j < |path| ==> path[j] != '.'
    ensures Ext(path) == path[k..]
  {
    ExtOfAppended(path[..k], path[k..]);
    assert path[..k] + path[k..] == path;
  }
}
