/** The part of Node's `path` module (posix flavour) the system uses:
    `path.extname`. Trailing slashes are ignored, the base name is the text
    after the last remaining slash, and the extension is the text from the
    base name's last dot to its end, except that a base name whose only dot
    leads it (".profile") or that is exactly ".." has no extension. */
module NodePath {
  import opened Wrappers
  import opened Strings

  /** End of p[..k] once the trailing run of '/' is dropped. */
  function TrimSlashes(p: string, k: nat): (e: nat)
    requires k <= |p|
    ensures e <= k
    ensures forall i :: e <= i < k ==> p[i] == '/'
    ensures e == 0 || p[e - 1] != '/'
    decreases k
  {
    if k > 0 && p[k - 1] == '/' then TrimSlashes(p, k - 1) else k
  }

  /** Bounds [start, end) of the base name of `p`: the last segment between
      slashes once trailing slashes are ignored. */
  function BaseBounds(p: string): (b: (nat, nat))
    ensures b.0 <= b.1 <= |p|
    ensures forall i :: b.0 <= i < b.1 ==> p[i] != '/'
    ensures b.0 == 0 || p[b.0 - 1] == '/'
    ensures forall i :: b.1 <= i < |p| ==> p[i] == '/'
    ensures b.1 == 0 || p[b.1 - 1] != '/'
  {
    var end := TrimSlashes(p, |p|);
    var start := match LastIndexOf(p, '/', 0, end)
      case None => 0
      case Some(j) => j + 1;
    (start, end)
  }

  /** `path.basename(p)`. */
  function Basename(p: string): string
  {
    p[BaseBounds(p).0..BaseBounds(p).1]
  }

  /** `path.extname(p)`: the base name's suffix from its last dot, unless
      that dot is the base name's first character or the base name is "..". */
  function Extname(p: string): string
  {
    var (start, end) := BaseBounds(p);
    match LastIndexOf(p, '.', start, end)
    case None => ""
    case Some(d) =>
      if d == start || (d == start + 1 && d + 1 == end && p[start] == '.') then ""
      else p[d..end]
  }

  /** The extension is non-empty exactly when the base name has a dot after
      its first character and is not "..". */
  lemma ExtnameNonEmptyIff(p: string)
    ensures var b := Basename(p);
      Extname(p) != "" <==> (exists i :: 0 < i < |b| && b[i] == '.') && b != ".."
  {
    var (start, end) := BaseBounds(p);
    var b := p[start..end];
    assert b == Basename(p);
    match LastIndexOf(p, '.', start, end)
    case None =>
      assert forall i :: 0 < i < |b| ==> b[i] == p[start + i] != '.';
    case Some(d) =>
      if d == start {
        assert forall i :: 0 < i < |b| ==> b[i] == p[start + i] != '.';
      } else if d == start + 1 && d + 1 == end && p[start] == '.' {
        assert b == "..";
      } else {
        assert b[d - start] == p[d] == '.';
        assert b != "..";
      }
  }

  /** A non-empty extension starts with a dot and has no other dot. */
  lemma ExtnameShape(p: string)
    ensures var ext := Extname(p);
      ext != "" ==> ext[0] == '.' && forall i :: 1 <= i < |ext| ==> ext[i] != '.'
  {
    var (start, end) := BaseBounds(p);
    match LastIndexOf(p, '.', start, end)
    case None =>
    case Some(d) =>
      if !(d == start || (d == start + 1 && d + 1 == end && p[start] == '.')) {
        var ext := p[d..end];
        assert Extname(p) == ext;
        assert forall i :: 1 <= i < |ext| ==> ext[i] == p[d + i] && d < d + i < end;
      }
  }

  /** The extension ends the base name. */
  lemma ExtnameEndsBasename(p: string)
    ensures |Extname(p)| <= |Basename(p)| && Extname(p) == Basename(p)[|Basename(p)| - |Extname(p)|..]
  {
    var (start, end) := BaseBounds(p);
    var b := p[start..end];
    assert Basename(p) == b;
    match LastIndexOf(p, '.', start, end)
    case None =>
    case Some(d) =>
      if !(d == start || (d == start + 1 && d + 1 == end && p[start] == '.')) {
        assert Extname(p) == p[d..end];
        assert b[d - start..] == p[d..end];
      }
  }

  /** A name without slashes made of a non-empty stem, a dot and a dot-free
      suffix has that dot and suffix as its extension; ".." is the one such
      name that has none. */
  lemma ExtnameOfStemAndSuffix(stem: string, suffix: string)
    requires |stem| > 0
    requires forall i :: 0 <= i < |stem| ==> stem[i] != '/'
    requires forall i :: 0 <= i < |suffix| ==> suffix[i] != '/' && suffix[i] != '.'
    requires !(stem == "." && suffix == "")
    ensures Extname(stem + "." + suffix) == "." + suffix
  {
    var p := stem + "." + suffix;
    var n := |stem|;
    assert forall i :: 0 <= i < n ==> p[i] == stem[i];
    assert p[n] == '.';
    assert forall i :: n < i < |p| ==> p[i] == suffix[i - n - 1];
    assert forall i :: 0 <= i < |p| ==> p[i] != '/';
    assert TrimSlashes(p, |p|) == |p|;
    assert LastIndexOf(p, '/', 0, |p|).None?;
    assert BaseBounds(p) == (0, |p|);
    var d := LastIndexOf(p, '.', 0, |p|);
    assert d == Some(n);
    assert p[n..] == "." + suffix;
  }

  /** A name whose only dot is its first character has no extension. */
  lemma ExtnameOfDotFile(rest: string)
    requires forall i :: 0 <= i < |rest| ==> rest[i] != '/' && rest[i] != '.'
    ensures Extname("." + rest) == ""
  {
    var p := "." + rest;
    assert forall i :: 0 < i < |p| ==> p[i] == rest[i - 1];
    assert BaseBounds(p) == (0, |p|);
  }

  /** A name without a dot has no extension. */
  lemma ExtnameWithoutDot(p: string)
    requires forall i :: 0 <= i < |p| ==> p[i] != '.'
    ensures Extname(p) == ""
  {
  }

  /** Lower-casing leaves every slash and dot where it was. */
  lemma {:induction false} TrimSlashesLower(p: string, k: nat)
    requires k <= |p|
    ensures TrimSlashes(Lower(p), k) == TrimSlashes(p, k)
    decreases k
  {
    if k > 0 && p[k - 1] == '/' {
      TrimSlashesLower(p, k - 1);
    }
  }

  /** The extension of the lower-cased name is the lower-cased extension, so
      `path.extname(name).toLowerCase()` depends only on the lower-cased
      name. */
  lemma ExtnameLower(p: string)
    ensures Extname(Lower(p)) == Lower(Extname(p))
  {
    var q := Lower(p);
    TrimSlashesLower(p, |p|);
    var end := TrimSlashes(p, |p|);
    LastIndexOfLower(p, '/', 0, end);
    assert BaseBounds(q) == BaseBounds(p);
    var (start, e) := BaseBounds(p);
    LastIndexOfLower(p, '.', start, e);
    match LastIndexOf(p, '.', start, e)
    case None =>
    case Some(d) =>
      assert q[start] == '.' <==> p[start] == '.';
      LowerSlice(p, d, e);
  }
}
