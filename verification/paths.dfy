/** Node's POSIX `path` helpers as the upload code uses them: `basename`, `extname`
    and the `name` part of `parse`. */
module Paths {
  import opened Wrappers
  import Text

  /** The characters after the last `/` (all of `p` when it has none). */
  function LastSegment(p: string): (r: string)
    ensures |r| <= |p|
  {
    if |p| == 0 || p[|p| - 1] == '/' then "" else LastSegment(p[..|p| - 1]) + [p[|p| - 1]]
  }

  /** The last segment is a suffix without `/`, preceded by `/` unless it is all of `p`. */
  lemma {:induction false} LastSegmentSpec(p: string)
    ensures var r := LastSegment(p);
      && r == p[|p| - |r|..]
      && '/' !in r
      && (|r| < |p| ==> p[|p| - |r| - 1] == '/')
  {
    if |p| > 0 && p[|p| - 1] != '/' {
      var q := p[..|p| - 1];
      LastSegmentSpec(q);
      var r := LastSegment(p);
      var rq := LastSegment(q);
      assert r == rq + [p[|p| - 1]];
      assert q[|q| - |rq|..] + [p[|p| - 1]] == p[|p| - |r|..];
    }
  }

  /** `path.basename(p)`: the last path segment, trailing slashes ignored. */
  function Basename(p: string): string
  {
    LastSegment(Text.TrimEnd(p, '/'))
  }

  lemma BasenameHasNoSlash(p: string)
    ensures '/' !in Basename(p)
  {
    LastSegmentSpec(Text.TrimEnd(p, '/'));
  }

  /** The index of the last `.` in `s`. */
  function LastDot(s: string): (r: Option<nat>)
    ensures r.Some? ==> r.value < |s|
  {
    if |s| == 0 then None
    else if s[|s| - 1] == '.' then Some(|s| - 1)
    else LastDot(s[..|s| - 1])
  }

  lemma {:induction false} LastDotSpec(s: string)
    ensures var r := LastDot(s);
      && (r.Some? ==> s[r.value] == '.' && forall i | r.value < i < |s| :: s[i] != '.')
      && (r.None? ==> '.' !in s)
  {
    if |s| > 0 && s[|s| - 1] != '.' {
      var q := s[..|s| - 1];
      LastDotSpec(q);
      assert forall c | c in s :: c in q || c == s[|s| - 1];
    }
  }

  /** `path.extname` on a base name: from the last `.` to the end, except that a
      leading dot (".bashrc") and the name ".." carry no extension. */
  function Extname(base: string): (r: string)
    ensures |r| <= |base|
  {
    match LastDot(base)
    case None => ""
    case Some(k) => if k == 0 || base == ".." then "" else base[k..]
  }

  /** The extension is empty or a final `.segment` of the name with no other dot; it
      is empty exactly when the name has no dot, only a leading one, or is "..". */
  lemma ExtnameSpec(base: string)
    ensures var r := Extname(base);
      && r == base[|base| - |r|..]
      && (r == "" || (r[0] == '.' && forall i | 1 <= i < |r| :: r[i] != '.'))
      && (r == "" <==> (LastDot(base).None? || LastDot(base) == Some(0) || base == ".."))
  {
    LastDotSpec(base);
    var r := Extname(base);
    if r != "" {
      var k := LastDot(base).value;
      assert r == base[k..];
      forall i | 1 <= i < |r| ensures r[i] != '.' {
        assert r[i] == base[k + i];
      }
    }
  }

  /** `path.parse(p).name`: the base name without its extension. */
  function ParseName(p: string): (r: string)
    ensures r + Extname(Basename(p)) == Basename(p)
  {
    var b := Basename(p);
    var e := Extname(b);
    ExtnameSpec(b);
    PrefixSuffix(b, |b| - |e|);
    b[..|b| - |e|]
  }

  lemma PrefixSuffix(s: string, k: nat)
    requires k <= |s|
    ensures s[..k] + s[k..] == s
  {
  }

  /** `path.extname(p)` on a whole path. */
  function ExtnameOf(p: string): string
  {
    Extname(Basename(p))
  }

  lemma {:induction false} LastDotAppend(s: string, t: string)
    ensures LastDot(t).Some? ==> LastDot(s + t) == Some(|s| + LastDot(t).value)
    ensures LastDot(t).None? ==> LastDot(s + t) == LastDot(s)
    decreases |t|
  {
    if |t| == 0 {
      assert s + t == s;
    } else {
      assert (s + t)[..|s + t| - 1] == s + t[..|t| - 1];
      LastDotAppend(s, t[..|t| - 1]);
    }
  }

  /** Appending an extension to a dot-free stem of at least two characters gives a
      name whose extension is exactly that one and whose stem is the prefix. */
  lemma ExtnameOfStem(stem: string, ext: string)
    requires |stem| >= 2 && '.' !in stem
    requires ext == "" || (ext[0] == '.' && forall i | 1 <= i < |ext| :: ext[i] != '.')
    ensures Extname(stem + ext) == ext
  {
    LastDotAppend(stem, ext);
    LastDotSpec(stem);
    if ext != "" {
      assert LastDot(ext) == Some(0) by {
        LastDotSpec(ext[1..]);
        assert forall c | c in ext[1..] :: c != '.';
        LastDotAppend([ext[0]], ext[1..]);
        assert [ext[0]] + ext[1..] == ext;
      }
      assert (stem + ext)[0] == stem[0];
    } else {
      LastDotSpec(stem + ext);
    }
  }

  /** A name without `/` is its own base name. */
  lemma {:induction false} BasenameOfPlainName(f: string)
    requires '/' !in f
    ensures Basename(f) == f
  {
    LastSegmentPlain(f);
  }

  lemma {:induction false} LastSegmentPlain(f: string)
    requires '/' !in f
    ensures LastSegment(f) == f
  {
    if |f| > 0 {
      LastSegmentPlain(f[..|f| - 1]);
    }
  }

  /** The base name of `dir + "/" + f` is `f` for a non-empty file name `f`: a URL
      built from a stored file name leads back to it. */
  lemma {:induction false} BasenameUnderDir(dir: string, f: string)
    requires '/' !in f && f != ""
    ensures Basename(dir + "/" + f) == f
  {
    var p := dir + "/" + f;
    assert Text.TrimEnd(p, '/') == p by {
      assert p[|p| - 1] == f[|f| - 1];
    }
    LastSegmentUnder(dir + "/", f);
  }

  lemma {:induction false} LastSegmentUnder(d: string, f: string)
    requires |d| > 0 && d[|d| - 1] == '/' && '/' !in f
    ensures LastSegment(d + f) == f
    decreases |f|
  {
    if |f| == 0 {
      assert d + f == d;
    } else {
      assert (d + f)[..|d + f| - 1] == d + f[..|f| - 1];
      LastSegmentUnder(d, f[..|f| - 1]);
    }
  }
}
