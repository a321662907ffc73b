/** The part of Node's `path.posix` that the reference functions call:
    `normalize`, `join` of two paths, `dirname`, `resolve` of one path and
    `relative`. Paths are strings; a path is cut into segments at '/'. The
    working directory that `resolve` and `relative` consult is a parameter. */
module PosixPath {
  import opened Strings

  function Segments(p: string): (r: seq<string>)
    ensures |r| >= 1
  {
    SplitOn(p, '/')
  }

  function JoinSegments(segs: seq<string>): string
  {
    JoinWith(segs, '/')
  }

  /** A segment that normalisation keeps as it is. */
  predicate Plain(seg: string)
  {
    seg != "" && seg != "." && seg != ".." && '/' !in seg
  }

  predicate AllPlain(segs: seq<string>)
  {
    forall i :: 0 <= i < |segs| ==> Plain(segs[i])
  }

  /** One step of Node's `normalizeString`: empty and "." segments vanish,
      ".." removes the previous segment unless that is itself "..", and is
      kept (relative paths) or dropped (absolute paths) otherwise. */
  function Step(res: seq<string>, seg: string, allowAboveRoot: bool): seq<string>
  {
    if seg == "" || seg == "." then res
    else if seg == ".." then
      if |res| > 0 && res[|res| - 1] != ".." then res[..|res| - 1]
      else if allowAboveRoot then res + [".."]
      else res
    else res + [seg]
  }

  function Fold(res: seq<string>, segs: seq<string>, allowAboveRoot: bool): seq<string>
    decreases |segs|
  {
    if segs == [] then res
    else Fold(Step(res, segs[0], allowAboveRoot), segs[1..], allowAboveRoot)
  }

  /** `path.posix.normalize(p)`. */
  function Normalize(p: string): string
  {
    if p == [] then "."
    else
      var absolute := p[0] == '/';
      var trailing := p[|p| - 1] == '/';
      var body := JoinSegments(Fold([], Segments(p), !absolute));
      if body == [] then
        (if absolute then "/" else if trailing then "./" else ".")
      else
        (if absolute then "/" else "") + body + (if trailing then "/" else "")
  }

  /** `path.posix.join(a, b)`: empty arguments are skipped. */
  function Join2(a: string, b: string): string
  {
    if a == [] && b == [] then "."
    else if b == [] then Normalize(a)
    else if a == [] then Normalize(b)
    else Normalize(a + "/" + b)
  }

  /** Index of the separator that ends the directory part, scanning down from
      `i` to 1 and skipping trailing separators, or -1. */
  function DirEnd(p: string, i: int, matchedSlash: bool): (e: int)
    requires 0 <= i < |p|
    ensures -1 <= e <= i
    decreases i
  {
    if i < 1 then -1
    else if p[i] == '/' then (if matchedSlash then DirEnd(p, i - 1, true) else i)
    else DirEnd(p, i - 1, false)
  }

  /** `path.posix.dirname(p)`. */
  function Dirname(p: string): string
  {
    if p == [] then "."
    else
      var hasRoot := p[0] == '/';
      var end := DirEnd(p, |p| - 1, true);
      if end == -1 then (if hasRoot then "/" else ".")
      else if hasRoot && end == 1 then "//"
      else p[..end]
  }

  /** The segments of `path.posix.resolve(p)`, an absolute path: a relative
      `p` is taken relative to the working directory `cwd`. */
  function AbsoluteSegments(cwd: string, p: string): seq<string>
  {
    var base := if p != [] && p[0] == '/' then [] else Segments(cwd);
    Fold([], base + Segments(p), false)
  }

  function CommonPrefix(a: seq<string>, b: seq<string>): (c: nat)
    ensures c <= |a| && c <= |b| && a[..c] == b[..c]
    ensures c < |a| && c < |b| ==> a[c] != b[c]
  {
    if a == [] || b == [] || a[0] != b[0] then 0
    else
      var c' := CommonPrefix(a[1..], b[1..]);
      assert a[..c' + 1] == [a[0]] + a[1..][..c'];
      assert b[..c' + 1] == [b[0]] + b[1..][..c'];
      c' + 1
  }

  function Ups(k: nat): (r: seq<string>)
    ensures |r| == k && forall i :: 0 <= i < k ==> r[i] == ".."
  {
    seq(k, _ => "..")
  }

  /** `path.posix.relative(from, to)`: both are resolved against `cwd`; the
      result climbs out of what `from` does not share with `to` and descends
      into the rest of `to`. */
  function Relative(cwd: string, from: string, to: string): string
  {
    if from == to then ""
    else
      var f := AbsoluteSegments(cwd, from);
      var t := AbsoluteSegments(cwd, to);
      if f == t then ""
      else
        var c := CommonPrefix(f, t);
        JoinSegments(Ups(|f| - c) + t[c..])
  }

  // ---------------------------------------------------------------------
  // Facts about normalisation

  lemma {:induction false} FoldAppend(res: seq<string>, a: seq<string>, b: seq<string>, allow: bool)
    ensures Fold(res, a + b, allow) == Fold(Fold(res, a, allow), b, allow)
    decreases |a|
  {
    if a != [] {
      assert (a + b)[0] == a[0];
      assert (a + b)[1..] == a[1..] + b;
      FoldAppend(Step(res, a[0], allow), a[1..], b, allow);
    } else {
      assert a + b == b;
    }
  }

  /** Plain segments pass through normalisation unchanged. */
  lemma {:induction false} FoldPlain(res: seq<string>, segs: seq<string>, allow: bool)
    requires AllPlain(segs)
    ensures Fold(res, segs, allow) == res + segs
    decreases |segs|
  {
    if segs != [] {
      FoldPlain(res + [segs[0]], segs[1..], allow);
      assert res + [segs[0]] + segs[1..] == res + segs;
    }
  }

  /** `k` ".." segments remove the last `k` plain segments. */
  lemma {:induction false} FoldUps(res: seq<string>, k: nat, allow: bool)
    requires k <= |res|
    requires forall i :: |res| - k <= i < |res| ==> Plain(res[i])
    ensures Fold(res, Ups(k), allow) == res[..|res| - k]
    decreases k
  {
    if k > 0 {
      var res' := res[..|res| - 1];
      assert Step(res, "..", allow) == res';
      assert Ups(k)[1..] == Ups(k - 1);
      FoldUps(res', k - 1, allow);
      assert res'[..|res'| - (k - 1)] == res[..|res| - k];
    }
  }

  lemma {:induction false} CommonPrefixShared(c: seq<string>, x: seq<string>, y: seq<string>)
    ensures CommonPrefix(c + x, c + y) == |c| + CommonPrefix(x, y)
    decreases |c|
  {
    if c != [] {
      assert (c + x)[1..] == c[1..] + x;
      assert (c + y)[1..] == c[1..] + y;
      CommonPrefixShared(c[1..], x, y);
    } else {
      assert c + x == x && c + y == y;
    }
  }

  lemma {:induction false} DirEndScan(p: string, i: int)
    requires 0 <= i < |p|
    ensures var e := DirEnd(p, i, false);
      (e == -1 && forall j :: 1 <= j <= i ==> p[j] != '/') ||
      (1 <= e <= i && p[e] == '/' && forall j :: e < j <= i ==> p[j] != '/')
    decreases i
  {
    if i >= 1 && p[i] != '/' {
      DirEndScan(p, i - 1);
    }
  }

  // ---------------------------------------------------------------------
  // Document keys

  /** A normalised, project-relative document key: every segment is plain
      and free of '#', so the key neither starts nor ends with '/', has no
      "." or ".." segment and carries no fragment. */
  predicate IsKey(p: string)
  {
    var segs := Segments(p);
    forall i :: 0 <= i < |segs| ==> Plain(segs[i]) && '#' !in segs[i]
  }

  /** A normalised, project-relative path that may carry a fragment after
      the document's name, as `c.xml#topic/elem` does: every segment is
      plain and none starts with '#'. Every key is one. */
  predicate IsPath(p: string)
  {
    var segs := Segments(p);
    forall i :: 0 <= i < |segs| ==> Plain(segs[i]) && segs[i][0] != '#'
  }

  lemma KeyIsPath(p: string)
    requires IsKey(p)
    ensures IsPath(p)
  {
    var segs := Segments(p);
    forall i | 0 <= i < |segs|
      ensures segs[i][0] != '#'
    {
      assert segs[i][0] in segs[i];
    }
  }

  lemma PathShape(p: string)
    requires IsPath(p)
    ensures p != [] && p[0] != '/' && p[|p| - 1] != '/'
    ensures AllPlain(Segments(p))
  {
    var segs := Segments(p);
    assert Plain(segs[0]);
    if p != [] {
      SplitEnds(p, '/');
      assert Plain(segs[|segs| - 1]);
    }
  }

  lemma KeyShape(p: string)
    requires IsKey(p)
    ensures p != [] && p[0] != '/' && p[|p| - 1] != '/'
    ensures AllPlain(Segments(p))
  {
    KeyIsPath(p);
    PathShape(p);
  }

  /** The segments after the first one of a fragment `g` are fit for a path. */
  predicate FragmentTail(g: string)
  {
    var gs := Segments(g);
    forall i :: 1 <= i < |gs| ==> Plain(gs[i]) && gs[i][0] != '#'
  }

  /** The segments of `k#g`: the last segment of `k` runs into the first
      segment of `g`. */
  lemma FragmentSegments(k: string, g: string)
    ensures var ks, gs := Segments(k), Segments(g);
      Segments(k + "#" + g) == ks[..|ks| - 1] + [ks[|ks| - 1] + "#" + gs[0]] + gs[1..]
  {
    var ks, gs := Segments(k), Segments(g);
    assert k + "#" + g == k + ("#" + g);
    SplitConcat(k, "#" + g, '/');
    SplitCons('#', g, '/');
    assert ['#'] + g == "#" + g;
    assert ks[|ks| - 1] + ("#" + gs[0]) == ks[|ks| - 1] + "#" + gs[0];
  }

  /** A key followed by a fragment is a path exactly when the fragment's
      segments after the first are fit for one: `c.xml#topic/elem` is. */
  lemma KeyFragmentPath(k: string, g: string)
    requires IsKey(k)
    ensures IsPath(k + "#" + g) <==> FragmentTail(g)
  {
    var ks, gs := Segments(k), Segments(g);
    var n := |ks|;
    var segs := Segments(k + "#" + g);
    FragmentSegments(k, g);
    KeyIsPath(k);
    var m := ks[n - 1] + "#" + gs[0];
    assert segs[n - 1] == m;
    assert Plain(m) && m[0] != '#' by {
      assert Plain(ks[n - 1]) && '#' !in ks[n - 1];
      SplitPiecesAvoid(g, '/');
      assert '/' !in gs[0];
      assert m[|ks[n - 1]|] == '#';
      assert m[0] == ks[n - 1][0];
    }
    assert forall i :: 0 <= i < n - 1 ==> segs[i] == ks[i];
    assert forall i :: 1 <= i < |gs| ==> segs[n - 1 + i] == gs[i];
    if FragmentTail(g) {
      forall i | 0 <= i < |segs|
        ensures Plain(segs[i]) && segs[i][0] != '#'
      {
        if i >= n {
          assert segs[i] == gs[i - n + 1];
        }
      }
    }
  }

  /** A document key holds no '#'. */
  lemma KeyHasNoFragment(k: string)
    requires IsKey(k)
    ensures '#' !in k
  {
    JoinSplit(k, '/');
    JoinAvoids(Segments(k), '/', '#');
  }

  /** Normalising a key, or a key with a fragment, changes nothing. */
  lemma NormalizeKey(p: string)
    requires IsPath(p)
    ensures Normalize(p) == p
  {
    PathShape(p);
    FoldPlain([], Segments(p), true);
    assert [] + Segments(p) == Segments(p);
    JoinSplit(p, '/');
  }

  /** The directory of a key is "." for a top-level key and otherwise the key
      without its last segment. */
  lemma DirnameOfKey(p: string)
    requires IsKey(p)
    ensures var segs, d := Segments(p), Dirname(p);
      d != [] && d[0] != '/' &&
      ((|segs| == 1 && d == ".") || (|segs| > 1 && Segments(d) == segs[..|segs| - 1]))
  {
    KeyShape(p);
    var segs := Segments(p);
    var e := DirEnd(p, |p| - 1, true);
    if |p| > 1 {
      assert e == DirEnd(p, |p| - 2, false);
      DirEndScan(p, |p| - 2);
    }
    if e == -1 {
      assert forall j :: 0 <= j < |p| ==> p[j] != '/';
      SplitNoSep(p, '/');
    } else {
      var d, base := p[..e], p[e + 1..];
      assert p == d + "/" + base;
      assert '/' !in base;
      SplitAround(d, base, '/');
      SplitNoSep(base, '/');
      assert segs == Segments(d) + [base];
      assert segs[..|segs| - 1] == Segments(d);
    }
  }
}
