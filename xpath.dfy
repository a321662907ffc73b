/** The two XPath extension functions registered by src/util/xpath.ts:
    `resolve-relative-reference($referrer, $target)` turns a reference written
    in a document into a project path, and
    `create-relative-reference($referrer, $target)` writes a project path as a
    reference from the referring document. */
module XPath {
  import opened Strings
  import opened PosixPath

  /** http://, https:// and protocol-relative // references leave the project. */
  predicate IsExternalReference(target: string)
  {
    StartsWith(target, "http://") || StartsWith(target, "https://") || StartsWith(target, "//")
  }

  function ResolveRelativeReference(referrer: string, target: string): string
  {
    if IsExternalReference(target) then target
    else if StartsWith(target, "#") then referrer + target
    else if target == "." then referrer
    else Join2(Dirname(referrer), target)
  }

  /** `cwd` is the process working directory that `path.posix.relative`
      resolves both paths against. */
  function CreateRelativeReference(cwd: string, referrer: string, target: string): string
  {
    if IsExternalReference(target) then target
    else Relative(cwd, Dirname(referrer), target)
  }

  /** The segments of the reference from a directory with segments `ds` to a
      path with segments `t`: one ".." per directory segment not shared,
      then the rest of `t`. */
  function Climb(ds: seq<string>, t: seq<string>): seq<string>
  {
    var c := CommonPrefix(ds, t);
    Ups(|ds| - c) + t[c..]
  }

  /** The directory segments of a key: all segments but the last. */
  function DirSegments(key: string): seq<string>
  {
    var r := Segments(key);
    r[..|r| - 1]
  }

  // ---------------------------------------------------------------------
  // What the two functions promise

  /** External references pass through both functions untouched. */
  lemma ExternalUnchanged(cwd: string, referrer: string, target: string)
    requires IsExternalReference(target)
    ensures ResolveRelativeReference(referrer, target) == target
    ensures CreateRelativeReference(cwd, referrer, target) == target
  {
  }

  /** A same-document reference `#id` resolves to the referrer with the
      fragment appended, and "." to the referrer itself. */
  lemma SameDocumentReferences(referrer: string, fragment: string)
    ensures ResolveRelativeReference(referrer, "#" + fragment) == referrer + "#" + fragment
    ensures ResolveRelativeReference(referrer, ".") == referrer
  {
    NotExternalByFirst("#" + fragment);
    NotExternalByFirst(".");
    assert StartsWith("#" + fragment, "#");
  }

  /** Any other reference to a key is joined to the referrer's directory and
      normalised: the referrer's directory segments, then the reference's. */
  lemma ResolveJoinsDirectory(referrer: string, target: string)
    requires IsKey(referrer) && IsPath(target)
    ensures ResolveRelativeReference(referrer, target) == JoinSegments(DirSegments(referrer) + Segments(target))
  {
    var ds, t := DirSegments(referrer), Segments(target);
    KeyShape(referrer);
    PathShape(target);
    assert RelativeSegments(t);
    JoinSplit(target, '/');
    FoldPlain(ds, t, true);
    assert (ds + t)[0] != [] by {
      assert AllPlain(Segments(referrer));
      if ds != [] { assert (ds + t)[0] == Segments(referrer)[0]; }
    }
    ResolveRelative(referrer, t);
  }

  /** For two keys, the created reference does not depend on the working
      directory: it climbs out of the referrer's directory and into the
      target (empty when the target is that directory). */
  lemma CreateOfKeys(cwd: string, referrer: string, target: string)
    requires IsKey(referrer) && IsPath(target)
    ensures var ds, t := DirSegments(referrer), Segments(target);
      CreateRelativeReference(cwd, referrer, target) ==
        if ds == t then "" else JoinSegments(Climb(ds, t))
  {
    var ds, t := DirSegments(referrer), Segments(target);
    PathShape(target);
    assert RelativeSegments(t);
    NotSpecialJoin(t);
    JoinSplit(target, '/');
    DirnameNotKey(referrer, target);
    CwdFold(cwd, referrer, target);
    RelativeOfSegments(cwd, Dirname(referrer), target, Fold([], Segments(cwd), false), ds, t);
  }

  /** `path.posix.relative` of two paths that resolve to a shared base
      followed by their own segments. */
  lemma RelativeOfSegments(cwd: string, from: string, to: string,
                           base: seq<string>, fs: seq<string>, ts: seq<string>)
    requires AbsoluteSegments(cwd, from) == base + fs
    requires AbsoluteSegments(cwd, to) == base + ts
    requires from == to ==> fs == ts
    ensures Relative(cwd, from, to) == if fs == ts then "" else JoinSegments(Climb(fs, ts))
  {
    var f, t := base + fs, base + ts;
    if fs != ts {
      assert f != t by {
        assert f[|base|..] == fs && t[|base|..] == ts;
      }
      CommonPrefixShared(base, fs, ts);
      var c := CommonPrefix(fs, ts);
      assert t[|base| + c..] == ts[c..];
      assert Ups(|f| - CommonPrefix(f, t)) + t[CommonPrefix(f, t)..] == Climb(fs, ts);
      assert Relative(cwd, from, to) == JoinSegments(Ups(|f| - CommonPrefix(f, t)) + t[CommonPrefix(f, t)..]);
    }
  }

  /** A sibling is referenced by its last segment. */
  lemma CreateSibling(cwd: string, referrer: string, target: string)
    requires IsKey(referrer) && IsKey(target)
    requires var t := Segments(target); DirSegments(referrer) == t[..|t| - 1]
    ensures var t := Segments(target);
      CreateRelativeReference(cwd, referrer, target) == t[|t| - 1]
  {
    var ds, t := DirSegments(referrer), Segments(target);
    KeyIsPath(target);
    CreateOfKeys(cwd, referrer, target);
    assert |ds| < |t|;
    CommonPrefixOfExtension(ds, t);
    assert Climb(ds, t) == [t[|t| - 1]];
  }

  /** For keys, resolving the created reference gives the target back: this is
      what keeps every moved reference pointing at the same document. */
  lemma ResolveCreateRoundTrip(cwd: string, referrer: string, target: string)
    requires IsKey(referrer) && IsPath(target)
    ensures ResolveRelativeReference(referrer, CreateRelativeReference(cwd, referrer, target)) == target
  {
    var ds, t := DirSegments(referrer), Segments(target);
    KeyShape(referrer);
    PathShape(target);
    JoinSplit(target, '/');
    CreateOfKeys(cwd, referrer, target);
    if ds == t {
      DirnameOfKey(referrer);
      var d := Dirname(referrer);
      assert |ds| >= 1;
      JoinSplit(d, '/');
      assert d == target;
      NormalizeKey(target);
      NotExternalByFirst("");
    } else {
      var segs := Climb(ds, t);
      var c' := CommonPrefix(ds, t);
      ClimbFold(ds, t, c');
      assert segs != [];
      ClimbIsRelative(ds, t);
      ResolveRelative(referrer, segs);
    }
  }

  /** A created reference to a key carries no fragment separator. */
  lemma CreateHasNoFragment(cwd: string, referrer: string, target: string)
    requires IsKey(referrer) && IsKey(target)
    ensures '#' !in CreateRelativeReference(cwd, referrer, target)
  {
    var ds, t := DirSegments(referrer), Segments(target);
    KeyIsPath(target);
    CreateOfKeys(cwd, referrer, target);
    if ds != t {
      ClimbAvoids(ds, t, '#');
      JoinAvoids(Climb(ds, t), '/', '#');
    }
  }

  /** A character other than '.' that no target segment holds is in no
      segment of the climb. */
  lemma ClimbAvoids(ds: seq<string>, t: seq<string>, x: char)
    requires x != '.'
    requires forall j :: 0 <= j < |t| ==> x !in t[j]
    ensures forall i :: 0 <= i < |Climb(ds, t)| ==> x !in Climb(ds, t)[i]
  {
    var c := CommonPrefix(ds, t);
    var segs := Climb(ds, t);
    var k := |ds| - c;
    forall i | 0 <= i < |segs|
      ensures x !in segs[i]
    {
      if i >= k {
        assert segs[i] == t[c + i - k];
      } else {
        assert segs[i] == "..";
      }
    }
  }

  // ---------------------------------------------------------------------
  // Helpers

  predicate AllSeparatorFree(segs: seq<string>)
  {
    forall i :: 0 <= i < |segs| ==> '/' !in segs[i]
  }

  /** The segments a created reference is made of: ".." or a plain segment
      that does not start with '#'. */
  predicate RelativeSegments(segs: seq<string>)
  {
    forall i :: 0 <= i < |segs| ==> segs[i] == ".." || (Plain(segs[i]) && segs[i][0] != '#')
  }

  lemma NotExternalByFirst(s: string)
    requires s == [] || (s[0] != 'h' && s[0] != '/')
    ensures !IsExternalReference(s)
  {
    assert |s| >= 2 ==> s[..2][0] == s[0];
    assert |s| >= 7 ==> s[..7][0] == s[0];
    assert |s| >= 8 ==> s[..8][0] == s[0];
  }

  /** A reference of any external form has an empty second segment. */
  lemma ExternalHasEmptySegment(s: string)
    requires s != []
    ensures IsExternalReference(s) && s[0] != '/' ==> |Segments(s)| >= 2 && Segments(s)[1] == ""
  {
    if !IsExternalReference(s) || s[0] == '/' {
    } else if StartsWith(s, "http://") {
      assert s == "http:" + "//" + s[7..];
      DoubleSlash("http:", s[7..]);
    } else {
      assert |s| >= 2 ==> s[..2][0] == s[0];
      assert s == "https:" + "//" + s[8..];
      DoubleSlash("https:", s[8..]);
    }
  }

  lemma DoubleSlash(x: string, y: string)
    requires '/' !in x
    ensures |Segments(x + "//" + y)| >= 2 && Segments(x + "//" + y)[1] == ""
  {
    assert x + "//" + y == x + "/" + ("/" + y);
    assert "/" + y == "" + "/" + y;
    SplitAround(x, "/" + y, '/');
    SplitAround("", y, '/');
    SplitNoSep(x, '/');
    SplitNoSep("", '/');
  }

  lemma JoinFirst(segs: seq<string>)
    requires segs != [] && segs[0] != []
    ensures JoinSegments(segs) != [] && JoinSegments(segs)[0] == segs[0][0]
  {
  }

  /** Joined relative segments are none of the special reference forms. */
  lemma NotSpecialJoin(segs: seq<string>)
    requires segs != [] && RelativeSegments(segs)
    ensures var s := JoinSegments(segs);
      s != [] && !IsExternalReference(s) && !StartsWith(s, "#") && s != "." && s[0] != '/'
    ensures AllSeparatorFree(segs)
    ensures Segments(JoinSegments(segs)) == segs
  {
    var s := JoinSegments(segs);
    assert AllSeparatorFree(segs);
    SplitJoin(segs, '/');
    JoinFirst(segs);
    assert s[0] != '#';
    assert s[..1][0] == s[0];
    SplitNoSep(".", '/');
    ExternalHasEmptySegment(s);
  }

  /** Resolving joined relative segments against a key folds them onto the
      key's directory segments. */
  lemma ResolveRelative(referrer: string, segs: seq<string>)
    requires IsKey(referrer) && segs != [] && RelativeSegments(segs)
    requires var out := Fold(DirSegments(referrer), segs, true); out != [] && out[0] != []
    ensures ResolveRelativeReference(referrer, JoinSegments(segs)) ==
      JoinSegments(Fold(DirSegments(referrer), segs, true))
  {
    var rel := JoinSegments(segs);
    NotSpecialJoin(segs);
    var d := Dirname(referrer);
    DirnameOfKey(referrer);
    var q := d + "/" + rel;
    assert ResolveRelativeReference(referrer, rel) == Normalize(q);
    SplitEnds(rel, '/');
    assert q[0] == d[0];
    assert q[|q| - 1] == rel[|rel| - 1];
    SplitAround(d, rel, '/');
    assert Segments(q) == Segments(d) + segs;
    DirectoryFold(referrer, [], true);
    assert [] + DirSegments(referrer) == DirSegments(referrer);
    FoldAppend([], Segments(d), segs, true);
    var out := Fold(DirSegments(referrer), segs, true);
    assert Fold([], Segments(q), true) == out;
    JoinFirst(out);
  }

  /** Climbing out of `ds` and into `t` from `ds` lands on `t`. */
  lemma ClimbFold(ds: seq<string>, t: seq<string>, c: nat)
    requires AllPlain(ds) && AllPlain(t) && c == CommonPrefix(ds, t)
    ensures Fold(ds, Climb(ds, t), true) == t
  {
    FoldAppend(ds, Ups(|ds| - c), t[c..], true);
    FoldUps(ds, |ds| - c, true);
    FoldPlain(ds[..c], t[c..], true);
    assert ds[..c] + t[c..] == t[..c] + t[c..] == t;
  }

  lemma ClimbIsRelative(ds: seq<string>, t: seq<string>)
    requires forall i :: 0 <= i < |t| ==> Plain(t[i]) && t[i][0] != '#'
    ensures RelativeSegments(Climb(ds, t))
  {
    var c := CommonPrefix(ds, t);
    var segs := Climb(ds, t);
    var k := |ds| - c;
    forall i | 0 <= i < |segs|
      ensures segs[i] == ".." || (Plain(segs[i]) && segs[i][0] != '#')
    {
      if i >= k {
        assert segs[i] == t[c + i - k];
      }
    }
  }

  /** A path equal to a key's directory has that directory's segments. */
  lemma DirnameNotKey(referrer: string, target: string)
    requires IsKey(referrer) && IsPath(target)
    ensures Dirname(referrer) == target ==> DirSegments(referrer) == Segments(target)
  {
    DirnameOfKey(referrer);
    SplitNoSep(".", '/');
    assert Plain(Segments(target)[0]);
  }

  /** Folding the referrer's directory appends its directory segments. */
  lemma DirectoryFold(referrer: string, res: seq<string>, allow: bool)
    requires IsKey(referrer)
    ensures Fold(res, Segments(Dirname(referrer)), allow) == res + DirSegments(referrer)
  {
    DirnameOfKey(referrer);
    KeyShape(referrer);
    var r := Segments(referrer);
    if |r| == 1 {
      SplitNoSep(".", '/');
      assert Fold(res, ["."], allow) == Fold(res, [], allow);
    } else {
      FoldPlain(res, r[..|r| - 1], allow);
    }
  }

  /** Against the working directory, the referrer's directory and the target
      resolve to the cwd's segments followed by their own. */
  lemma CwdFold(cwd: string, referrer: string, target: string)
    requires IsKey(referrer) && IsPath(target)
    ensures var base := Fold([], Segments(cwd), false);
      AbsoluteSegments(cwd, Dirname(referrer)) == base + DirSegments(referrer) &&
      AbsoluteSegments(cwd, target) == base + Segments(target)
  {
    DirnameOfKey(referrer);
    PathShape(target);
    var base := Fold([], Segments(cwd), false);
    FoldAppend([], Segments(cwd), Segments(Dirname(referrer)), false);
    DirectoryFold(referrer, base, false);
    FoldAppend([], Segments(cwd), Segments(target), false);
    FoldPlain(base, Segments(target), false);
  }

  lemma {:induction false} CommonPrefixOfExtension(a: seq<string>, b: seq<string>)
    requires |a| <= |b| && b[..|a|] == a
    ensures CommonPrefix(a, b) == |a|
    decreases |a|
  {
    if a != [] {
      assert b[1..][..|a| - 1] == a[1..];
      CommonPrefixOfExtension(a[1..], b[1..]);
    }
  }
}
