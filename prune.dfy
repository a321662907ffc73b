/** src/routines/prune.ts: reports, for every listed document, which of four
    buckets it falls in by who references it. 1: nobody; 2: only documents
    that are not maps of the sitemap; 3: only maps of the sitemap; 0: any
    other case, which is every referenced document when there is no root
    map. Nothing is changed or written. */
module Prune {
  import opened Results
  import opened Xml
  import opened Strings
  import opened DomCaching
  import XPath
  import Sitemap
  import CheckReferences

  // ---------------------------------------------------------------------
  // Outbound references of one document

  /** The values of `//@href`, in document order. */
  function Hrefs(root: Node): seq<string>
  {
    HrefsAt(root, ElementPaths(root))
  }

  function HrefsAt(root: Node, ps: seq<Path>): seq<string>
  {
    if ps == [] then []
    else
      var a := AttrAt(root, ps[0], "href");
      (if a.Some? then [a.value] else []) + HrefsAt(root, ps[1..])
  }

  /** `resolve-relative-reference($self, .)` of each value, cut before its
      first '#'. */
  function Targets(self: string, hrefs: seq<string>): (r: seq<string>)
    ensures |r| == |hrefs|
    ensures forall i :: 0 <= i < |r| ==> '#' !in r[i]
  {
    if hrefs == [] then []
    else
      var t := CheckReferences.TargetOf(self, hrefs[0]).file;
      TargetAvoidsHash(self, hrefs[0]);
      [t] + Targets(self, hrefs[1..])
  }

  lemma TargetAvoidsHash(self: string, href: string)
    ensures '#' !in CheckReferences.TargetOf(self, href).file
  {
    SplitPiecesAvoid(XPath.ResolveRelativeReference(self, href), '#');
  }

  /** `filter((ref, i, all) => all.indexOf(ref) === i)`: the first occurrence
      of each value, in their order. */
  function FirstOccurrences(s: seq<string>): (r: seq<string>)
    ensures forall x :: x in r <==> x in s
    ensures NoDuplicates(r)
  {
    if s == [] then []
    else
      var front := s[..|s| - 1];
      assert s == front + [s[|s| - 1]];
      var r := FirstOccurrences(front);
      if s[|s| - 1] in r then r else r + [s[|s| - 1]]
  }

  /** Keeping first occurrences leaves a list without repeats as it is. */
  lemma {:induction false} FirstOccurrencesOfDistinct(s: seq<string>)
    requires NoDuplicates(s)
    ensures FirstOccurrences(s) == s
  {
    if s != [] {
      var front := s[..|s| - 1];
      assert s == front + [s[|s| - 1]];
      FirstOccurrencesOfDistinct(front);
      assert s[|s| - 1] !in front;
    }
  }

  // ---------------------------------------------------------------------
  // The order of `sort()`

  /** JavaScript's comparison of two strings, code unit by code unit, a
      proper prefix first. */
  predicate Below(a: string, b: string)
  {
    if a == [] then b != []
    else b != [] && (a[0] < b[0] || (a[0] == b[0] && Below(a[1..], b[1..])))
  }

  lemma {:induction false} BelowIrreflexive(a: string)
    ensures !Below(a, a)
  {
    if a != [] {
      BelowIrreflexive(a[1..]);
    }
  }

  /** Two different strings are ordered one way. */
  lemma {:induction false} BelowTotal(a: string, b: string)
    ensures a == b || Below(a, b) || Below(b, a)
  {
    if a != [] && b != [] && a[0] == b[0] {
      BelowTotal(a[1..], b[1..]);
      if a[1..] == b[1..] {
        assert a == [a[0]] + a[1..] && b == [b[0]] + b[1..];
      }
    }
  }

  /** ... and not both ways. */
  lemma {:induction false} BelowAsymmetric(a: string, b: string)
    ensures !(Below(a, b) && Below(b, a))
  {
    if a != [] && b != [] && a[0] == b[0] {
      BelowAsymmetric(a[1..], b[1..]);
    }
  }

  lemma {:induction false} BelowTransitive(a: string, b: string, c: string)
    requires Below(a, b) && Below(b, c)
    ensures Below(a, c)
  {
    if a != [] && a[0] == b[0] && b[0] == c[0] {
      BelowTransitive(a[1..], b[1..], c[1..]);
    }
  }

  predicate NotAbove(a: string, b: string)
  {
    a == b || Below(a, b)
  }

  /** Every element comes no later in the order than every later one. */
  predicate Ordered(s: seq<string>)
  {
    forall i, j :: 0 <= i < j < |s| ==> NotAbove(s[i], s[j])
  }

  /** `x` placed before the first element it does not follow. */
  function Insert(x: string, s: seq<string>): (r: seq<string>)
    requires Ordered(s)
    ensures Ordered(r) && multiset(r) == multiset(s) + multiset{x}
  {
    if s == [] then [x]
    else if NotAbove(x, s[0]) then
      assert forall j :: 0 <= j < |s| ==> NotAbove(x, s[j]) by {
        forall j | 0 <= j < |s|
          ensures NotAbove(x, s[j])
        {
          if x != s[0] && s[0] != s[j] {
            BelowTransitive(x, s[0], s[j]);
          }
        }
      }
      [x] + s
    else
      BelowTotal(x, s[0]);
      var rest := Insert(x, s[1..]);
      assert s == [s[0]] + s[1..];
      assert forall j :: 0 <= j < |rest| ==> NotAbove(s[0], rest[j]) by {
        forall j | 0 <= j < |rest|
          ensures NotAbove(s[0], rest[j])
        {
          assert rest[j] in multiset(rest);
          if rest[j] != x {
            var k :| 0 <= k < |s[1..]| && s[1..][k] == rest[j];
            assert NotAbove(s[0], s[k + 1]);
          }
        }
      }
      [s[0]] + rest
  }

  /** `sort()` with no comparator: an insertion sort in the string order. */
  function Sort(s: seq<string>): (r: seq<string>)
    ensures Ordered(r) && multiset(r) == multiset(s)
  {
    if s == [] then []
    else
      assert s == [s[0]] + s[1..];
      Insert(s[0], Sort(s[1..]))
  }

  /** An ordered list holds its values in one arrangement only: whatever
      order `sort()` actually uses, the result is this one. */
  lemma {:induction false} OrderedUnique(a: seq<string>, b: seq<string>)
    requires Ordered(a) && Ordered(b) && multiset(a) == multiset(b)
    ensures a == b
  {
    if a != [] {
      assert a[0] in multiset(b) && b[0] in multiset(a);
      var i :| 0 <= i < |b| && b[i] == a[0];
      var j :| 0 <= j < |a| && a[j] == b[0];
      assert NotAbove(b[0], b[i]) && NotAbove(a[0], a[j]);
      BelowAsymmetric(a[0], b[0]);
      assert a[0] == b[0];
      assert a == [a[0]] + a[1..] && b == [b[0]] + b[1..];
      assert multiset(a) == multiset{a[0]} + multiset(a[1..]);
      assert multiset(b) == multiset{b[0]} + multiset(b[1..]);
      forall x
        ensures multiset(a[1..])[x] == multiset(b[1..])[x]
      {
        assert multiset(a)[x] == multiset{a[0]}[x] + multiset(a[1..])[x];
        assert multiset(b)[x] == multiset{b[0]}[x] + multiset(b[1..])[x];
      }
      assert multiset(a[1..]) == multiset(b[1..]);
      assert Ordered(a[1..]);
      assert Ordered(b[1..]);
      OrderedUnique(a[1..], b[1..]);
    }
  }

  /** Without repeats, ordered means strictly ascending. */
  lemma OrderedDistinctAscends(s: seq<string>)
    requires Ordered(s) && NoDuplicates(s)
    ensures forall i, j :: 0 <= i < j < |s| ==> Below(s[i], s[j])
  {
  }

  /** The outbound set of a document: its resolved `@href` values without
      fragment, the first of each kept, sorted. */
  function Outbound(self: string, root: Node): seq<string>
  {
    Sort(FirstOccurrences(Targets(self, Hrefs(root))))
  }

  /** The outbound set holds each target once, in ascending order, and holds
      exactly the referenced documents. */
  lemma OutboundTargets(self: string, root: Node)
    ensures var out := Outbound(self, root);
      NoDuplicates(out) && (forall i, j :: 0 <= i < j < |out| ==> Below(out[i], out[j])) &&
      (forall t :: t in out ==> '#' !in t) &&
      (forall t :: t in out <==> t in Targets(self, Hrefs(root)))
  {
    var ts := Targets(self, Hrefs(root));
    SortedFirsts(ts);
    forall t | t in ts
      ensures '#' !in t
    {
      var i :| 0 <= i < |ts| && ts[i] == t;
    }
  }

  /** The sorted first occurrences of a list: each value of it once, in
      ascending order. */
  lemma SortedFirsts(ts: seq<string>)
    ensures var out := Sort(FirstOccurrences(ts));
      NoDuplicates(out) && (forall i, j :: 0 <= i < j < |out| ==> Below(out[i], out[j])) &&
      (forall t :: t in out <==> t in ts)
  {
    var firsts := FirstOccurrences(ts);
    var out := Sort(firsts);
    assert forall t :: t in out <==> t in multiset(out);
    MultisetDistinct(firsts, out);
    OrderedDistinctAscends(out);
  }

  /** A permutation of a list without repeats has none either. */
  lemma MultisetDistinct(a: seq<string>, b: seq<string>)
    requires NoDuplicates(a) && multiset(a) == multiset(b)
    ensures NoDuplicates(b)
  {
    forall i, j | 0 <= i < j < |b|
      ensures b[i] != b[j]
    {
      DistinctCountsOne(a, b[i]);
      assert b == b[..i] + [b[i]] + b[i + 1..j] + [b[j]] + b[j + 1..];
    }
  }

  lemma {:induction false} DistinctCountsOne(a: seq<string>, x: string)
    requires NoDuplicates(a)
    ensures multiset(a)[x] <= 1
  {
    if a != [] {
      assert a == [a[0]] + a[1..];
      assert NoDuplicates(a[1..]);
      DistinctCountsOne(a[1..], x);
      if a[0] == x {
        assert x !in a[1..];
      }
    }
  }

  // ---------------------------------------------------------------------
  // Inbound references and buckets

  /** A document and its outbound set. */
  datatype References = References(referrer: string, references: seq<string>)

  /** The outbound sets of `keys`, in their order. */
  function ReferencesOf(keys: seq<string>, docs: map<string, Node>): seq<References>
    requires forall k :: k in keys ==> k in docs
  {
    ReferencesUpTo(keys, docs, |keys|)
  }

  /** A document and its outbound set, as the references pass records it. */
  function ReferencesFor(k: string, root: Node): References
  {
    References(k, Outbound(k, root))
  }

  /** `f` of each of the first `n` keys and its document, in key order. */
  function EntriesUpTo<T>(keys: seq<string>, docs: map<string, Node>, n: nat, f: (string, Node) -> T): (r: seq<T>)
    requires n <= |keys| && forall j :: 0 <= j < n ==> keys[j] in docs
    ensures |r| == n
  {
    if n == 0 then [] else EntriesUpTo(keys, docs, n - 1, f) + [f(keys[n - 1], docs[keys[n - 1]])]
  }

  lemma {:induction false} EntriesUpToAt<T>(keys: seq<string>, docs: map<string, Node>, n: nat,
                                            f: (string, Node) -> T, i: nat)
    requires n <= |keys| && (forall j :: 0 <= j < n ==> keys[j] in docs) && i < n
    ensures EntriesUpTo(keys, docs, n, f)[i] == f(keys[i], docs[keys[i]])
  {
    if i < n - 1 {
      EntriesUpToAt(keys, docs, n - 1, f, i);
    }
  }

  /** The outbound sets of the first `n` keys. */
  function ReferencesUpTo(keys: seq<string>, docs: map<string, Node>, n: nat): seq<References>
    requires n <= |keys| && forall j :: 0 <= j < n ==> keys[j] in docs
  {
    EntriesUpTo(keys, docs, n, ReferencesFor)
  }

  /** The `i`th entry names the `i`th key and holds its outbound set. */
  lemma ReferencesUpToAt(keys: seq<string>, docs: map<string, Node>, n: nat, i: nat)
    requires n <= |keys| && (forall j :: 0 <= j < n ==> keys[j] in docs) && i < n
    ensures |ReferencesUpTo(keys, docs, n)| == n
    ensures ReferencesUpTo(keys, docs, n)[i] == References(keys[i], Outbound(keys[i], docs[keys[i]]))
  {
    EntriesUpToAt(keys, docs, n, ReferencesFor, i);
  }

  /** `references.filter(r => r.references.includes(f)).map(r => r.referrerFilePath)`. */
  function Referrers(refs: seq<References>, f: string): seq<string>
  {
    if refs == [] then []
    else (if f in refs[0].references then [refs[0].referrer] else []) + Referrers(refs[1..], f)
  }

  /** The referrers of `f` are the documents whose outbound set holds `f`. */
  lemma {:induction false} ReferrersExactly(refs: seq<References>, f: string, x: string)
    ensures x in Referrers(refs, f) <==> exists i :: 0 <= i < |refs| && refs[i].referrer == x && f in refs[i].references
  {
    if refs != [] {
      ReferrersExactly(refs[1..], f, x);
      if exists i :: 0 <= i < |refs| && refs[i].referrer == x && f in refs[i].references {
        var i :| 0 <= i < |refs| && refs[i].referrer == x && f in refs[i].references;
        if i > 0 {
          assert refs[1..][i - 1] == refs[i];
        }
      }
      if exists i :: 0 <= i < |refs[1..]| && refs[1..][i].referrer == x && f in refs[1..][i].references {
        var i :| 0 <= i < |refs[1..]| && refs[1..][i].referrer == x && f in refs[1..][i].references;
        assert refs[i + 1] == refs[1..][i];
      }
    }
  }

  /** The referrers keep the order of `refs`, each of them once when
      `refs` names each document once. */
  lemma {:induction false} ReferrersDistinct(refs: seq<References>, f: string)
    requires forall i, j :: 0 <= i < j < |refs| ==> refs[i].referrer != refs[j].referrer
    ensures NoDuplicates(Referrers(refs, f))
  {
    if refs != [] {
      var rest := Referrers(refs[1..], f);
      ReferrersDistinct(refs[1..], f);
      forall x | x in rest
        ensures x != refs[0].referrer
      {
        ReferrersExactly(refs[1..], f, x);
        var i :| 0 <= i < |refs[1..]| && refs[1..][i].referrer == x && f in refs[1..][i].references;
        assert refs[1..][i] == refs[i + 1];
      }
      var all := Referrers(refs, f);
      assert all == (if f in refs[0].references then [refs[0].referrer] else []) + rest;
      if f in refs[0].references {
        forall i, j | 0 <= i < j < |all|
          ensures all[i] != all[j]
        {
          assert all[j] == rest[j - 1] && rest[j - 1] in rest;
          if i > 0 {
            assert all[i] == rest[i - 1];
          }
        }
      }
    }
  }

  /** A document whose own outbound set names it is its own referrer. */
  lemma SelfReferenceCounts(keys: seq<string>, docs: map<string, Node>, i: nat)
    requires forall k :: k in keys ==> k in docs
    requires i < |keys| && keys[i] in Outbound(keys[i], docs[keys[i]])
    ensures keys[i] in Referrers(ReferencesOf(keys, docs), keys[i])
  {
    ReferencesUpToAt(keys, docs, |keys|, i);
    ReferrersExactly(ReferencesOf(keys, docs), keys[i], keys[i]);
  }

  /** The bucket of a document with referrers `inbound`; `maps` holds the
      maps of the sitemap when there is a root map. The first case that
      applies wins. */
  function Bucket(inbound: seq<string>, maps: Option<seq<string>>): nat
  {
    if |inbound| == 0 then 1
    else if maps.Some? && !(exists r :: r in inbound && r in maps.value) then 2
    else if maps.Some? && (forall r :: r in inbound ==> r in maps.value) then 3
    else 0
  }

  /** Bucket 1: no document references it. */
  predicate Unreferenced(inbound: seq<string>)
  {
    inbound == []
  }

  /** Bucket 2: referenced, and by no map of the sitemap. */
  predicate OnlyFromTopics(inbound: seq<string>, maps: Option<seq<string>>)
  {
    inbound != [] && maps.Some? && forall r :: r in inbound ==> r !in maps.value
  }

  /** Bucket 3: referenced, and by maps of the sitemap only. */
  predicate OnlyFromMaps(inbound: seq<string>, maps: Option<seq<string>>)
  {
    inbound != [] && maps.Some? && forall r :: r in inbound ==> r in maps.value
  }

  /** Bucket 0: referenced, and either there is no sitemap or the referrers
      are a map and a document that is not one. */
  predicate Mixed(inbound: seq<string>, maps: Option<seq<string>>)
  {
    inbound != [] &&
    (maps.None? || ((exists r :: r in inbound && r in maps.value) && (exists r :: r in inbound && r !in maps.value)))
  }

  /** The four cases are apart and cover every document, and `Bucket` names
      the one that holds. */
  lemma BucketsPartition(inbound: seq<string>, maps: Option<seq<string>>)
    ensures (if Unreferenced(inbound) then 1 else 0) + (if OnlyFromTopics(inbound, maps) then 1 else 0) +
            (if OnlyFromMaps(inbound, maps) then 1 else 0) + (if Mixed(inbound, maps) then 1 else 0) == 1
    ensures Bucket(inbound, maps) == 1 <==> Unreferenced(inbound)
    ensures Bucket(inbound, maps) == 2 <==> OnlyFromTopics(inbound, maps)
    ensures Bucket(inbound, maps) == 3 <==> OnlyFromMaps(inbound, maps)
    ensures Bucket(inbound, maps) == 0 <==> Mixed(inbound, maps)
  {
    if inbound != [] {
      assert inbound[0] in inbound;
    }
  }

  /** Without a root map only buckets 1 and 0 occur. */
  lemma NoSitemapTwoBuckets(inbound: seq<string>)
    ensures Bucket(inbound, None) == (if inbound == [] then 1 else 0)
  {
  }

  /** The topic targets of the sitemap: each item's target when it has a
      non-empty one. */
  function TopicTargets(items: seq<Sitemap.Item>): (r: seq<string>)
    ensures forall t :: t in r <==> exists it :: it in items && it.target == Some(t) && t != ""
  {
    if items == [] then []
    else
      var t := items[0].target;
      assert forall i :: i in items <==> i == items[0] || i in items[1..];
      (if t.Some? && t.value != "" then [t.value] else []) + TopicTargets(items[1..])
  }

  // ---------------------------------------------------------------------
  // The routine

  /** The `for await` over `keys()`: one line per document, with its bucket,
      in the order of the keys. The topic targets are looked at and change
      nothing. */
  method Classify(refs: seq<References>, keys: seq<string>, maps: Option<seq<string>>,
                  topics: Option<seq<string>>)
    returns (lines: seq<(nat, string)>)
    ensures |lines| == |keys|
    ensures forall i :: 0 <= i < |keys| ==> lines[i] == (Bucket(Referrers(refs, keys[i]), maps), keys[i])
  {
    lines := [];
    for i := 0 to |keys|
      invariant |lines| == i
      invariant forall j :: 0 <= j < i ==> lines[j] == (Bucket(Referrers(refs, keys[j]), maps), keys[j])
    {
      var f := keys[i];
      var inbound := Referrers(refs, f);
      if |inbound| == 0 {
        lines := lines + [(1, f)];
        continue;
      }
      if maps.Some? && !(exists r :: r in inbound && r in maps.value) {
        lines := lines + [(2, f)];
        continue;
      }
      if maps.Some? && (forall r :: r in inbound ==> r in maps.value) {
        lines := lines + [(3, f)];
        continue;
      }
      if topics.Some? && f !in topics.value {
      }
      lines := lines + [(0, f)];
    }
  }

  /** The maps of the sitemap when there is a root map: `None` without one,
      an error when its tree or its items cannot be listed. */
  ghost function SitemapMaps(docs: map<string, Node>, rootFilePath: string): Result<Option<seq<string>>>
  {
    if rootFilePath == "" then Ok(None)
    else
      var maps := Sitemap.UniqueMaps(docs, rootFilePath);
      if maps.Err? then Err(maps.message)
      else if Sitemap.ItemsForAll(docs, maps.value).Err? then Err(Sitemap.ItemsForAll(docs, maps.value).message)
      else Ok(Some(maps.value))
  }

  /** The sitemap part of the routine: `getMaps`, then `getNodes` and the
      non-empty targets of the items. */
  method ReadSitemap(c: FileCache, rootFilePath: string, ghost docs: map<string, Node>)
    returns (maps: Result<Option<seq<string>>>, topics: Option<seq<string>>)
    requires c.Valid() && c.Serves(docs)
    modifies c`text, c`order, c`trees, c.storage`fetches
    ensures c.Valid() && c.Serves(docs)
    ensures Sitemap.SameOutcome(maps, SitemapMaps(docs, rootFilePath))
    ensures maps.Ok? ==> old(c.ListedSet()) <= c.ListedSet()
  {
    if rootFilePath == "" {
      return Ok(None), None;
    }
    var sitemap := new Sitemap.SitemapOf(c, rootFilePath);
    var ms := sitemap.GetMaps(false, docs);
    if ms.Err? {
      return Err(ms.message), None;
    }
    var nodes := sitemap.GetNodes(false, docs);
    if nodes.Err? {
      return Err(nodes.message), None;
    }
    maps, topics := Ok(Some(ms.value)), Some(TopicTargets(nodes.value));
  }

  /** Loading a listed document leaves the listed keys as they are. */
  method LoadListed(c: FileCache, k: string, ghost keys: seq<string>, ghost docs: map<string, Node>)
    returns (r: Result<Dom>)
    requires c.Valid() && c.Serves(docs) && c.Keys() == keys && k in keys
    modifies c`text, c`order, c`trees, c.storage`fetches
    ensures c.Valid() && c.Serves(docs)
    ensures r.Ok? <==> k in docs
    ensures r.Ok? ==> c.Keys() == keys
    ensures r.Ok? ==> r.value.root == docs[k]
  {
    ghost var order, text, trees := c.order, c.text, c.trees;
    ListedAmongIs(c, order);
    r := c.GetDocument(k);
    if r.Ok? {
      assert c.order == order;
      ListedAmongIs(c, order);
      KeysKept(text, trees, c.text, c.trees, k, order);
    }
  }

  /** `Listed` over given entries. */
  ghost predicate ListedIn(text: map<string, TextEntry>, trees: map<string, Dom>, k: string)
  {
    (k in text && Truthy(text[k])) || k in trees || (k in text && text[k] == Discovered)
  }

  ghost function ListedAmongIn(text: map<string, TextEntry>, trees: map<string, Dom>, ks: seq<string>): seq<string>
  {
    if ks == [] then []
    else (if ListedIn(text, trees, ks[0]) then [ks[0]] else []) + ListedAmongIn(text, trees, ks[1..])
  }

  lemma {:induction false} ListedAmongIs(c: FileCache, ks: seq<string>)
    ensures c.ListedAmong(ks) == ListedAmongIn(c.text, c.trees, ks)
  {
    if ks != [] {
      ListedAmongIs(c, ks[1..]);
    }
  }

  /** After `getDocument(k)` of a listed `k`, each key is listed as before. */
  lemma {:induction false} KeysKept(text: map<string, TextEntry>, trees: map<string, Dom>,
                                    text': map<string, TextEntry>, trees': map<string, Dom>, k: string, ks: seq<string>)
    requires ListedIn(text, trees, k) && k in trees'
    requires forall j :: j != k ==> (j in text' <==> j in text) && (j in text' ==> text'[j] == text[j])
    requires forall j :: j != k ==> (j in trees' <==> j in trees)
    ensures ListedAmongIn(text', trees', ks) == ListedAmongIn(text, trees, ks)
  {
    if ks != [] {
      KeysKept(text, trees, text', trees', k, ks[1..]);
    }
  }

  /** The references pass: the outbound set of every listed document. */
  method CollectReferences(c: FileCache, keys: seq<string>, ghost docs: map<string, Node>)
    returns (r: Result<seq<References>>)
    requires c.Valid() && c.Serves(docs) && c.Keys() == keys
    modifies c`text, c`order, c`trees, c.storage`fetches
    ensures c.Valid() && c.Serves(docs)
    ensures r.Ok? <==> forall k :: k in keys ==> k in docs
    ensures r.Ok? ==> c.Keys() == keys && (forall k :: k in keys ==> k in docs) && r.value == ReferencesOf(keys, docs)
  {
    var refs := [];
    for i := 0 to |keys|
      invariant c.Valid() && c.Serves(docs) && c.Keys() == keys
      invariant Gathered(keys, i, refs, docs)
    {
      var step := ReferenceStep(c, keys, i, refs, docs);
      if step.Err? {
        assert keys[i] in keys;
        return Err(step.message);
      }
      refs := step.value;
    }
    forall k | k in keys
      ensures k in docs
    {
      var j :| 0 <= j < |keys| && keys[j] == k;
    }
    r := Ok(refs);
  }

  /** The outbound sets of the first `n` keys are in `refs`. */
  ghost predicate Gathered(keys: seq<string>, n: int, refs: seq<References>, docs: map<string, Node>)
  {
    0 <= n <= |keys| && (forall j :: 0 <= j < n ==> keys[j] in docs) && refs == ReferencesUpTo(keys, docs, n)
  }

  /** One document of the references pass: its outbound set appended. */
  method ReferenceStep(c: FileCache, keys: seq<string>, i: int, refs: seq<References>, ghost docs: map<string, Node>)
    returns (r: Result<seq<References>>)
    requires 0 <= i < |keys| && c.Valid() && c.Serves(docs) && c.Keys() == keys
    requires Gathered(keys, i, refs, docs)
    modifies c`text, c`order, c`trees, c.storage`fetches
    ensures c.Valid() && c.Serves(docs)
    ensures r.Ok? <==> keys[i] in docs
    ensures r.Ok? ==> c.Keys() == keys && Gathered(keys, i + 1, r.value, docs)
  {
    var d := LoadListed(c, keys[i], keys, docs);
    if d.Err? {
      return Err(d.message);
    }
    GatheredStep(keys, i, refs, docs);
    r := Ok(refs + [References(keys[i], Outbound(keys[i], d.value.root))]);
  }

  lemma GatheredStep(keys: seq<string>, i: int, refs: seq<References>, docs: map<string, Node>)
    requires Gathered(keys, i, refs, docs) && i < |keys| && keys[i] in docs
    ensures Gathered(keys, i + 1, refs + [References(keys[i], Outbound(keys[i], docs[keys[i]]))], docs)
  {
  }

  /** The report of the routine over the listed keys. */
  ghost function Report(keys: seq<string>, docs: map<string, Node>, maps: Option<seq<string>>): (r: seq<(nat, string)>)
    requires forall k :: k in keys ==> k in docs
  {
    var refs := ReferencesOf(keys, docs);
    seq(|keys|, i requires 0 <= i < |keys| => (Bucket(Referrers(refs, keys[i]), maps), keys[i]))
  }

  /** The first half of `prune`: the project files are discovered, then
      the sitemap is read. Every key listed before and every project file
      is listed afterwards once the sitemap could be read. */
  method DiscoverAndIndex(c: FileCache, projectFiles: seq<string>, rootFilePath: string, ghost docs: map<string, Node>)
    returns (maps: Result<Option<seq<string>>>, topics: Option<seq<string>>)
    requires c.Valid() && c.Serves(docs) && (projectFiles != [] ==> c.ServesFresh(docs))
    modifies c`text, c`order, c`trees, c.storage`fetches
    ensures c.Valid() && c.Serves(docs)
    ensures Sitemap.SameOutcome(maps, SitemapMaps(docs, rootFilePath))
    ensures maps.Ok? ==> old(c.ListedSet()) + Elements(projectFiles) <= c.ListedSet()
  {
    CheckReferences.Discover(c, projectFiles, docs);
    maps, topics := ReadSitemap(c, rootFilePath, docs);
  }

  /** `prune`: discover the project files, read the sitemap when there is a
      root map, collect the outbound sets of all listed documents, and
      give each listed document its bucket. */
  method RunPrune(c: FileCache, projectFiles: seq<string>, rootFilePath: string, ghost docs: map<string, Node>)
    returns (r: Result<seq<(nat, string)>>, ghost listed: seq<string>)
    requires c.Valid() && c.Serves(docs) && (projectFiles != [] ==> c.ServesFresh(docs))
    modifies c`text, c`order, c`trees, c.storage`fetches
    ensures c.Valid() && c.Serves(docs)
    ensures r.Ok? <==> SitemapMaps(docs, rootFilePath).Ok? && forall k :: k in listed ==> k in docs
    ensures r.Ok? ==> c.Keys() == listed && (forall k :: k in listed ==> k in docs) &&
                      r.value == Report(listed, docs, SitemapMaps(docs, rootFilePath).value)
    ensures r.Ok? ==> NoDuplicates(listed) && old(c.ListedSet()) + Elements(projectFiles) <= Elements(listed)
  {
    var maps, topics := DiscoverAndIndex(c, projectFiles, rootFilePath, docs);
    if maps.Err? {
      return Err(maps.message), [];
    }
    var keys := c.Keys();
    listed := keys;
    var refs := CollectReferences(c, keys, docs);
    if refs.Err? {
      return Err(refs.message), keys;
    }
    var lines := Classify(refs.value, c.Keys(), maps.value, topics);
    r := Ok(lines);
  }
}
