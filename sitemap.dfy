/** src/util/sitemap.ts: finding the maps of a DITA map tree, listing their
    topicrefs and topicheads as flat items, and arranging those items into a
    hierarchy, either expanded or compressed to indexes. */
module Sitemap {
  import opened Results
  import opened Xml
  import opened XPath
  import opened DomCaching
  import Strings

  /** `SitemapNodeType`: a topicref or topichead of some map. */
  datatype Item = Item(id: string, navtitle: string, target: Option<string>, resource: bool)

  /** `SitemapTreeType`: an item with its children. An entry decoded from a
      compressed tree whose index names no item carries no item fields. */
  datatype Entry = Entry(item: Option<Item>, children: seq<Entry>)

  /** `MinifiedSitemapTree`: a number or an array of those. */
  datatype Mini = Index(i: int) | Arr(elems: seq<Mini>)

  predicate Named(n: Node, name: string)
  {
    n.Element? && n.name == name
  }

  function Attr(n: Node, a: string): Option<string>
  {
    if n.Element? && a in n.attrs then Some(n.attrs[a]) else None
  }

  // ---------------------------------------------------------------------
  // getUniqueMapsInTree

  /** `//mapref[@href]/resolve-relative-reference($self, @href)`. */
  function MapTargets(root: Node, self: string): seq<string>
  {
    MapTargetsAt(root, self, ElementPaths(root))
  }

  function MapTargetsAt(root: Node, self: string, ps: seq<Path>): seq<string>
  {
    if ps == [] then []
    else
      var m := At(root, ps[0]);
      var here := if m.Some? && Named(m.value, "mapref") && "href" in m.value.attrs
        then [ResolveRelativeReference(self, m.value.attrs["href"])] else [];
      here + MapTargetsAt(root, self, ps[1..])
  }

  /** The targets not yet visited nor queued. */
  function Unseen(ts: seq<string>, known: seq<string>, queue: seq<string>): (r: seq<string>)
    ensures forall t :: t in r <==> t in ts && t !in known && t !in queue
    ensures |r| <= |ts|
    ensures (forall t :: t in ts ==> t in known || t in queue) ==> r == []
  {
    if ts == [] then []
    else (if ts[0] !in known && ts[0] !in queue then [ts[0]] else []) + Unseen(ts[1..], known, queue)
  }

  /** Every key the walk can ever queue: the root and the targets of the
      maps of `docs`. */
  ghost function Universe(docs: map<string, Node>, root: string): set<string>
  {
    {root} + (set k, t | k in docs && t in MapTargets(docs[k], k) :: t)
  }

  lemma TargetsInUniverse(docs: map<string, Node>, root: string, f: string)
    requires f in docs
    ensures forall t :: t in MapTargets(docs[f], f) ==> t in Universe(docs, root)
  {
  }

  ghost predicate Within(u: set<string>, xs: seq<string>)
  {
    forall x :: x in xs ==> x in u
  }

  ghost predicate Loaded(docs: map<string, Node>, known: seq<string>)
  {
    forall x :: x in known ==> x in docs
  }

  /** The targets of a visited map were visited or are queued. */
  ghost predicate Closed(docs: map<string, Node>, known: seq<string>, queue: seq<string>)
  {
    forall x, t :: x in known && x in docs && t in MapTargets(docs[x], x) ==> t in known || t in queue
  }

  /** What holds between two steps of the walk: visited maps were loaded,
      everything seen is in the universe, and the targets of a visited map
      were visited or are queued. */
  ghost predicate WalkInvariant(docs: map<string, Node>, root: string, known: seq<string>, queue: seq<string>)
  {
    Loaded(docs, known) && Within(Universe(docs, root), known) &&
    Within(Universe(docs, root), queue) && Closed(docs, known, queue)
  }

  /** Keys in the universe not yet visited: the walk's measure. */
  ghost function Unvisited(docs: map<string, Node>, root: string, known: seq<string>): nat
  {
    |Universe(docs, root) - set x | x in known|
  }

  /** The walk as a function of the documents: shift the queue, visit, and
      put the new targets in front; stop at an empty queue or an empty key. */
  function Walk(docs: map<string, Node>, root: string, known: seq<string>, queue: seq<string>): Result<seq<string>>
    requires WalkInvariant(docs, root, known, queue)
    decreases Unvisited(docs, root, known), |queue|
  {
    if queue == [] || queue[0] == "" then Ok(known)
    else
      var f := queue[0];
      var known', rest := known + [f], queue[1..];
      if f !in docs then Err("could not load " + f)
      else
        var found := Unseen(MapTargets(docs[f], f), known', rest);
        WalkStep(docs, root, known, queue);
        Walk(docs, root, known', found + rest)
  }

  lemma ClosedStep(docs: map<string, Node>, known: seq<string>, queue: seq<string>)
    requires Closed(docs, known, queue)
    requires queue != [] && queue[0] in docs
    ensures var f := queue[0];
      var known', rest := known + [f], queue[1..];
      Closed(docs, known', Unseen(MapTargets(docs[f], f), known', rest) + rest)
  {
    var f := queue[0];
    var known', rest := known + [f], queue[1..];
    var q' := Unseen(MapTargets(docs[f], f), known', rest) + rest;
    forall x, t | x in known' && x in docs && t in MapTargets(docs[x], x)
      ensures t in known' || t in q'
    {
      if x in known {
        assert t in known || t in queue;
      }
    }
  }

  /** Visiting one more key never grows the unvisited part of `u`, and
      visiting a new key of `u` shrinks it. */
  lemma UnvisitedStep(u: set<string>, known: seq<string>, f: string)
    ensures var before, after := u - (set x | x in known), u - (set x | x in known + [f]);
      |after| <= |before| && (f in u && f !in known ==> |after| < |before|)
  {
    var before, after := u - (set x | x in known), u - (set x | x in known + [f]);
    assert after == before - {f};
  }

  lemma MeasureStep(docs: map<string, Node>, root: string, known: seq<string>, queue: seq<string>)
    requires Closed(docs, known, queue)
    requires queue != [] && queue[0] in docs && queue[0] in Universe(docs, root)
    ensures var f := queue[0];
      var known', rest := known + [f], queue[1..];
      var found := Unseen(MapTargets(docs[f], f), known', rest);
      Unvisited(docs, root, known') < Unvisited(docs, root, known) ||
      (Unvisited(docs, root, known') == Unvisited(docs, root, known) && |found + rest| < |queue|)
  {
    var f := queue[0];
    var known', rest := known + [f], queue[1..];
    UnvisitedStep(Universe(docs, root), known, f);
    if f in known {
      assert (set x | x in known') == (set x | x in known);
      forall t | t in MapTargets(docs[f], f)
        ensures t in known' || t in rest
      {
        assert t in known || t in queue;
      }
      assert Unseen(MapTargets(docs[f], f), known', rest) == [];
    }
  }

  /** One step keeps the invariant and shrinks the measure. */
  lemma WalkStep(docs: map<string, Node>, root: string, known: seq<string>, queue: seq<string>)
    requires WalkInvariant(docs, root, known, queue)
    requires queue != [] && queue[0] != "" && queue[0] in docs
    ensures var f := queue[0];
      var known', rest := known + [f], queue[1..];
      var found := Unseen(MapTargets(docs[f], f), known', rest);
      WalkInvariant(docs, root, known', found + rest) &&
      (Unvisited(docs, root, known') < Unvisited(docs, root, known) ||
       (Unvisited(docs, root, known') == Unvisited(docs, root, known) && |found + rest| < |queue|))
  {
    var f := queue[0];
    TargetsInUniverse(docs, root, f);
    ClosedStep(docs, known, queue);
    MeasureStep(docs, root, known, queue);
  }

  /** `getUniqueMapsInTree` over the documents the cache serves. */
  function UniqueMaps(docs: map<string, Node>, root: string): Result<seq<string>>
  {
    assert WalkInvariant(docs, root, [], [root]);
    Walk(docs, root, [], [root])
  }

  predicate SameOutcome<T(==)>(a: Result<T>, b: Result<T>)
  {
    a.Ok? == b.Ok? && (a.Ok? ==> a.value == b.value)
  }

  /** The maps already visited stay at the head of the result, and every
      listed key loaded. */
  lemma {:induction false} WalkExtends(docs: map<string, Node>, root: string, known: seq<string>, queue: seq<string>)
    requires WalkInvariant(docs, root, known, queue)
    ensures var r := Walk(docs, root, known, queue);
      r.Ok? ==> known <= r.value && forall x :: x in r.value ==> x in docs
    decreases Unvisited(docs, root, known), |queue|
  {
    if queue == [] || queue[0] == "" {
    } else if queue[0] in docs {
      var f := queue[0];
      WalkStep(docs, root, known, queue);
      var found := Unseen(MapTargets(docs[f], f), known + [f], queue[1..]);
      WalkExtends(docs, root, known + [f], found + queue[1..]);
    }
  }

  /** Every map a listed map references is listed. */
  ghost predicate ClosedUnder(docs: map<string, Node>, xs: seq<string>)
  {
    forall x, t :: x in xs && x in docs && t in MapTargets(docs[x], x) ==> t in xs
  }

  /** When no key of the universe is empty, a successful walk is closed
      under maprefs: every map a listed map references is listed. */
  lemma {:induction false} WalkCloses(docs: map<string, Node>, root: string, known: seq<string>, queue: seq<string>)
    requires WalkInvariant(docs, root, known, queue)
    requires "" !in Universe(docs, root)
    ensures var r := Walk(docs, root, known, queue);
      r.Ok? ==> ClosedUnder(docs, r.value)
    decreases Unvisited(docs, root, known), |queue|
  {
    if queue != [] {
      assert queue[0] in Universe(docs, root);
      if queue[0] in docs {
        var f := queue[0];
        WalkStep(docs, root, known, queue);
        var found := Unseen(MapTargets(docs[f], f), known + [f], queue[1..]);
        WalkUnfold(docs, root, known, queue);
        WalkCloses(docs, root, known + [f], found + queue[1..]);
      }
    }
  }

  predicate Distinct(s: seq<string>)
  {
    forall i, j :: 0 <= i < j < |s| ==> s[i] != s[j]
  }

  lemma DistinctAppend(a: seq<string>, b: seq<string>)
    requires Distinct(a) && Distinct(b) && forall x :: x in a ==> x !in b
    ensures Distinct(a + b)
  {
    forall i, j | 0 <= i < j < |a + b|
      ensures (a + b)[i] != (a + b)[j]
    {
      if j >= |a| && i < |a| {
        assert (a + b)[i] in a && (a + b)[j] in b;
      }
    }
  }

  lemma {:induction false} UnseenDistinct(ts: seq<string>, known: seq<string>, queue: seq<string>)
    requires Distinct(ts)
    ensures Distinct(Unseen(ts, known, queue))
  {
    if ts != [] {
      UnseenDistinct(ts[1..], known, queue);
      assert ts[0] !in ts[1..] by {
        forall i | 0 <= i < |ts[1..]|
          ensures ts[1..][i] != ts[0]
        {
          assert ts[1..][i] == ts[i + 1];
        }
      }
      DistinctAppend(if ts[0] !in known && ts[0] !in queue then [ts[0]] else [], Unseen(ts[1..], known, queue));
    }
  }

  lemma {:induction false} DistinctCounts(s: seq<string>)
    ensures Distinct(s) <==> forall x :: multiset(s)[x] <= 1
  {
    if s != [] {
      DistinctCounts(s[1..]);
      assert s == [s[0]] + s[1..];
      if Distinct(s) {
        assert s[0] !in s[1..] by {
          forall i | 0 <= i < |s[1..]|
            ensures s[1..][i] != s[0]
          {
            assert s[1..][i] == s[i + 1];
          }
        }
        assert Distinct(s[1..]) by {
          forall i, j | 0 <= i < j < |s[1..]|
            ensures s[1..][i] != s[1..][j]
          {
            assert s[1..][i] == s[i + 1] && s[1..][j] == s[j + 1];
          }
        }
      }
      if forall x :: multiset(s)[x] <= 1 {
        assert forall x :: multiset(s)[x] == multiset(s[1..])[x] + (if x == s[0] then 1 else 0);
        assert multiset(s[1..])[s[0]] == 0;
        forall i, j | 0 <= i < j < |s|
          ensures s[i] != s[j]
        {
          if i == 0 {
            assert s[j] == s[1..][j - 1];
          } else {
            assert s[i] == s[1..][i - 1] && s[j] == s[1..][j - 1];
          }
        }
      }
    }
  }

  lemma DistinctPermutation(a: seq<string>, b: seq<string>)
    requires Distinct(a) && multiset(a) == multiset(b)
    ensures Distinct(b)
  {
    DistinctCounts(a);
    DistinctCounts(b);
  }

  /** Queueing the unseen targets of a visited map keeps the seen keys
      distinct. */
  lemma DistinctStep(known: seq<string>, queue: seq<string>, ts: seq<string>)
    requires queue != [] && Distinct(known + queue) && Distinct(ts)
    ensures var found := Unseen(ts, known + [queue[0]], queue[1..]);
      Distinct(known + [queue[0]] + (found + queue[1..]))
  {
    var known', rest := known + [queue[0]], queue[1..];
    var found := Unseen(ts, known', rest);
    assert known' + rest == known + queue;
    UnseenDistinct(ts, known', rest);
    DistinctAppend(found, known' + rest);
    assert multiset(found + (known' + rest)) == multiset(known' + (found + rest));
    DistinctPermutation(found + (known' + rest), known' + (found + rest));
  }

  /** When no map references the same map twice, the walk lists each map
      once. */
  lemma {:induction false} WalkDistinct(docs: map<string, Node>, root: string, known: seq<string>, queue: seq<string>)
    requires WalkInvariant(docs, root, known, queue)
    requires forall k :: k in docs ==> Distinct(MapTargets(docs[k], k))
    requires Distinct(known + queue)
    ensures var r := Walk(docs, root, known, queue);
      r.Ok? ==> Distinct(r.value)
    decreases Unvisited(docs, root, known), |queue|
  {
    if queue == [] {
      assert known + queue == known;
    } else if queue[0] == "" {
      assert Distinct(known) by {
        forall i, j | 0 <= i < j < |known|
          ensures known[i] != known[j]
        {
          assert (known + queue)[i] == known[i] && (known + queue)[j] == known[j];
        }
      }
    } else if queue[0] in docs {
      var f := queue[0];
      WalkStep(docs, root, known, queue);
      DistinctStep(known, queue, MapTargets(docs[f], f));
      var found := Unseen(MapTargets(docs[f], f), known + [f], queue[1..]);
      WalkDistinct(docs, root, known + [f], found + queue[1..]);
    }
  }

  /** `getUniqueMapsInTree` lists the root first, then only maps it
      could load. */
  lemma UniqueMapsStartAtRoot(docs: map<string, Node>, root: string)
    requires root != ""
    ensures var r := UniqueMaps(docs, root);
      r.Ok? ==> |r.value| >= 1 && r.value[0] == root && forall k :: k in r.value ==> k in docs
  {
    assert WalkInvariant(docs, root, [], [root]);
    if root in docs {
      WalkUnfold(docs, root, [], [root]);
      var found := Unseen(MapTargets(docs[root], root), [] + [root], [root][1..]);
      WalkExtends(docs, root, [] + [root], found + [root][1..]);
    }
  }

  /** With no empty key among the maprefs, every map a listed map
      references is listed too. */
  lemma UniqueMapsClosed(docs: map<string, Node>, root: string)
    requires "" !in Universe(docs, root)
    ensures var r := UniqueMaps(docs, root);
      r.Ok? ==> forall x, t :: x in r.value && x in docs && t in MapTargets(docs[x], x) ==> t in r.value
  {
    assert WalkInvariant(docs, root, [], [root]);
    WalkCloses(docs, root, [], [root]);
  }

  /** When no map references the same map twice, no map is listed twice. */
  lemma UniqueMapsDistinct(docs: map<string, Node>, root: string)
    requires forall k :: k in docs ==> Distinct(MapTargets(docs[k], k))
    ensures var r := UniqueMaps(docs, root);
      r.Ok? ==> Distinct(r.value)
  {
    assert WalkInvariant(docs, root, [], [root]);
    assert Distinct([] + [root]);
    WalkDistinct(docs, root, [], [root]);
  }

  /** A root map `r` with two maprefs to the empty map `//s`. */
  function MapTwice(): Node { Element("map", map[], [MaprefS(), MaprefS()]) }
  function EmptyMap(): Node { Element("map", map[], []) }
  function TwiceReferencing(): map<string, Node> { map["r" := MapTwice(), "//s" := EmptyMap()] }

  lemma TwiceReferencingTargets()
    ensures MapTargets(MapTwice(), "r") == ["//s", "//s"]
    ensures MapTargets(EmptyMap(), "//s") == []
  {
    var r := MapTwice();
    assert Strings.StartsWith("//s", "//");
    ExternalUnchanged("", "r", "//s");
    assert ChildPaths(r, 2) == [];
    assert ElementPaths(MaprefS()) == [[]];
    var p1 := ChildPaths(r, 1);
    assert [1] + [] == [1] && [0] + [] == [0];
    assert |p1| == 1 && p1[0] == [1];
    assert p1 == [[1]];
    var p0 := ChildPaths(r, 0);
    assert |p0| == 2 && p0[0] == [0] && p0[1] == [1];
    assert p0 == [[0], [1]];
    assert ElementPaths(r) == [[], [0], [1]];
    assert MapTargetsAt(r, "r", [[1]]) == ["//s"];
    assert MapTargetsAt(r, "r", [[0], [1]]) == ["//s", "//s"];
    assert ElementPaths(EmptyMap()) == [[]];
  }

  lemma WalkUnfold(docs: map<string, Node>, root: string, known: seq<string>, queue: seq<string>)
    requires WalkInvariant(docs, root, known, queue)
    requires queue != [] && queue[0] != "" && queue[0] in docs
    ensures var f := queue[0];
      var found := Unseen(MapTargets(docs[f], f), known + [f], queue[1..]);
      WalkInvariant(docs, root, known + [f], found + queue[1..]) &&
      Walk(docs, root, known, queue) == Walk(docs, root, known + [f], found + queue[1..])
  {
    WalkStep(docs, root, known, queue);
  }

  lemma TwiceFirstVisit(docs: map<string, Node>)
    requires docs == TwiceReferencing()
    ensures WalkInvariant(docs, "r", ["r"], ["//s", "//s"])
    ensures UniqueMaps(docs, "r") == Walk(docs, "r", ["r"], ["//s", "//s"])
  {
    TwiceReferencingTargets();
    assert WalkInvariant(docs, "r", [], ["r"]);
    WalkUnfold(docs, "r", [], ["r"]);
    assert docs["r"] == MapTwice();
    var ts: seq<string> := ["//s", "//s"];
    assert ts[1..] == ["//s"] && ["//s"][1..] == [];
    assert Unseen(["//s"], ["r"], []) == ["//s"];
    assert Unseen(ts, ["r"], []) == ts;
    assert [] + ["r"] == ["r"] && ts + ["r"][1..] == ts;
  }

  lemma TwiceLaterVisits(docs: map<string, Node>)
    requires docs == TwiceReferencing()
    requires WalkInvariant(docs, "r", ["r"], ["//s", "//s"])
    ensures Walk(docs, "r", ["r"], ["//s", "//s"]) == Ok(["r", "//s", "//s"])
  {
    TwiceReferencingTargets();
    assert ["r"] + ["//s"] == ["r", "//s"] && ["r", "//s"] + ["//s"] == ["r", "//s", "//s"];
    WalkUnfold(docs, "r", ["r"], ["//s", "//s"]);
    assert Unseen(MapTargets(docs["//s"], "//s"), ["r", "//s"], ["//s"]) == [];
    assert [] + ["//s", "//s"][1..] == ["//s"];
    WalkUnfold(docs, "r", ["r", "//s"], ["//s"]);
    assert Unseen(MapTargets(docs["//s"], "//s"), ["r", "//s", "//s"], []) == [];
    assert [] + ["//s"][1..] == [];
    assert Walk(docs, "r", ["r", "//s", "//s"], []) == Ok(["r", "//s", "//s"]);
  }

  /** As written, a map that references the same map twice makes the walk
      list that map twice: the queue filter only looks at keys already
      visited or queued, not at the other new targets. */
  lemma WalkListsTwiceReferencedMapTwice(docs: map<string, Node>)
    requires docs == TwiceReferencing()
    ensures UniqueMaps(docs, "r") == Ok(["r", "//s", "//s"])
  {
    TwiceFirstVisit(docs);
    TwiceLaterVisits(docs);
  }

  /** Where a walk takes its maps from: the documents the cache serves, or,
      when refreshing, the documents in storage, since every map is busted
      before it is loaded, whatever tree the cache held for it. */
  ghost predicate Sees(c: FileCache, forceRefresh: bool, docs: map<string, Node>)
    reads c, c.storage, c.trees.Values
  {
    c.Valid() && if forceRefresh then c.ServesFresh(docs) else c.Serves(docs)
  }

  /** One turn of the walk from `known`, `queue` to `known'`, `queue'`:
      the invariant holds after it, the rest of the walk is the same, and
      the measure shrinks. */
  ghost predicate WalkTurn(docs: map<string, Node>, root: string, known: seq<string>, queue: seq<string>,
                           known': seq<string>, queue': seq<string>)
  {
    WalkInvariant(docs, root, known, queue) && WalkInvariant(docs, root, known', queue') &&
    Walk(docs, root, known', queue') == Walk(docs, root, known, queue) &&
    (Unvisited(docs, root, known') < Unvisited(docs, root, known) ||
     (Unvisited(docs, root, known') == Unvisited(docs, root, known) && |queue'| < |queue|))
  }

  lemma WalkTurns(docs: map<string, Node>, root: string, known: seq<string>, queue: seq<string>)
    requires WalkInvariant(docs, root, known, queue)
    requires queue != [] && queue[0] != "" && queue[0] in docs
    ensures var f := queue[0];
      WalkTurn(docs, root, known, queue, known + [f], Unseen(MapTargets(docs[f], f), known + [f], queue[1..]) + queue[1..])
  {
    WalkStep(docs, root, known, queue);
    WalkUnfold(docs, root, known, queue);
  }

  /** The maps `ks` are cached as `docs` holds them. */
  ghost predicate CachedAs(c: FileCache, docs: map<string, Node>, ks: seq<string>)
    reads c, c.trees.Values
  {
    forall k :: k in ks ==> k in c.trees && k in docs && c.trees[k].root == docs[k]
  }

  /** One visit of `getUniqueMapsInTree`: bust the map when refreshing,
      then load it. */
  method LoadMap(c: FileCache, f: string, forceRefresh: bool, ghost docs: map<string, Node>, ghost cached: seq<string>)
    returns (r: Result<Node>)
    requires Sees(c, forceRefresh, docs) && CachedAs(c, docs, cached)
    modifies c`text, c`order, c`trees, c.storage`fetches
    ensures Sees(c, forceRefresh, docs)
    ensures r.Ok? <==> f in docs
    ensures r.Ok? ==> r.value == docs[f] && CachedAs(c, docs, cached + [f])
    ensures r.Ok? ==> old(c.ListedSet()) <= c.ListedSet()
    ensures forceRefresh ==> c.storage.fetches == old(c.storage.fetches) + 1
  {
    if forceRefresh {
      c.BustFile(f);
    }
    var dom := c.GetDocument(f);
    if dom.Err? {
      return Err(dom.message);
    }
    r := Ok(dom.value.root);
  }

  /** `getUniqueMapsInTree`: a worklist of map keys, visited in the order
      they are shifted from the queue; each visited map's maprefs that are
      neither visited nor queued go to the front, in document order. With
      `forceRefresh` each map is busted before it is loaded, so each is
      fetched again. `docs` names the documents the walk sees (those the
      cache serves, or when refreshing those in storage); a key that does
      not load throws. Every listed map is left cached as it was read. */
  method GetUniqueMapsInTree(c: FileCache, root: string, forceRefresh: bool, ghost docs: map<string, Node>)
    returns (r: Result<seq<string>>)
    requires Sees(c, forceRefresh, docs)
    modifies c`text, c`order, c`trees, c.storage`fetches
    ensures Sees(c, forceRefresh, docs)
    ensures SameOutcome(r, UniqueMaps(docs, root))
    ensures r.Ok? && forceRefresh ==> c.storage.fetches == old(c.storage.fetches) + |r.value|
    ensures r.Ok? ==> forall k :: k in r.value ==> k in c.trees && k in docs && c.trees[k].root == docs[k]
    ensures r.Ok? ==> old(c.ListedSet()) <= c.ListedSet()
  {
    var known: seq<string> := [];
    var queue: seq<string> := [root];
    assert WalkInvariant(docs, root, known, queue);
    while queue != [] && queue[0] != ""
      invariant Sees(c, forceRefresh, docs)
      invariant WalkInvariant(docs, root, known, queue)
      invariant Walk(docs, root, known, queue) == UniqueMaps(docs, root)
      invariant forceRefresh ==> c.storage.fetches == old(c.storage.fetches) + |known|
      invariant CachedAs(c, docs, known)
      invariant old(c.ListedSet()) <= c.ListedSet()
      decreases Unvisited(docs, root, known), |queue|
    {
      var err;
      err, known, queue := VisitMap(c, root, forceRefresh, docs, known, queue);
      if err.Some? {
        return Err(err.value);
      }
    }
    r := Ok(known);
  }

  /** One turn of the worklist: shift a key, load its map, queue the
      targets not seen yet. */
  method VisitMap(c: FileCache, root: string, forceRefresh: bool, ghost docs: map<string, Node>,
                  known: seq<string>, queue: seq<string>)
    returns (err: Option<string>, known': seq<string>, queue': seq<string>)
    requires Sees(c, forceRefresh, docs)
    requires WalkInvariant(docs, root, known, queue) && queue != [] && queue[0] != ""
    requires CachedAs(c, docs, known)
    modifies c`text, c`order, c`trees, c.storage`fetches
    ensures Sees(c, forceRefresh, docs)
    ensures forceRefresh ==> c.storage.fetches == old(c.storage.fetches) + 1
    ensures err.Some? <==> queue[0] !in docs
    ensures err.Some? ==> Walk(docs, root, known, queue).Err?
    ensures err.None? ==>
      known' == known + [queue[0]] && WalkTurn(docs, root, known, queue, known', queue') &&
      CachedAs(c, docs, known') && old(c.ListedSet()) <= c.ListedSet()
  {
    var f := queue[0];
    var m := LoadMap(c, f, forceRefresh, docs, known);
    if m.Err? {
      return Some(m.message), known, queue;
    }
    var found := Unseen(MapTargets(m.value, f), known + [f], queue[1..]);
    WalkTurns(docs, root, known, queue);
    err, known', queue' := None, known + [f], found + queue[1..];
  }

  // ---------------------------------------------------------------------
  // getUniqueItemsFromMap(s)

  predicate IsTopicref(n: Node)
  {
    Named(n, "topicref") || Named(n, "topichead")
  }

  /** The element children of `cs` with the given name, in order. */
  function ChildrenNamed(cs: seq<Node>, name: string): (r: seq<Node>)
    ensures forall x :: x in r <==> x in cs && Named(x, name)
  {
    if cs == [] then []
    else (if Named(cs[0], name) then [cs[0]] else []) + ChildrenNamed(cs[1..], name)
  }

  /** `./topicmeta/navtitle`, in document order. */
  function Navtitles(metas: seq<Node>): seq<Node>
  {
    if metas == [] then []
    else
      (if metas[0].Element? then ChildrenNamed(metas[0].children, "navtitle") else []) + Navtitles(metas[1..])
  }

  /** `string(./topicmeta/navtitle)`: empty when there is none; `string()`
      of more than one node is a type error. */
  function NavtitleOf(n: Node): (r: Result<string>)
    requires n.Element?
    ensures r.Ok? <==> |Navtitles(ChildrenNamed(n.children, "topicmeta"))| <= 1
  {
    var ns := Navtitles(ChildrenNamed(n.children, "topicmeta"));
    if |ns| == 0 then Ok("")
    else if |ns| == 1 then Ok(StringValue(ns[0]))
    else Err("string() of more than one navtitle")
  }

  /** The map entry built for one topicref or topichead of map `self`. */
  function ItemOf(n: Node, self: string): Result<Item>
    requires n.Element?
  {
    var title := NavtitleOf(n);
    if title.Err? then Err(title.message)
    else
      Ok(Item(
        id := if "id" in n.attrs then n.attrs["id"] else "",
        navtitle := title.value,
        target := if "href" in n.attrs then Some(ResolveRelativeReference(self, n.attrs["href"])) else None,
        resource := "processing-role" in n.attrs && n.attrs["processing-role"] == "resource-only"))
  }

  function ElementAt(root: Node, p: Path): (r: Node)
    requires IsElementAt(root, p)
    ensures r.Element? && At(root, p) == Some(r)
  {
    At(root, p).value
  }

  /** The paths of `//(topicref|topichead)`, in document order. */
  function TopicrefPaths(root: Node, ps: seq<Path>): (r: seq<Path>)
    requires forall i :: 0 <= i < |ps| ==> IsElementAt(root, ps[i])
    ensures forall i :: 0 <= i < |r| ==> IsElementAt(root, r[i]) && IsTopicref(ElementAt(root, r[i]))
    ensures forall p :: p in r ==> p in ps
    ensures forall i :: 0 <= i < |ps| && IsTopicref(ElementAt(root, ps[i])) ==> ps[i] in r
  {
    if ps == [] then []
    else
      (if IsTopicref(ElementAt(root, ps[0])) then [ps[0]] else []) + TopicrefPaths(root, ps[1..])
  }

  /** The items of the elements at `ps`: one per path, in the same order,
      or the error of the first element whose item cannot be built. */
  function ItemsAt(root: Node, self: string, ps: seq<Path>): (r: Result<seq<Item>>)
    requires forall i :: 0 <= i < |ps| ==> IsElementAt(root, ps[i])
    ensures r.Ok? <==> forall i :: 0 <= i < |ps| ==> ItemOf(ElementAt(root, ps[i]), self).Ok?
    ensures r.Ok? ==>
              |r.value| == |ps| &&
              forall i :: 0 <= i < |ps| ==> ItemOf(ElementAt(root, ps[i]), self) == Ok(r.value[i])
  {
    if ps == [] then Ok([])
    else
      var first := ItemOf(ElementAt(root, ps[0]), self);
      var rest := ItemsAt(root, self, ps[1..]);
      if first.Err? then Err(first.message)
      else if rest.Err? then Err(rest.message)
      else Ok([first.value] + rest.value)
  }

  /** The `array { //(topicref|topichead)/map { ... } }` query of a map. */
  function ItemsOf(root: Node, self: string): Result<seq<Item>>
  {
    ItemsAt(root, self, TopicrefPaths(root, ElementPaths(root)))
  }

  /** What `getUniqueItemsFromMap` gives for a key of the documents. */
  function ItemsFor(docs: map<string, Node>, k: string): Result<seq<Item>>
  {
    if k in docs then ItemsOf(docs[k], k) else Err("could not load " + k)
  }

  /** The items of map `k`: one per topicref or topichead, in document
      order; the map is busted first when refreshing. */
  method GetUniqueItemsFromMap(c: FileCache, k: string, forceRefresh: bool, ghost docs: map<string, Node>)
    returns (r: Result<seq<Item>>)
    requires Sees(c, forceRefresh, docs)
    modifies c`text, c`order, c`trees, c.storage`fetches
    ensures Sees(c, forceRefresh, docs)
    ensures SameOutcome(r, ItemsFor(docs, k))
    ensures r.Ok? ==> k in c.trees && c.trees[k].root == docs[k] && old(c.ListedSet()) <= c.ListedSet()
    ensures forceRefresh ==> c.storage.fetches == old(c.storage.fetches) + 1
  {
    var m := LoadMap(c, k, forceRefresh, docs, []);
    if m.Err? {
      return Err(m.message);
    }
    r := ItemsOf(m.value, k);
  }

  /** The items of the keys `ks`, key after key, or the first error. */
  function Gather(ks: seq<string>, load: string -> Result<seq<Item>>): Result<seq<Item>>
  {
    if ks == [] then Ok([])
    else
      var init := Gather(ks[..|ks| - 1], load);
      var last := load(ks[|ks| - 1]);
      if init.Err? then init
      else if last.Err? then Err(last.message)
      else Ok(init.value + last.value)
  }

  /** The items of two runs of keys are those of the first run then those
      of the second. */
  lemma {:induction false} GatherAppend(load: string -> Result<seq<Item>>, a: seq<string>, b: seq<string>)
    ensures Gather(a + b, load).Ok? == (Gather(a, load).Ok? && Gather(b, load).Ok?)
    ensures Gather(a + b, load).Ok? ==>
              Gather(a + b, load).value == Gather(a, load).value + Gather(b, load).value
    decreases |b|
  {
    if b == [] {
      assert a + b == a;
    } else {
      var b' := b[..|b| - 1];
      assert (a + b)[..|a + b| - 1] == a + b' && (a + b)[|a + b| - 1] == b[|b| - 1];
      GatherAppend(load, a, b');
    }
  }

  /** One more key: its items are appended, and its error ends the run. */
  lemma {:induction false} GatherNext(load: string -> Result<seq<Item>>, ks: seq<string>, i: nat)
    requires i < |ks| && Gather(ks[..i], load).Ok?
    ensures load(ks[i]).Ok? ==> Gather(ks[..i + 1], load) == Ok(Gather(ks[..i], load).value + load(ks[i]).value)
    ensures load(ks[i]).Err? ==> Gather(ks, load).Err?
  {
    assert ks[..i + 1][..i] == ks[..i];
    if load(ks[i]).Err? {
      GatherAppend(load, ks[..i + 1], ks[i + 1..]);
      assert ks[..i + 1] + ks[i + 1..] == ks;
    }
  }

  /** The items of the maps `ks`, map after map, or the first error. */
  function ItemsForAll(docs: map<string, Node>, ks: seq<string>): Result<seq<Item>>
  {
    Gather(ks, k => ItemsFor(docs, k))
  }

  /** `getUniqueItemsFromMaps`: the items of each map in turn, appended. */
  method GetUniqueItemsFromMaps(c: FileCache, ks: seq<string>, forceRefresh: bool, ghost docs: map<string, Node>)
    returns (r: Result<seq<Item>>)
    requires Sees(c, forceRefresh, docs)
    modifies c`text, c`order, c`trees, c.storage`fetches
    ensures Sees(c, forceRefresh, docs)
    ensures SameOutcome(r, ItemsForAll(docs, ks))
    ensures r.Ok? && forceRefresh ==> c.storage.fetches == old(c.storage.fetches) + |ks|
    ensures r.Ok? ==> old(c.ListedSet()) <= c.ListedSet()
  {
    var results: seq<Item> := [];
    var i := 0;
    while i < |ks|
      invariant 0 <= i <= |ks|
      invariant Sees(c, forceRefresh, docs)
      invariant ItemsForAll(docs, ks[..i]) == Ok(results)
      invariant forceRefresh ==> c.storage.fetches == old(c.storage.fetches) + i
      invariant old(c.ListedSet()) <= c.ListedSet()
    {
      var items := GetUniqueItemsFromMap(c, ks[i], forceRefresh, docs);
      GatherNext(k => ItemsFor(docs, k), ks, i);
      if items.Err? {
        return Err(items.message);
      }
      results := results + items.value;
      i := i + 1;
    }
    assert ks[..i] == ks;
    r := Ok(results);
  }

  // ---------------------------------------------------------------------
  // getItemTree and its two boxings

  /** The children `getItemTree` descends into. */
  predicate IsTreeChild(n: Node)
  {
    Named(n, "topicref") || Named(n, "topichead") || Named(n, "mapref")
  }

  /** What `flat.concat(...item)` adds for one child's result: `spread(x)`
      for each of its elements. */
  function Flatten<T>(xs: seq<T>, spread: T -> seq<T>): seq<T>
  {
    if xs == [] then [] else spread(xs[0]) + Flatten(xs[1..], spread)
  }

  /** `getItemTree`'s `recurse` on element `n` of map `self`: a mapref
      continues at the root element of the map it references, any other
      element boxes the flattened results of its topicref, topichead and
      mapref children. `fuel` bounds the number of maprefs followed. */
  function ItemTree<T>(docs: map<string, Node>, fuel: nat, self: string, n: Node,
                       box: (Node, seq<T>) -> Result<seq<T>>, spread: T -> seq<T>): Result<seq<T>>
    decreases fuel, n, 1
  {
    if Named(n, "mapref") then
      if "href" !in n.attrs then Err("resolve-relative-reference of an empty sequence")
      else
        var target := ResolveRelativeReference(self, n.attrs["href"]);
        if fuel == 0 then Err("maprefs nested too deep")
        else if target !in docs then Err("could not load " + target)
        else ItemTree(docs, fuel - 1, target, docs[target], box, spread)
    else
      var cs := if n.Element? then ChildTrees(docs, fuel, self, n, 0, box, spread) else Ok([]);
      if cs.Err? then cs else box(n, cs.value)
  }

  function ChildTrees<T>(docs: map<string, Node>, fuel: nat, self: string, n: Node, i: nat,
                         box: (Node, seq<T>) -> Result<seq<T>>, spread: T -> seq<T>): Result<seq<T>>
    requires n.Element? && i <= |n.children|
    decreases fuel, n, 0, |n.children| - i
  {
    if i == |n.children| then Ok([])
    else if !IsTreeChild(n.children[i]) then ChildTrees(docs, fuel, self, n, i + 1, box, spread)
    else
      var first := ItemTree(docs, fuel, self, n.children[i], box, spread);
      var rest := ChildTrees(docs, fuel, self, n, i + 1, box, spread);
      if first.Err? then first
      else if rest.Err? then rest
      else Ok(Flatten(first.value, spread) + rest.value)
  }

  /** The first index of an item with this id. */
  function FindIndex(items: seq<Item>, id: string): (r: Option<nat>)
    ensures r.Some? ==> r.value < |items| && items[r.value].id == id
    ensures r.Some? ==> forall j :: 0 <= j < r.value ==> items[j].id != id
    ensures r.None? ==> forall j :: 0 <= j < |items| ==> items[j].id != id
  {
    if items == [] then None
    else if items[0].id == id then Some(0)
    else
      var r := FindIndex(items[1..], id);
      if r.Some? then Some(r.value + 1) else None
  }

  /** Where a topicref or topichead lands among `items`: `@id || null`
      must be truthy, and an id no item has passes the children up. */
  function Place(items: seq<Item>, n: Node): Result<Option<nat>>
  {
    var id := if n.Element? && "id" in n.attrs then n.attrs["id"] else "";
    if id == "" then Err("Sitemap node was not indexed before building hierarchy")
    else Ok(FindIndex(items, id))
  }

  /** `getExpandedItemTree`'s box. */
  function ExpandedBox(items: seq<Item>): (Node, seq<Entry>) -> Result<seq<Entry>>
  {
    (n: Node, children: seq<Entry>) =>
      if !IsTopicref(n) then Ok(children)
      else
        var place := Place(items, n);
        if place.Err? then Err(place.message)
        else if place.value.None? then Ok(children)
        else Ok([Entry(Some(items[place.value.value]), children)])
  }

  /** `getCompressedItemTree`'s box as written: `[index, children]` or
      `index`, in a one-element array. */
  function CompressedBox(items: seq<Item>): (Node, seq<Mini>) -> Result<seq<Mini>>
  {
    (n: Node, children: seq<Mini>) =>
      if !IsTopicref(n) then Ok(children)
      else
        var place := Place(items, n);
        if place.Err? then Err(place.message)
        else if place.value.None? then Ok(children)
        else if |children| > 0 then Ok([Arr([Index(place.value.value), Arr(children)])])
        else Ok([Index(place.value.value)])
  }

  /** The box that keeps the index and its children array side by side in
      the level, so the compressed tree never depends on how many levels
      it passes through. */
  function CompressedBoxFixed(items: seq<Item>): (Node, seq<Mini>) -> Result<seq<Mini>>
  {
    (n: Node, children: seq<Mini>) =>
      if !IsTopicref(n) then Ok(children)
      else
        var place := Place(items, n);
        if place.Err? then Err(place.message)
        else if place.value.None? then Ok(children)
        else if |children| > 0 then Ok([Index(place.value.value), Arr(children)])
        else Ok([Index(place.value.value)])
  }

  /** `flat.concat(...item)` for items that are no arrays. */
  function SingleEntry(x: Entry): seq<Entry>
  {
    [x]
  }

  function SingleMini(x: Mini): seq<Mini>
  {
    [x]
  }

  /** `flat.concat(...item)` for compressed items: an array argument is
      spread once more. */
  function SpreadMini(x: Mini): seq<Mini>
  {
    if x.Arr? then x.elems else [x]
  }

  /** `getExpandedItemTree`. */
  function ExpandedItemTree(docs: map<string, Node>, fuel: nat, items: seq<Item>, root: string): Result<seq<Entry>>
  {
    if root !in docs then Err("could not load " + root)
    else ItemTree(docs, fuel, root, docs[root], ExpandedBox(items), SingleEntry)
  }

  /** `getCompressedItemTree` as written. */
  function CompressedItemTree(docs: map<string, Node>, fuel: nat, items: seq<Item>, root: string): Result<seq<Mini>>
  {
    if root !in docs then Err("could not load " + root)
    else ItemTree(docs, fuel, root, docs[root], CompressedBox(items), SpreadMini)
  }

  /** `getCompressedItemTree` with the fixed box. */
  function CompressedItemTreeFixed(docs: map<string, Node>, fuel: nat, items: seq<Item>, root: string): Result<seq<Mini>>
  {
    if root !in docs then Err("could not load " + root)
    else ItemTree(docs, fuel, root, docs[root], CompressedBoxFixed(items), SingleMini)
  }

  /** `getItemTree`'s `recurse` on element `n` of map `self`, loading each
      referenced map through the cache. */
  method TreeOf<T>(c: FileCache, fuel: nat, self: string, n: Node,
                   box: (Node, seq<T>) -> Result<seq<T>>, spread: T -> seq<T>, ghost docs: map<string, Node>)
    returns (r: Result<seq<T>>)
    requires c.Valid() && c.Serves(docs)
    modifies c`text, c`order, c`trees, c.storage`fetches
    ensures c.Valid() && c.Serves(docs)
    ensures SameOutcome(r, ItemTree(docs, fuel, self, n, box, spread))
    decreases fuel, n
  {
    if Named(n, "mapref") {
      if "href" !in n.attrs {
        return Err("resolve-relative-reference of an empty sequence");
      }
      var target := ResolveRelativeReference(self, n.attrs["href"]);
      if fuel == 0 {
        return Err("maprefs nested too deep");
      }
      var dom := c.GetDocument(target);
      if dom.Err? {
        return Err(dom.message);
      }
      r := TreeOf(c, fuel - 1, target, dom.value.root, box, spread, docs);
      return;
    }
    var items: seq<T> := [];
    if n.Element? {
      var i := 0;
      ghost var all := ChildTrees(docs, fuel, self, n, 0, box, spread);
      assert all.Ok? ==> [] + all.value == all.value;
      while i < |n.children|
        invariant 0 <= i <= |n.children|
        invariant c.Valid() && c.Serves(docs)
        invariant var rest := ChildTrees(docs, fuel, self, n, i, box, spread);
          ChildTrees(docs, fuel, self, n, 0, box, spread) == if rest.Err? then rest else Ok(items + rest.value)
      {
        if IsTreeChild(n.children[i]) {
          var first := TreeOf(c, fuel, self, n.children[i], box, spread, docs);
          if first.Err? {
            return Err(first.message);
          }
          var rest := ChildTrees(docs, fuel, self, n, i + 1, box, spread);
          if rest.Ok? {
            assert items + (Flatten(first.value, spread) + rest.value) == (items + Flatten(first.value, spread)) + rest.value;
          }
          items := items + Flatten(first.value, spread);
        }
        i := i + 1;
      }
      assert items + [] == items;
    }
    r := box(n, items);
  }

  /** `getItemTree`: the boxed tree of the root map. */
  method GetItemTree<T>(c: FileCache, root: string, fuel: nat,
                        box: (Node, seq<T>) -> Result<seq<T>>, spread: T -> seq<T>, ghost docs: map<string, Node>)
    returns (r: Result<seq<T>>)
    requires c.Valid() && c.Serves(docs)
    modifies c`text, c`order, c`trees, c.storage`fetches
    ensures c.Valid() && c.Serves(docs)
    ensures SameOutcome(r, if root in docs then ItemTree(docs, fuel, root, docs[root], box, spread)
                           else Err("could not load " + root))
  {
    var dom := c.GetDocument(root);
    if dom.Err? {
      return Err(dom.message);
    }
    r := TreeOf(c, fuel, root, dom.value.root, box, spread, docs);
  }

  /** `getExpandedItemTree`: the item tree with entries for the items. */
  method GetExpandedItemTree(c: FileCache, items: seq<Item>, root: string, fuel: nat, ghost docs: map<string, Node>)
    returns (r: Result<seq<Entry>>)
    requires c.Valid() && c.Serves(docs)
    modifies c`text, c`order, c`trees, c.storage`fetches
    ensures c.Valid() && c.Serves(docs)
    ensures SameOutcome(r, ExpandedItemTree(docs, fuel, items, root))
  {
    r := GetItemTree(c, root, fuel, ExpandedBox(items), SingleEntry, docs);
  }

  /** `getCompressedItemTree`, as written. */
  method GetCompressedItemTree(c: FileCache, items: seq<Item>, root: string, fuel: nat, ghost docs: map<string, Node>)
    returns (r: Result<seq<Mini>>)
    requires c.Valid() && c.Serves(docs)
    modifies c`text, c`order, c`trees, c.storage`fetches
    ensures c.Valid() && c.Serves(docs)
    ensures SameOutcome(r, CompressedItemTree(docs, fuel, items, root))
  {
    r := GetItemTree(c, root, fuel, CompressedBox(items), SpreadMini, docs);
  }

  // ---------------------------------------------------------------------
  // extractItemTree

  /** `items[level[i]]`: a number indexes; an array is used as the string
      it converts to, which names an index only when it holds exactly one
      element that does. */
  function ItemAt(items: seq<Item>, m: Mini): Option<Item>
  {
    match m
    case Index(i) => if 0 <= i < |items| then Some(items[i]) else None
    case Arr(es) => if |es| == 1 then ItemAt(items, es[0]) else None
  }

  /** The entries a level decodes to: each element is an item, and an
      array right after it holds that item's children. */
  function Decode(level: seq<Mini>, items: seq<Item>): seq<Entry>
    decreases level
  {
    if level == [] then []
    else if |level| >= 2 && level[1].Arr? then
      [Entry(ItemAt(items, level[0]), Decode(level[1].elems, items))] + Decode(level[2..], items)
    else [Entry(ItemAt(items, level[0]), [])] + Decode(level[1..], items)
  }

  /** `extractItemTree`'s `recurse`: walks the level, taking an array after
      an item as its children. */
  method ExtractLevel(level: seq<Mini>, items: seq<Item>) returns (r: seq<Entry>)
    ensures r == Decode(level, items)
    decreases level
  {
    r := [];
    var i := 0;
    while i < |level|
      invariant 0 <= i <= |level|
      invariant r + Decode(level[i..], items) == Decode(level, items)
    {
      var children: seq<Entry> := [];
      if i + 1 < |level| && level[i + 1].Arr? {
        children := ExtractLevel(level[i + 1].elems, items);
        r := r + [Entry(ItemAt(items, level[i]), children)];
        assert level[i..][2..] == level[i + 2..];
        i := i + 2;
      } else {
        r := r + [Entry(ItemAt(items, level[i]), children)];
        assert level[i..][1..] == level[i + 1..];
        i := i + 1;
      }
    }
  }

  /** `extractItemTree`: a lone number is a level of one. */
  method ExtractItemTree(tree: Mini, items: seq<Item>) returns (r: seq<Entry>)
    ensures r == Decode(if tree.Arr? then tree.elems else [tree], items)
  {
    var level := if tree.Arr? then tree.elems else [tree];
    r := ExtractLevel(level, items);
  }

  // ---------------------------------------------------------------------
  // The compressed tree decodes to the expanded tree

  /** An array in a level always follows an index. */
  predicate WellFormed(level: seq<Mini>)
  {
    forall j :: 0 <= j < |level| && level[j].Arr? ==> j > 0 && level[j - 1].Index?
  }

  lemma WellFormedAppend(a: seq<Mini>, b: seq<Mini>)
    requires WellFormed(a) && WellFormed(b)
    ensures WellFormed(a + b)
  {
    forall j | 0 <= j < |a + b| && (a + b)[j].Arr?
      ensures j > 0 && (a + b)[j - 1].Index?
    {
      if j >= |a| {
        assert (a + b)[j] == b[j - |a|];
        if j > |a| {
          assert (a + b)[j - 1] == b[j - 1 - |a|];
        }
      }
    }
  }

  /** Decoding is local to well-formed runs. */
  lemma {:induction false} DecodeAppend(a: seq<Mini>, b: seq<Mini>, items: seq<Item>)
    requires WellFormed(a) && WellFormed(b)
    ensures Decode(a + b, items) == Decode(a, items) + Decode(b, items)
    decreases |a|
  {
    if a == [] {
      assert a + b == b;
    } else if |a| >= 2 && a[1].Arr? {
      assert (a + b)[1] == a[1] && (a + b)[2..] == a[2..] + b;
      assert WellFormed(a[2..]) by {
        forall j | 0 <= j < |a[2..]| && a[2..][j].Arr?
          ensures j > 0 && a[2..][j - 1].Index?
        {
          assert a[2..][j] == a[j + 2];
        }
      }
      DecodeAppend(a[2..], b, items);
    } else {
      assert (a + b)[1..] == a[1..] + b;
      if |a| == 1 && b != [] {
        assert (a + b)[1] == b[0];
      }
      assert WellFormed(a[1..]) by {
        forall j | 0 <= j < |a[1..]| && a[1..][j].Arr?
          ensures j > 0 && a[1..][j - 1].Index?
        {
          assert a[1..][j] == a[j + 1];
        }
      }
      DecodeAppend(a[1..], b, items);
    }
  }

  lemma {:induction false} FlattenSingle(xs: seq<Mini>)
    ensures Flatten(xs, SingleMini) == xs
  {
    if xs != [] {
      FlattenSingle(xs[1..]);
    }
  }

  lemma {:induction false} FlattenSingleEntry(xs: seq<Entry>)
    ensures Flatten(xs, SingleEntry) == xs
  {
    if xs != [] {
      FlattenSingleEntry(xs[1..]);
    }
  }

  /** On every element, the fixed compressed walk fails exactly when the
      expanded one does, and otherwise yields a well-formed level that
      decodes to the expanded entries. */
  lemma {:induction false} TreesAgree(docs: map<string, Node>, fuel: nat, self: string, n: Node, items: seq<Item>)
    ensures var f := ItemTree(docs, fuel, self, n, CompressedBoxFixed(items), SingleMini);
      var e := ItemTree(docs, fuel, self, n, ExpandedBox(items), SingleEntry);
      f.Ok? == e.Ok? && (f.Ok? ==> WellFormed(f.value) && Decode(f.value, items) == e.value)
    decreases fuel, n, 1
  {
    if Named(n, "mapref") {
      if "href" in n.attrs {
        var target := ResolveRelativeReference(self, n.attrs["href"]);
        if fuel > 0 && target in docs {
          TreesAgree(docs, fuel - 1, target, docs[target], items);
        }
      }
    } else if n.Element? {
      ChildrenAgree(docs, fuel, self, n, 0, items);
      var cf := ChildTrees(docs, fuel, self, n, 0, CompressedBoxFixed(items), SingleMini);
      var ce := ChildTrees(docs, fuel, self, n, 0, ExpandedBox(items), SingleEntry);
      if cf.Ok? {
        BoxesAgree(n, cf.value, ce.value, items);
      }
    } else {
      BoxesAgree(n, [], [], items);
    }
  }

  /** The fixed compressed box and the expanded box agree on children that
      agree. */
  lemma BoxesAgree(n: Node, cf: seq<Mini>, ce: seq<Entry>, items: seq<Item>)
    requires WellFormed(cf) && Decode(cf, items) == ce
    ensures var f, e := CompressedBoxFixed(items)(n, cf), ExpandedBox(items)(n, ce);
      f.Ok? == e.Ok? && (f.Ok? ==> WellFormed(f.value) && Decode(f.value, items) == e.value)
  {
    if IsTopicref(n) {
      var place := Place(items, n);
      if place.Ok? && place.value.Some? {
        var i := place.value.value;
        if |cf| > 0 {
          var level := [Index(i), Arr(cf)];
          assert level[2..] == [];
          assert Decode(level, items) == [Entry(Some(items[i]), Decode(cf, items))] + Decode(level[2..], items);
        } else {
          assert Decode([Index(i)], items) == [Entry(Some(items[i]), [])] + Decode([Index(i)][1..], items);
        }
      }
    }
  }

  /** A child's level followed by its siblings' decodes to the child's
      entries followed by theirs. */
  lemma JoinAgrees(ff: seq<Mini>, rf: seq<Mini>, fe: seq<Entry>, re: seq<Entry>, items: seq<Item>)
    requires WellFormed(ff) && WellFormed(rf) && Decode(ff, items) == fe && Decode(rf, items) == re
    ensures WellFormed(Flatten(ff, SingleMini) + rf)
    ensures Decode(Flatten(ff, SingleMini) + rf, items) == Flatten(fe, SingleEntry) + re
  {
    FlattenSingle(ff);
    FlattenSingleEntry(fe);
    WellFormedAppend(ff, rf);
    DecodeAppend(ff, rf, items);
  }

  lemma {:induction false} ChildrenAgree(docs: map<string, Node>, fuel: nat, self: string, n: Node, i: nat, items: seq<Item>)
    requires n.Element? && i <= |n.children|
    ensures var f := ChildTrees(docs, fuel, self, n, i, CompressedBoxFixed(items), SingleMini);
      var e := ChildTrees(docs, fuel, self, n, i, ExpandedBox(items), SingleEntry);
      f.Ok? == e.Ok? && (f.Ok? ==> WellFormed(f.value) && Decode(f.value, items) == e.value)
    decreases fuel, n, 0, |n.children| - i
  {
    if i < |n.children| {
      ChildrenAgree(docs, fuel, self, n, i + 1, items);
      if IsTreeChild(n.children[i]) {
        TreesAgree(docs, fuel, self, n.children[i], items);
        var ff := ItemTree(docs, fuel, self, n.children[i], CompressedBoxFixed(items), SingleMini);
        var fe := ItemTree(docs, fuel, self, n.children[i], ExpandedBox(items), SingleEntry);
        var rf := ChildTrees(docs, fuel, self, n, i + 1, CompressedBoxFixed(items), SingleMini);
        var re := ChildTrees(docs, fuel, self, n, i + 1, ExpandedBox(items), SingleEntry);
        if ff.Ok? && rf.Ok? {
          JoinAgrees(ff.value, rf.value, fe.value, re.value, items);
        }
      }
    }
  }

  /** The fixed compressed tree fails exactly when the expanded tree does,
      and `extractItemTree` turns it back into the expanded tree. */
  lemma CompressedFixedDecodes(docs: map<string, Node>, fuel: nat, items: seq<Item>, root: string)
    ensures var f, e := CompressedItemTreeFixed(docs, fuel, items, root), ExpandedItemTree(docs, fuel, items, root);
      f.Ok? == e.Ok? && (f.Ok? ==> Decode(f.value, items) == e.value)
  {
    if root in docs {
      TreesAgree(docs, fuel, root, docs[root], items);
    }
  }

  /** Topicref `c`, inside topicref `b`, inside map `//s`, which root map
      `r` references through a mapref. */
  function LeafC(): Node { Element("topicref", map["id" := "c"], []) }
  function TopicB(): Node { Element("topicref", map["id" := "b"], [LeafC()]) }
  function MapS(): Node { Element("map", map[], [TopicB()]) }
  function MaprefS(): Node { Element("mapref", map["href" := "//s"], []) }
  function MapR(): Node { Element("map", map[], [MaprefS()]) }
  function NestedDocs(): map<string, Node> { map["r" := MapR(), "//s" := MapS()] }
  function NestedItems(): seq<Item> { [Item("b", "", None, false), Item("c", "", None, false)] }

  lemma CompressedOfNestedMap()
    ensures ItemTree(NestedDocs(), 0, "//s", MapS(), CompressedBox(NestedItems()), SpreadMini)
            == Ok([Index(0), Arr([Index(1)])])
  {
    var docs, items, spread := NestedDocs(), NestedItems(), SpreadMini;
    var cbox := CompressedBox(items);
    assert Place(items, LeafC()) == Ok(Some(1)) && Place(items, TopicB()) == Ok(Some(0));
    assert ItemTree(docs, 0, "//s", LeafC(), cbox, spread) == Ok([Index(1)]);
    assert ChildTrees(docs, 0, "//s", TopicB(), 1, cbox, spread) == Ok([]);
    assert Flatten([], spread) == [];
    assert Flatten([Index(1)], spread) == [Index(1)];
    assert ChildTrees(docs, 0, "//s", TopicB(), 0, cbox, spread) == Ok([Index(1)]);
    assert ItemTree(docs, 0, "//s", TopicB(), cbox, spread) == Ok([Arr([Index(0), Arr([Index(1)])])]);
    assert ChildTrees(docs, 0, "//s", MapS(), 1, cbox, spread) == Ok([]);
    assert Flatten([Arr([Index(0), Arr([Index(1)])])], spread) == [Index(0), Arr([Index(1)])];
    assert ChildTrees(docs, 0, "//s", MapS(), 0, cbox, spread) == Ok([Index(0), Arr([Index(1)])]);
  }

  lemma ExpandedOfNestedMap()
    ensures var items := NestedItems();
      ItemTree(NestedDocs(), 0, "//s", MapS(), ExpandedBox(items), SingleEntry)
      == Ok([Entry(Some(items[0]), [Entry(Some(items[1]), [])])])
  {
    var docs, items := NestedDocs(), NestedItems();
    var ebox := ExpandedBox(items);
    var ce := Entry(Some(items[1]), []);
    var be := Entry(Some(items[0]), [ce]);
    assert Place(items, LeafC()) == Ok(Some(1)) && Place(items, TopicB()) == Ok(Some(0));
    assert ItemTree(docs, 0, "//s", LeafC(), ebox, SingleEntry) == Ok([ce]);
    assert ChildTrees(docs, 0, "//s", TopicB(), 1, ebox, SingleEntry) == Ok([]);
    FlattenSingleEntry([ce]);
    assert ChildTrees(docs, 0, "//s", TopicB(), 0, ebox, SingleEntry) == Ok([ce]);
    assert ItemTree(docs, 0, "//s", TopicB(), ebox, SingleEntry) == Ok([be]);
    assert ChildTrees(docs, 0, "//s", MapS(), 1, ebox, SingleEntry) == Ok([]);
    FlattenSingleEntry([be]);
    assert ChildTrees(docs, 0, "//s", MapS(), 0, ebox, SingleEntry) == Ok([be]);
  }

  /** The children of an element with one tree child are that child's
      flattened result. */
  lemma OnlyChild<T>(docs: map<string, Node>, fuel: nat, self: string, n: Node,
                     box: (Node, seq<T>) -> Result<seq<T>>, spread: T -> seq<T>)
    requires n.Element? && |n.children| == 1 && IsTreeChild(n.children[0])
    ensures var f := ItemTree(docs, fuel, self, n.children[0], box, spread);
      ChildTrees(docs, fuel, self, n, 0, box, spread) == if f.Err? then f else Ok(Flatten(f.value, spread))
  {
    assert ChildTrees(docs, fuel, self, n, 1, box, spread) == Ok([]);
    var f := ItemTree(docs, fuel, self, n.children[0], box, spread);
    if f.Ok? {
      assert Flatten(f.value, spread) + [] == Flatten(f.value, spread);
    }
  }

  lemma MaprefFollowed<T>(box: (Node, seq<T>) -> Result<seq<T>>, spread: T -> seq<T>)
    ensures ItemTree(NestedDocs(), 1, "r", MaprefS(), box, spread)
            == ItemTree(NestedDocs(), 0, "//s", MapS(), box, spread)
  {
    assert Strings.StartsWith("//s", "//");
    ExternalUnchanged("", "r", "//s");
  }

  /** As written, the compressed tree loses a level whenever a topicref's
      result passes through a map: root map `r` has a mapref to map `//s`,
      whose topicref `b` holds topicref `c`. The expanded tree nests `c`
      under `b`; the compressed one decodes to two siblings. */
  lemma CompressedFlattensThroughMaps()
    ensures var items := NestedItems();
      CompressedItemTree(NestedDocs(), 1, items, "r") == Ok([Index(0), Index(1)]) &&
      Decode([Index(0), Index(1)], items) == [Entry(Some(items[0]), []), Entry(Some(items[1]), [])] &&
      ExpandedItemTree(NestedDocs(), 1, items, "r") == Ok([Entry(Some(items[0]), [Entry(Some(items[1]), [])])])
  {
    CompressedThroughMapR();
    ExpandedThroughMapR();
  }

  /** The compressed walk from "r" through its mapref to "//s". */
  lemma CompressedThroughMapR()
    ensures CompressedItemTree(NestedDocs(), 1, NestedItems(), "r") == Ok([Index(0), Index(1)])
  {
    var docs, items, spread := NestedDocs(), NestedItems(), SpreadMini;
    var cbox := CompressedBox(items);
    CompressedOfNestedMap();
    MaprefFollowed(cbox, spread);
    assert MapR().children[0] == MaprefS() && IsTreeChild(MaprefS());
    SpreadNested();
    OnlyChild(docs, 1, "r", MapR(), cbox, spread);
  }

  /** Spreading the level of "//s" lifts `c` beside `b`. */
  lemma SpreadNested()
    ensures Flatten([Index(0), Arr([Index(1)])], SpreadMini) == [Index(0), Index(1)]
  {
    assert [Index(0), Arr([Index(1)])][1..] == [Arr([Index(1)])];
    assert Flatten([Arr([Index(1)])], SpreadMini) == [Index(1)];
  }

  /** The expanded walk from "r" through its mapref to "//s". */
  lemma ExpandedThroughMapR()
    ensures var items := NestedItems();
      ExpandedItemTree(NestedDocs(), 1, items, "r") == Ok([Entry(Some(items[0]), [Entry(Some(items[1]), [])])])
  {
    var docs, items := NestedDocs(), NestedItems();
    var ebox := ExpandedBox(items);
    ExpandedOfNestedMap();
    MaprefFollowed(ebox, SingleEntry);
    assert MapR().children[0] == MaprefS() && IsTreeChild(MaprefS());
    OnlyChild(docs, 1, "r", MapR(), ebox, SingleEntry);
    var be := Entry(Some(items[0]), [Entry(Some(items[1]), [])]);
    FlattenSingleEntry([be]);
  }

  // ---------------------------------------------------------------------
  // The Sitemap class

  /** Maps sequence a successful result into a function of it. */
  function AndThen<T, U>(r: Result<T>, f: T -> Result<U>): Result<U>
  {
    if r.Err? then Err(r.message) else f(r.value)
  }

  /** What a memo field holds after a computation with outcome `r`:
      the value of a success, nothing after a failure. */
  function Memo<T>(r: Result<T>): Option<T>
  {
    if r.Ok? then Some(r.value) else None
  }

  /** The sitemap of one root map, with memoised map keys and items: once
      computed they are handed out again, whatever changed since. */
  class SitemapOf {
    const cache: FileCache
    const rootFilePath: string
    var mapFilePaths: Option<seq<string>>
    var items: Option<seq<Item>>

    constructor(cache: FileCache, rootFilePath: string)
      ensures this.cache == cache && this.rootFilePath == rootFilePath
      ensures mapFilePaths.None? && items.None?
    {
      this.cache := cache;
      this.rootFilePath := rootFilePath;
      mapFilePaths := None;
      items := None;
    }

    /** `getMaps`: the memoised keys, or the maps of the tree, memoised when
        they could be found. */
    method GetMaps(forceRefresh: bool, ghost docs: map<string, Node>) returns (r: Result<seq<string>>)
      requires Sees(cache, forceRefresh, docs)
      modifies this`mapFilePaths, cache`text, cache`order, cache`trees, cache.storage`fetches
      ensures Sees(cache, forceRefresh, docs)
      ensures old(mapFilePaths).Some? ==>
                r == Ok(old(mapFilePaths).value) && mapFilePaths == old(mapFilePaths) &&
                unchanged(cache) && cache.storage.fetches == old(cache.storage.fetches)
      ensures old(mapFilePaths).None? ==>
                SameOutcome(r, UniqueMaps(docs, rootFilePath)) &&
                mapFilePaths == (if r.Ok? then Some(r.value) else None)
      ensures r.Ok? ==> old(cache.ListedSet()) <= cache.ListedSet()
    {
      if mapFilePaths.Some? {
        return Ok(mapFilePaths.value);
      }
      r := GetUniqueMapsInTree(cache, rootFilePath, forceRefresh, docs);
      if r.Ok? {
        mapFilePaths := Some(r.value);
      }
    }

    /** `getNodes`: the memoised items, or the items of every map of the
        tree, memoised when they could be listed. */
    method GetNodes(forceRefresh: bool, ghost docs: map<string, Node>) returns (r: Result<seq<Item>>)
      requires Sees(cache, forceRefresh, docs)
      modifies this`mapFilePaths, this`items, cache`text, cache`order, cache`trees, cache.storage`fetches
      ensures Sees(cache, forceRefresh, docs)
      ensures old(items).Some? ==>
                r == Ok(old(items).value) && items == old(items) && mapFilePaths == old(mapFilePaths) &&
                unchanged(cache) && cache.storage.fetches == old(cache.storage.fetches)
      ensures old(items).None? && old(mapFilePaths).None? ==>
                SameOutcome(r, AndThen(UniqueMaps(docs, rootFilePath), ks => ItemsForAll(docs, ks)))
      ensures old(items).None? && old(mapFilePaths).Some? ==>
                SameOutcome(r, ItemsForAll(docs, old(mapFilePaths).value))
      ensures items == (if r.Ok? then Some(r.value) else old(items))
      ensures old(mapFilePaths).Some? ==> mapFilePaths == old(mapFilePaths)
      ensures old(items).None? && old(mapFilePaths).None? ==> mapFilePaths == Memo(UniqueMaps(docs, rootFilePath))
      ensures r.Ok? ==> old(cache.ListedSet()) <= cache.ListedSet()
    {
      if items.Some? {
        return Ok(items.value);
      }
      var maps := GetMaps(forceRefresh, docs);
      if maps.Err? {
        return Err(maps.message);
      }
      r := GetUniqueItemsFromMaps(cache, maps.value, forceRefresh, docs);
      if r.Ok? {
        items := Some(r.value);
      }
    }

    /** `getTree`: the expanded tree of the root map over the (memoised)
        items. */
    method GetTree(ghost docs: map<string, Node>, fuel: nat) returns (r: Result<seq<Entry>>)
      requires cache.Valid() && cache.Serves(docs)
      modifies this`mapFilePaths, this`items, cache`text, cache`order, cache`trees, cache.storage`fetches
      ensures cache.Valid() && cache.Serves(docs)
      ensures old(items).Some? ==> SameOutcome(r, ExpandedItemTree(docs, fuel, old(items).value, rootFilePath))
      ensures old(items).None? && old(mapFilePaths).None? ==>
                SameOutcome(r, AndThen(AndThen(UniqueMaps(docs, rootFilePath), ks => ItemsForAll(docs, ks)),
                                       its => ExpandedItemTree(docs, fuel, its, rootFilePath)))
      ensures old(items).None? && old(mapFilePaths).Some? ==>
                SameOutcome(r, AndThen(ItemsForAll(docs, old(mapFilePaths).value),
                                       its => ExpandedItemTree(docs, fuel, its, rootFilePath)))
      ensures old(items).Some? ==> items == old(items)
      ensures old(items).None? && old(mapFilePaths).None? ==>
                items == Memo(AndThen(UniqueMaps(docs, rootFilePath), ks => ItemsForAll(docs, ks)))
      ensures old(items).None? && old(mapFilePaths).Some? ==>
                items == Memo(ItemsForAll(docs, old(mapFilePaths).value))
      ensures old(mapFilePaths).Some? ==> mapFilePaths == old(mapFilePaths)
      ensures old(items).None? && old(mapFilePaths).None? ==> mapFilePaths == Memo(UniqueMaps(docs, rootFilePath))
    {
      var nodes := GetNodes(false, docs);
      if nodes.Err? {
        return Err(nodes.message);
      }
      r := GetExpandedItemTree(cache, nodes.value, rootFilePath, fuel, docs);
    }
  }
}
