/** src/routines/move.ts: moves one document to a new key and rewrites the
    references that point at it (inbound) and the references it makes
    (outbound). Its queries call the reference functions as src/FILE_CACHE.ts
    registers them. */
module Move {
  import opened Results
  import opened Strings
  import opened PosixPath
  import opened Xml
  import opened FileCacheRefs
  import opened DomCaching
  import XPath

  // ---------------------------------------------------------------------
  // The two answers

  /** The prompt's check of the file to move: it must be given and exist. */
  function CheckTarget(input: string, present: bool): (r: Option<string>)
    ensures r.None? <==> input != "" && present
  {
    if input == "" then Some("Input \"" + input + "\" is not a valid file name")
    else if !present then Some("File target \"" + input + "\" does not exist")
    else None
  }

  /** The prompt's check of the destination: it must be given and not exist. */
  function CheckDestination(input: string, present: bool): (r: Option<string>)
    ensures r.None? <==> input != "" && !present
  {
    if input == "" then Some("Input \"" + input + "\" is not a valid file name")
    else if present then Some("File destination \"" + input + "\" already exists")
    else None
  }

  /** `replace(/\\/g, '/')`: every backslash becomes a slash. */
  function Slashes(s: string): (r: string)
    ensures |r| == |s| && '\\' !in r
    ensures forall i :: 0 <= i < |s| && s[i] != '\\' ==> r[i] == s[i]
  {
    seq(|s|, i requires 0 <= i < |s| => if s[i] == '\\' then '/' else s[i])
  }

  lemma SlashesIdempotent(s: string)
    ensures Slashes(Slashes(s)) == Slashes(s)
  {
    var t := Slashes(s);
    assert forall i :: 0 <= i < |t| ==> t[i] != '\\';
  }

  // ---------------------------------------------------------------------
  // The updating queries

  /** The two attributes the queries select with `@href|@conref`. */
  predicate IsRefAttr(a: string)
  {
    a == "href" || a == "conref"
  }

  /** The edit a query makes to one attribute, if the attribute is there and
      `rule` gives it a new value. */
  function AttrEdit(root: Node, p: Path, a: string, rule: string -> Option<string>): seq<Edit>
  {
    var v := AttrAt(root, p, a);
    if v.Some? && rule(v.value).Some? then [ReplaceAttributeValue(p, a, rule(v.value).value)] else []
  }

  /** The pending update list of a query that replaces the value of
      `//(@href|@conref)` as `rule` says, over the elements at `ps` in
      document order. */
  function AttributeEdits(root: Node, ps: seq<Path>, rule: string -> Option<string>): seq<Edit>
  {
    if ps == [] then []
    else AttrEdit(root, ps[0], "href", rule) + AttrEdit(root, ps[0], "conref", rule) + AttributeEdits(root, ps[1..], rule)
  }

  /** Exactly the selected attributes get the rule's value. */
  lemma {:induction false} AttributeEditsSelect(root: Node, ps: seq<Path>, rule: string -> Option<string>)
    ensures var r := AttributeEdits(root, ps, rule);
      forall e :: e in r ==>
        e.ReplaceAttributeValue? && e.at in ps && IsRefAttr(e.attr) &&
        AttrAt(root, e.at, e.attr).Some? && rule(AttrAt(root, e.at, e.attr).value) == Some(e.value)
    ensures forall p, a :: p in ps && IsRefAttr(a) && AttrAt(root, p, a).Some? && rule(AttrAt(root, p, a).value).Some? ==>
      ReplaceAttributeValue(p, a, rule(AttrAt(root, p, a).value).value) in AttributeEdits(root, ps, rule)
    decreases |ps|
  {
    if ps != [] {
      AttributeEditsSelect(root, ps[1..], rule);
      assert forall p :: p in ps ==> p == ps[0] || p in ps[1..];
    }
  }

  /** The new value of an inbound reference: the reference from `self` to the
      destination, then the second '#'-token of the old value if there is one. */
  function InboundValue(cwd: string, self: string, destination: string, v: string): string
  {
    var tokens := SplitOn(v, '#');
    CreateRelativeReference(cwd, self, destination) + (if |tokens| > 1 then "#" + tokens[1] else "")
  }

  /** A reference is inbound when what it resolves to starts with the target. */
  function InboundRule(cwd: string, self: string, target: string, destination: string): string -> Option<string>
  {
    v => if StartsWith(ResolveRelativeReference(self, v), target) then Some(InboundValue(cwd, self, destination, v)) else None
  }

  /** The inbound query against document `self`: it rewrites every @href and
      @conref that resolves to something starting with the target, and no
      other attribute. */
  function InboundPlan(cwd: string, self: string, target: string, destination: string, root: Node): seq<Edit>
  {
    AttributeEdits(root, ElementPaths(root), InboundRule(cwd, self, target, destination))
  }

  lemma InboundPlanSelects(cwd: string, self: string, target: string, destination: string, root: Node)
    ensures var r := InboundPlan(cwd, self, target, destination, root);
    forall e :: e in r ==>
      e.ReplaceAttributeValue? && IsRefAttr(e.attr) && AttrAt(root, e.at, e.attr).Some? &&
      StartsWith(ResolveRelativeReference(self, AttrAt(root, e.at, e.attr).value), target) &&
      e.value == InboundValue(cwd, self, destination, AttrAt(root, e.at, e.attr).value)
    ensures forall p, a :: (p in ElementPaths(root) && IsRefAttr(a) && AttrAt(root, p, a).Some? &&
      StartsWith(ResolveRelativeReference(self, AttrAt(root, p, a).value), target)) ==>
      ReplaceAttributeValue(p, a, InboundValue(cwd, self, destination, AttrAt(root, p, a).value)) in
        InboundPlan(cwd, self, target, destination, root)
  {
    AttributeEditsSelect(root, ElementPaths(root), InboundRule(cwd, self, target, destination));
  }

  /** Every reference of the moved document is re-created from its new key. */
  function OutboundRule(cwd: string, oldSelf: string, newSelf: string): string -> Option<string>
  {
    v => Some(CreateRelativeReference(cwd, newSelf, ResolveRelativeReference(oldSelf, v)))
  }

  /** The outbound query against the moved document: every @href and @conref
      gets the reference from the new key to what it resolved to from the old
      key. */
  function OutboundPlan(cwd: string, oldSelf: string, newSelf: string, root: Node): seq<Edit>
  {
    AttributeEdits(root, ElementPaths(root), OutboundRule(cwd, oldSelf, newSelf))
  }

  lemma OutboundPlanRewritesAll(cwd: string, oldSelf: string, newSelf: string, root: Node)
    ensures var r := OutboundPlan(cwd, oldSelf, newSelf, root);
    forall e :: e in r ==>
      e.ReplaceAttributeValue? && IsRefAttr(e.attr) && AttrAt(root, e.at, e.attr).Some? &&
      e.value == CreateRelativeReference(cwd, newSelf, ResolveRelativeReference(oldSelf, AttrAt(root, e.at, e.attr).value))
    ensures forall p, a :: p in ElementPaths(root) && IsRefAttr(a) && AttrAt(root, p, a).Some? ==>
      ReplaceAttributeValue(p, a, CreateRelativeReference(cwd, newSelf, ResolveRelativeReference(oldSelf, AttrAt(root, p, a).value))) in
        OutboundPlan(cwd, oldSelf, newSelf, root)
  {
    AttributeEditsSelect(root, ElementPaths(root), OutboundRule(cwd, oldSelf, newSelf));
  }

  // ---------------------------------------------------------------------
  // The counts shown before asking to proceed

  /** The number of documents with a non-empty pending update list. */
  function FilesTouched(plans: seq<seq<Edit>>): (n: nat)
    ensures n <= |plans|
  {
    if plans == [] then 0
    else (if plans[0] != [] then 1 else 0) + FilesTouched(plans[1..])
  }

  /** The number of pending updates over all documents. */
  function AttributesTouched(plans: seq<seq<Edit>>): nat
  {
    if plans == [] then 0 else |plans[0]| + AttributesTouched(plans[1..])
  }

  /** No more documents than updates are touched, and one count is zero
      exactly when the other is. */
  lemma {:induction false} TouchedCounts(plans: seq<seq<Edit>>)
    ensures FilesTouched(plans) <= AttributesTouched(plans)
    ensures FilesTouched(plans) == 0 <==> AttributesTouched(plans) == 0
  {
    if plans != [] {
      TouchedCounts(plans[1..]);
    }
  }

  // ---------------------------------------------------------------------
  // What the rewrites promise

  /** The document part of a resolved reference: what precedes the first '#'. */
  function DocumentPart(r: string): string
  {
    SplitOn(r, '#')[0]
  }

  /** An inbound rewrite from a key to a key: the part before '#' resolves to
      the destination, and the fragment, if the old value had one, is the old
      value's second token. */
  lemma InboundTargetsDestination(cwd: string, self: string, destination: string, v: string)
    requires IsKey(self) && IsKey(destination)
    ensures var pieces, tokens := SplitOn(InboundValue(cwd, self, destination, v), '#'), SplitOn(v, '#');
      ResolveRelativeReference(self, pieces[0]) == destination &&
      (|tokens| > 1 ==> |pieces| == 2 && pieces[1] == tokens[1]) &&
      (|tokens| == 1 ==> |pieces| == 1)
  {
    var c := CreateRelativeReference(cwd, self, destination);
    var tokens := SplitOn(v, '#');
    SameAsXPath(cwd, self, destination);
    XPath.CreateHasNoFragment(cwd, self, destination);
    SplitNoSep(c, '#');
    KeyIsPath(destination);
    RoundTrip(cwd, self, destination);
    if |tokens| > 1 {
      SplitPiecesAvoid(v, '#');
      assert '#' !in tokens[1];
      SplitNoSep(tokens[1], '#');
      SplitAround(c, tokens[1], '#');
      assert InboundValue(cwd, self, destination, v) == c + ['#'] + tokens[1];
    } else {
      assert InboundValue(cwd, self, destination, v) == c;
    }
  }

  /** An outbound rewrite keeps every external reference as it is, and
      every reference to a key, or to a key with a fragment such as
      `c.xml#topic/elem`, resolves from the new key to what it resolved to
      from the old key. */
  lemma OutboundKeepsTargets(cwd: string, oldSelf: string, newSelf: string, v: string)
    requires IsKey(oldSelf) && IsKey(newSelf)
    ensures var w := OutboundRule(cwd, oldSelf, newSelf)(v).value;
      (XPath.IsExternalReference(v) ==> w == v) &&
      (IsPath(ResolveRelativeReference(oldSelf, v)) ==> ResolveRelativeReference(newSelf, w) == ResolveRelativeReference(oldSelf, v))
  {
    var r := ResolveRelativeReference(oldSelf, v);
    if IsPath(r) {
      RoundTrip(cwd, newSelf, r);
    }
  }

  // ---------------------------------------------------------------------
  // Top-level keys, for the worked cases below

  predicate TopLevel(s: string)
  {
    s != "" && s != "." && s != ".." && '/' !in s && '#' !in s
  }

  lemma TopLevelKey(s: string)
    requires TopLevel(s)
    ensures Segments(s) == [s] && IsKey(s) && XPath.DirSegments(s) == []
  {
    SplitNoSep(s, '/');
  }

  /** A top-level key refers to another top-level key by its name. */
  lemma TopLevelReferences(cwd: string, self: string, target: string)
    requires TopLevel(self) && TopLevel(target)
    ensures ResolveRelativeReference(self, target) == target
    ensures CreateRelativeReference(cwd, self, target) == target
  {
    TopLevelKey(self);
    TopLevelKey(target);
    SameAsXPath(cwd, self, target);
    XPath.ResolveJoinsDirectory(self, target);
    assert XPath.DirSegments(self) + Segments(target) == [target];
    XPath.CreateSibling(cwd, self, target);
  }

  /** A top-level reference to a top-level target, read from a top-level
      document, is rewritten to name the destination and nothing more. */
  lemma TopLevelRetargeted(cwd: string, self: string, target: string, destination: string)
    requires TopLevel(self) && TopLevel(target) && TopLevel(destination)
    ensures InboundRule(cwd, self, target, destination)(target) == Some(destination)
  {
    TopLevelReferences(cwd, self, target);
    TopLevelReferences(cwd, self, destination);
    SplitNoSep(target, '#');
    assert InboundValue(cwd, self, destination, target) == destination + "";
    assert destination + "" == destination;
    assert StartsWith(ResolveRelativeReference(self, target), target);
    var rule := InboundRule(cwd, self, target, destination);
    assert rule(target) == Some(InboundValue(cwd, self, destination, target));
  }

  /** The case of move.test.ts: "file1.xml" moves to "file1-moved.xml", and
      the map's reference to it is rewritten to the new name. */
  lemma MovedReferenceInMap(cwd: string)
    ensures InboundRule(cwd, "map.xml", "file1.xml", "file1-moved.xml")("file1.xml") == Some("file1-moved.xml")
  {
    assert TopLevel("map.xml") && TopLevel("file1.xml") && TopLevel("file1-moved.xml");
    TopLevelRetargeted(cwd, "map.xml", "file1.xml", "file1-moved.xml");
  }

  // ---------------------------------------------------------------------
  // Finding: the inbound selection is a prefix match

  /** As written, a reference to "a.xml.bak" is taken for one to "a.xml". */
  lemma InboundPrefixOverCaptures(cwd: string)
    ensures DocumentPart(ResolveRelativeReference("map.xml", "a.xml.bak")) != "a.xml"
    ensures InboundRule(cwd, "map.xml", "a.xml", "b.xml")("a.xml.bak").Some?
  {
    TopLevelReferences(cwd, "map.xml", "a.xml.bak");
    SplitNoSep("a.xml.bak", '#');
    assert "a.xml.bak"[..5] == "a.xml";
  }

  /** The selection as intended: the document a reference resolves to is the
      target. */
  function InboundRuleFixed(cwd: string, self: string, target: string, destination: string): string -> Option<string>
  {
    v => if DocumentPart(ResolveRelativeReference(self, v)) == target then Some(InboundValue(cwd, self, destination, v)) else None
  }

  /** With the fixed selection, a reference is rewritten exactly when it
      refers to the target, and the rewritten reference refers to the
      destination with the same fragment. */
  lemma InboundFixedRetargets(cwd: string, self: string, target: string, destination: string, v: string)
    requires IsKey(self) && IsKey(destination)
    ensures var w := InboundRuleFixed(cwd, self, target, destination)(v);
      (w.Some? <==> DocumentPart(ResolveRelativeReference(self, v)) == target) &&
      (w.Some? ==> ResolveRelativeReference(self, DocumentPart(w.value)) == destination)
  {
    InboundTargetsDestination(cwd, self, destination, v);
  }

  /** The fixed selection leaves "a.xml.bak" alone and still takes "a.xml". */
  lemma InboundFixedExact(cwd: string)
    ensures InboundRuleFixed(cwd, "map.xml", "a.xml", "b.xml")("a.xml.bak").None?
    ensures InboundRuleFixed(cwd, "map.xml", "a.xml", "b.xml")("a.xml").Some?
  {
    assert TopLevel("map.xml") && TopLevel("a.xml");
    TopLevelReferences(cwd, "map.xml", "a.xml");
    InboundPrefixOverCaptures(cwd);
    SplitNoSep("a.xml", '#');
  }

  // ---------------------------------------------------------------------
  // Finding: the moved document's references to itself

  /** As written, a reference the moved document makes to itself ("." or its
      own name) is re-created to the old key. That key is gone after the
      move unless the moved document is also listed: its self-reference then
      makes its inbound plan non-empty, and the inbound pass writes it back
      under the old key as a stale copy (`OutcomeMovesDocument`). */
  lemma OutboundSelfReferenceStaysBehind(cwd: string, oldSelf: string, newSelf: string, v: string)
    requires IsKey(oldSelf) && IsKey(newSelf)
    requires ResolveRelativeReference(oldSelf, v) == oldSelf
    ensures ResolveRelativeReference(newSelf, OutboundRule(cwd, oldSelf, newSelf)(v).value) == oldSelf
  {
    KeyIsPath(oldSelf);
    RoundTrip(cwd, newSelf, oldSelf);
  }

  lemma FragmentPrefix(r: string, key: string)
    ensures StartsWith(r, key + "#") ==> '#' in r
  {
    if StartsWith(r, key + "#") {
      assert r[|key|] == (key + "#")[|key|];
    }
  }

  /** Where a reference should point once `oldSelf` has become `newSelf`. */
  function Moved(oldSelf: string, newSelf: string, r: string): string
  {
    if r == oldSelf then newSelf
    else if StartsWith(r, oldSelf + "#") then newSelf + r[|oldSelf|..]
    else r
  }

  /** The outbound rewrite as intended: same-document references stay, and
      every other reference is re-created to where it should point, so a
      reference to the document itself, with or without a fragment, follows
      it to the new key. */
  function OutboundRuleFixed(cwd: string, oldSelf: string, newSelf: string): string -> Option<string>
  {
    v =>
      if StartsWith(v, "#") then Some(v)
      else Some(CreateRelativeReference(cwd, newSelf, Moved(oldSelf, newSelf, ResolveRelativeReference(oldSelf, v))))
  }

  /** Moving a path changes only its document part: a key stays a key, and
      a key with a fragment stays a path. */
  lemma MovedPath(oldSelf: string, newSelf: string, r: string)
    requires IsKey(oldSelf) && IsKey(newSelf) && IsPath(r)
    ensures IsPath(Moved(oldSelf, newSelf, r))
  {
    if r == oldSelf {
      KeyIsPath(newSelf);
    } else if StartsWith(r, oldSelf + "#") {
      var g := r[|oldSelf| + 1..];
      assert r == oldSelf + "#" + g;
      KeyFragmentPath(oldSelf, g);
      KeyFragmentPath(newSelf, g);
      assert r[|oldSelf|..] == "#" + g;
      assert Moved(oldSelf, newSelf, r) == newSelf + "#" + g;
    }
  }

  /** With the fixed rewrite, every same-document reference, and every
      reference to a key or to a key with a fragment, resolves from the new
      key to where it pointed with the document moved. */
  lemma OutboundFixedRetargets(cwd: string, oldSelf: string, newSelf: string, v: string)
    requires IsKey(oldSelf) && IsKey(newSelf)
    requires StartsWith(v, "#") || IsPath(ResolveRelativeReference(oldSelf, v))
    ensures ResolveRelativeReference(newSelf, OutboundRuleFixed(cwd, oldSelf, newSelf)(v).value) ==
            Moved(oldSelf, newSelf, ResolveRelativeReference(oldSelf, v))
  {
    var r := ResolveRelativeReference(oldSelf, v);
    if StartsWith(v, "#") {
      assert v == "#" + v[1..];
      FragmentForm(oldSelf, v[1..]);
      FragmentForm(newSelf, v[1..]);
      assert r == oldSelf + "#" + v[1..];
      assert (oldSelf + "#" + v[1..])[..|oldSelf + "#"|] == oldSelf + "#";
      assert r[|oldSelf|..] == v;
    } else {
      MovedPath(oldSelf, newSelf, r);
      RoundTrip(cwd, newSelf, Moved(oldSelf, newSelf, r));
    }
  }

  /** `a.xml#t`, read from `a.xml`, names `a.xml` itself with a fragment. */
  lemma SelfFragmentResolves()
    ensures IsPath("a.xml#t") && ResolveRelativeReference("a.xml", "a.xml#t") == "a.xml#t"
  {
    TopLevelKey("a.xml");
    SplitNoSep("a.xml#t", '/');
    XPath.ResolveJoinsDirectory("a.xml", "a.xml#t");
    assert XPath.DirSegments("a.xml") + Segments("a.xml#t") == ["a.xml#t"];
  }

  /** The worked case: `a.xml` refers to `a.xml#t` and moves to `b.xml`;
      the fixed rewrite makes the reference resolve to `b.xml#t`. */
  lemma OutboundFixedFollowsFragment(cwd: string)
    ensures ResolveRelativeReference("b.xml", OutboundRuleFixed(cwd, "a.xml", "b.xml")("a.xml#t").value) == "b.xml#t"
  {
    TopLevelKey("a.xml");
    TopLevelKey("b.xml");
    SelfFragmentResolves();
    assert StartsWith("a.xml#t", "a.xml" + "#");
    assert "a.xml#t"[|"a.xml"|..] == "#t";
    OutboundFixedRetargets(cwd, "a.xml", "b.xml", "a.xml#t");
  }

  // ---------------------------------------------------------------------
  // What the routine does to the stored files

  predicate AllIn(files: seq<string>, docs: map<string, Node>)
  {
    forall f :: f in files ==> f in docs
  }

  /** The document each listed file loads to. */
  function Roots(files: seq<string>, docs: map<string, Node>): (r: seq<Node>)
    requires AllIn(files, docs)
    ensures |r| == |files| && forall i :: 0 <= i < |files| ==> r[i] == docs[files[i]]
  {
    if files == [] then []
    else [docs[files[0]]] + Roots(files[1..], docs)
  }

  /** The plan of each listed file. */
  function PlansOf(files: seq<string>, docs: map<string, Node>, plan: (string, Node) -> seq<Edit>): (r: seq<seq<Edit>>)
    requires AllIn(files, docs)
    ensures |r| == |files|
    ensures forall i :: 0 <= i < |files| ==> r[i] == plan(files[i], docs[files[i]])
  {
    if files == [] then []
    else [plan(files[0], docs[files[0]])] + PlansOf(files[1..], docs, plan)
  }

  /** Which reference rules the routine applies: those of move.ts, or those
      with the selection and the self references corrected (see the
      findings on `InboundRuleFixed` and `OutboundRuleFixed`). */
  datatype Rules = AsWritten | Corrected

  /** The inbound query with the target and destination bound. */
  function InboundFor(rules: Rules, cwd: string, target: string, destination: string): (string, Node) -> seq<Edit>
  {
    match rules
    case AsWritten => (self, root) => InboundPlan(cwd, self, target, destination, root)
    case Corrected => (self, root) => AttributeEdits(root, ElementPaths(root), InboundRuleFixed(cwd, self, target, destination))
  }

  /** The writes of the inbound pass: each file whose plan is not empty, in
      order, with its document after the plan. */
  function Saves(files: seq<string>, plans: seq<seq<Edit>>, roots: seq<Node>, serialize: Node -> string): (r: seq<(string, string)>)
    requires |plans| == |files| == |roots|
    ensures |r| == FilesTouched(plans)
  {
    if files == [] then []
    else
      var n := |files| - 1;
      var rest := Saves(files[..n], plans[..n], roots[..n], serialize);
      FilesTouchedLast(plans);
      rest + SaveOf(files[n], plans[n], roots[n], serialize)
  }

  /** The write of one file by the inbound pass: none for an empty plan. */
  function SaveOf(f: string, plan: seq<Edit>, root: Node, serialize: Node -> string): seq<(string, string)>
  {
    if plan != [] then [(f, serialize(Apply(root, plan)))] else []
  }

  lemma {:induction false} FilesTouchedLast(plans: seq<seq<Edit>>)
    requires plans != []
    ensures FilesTouched(plans) == FilesTouched(plans[..|plans| - 1]) + (if plans[|plans| - 1] != [] then 1 else 0)
  {
    if |plans| > 1 {
      FilesTouchedLast(plans[1..]);
      assert plans[1..][..|plans[1..]| - 1] == plans[..|plans| - 1][1..];
    }
  }

  /** The stored files after a sequence of writes. */
  function AfterPushes(m: map<string, string>, pushes: seq<(string, string)>): map<string, string>
  {
    if pushes == [] then m
    else AfterPushes(m, pushes[..|pushes| - 1])[pushes[|pushes| - 1].0 := pushes[|pushes| - 1].1]
  }

  /** A file no write names keeps its content; a written one is present. */
  lemma {:induction false} AfterPushesKeys(m: map<string, string>, pushes: seq<(string, string)>, k: string)
    ensures k in m ==> k in AfterPushes(m, pushes)
    ensures forall x :: x in pushes ==> x.0 in AfterPushes(m, pushes)
    ensures (forall x :: x in pushes ==> x.0 != k) ==>
              (k in AfterPushes(m, pushes) <==> k in m) && (k in m ==> AfterPushes(m, pushes)[k] == m[k])
    decreases |pushes|
  {
    if pushes != [] {
      var init := pushes[..|pushes| - 1];
      AfterPushesKeys(m, init, k);
      assert forall x :: x in init ==> x in pushes;
      assert forall x :: x in pushes ==> x in init || x == pushes[|pushes| - 1];
    }
  }

  /** The inbound pass writes listed files only. */
  lemma {:induction false} SavesListed(files: seq<string>, plans: seq<seq<Edit>>, roots: seq<Node>, serialize: Node -> string)
    requires |plans| == |files| == |roots|
    ensures forall x :: x in Saves(files, plans, roots, serialize) ==> x.0 in files
    decreases |files|
  {
    if files != [] {
      var n := |files| - 1;
      SavesListed(files[..n], plans[..n], roots[..n], serialize);
      assert forall x :: x in files[..n] ==> x in files;
    }
  }

  /** Whether the inbound pass writes `k`: it is listed with a non-empty plan. */
  lemma {:induction false} SavesName(files: seq<string>, plans: seq<seq<Edit>>, roots: seq<Node>, serialize: Node -> string, k: string)
    requires |plans| == |files| == |roots| && NoDuplicates(files)
    ensures (exists x :: x in Saves(files, plans, roots, serialize) && x.0 == k) <==>
            exists i :: 0 <= i < |files| && files[i] == k && plans[i] != []
    decreases |files|
  {
    if files != [] {
      var n := |files| - 1;
      var s := Saves(files, plans, roots, serialize);
      var rest := Saves(files[..n], plans[..n], roots[..n], serialize);
      SavesName(files[..n], plans[..n], roots[..n], serialize, k);
      assert forall x :: x in s ==> x in rest || (plans[n] != [] && x == (files[n], serialize(Apply(roots[n], plans[n]))));
      assert forall x :: x in rest ==> x in s;
      if exists i :: 0 <= i < |files| && files[i] == k && plans[i] != [] {
        var i :| 0 <= i < |files| && files[i] == k && plans[i] != [];
        if i == n {
          assert (files[n], serialize(Apply(roots[n], plans[n]))) in s;
        } else {
          assert files[..n][i] == k && plans[..n][i] != [];
        }
      }
    }
  }

  datatype Outcome = Outcome(ok: bool, pushes: seq<(string, string)>, files: map<string, string>)

  /** What the routine does to storage that holds `files`, where the listed
      documents parse to `docs`: checks the answers, then relocates. */
  function MoveOutcome(rules: Rules, cwd: string, targetInput: string, destinationInput: string, listed: seq<string>,
                       files: map<string, string>, docs: map<string, Node>, serialize: Node -> string): Outcome
  {
    var target, destination := Slashes(targetInput), Slashes(destinationInput);
    if CheckTarget(targetInput, targetInput in files).Some? || CheckDestination(destinationInput, destinationInput in files).Some? then
      Outcome(false, [], files)
    else Relocate(target, destination, listed, files, docs, InboundFor(rules, cwd, target, destination),
                  Rendered(OutboundFor(rules, cwd, target, destination), serialize), serialize)
  }

  /** Past the answers: stages the inbound `plan` of every listed document
      (one that does not load fails the routine), moves the file without
      overwriting, writes the moved document as `moved` renders it, and
      writes every document with a non-empty inbound plan. */
  function Relocate(target: string, destination: string, listed: seq<string>, files: map<string, string>,
                    docs: map<string, Node>, plan: (string, Node) -> seq<Edit>, moved: Node -> string,
                    serialize: Node -> string): Outcome
  {
    if !AllIn(listed, docs) then Outcome(false, [], files)
    else if !(target in files && destination !in files) then Outcome(false, [], files)
    else if target !in docs then Outcome(false, [], (files - {target})[destination := files[target]])
    else
      var pushes := [(destination, moved(docs[target]))] + Saves(listed, PlansOf(listed, docs, plan), Roots(listed, docs), serialize);
      Outcome(true, pushes, AfterPushes((files - {target})[destination := files[target]], pushes))
  }

  /** The outbound query with the target and destination bound. */
  function OutboundFor(rules: Rules, cwd: string, target: string, destination: string): Node -> seq<Edit>
  {
    match rules
    case AsWritten => root => OutboundPlan(cwd, target, destination, root)
    case Corrected => root => AttributeEdits(root, ElementPaths(root), OutboundRuleFixed(cwd, target, destination))
  }

  /** With the corrected rules, the inbound pass rewrites only references to
      the moved document, and each rewritten one refers to the destination. */
  lemma CorrectedInboundRetargets(cwd: string, self: string, target: string, destination: string, root: Node)
    requires IsKey(self) && IsKey(destination)
    ensures forall e :: e in InboundFor(Corrected, cwd, target, destination)(self, root) ==>
      e.ReplaceAttributeValue? && IsRefAttr(e.attr) && AttrAt(root, e.at, e.attr).Some? &&
      DocumentPart(ResolveRelativeReference(self, AttrAt(root, e.at, e.attr).value)) == target &&
      ResolveRelativeReference(self, DocumentPart(e.value)) == destination
  {
    var rule := InboundRuleFixed(cwd, self, target, destination);
    AttributeEditsSelect(root, ElementPaths(root), rule);
    forall e | e in AttributeEdits(root, ElementPaths(root), rule)
      ensures ResolveRelativeReference(self, DocumentPart(e.value)) == destination
    {
      InboundFixedRetargets(cwd, self, target, destination, AttrAt(root, e.at, e.attr).value);
    }
  }

  /** A document with `query` applied, as written. */
  function Rendered(query: Node -> seq<Edit>, serialize: Node -> string): Node -> string
  {
    root => serialize(Apply(root, query(root)))
  }

  /** The stored files after the move and its writes: a file other than the
      two keys that no write names keeps its content. */
  lemma CommitKeeps(files: map<string, string>, target: string, destination: string, out: string,
                    saves: seq<(string, string)>, listed: seq<string>, k: string)
    requires target in files && k != target && k != destination && k !in listed
    requires forall x :: x in saves ==> x.0 in listed
    ensures var after := AfterPushes((files - {target})[destination := files[target]], [(destination, out)] + saves);
      (k in after <==> k in files) && (k in files ==> after[k] == files[k])
  {
    var moved := (files - {target})[destination := files[target]];
    AfterPushesKeys(moved, [(destination, out)] + saves, k);
  }

  /** The destination holds the first write unless a later one names it; the
      old key is present exactly when some write names it. */
  lemma CommitMoves(files: map<string, string>, target: string, destination: string, out: string,
                    saves: seq<(string, string)>)
    requires target in files && target != destination
    requires forall x :: x in saves ==> x.0 != destination
    ensures var after := AfterPushes((files - {target})[destination := files[target]], [(destination, out)] + saves);
      destination in after && after[destination] == out &&
      (target in after <==> exists x :: x in saves && x.0 == target)
  {
    var moved := (files - {target})[destination := files[target]];
    assert AfterPushes(moved, [(destination, out)]) == moved[destination := out] by {
      assert [(destination, out)][..0] == [];
    }
    AfterPushesSplit(moved, [(destination, out)], saves);
    AfterPushesKeys(moved[destination := out], saves, destination);
    AfterPushesKeys(moved[destination := out], saves, target);
  }

  /** Besides the moved file, only listed documents are written: a file
      neither listed, moved nor the destination keeps its content. A routine
      that fails writes nothing. */
  lemma OutcomeTouchesOnly(target: string, destination: string, listed: seq<string>, files: map<string, string>,
                           docs: map<string, Node>, plan: (string, Node) -> seq<Edit>, moved: Node -> string,
                           serialize: Node -> string, k: string)
    requires k != target && k != destination && k !in listed
    ensures var o := Relocate(target, destination, listed, files, docs, plan, moved, serialize);
      (!o.ok ==> o.pushes == []) &&
      (k in o.files <==> k in files) && (k in files ==> o.files[k] == files[k])
  {
    var o := Relocate(target, destination, listed, files, docs, plan, moved, serialize);
    if o.ok {
      SavesListed(listed, PlansOf(listed, docs, plan), Roots(listed, docs), serialize);
      CommitKeeps(files, target, destination, moved(docs[target]),
                  Saves(listed, PlansOf(listed, docs, plan), Roots(listed, docs), serialize), listed, k);
    }
  }

  /** A successful move leaves the moved document at the destination; the
      old key is gone unless the inbound pass writes it again, which happens
      exactly when the moved document is itself listed with a non-empty
      inbound plan. */
  lemma OutcomeMovesDocument(target: string, destination: string, listed: seq<string>, files: map<string, string>,
                             docs: map<string, Node>, plan: (string, Node) -> seq<Edit>, moved: Node -> string,
                             serialize: Node -> string)
    requires NoDuplicates(listed) && forall f :: f in listed ==> f in files
    ensures var o := Relocate(target, destination, listed, files, docs, plan, moved, serialize);
      o.ok ==>
        destination in o.files && o.files[destination] == moved(docs[target]) &&
        (target in o.files <==> target in listed && plan(target, docs[target]) != [])
  {
    var o := Relocate(target, destination, listed, files, docs, plan, moved, serialize);
    if o.ok {
      var plans, roots := PlansOf(listed, docs, plan), Roots(listed, docs);
      var saves := Saves(listed, plans, roots, serialize);
      SavesListed(listed, plans, roots, serialize);
      CommitMoves(files, target, destination, moved(docs[target]), saves);
      SavesName(listed, plans, roots, serialize, target);
      if target in listed {
        var i :| 0 <= i < |listed| && listed[i] == target;
        assert plans[i] == plan(target, docs[target]);
      }
    }
  }

  lemma {:induction false} AfterPushesSplit(m: map<string, string>, a: seq<(string, string)>, b: seq<(string, string)>)
    ensures AfterPushes(m, a + b) == AfterPushes(AfterPushes(m, a), b)
    decreases |b|
  {
    if b == [] {
      assert a + b == a;
    } else {
      var n := |b| - 1;
      var ab := a + b;
      assert ab[..|ab| - 1] == a + b[..n];
      assert ab[|ab| - 1] == b[n];
      AfterPushesSplit(m, a, b[..n]);
      assert AfterPushes(m, ab) == AfterPushes(m, a + b[..n])[b[n].0 := b[n].1];
    }
  }

  // ---------------------------------------------------------------------
  // The routine

  /** `Promise.all` over the listed files: the inbound query, `plan` with
      the file bound, against each. */
  method Stage(c: FileCache, listed: seq<string>, plan: (string, Node) -> seq<Edit>, ghost docs: map<string, Node>)
    returns (ok: bool, handles: seq<UpdateHandle>, plans: seq<seq<Edit>>)
    requires c.Valid() && c.text == map[] && c.trees == map[] && c.ServesFresh(docs)
    requires NoDuplicates(listed)
    modifies c`text, c`order, c`trees, c.storage`fetches
    ensures c.Valid() && c.ServesFresh(docs)
    ensures ok == AllIn(listed, docs)
    ensures ok ==> Staged(c, listed, handles, plans, plan, docs, |listed|)
    ensures forall h :: h in handles ==> fresh(h) && fresh(h.doc) && Unrun(h, docs)
  {
    handles, plans := [], [];
    var i := 0;
    while i < |listed|
      invariant 0 <= i <= |listed| && c.Valid() && c.ServesFresh(docs) && Staged(c, listed, handles, plans, plan, docs, i)
      invariant forall h :: h in handles ==> fresh(h) && fresh(h.doc) && Unrun(h, docs)
    {
      var h := StageStep(c, listed, plan, docs, handles, plans, i);
      if h.Err? {
        return false, [], [];
      }
      handles, plans := handles + [h.value], plans + [h.value.pending];
      i := i + 1;
    }
    ok := true;
  }

  /** The first `n` listed files are staged: each loaded, with a handle
      that holds its cached document and carries its plan; no other file
      is loaded yet. */
  ghost predicate Staged(c: FileCache, listed: seq<string>, handles: seq<UpdateHandle>, plans: seq<seq<Edit>>,
                         plan: (string, Node) -> seq<Edit>, docs: map<string, Node>, n: int)
    reads c
  {
    KeyedUpTo(c, listed, handles, plans, n) &&
    (forall j :: 0 <= j < n ==> listed[j] in docs && plans[j] == plan(listed[j], docs[listed[j]])) &&
    (forall j :: n <= j < |listed| ==> listed[j] !in c.trees && listed[j] !in c.text) &&
    (forall k :: k in c.trees ==> k in listed) &&
    (forall k :: k in c.text ==> k in listed)
  }

  /** A handle that has not run, over the document its key loads to. */
  ghost predicate Unrun(h: UpdateHandle, docs: map<string, Node>)
    reads h, h.doc
  {
    !h.executed && h.key in docs && h.doc.root == docs[h.key]
  }

  /** With every file staged, the plans are those of the specification. */
  lemma StagedAll(c: FileCache, listed: seq<string>, handles: seq<UpdateHandle>, plans: seq<seq<Edit>>,
                  plan: (string, Node) -> seq<Edit>, docs: map<string, Node>)
    requires Staged(c, listed, handles, plans, plan, docs, |listed|)
    requires forall h :: h in handles ==> Unrun(h, docs)
    ensures AllIn(listed, docs) && plans == PlansOf(listed, docs, plan) && Keyed(c, listed, handles, plans)
    ensures forall j :: 0 <= j < |listed| ==> !handles[j].executed && handles[j].doc.root == Roots(listed, docs)[j]
    ensures forall k :: k in c.trees ==> k in listed
    ensures forall k :: k in c.text ==> k in listed
  {
    assert forall j :: 0 <= j < |listed| ==> handles[j] in handles;
  }

  /** The first `n` staged handles: each belongs to its listed key, holds
      that key's cached document and carries that key's plan. */
  ghost predicate KeyedUpTo(c: FileCache, listed: seq<string>, handles: seq<UpdateHandle>, plans: seq<seq<Edit>>, n: int)
    reads c
  {
    0 <= n <= |listed| && |handles| == n && |plans| == n &&
    forall j :: 0 <= j < n ==>
      handles[j].cache == c && handles[j].key == listed[j] && handles[j].pending == plans[j] &&
      listed[j] in c.trees && c.trees[listed[j]] == handles[j].doc
  }

  /** The inbound query against the `i`th listed file, not yet loaded. */
  method StageStep(c: FileCache, listed: seq<string>, plan: (string, Node) -> seq<Edit>, ghost docs: map<string, Node>,
                   handles: seq<UpdateHandle>, plans: seq<seq<Edit>>, i: int)
    returns (h: Result<UpdateHandle>)
    requires c.Valid() && c.ServesFresh(docs) && NoDuplicates(listed) && 0 <= i < |listed|
    requires Staged(c, listed, handles, plans, plan, docs, i)
    modifies c`text, c`order, c`trees, c.storage`fetches
    ensures c.Valid() && c.ServesFresh(docs) && h.Ok? == (listed[i] in docs)
    ensures h.Ok? ==>
      Staged(c, listed, handles + [h.value], plans + [h.value.pending], plan, docs, i + 1) &&
      fresh(h.value) && fresh(h.value.doc) && Unrun(h.value, docs)
  {
    var f := listed[i];
    assert c.LoadOf(f) == c.FetchLoad(f);
    h := StageOne(c, f, plan, docs);
  }

  /** The inbound query against one file not yet loaded. */
  method StageOne(c: FileCache, f: string, plan: (string, Node) -> seq<Edit>, ghost docs: map<string, Node>)
    returns (h: Result<UpdateHandle>)
    requires c.Valid() && c.ServesFresh(docs) && f !in c.trees && c.LoadOf(f) == (if f in docs then Some(docs[f]) else None)
    modifies c`text, c`order, c`trees, c.storage`fetches
    ensures c.Valid() && c.ServesFresh(docs)
    ensures h.Ok? == (f in docs)
    ensures h.Ok? ==>
      fresh(h.value) && fresh(h.value.doc) && h.value.cache == c && h.value.key == f &&
      c.trees == old(c.trees)[f := h.value.doc] && h.value.pending == plan(f, docs[f]) &&
      !h.value.executed && h.value.doc.root == docs[f]
    ensures !h.Ok? ==> c.trees == old(c.trees)
    ensures forall k :: k in c.text ==> k in old(c.text) || k == f
  {
    h := c.UpdateDocument(f, (n: Node) => plan(f, n));
    if h.Ok? {
      assert forall k :: k in c.trees <==> k in old(c.trees) || k == f;
    }
  }

  /** The outbound pass: the moved document, loaded under its new key, gets
      `query` applied and is written. */
  method RewriteMoved(c: FileCache, destination: string, query: Node -> seq<Edit>, ghost d: Option<Node>)
    returns (ok: bool)
    requires c.Valid() && destination !in c.trees && c.LoadOf(destination) == d
    modifies c`text, c`order, c`trees, c.storage
    ensures c.Valid() && ok == d.Some?
    ensures ok ==> c.storage.pushed == old(c.storage.pushed) + [(destination, c.serialize(Apply(d.value, query(d.value))))] &&
                   c.storage.files == old(c.storage.files)[destination := c.serialize(Apply(d.value, query(d.value)))]
    ensures !ok ==> c.storage.files == old(c.storage.files) && c.storage.pushed == old(c.storage.pushed)
    ensures forall k :: k != destination ==> (k in c.trees <==> k in old(c.trees)) && (k in c.trees ==> c.trees[k] == old(c.trees[k]))
  {
    var h := c.UpdateDocument(destination, query);
    if h.Err? {
      return false;
    }
    var _ := h.value.Execute();
    var _ := c.WriteFile(destination, None);
    ok := true;
  }

  /** The documents the handles update. */
  function DocsOf(handles: seq<UpdateHandle>): set<Dom>
  {
    set h | h in handles :: h.doc
  }

  /** All the staged handles, one per listed key. */
  ghost predicate Keyed(c: FileCache, listed: seq<string>, handles: seq<UpdateHandle>, plans: seq<seq<Edit>>)
    reads c
  {
    HeldIn(c.trees, c, listed, handles, plans)
  }

  /** The handles of the listed keys, each over the tree `trees` holds for
      its key. */
  ghost predicate HeldIn(trees: map<string, Dom>, c: FileCache, listed: seq<string>, handles: seq<UpdateHandle>,
                         plans: seq<seq<Edit>>)
  {
    |handles| == |listed| && |plans| == |listed| &&
    forall j :: 0 <= j < |listed| ==>
      handles[j].cache == c && handles[j].key == listed[j] && handles[j].pending == plans[j] &&
      listed[j] in trees && trees[listed[j]] == handles[j].doc
  }

  /** The inbound pass: each handle with a non-empty plan is executed and
      its document written. */
  method CommitInbound(c: FileCache, listed: seq<string>, handles: seq<UpdateHandle>, plans: seq<seq<Edit>>,
                       ghost roots: seq<Node>)
    requires c.Valid() && NoDuplicates(listed) && Keyed(c, listed, handles, plans) && |roots| == |listed|
    requires forall j :: 0 <= j < |listed| ==> !handles[j].executed && handles[j].doc.root == roots[j]
    modifies c`text, c`order, c`trees, c.storage, handles, DocsOf(handles)
    ensures c.storage.pushed == old(c.storage.pushed) + Saves(listed, plans, roots, c.serialize)
    ensures c.storage.files == AfterPushes(old(c.storage.files), Saves(listed, plans, roots, c.serialize))
  {
    ghost var trees, pushed, files := c.trees, c.storage.pushed, c.storage.files;
    assert pushed + [] == pushed;
    var i := 0;
    while i < |listed|
      invariant InboundAt(c, listed, handles, plans, roots, i, trees, pushed, files)
    {
      assert handles[i] in handles && handles[i].doc in DocsOf(handles);
      CommitNext(c, listed, handles, plans, roots, i, trees, pushed, files);
      i := i + 1;
    }
    SavesUpToAll(listed, plans, roots, c.serialize, i);
  }

  /** The inbound pass after the first `i` files: the cache still holds the
      staged trees, the later handles are unexecuted over their documents,
      and storage has received exactly the writes of the first `i` files. */
  ghost predicate InboundAt(c: FileCache, listed: seq<string>, handles: seq<UpdateHandle>, plans: seq<seq<Edit>>,
                            roots: seq<Node>, i: int, trees: map<string, Dom>,
                            pushed: seq<(string, string)>, files: map<string, string>)
    reads c, c.storage, handles, DocsOf(handles)
  {
    0 <= i <= |listed| && |handles| == |plans| == |roots| == |listed| && c.Valid() && c.trees == trees &&
    (forall j :: i <= j < |listed| ==> !handles[j].executed && handles[j].doc.root == roots[j]) &&
    c.storage.pushed == pushed + SavesUpTo(listed, plans, roots, c.serialize, i) &&
    c.storage.files == AfterPushes(files, SavesUpTo(listed, plans, roots, c.serialize, i))
  }

  /** The writes of the inbound pass over the first `n` files. */
  function SavesUpTo(files: seq<string>, plans: seq<seq<Edit>>, roots: seq<Node>, serialize: Node -> string, n: nat): seq<(string, string)>
    requires |plans| == |files| == |roots| && n <= |files|
  {
    if n == 0 then [] else SavesUpTo(files, plans, roots, serialize, n - 1) + SaveOf(files[n - 1], plans[n - 1], roots[n - 1], serialize)
  }

  /** The writes over the first `n` files are those of the first `n`
      files alone. */
  lemma {:induction false} SavesUpToAll(files: seq<string>, plans: seq<seq<Edit>>, roots: seq<Node>, serialize: Node -> string, n: nat)
    requires |plans| == |files| == |roots| && n <= |files|
    ensures SavesUpTo(files, plans, roots, serialize, n) == Saves(files[..n], plans[..n], roots[..n], serialize)
    ensures n == |files| ==> SavesUpTo(files, plans, roots, serialize, n) == Saves(files, plans, roots, serialize)
  {
    if n > 0 {
      SavesUpToAll(files, plans, roots, serialize, n - 1);
      SavesStep(files, plans, roots, serialize, n - 1);
    }
    assert files[..|files|] == files && plans[..|plans|] == plans && roots[..|roots|] == roots;
  }

  lemma SavesStep(files: seq<string>, plans: seq<seq<Edit>>, roots: seq<Node>, serialize: Node -> string, i: int)
    requires |plans| == |files| == |roots| && 0 <= i < |files|
    ensures Saves(files[..i + 1], plans[..i + 1], roots[..i + 1], serialize) ==
            Saves(files[..i], plans[..i], roots[..i], serialize) + SaveOf(files[i], plans[i], roots[i], serialize)
  {
    assert files[..i + 1][..i] == files[..i] && plans[..i + 1][..i] == plans[..i] && roots[..i + 1][..i] == roots[..i];
  }

  /** One turn of the inbound pass, stated as the pass's record so far. */
  method CommitNext(c: FileCache, listed: seq<string>, handles: seq<UpdateHandle>, plans: seq<seq<Edit>>,
                    ghost roots: seq<Node>, i: int, ghost trees: map<string, Dom>,
                    ghost pushed: seq<(string, string)>, ghost files: map<string, string>)
    requires NoDuplicates(listed) && HeldIn(trees, c, listed, handles, plans) && i < |listed|
    requires InboundAt(c, listed, handles, plans, roots, i, trees, pushed, files)
    modifies c`text, c`order, c`trees, c.storage, handles[i], handles[i].doc
    ensures InboundAt(c, listed, handles, plans, roots, i + 1, trees, pushed, files)
  {
    ghost var before, step := SavesUpTo(listed, plans, roots, c.serialize, i), SaveOf(listed[i], plans[i], roots[i], c.serialize);
    AfterPushesSplit(files, before, step);
    ConcatAssociates(pushed, before, step);
    CommitStep(c, listed, handles, plans, roots, i);
  }

  /** The `i`th inbound commit; the other handles are untouched. */
  method CommitStep(c: FileCache, listed: seq<string>, handles: seq<UpdateHandle>, plans: seq<seq<Edit>>,
                    ghost roots: seq<Node>, i: int)
    requires c.Valid() && NoDuplicates(listed) && HeldIn(c.trees, c, listed, handles, plans) && |roots| == |listed| && 0 <= i < |listed|
    requires forall j :: i <= j < |listed| ==> !handles[j].executed && handles[j].doc.root == roots[j]
    modifies c`text, c`order, c`trees, c.storage, handles[i], handles[i].doc
    ensures c.Valid() && c.trees == old(c.trees)
    ensures forall j :: i + 1 <= j < |listed| ==> !handles[j].executed && handles[j].doc.root == roots[j]
    ensures c.storage.pushed == old(c.storage.pushed) + SaveOf(listed[i], plans[i], roots[i], c.serialize)
    ensures c.storage.files == AfterPushes(old(c.storage.files), SaveOf(listed[i], plans[i], roots[i], c.serialize))
  {
    var h := handles[i];
    assert forall j :: 0 <= j < |listed| && j != i ==> handles[j].doc != h.doc && handles[j] != h by {
      assert forall j :: 0 <= j < |listed| && j != i ==> listed[j] != listed[i];
    }
    CommitOne(c, h, listed[i], plans[i], roots[i]);
  }

  /** One inbound commit: a non-empty plan is executed and the document
      written; an empty one is skipped. */
  method CommitOne(c: FileCache, h: UpdateHandle, f: string, plan: seq<Edit>, ghost root: Node)
    requires c.Valid() && h.cache == c && h.key == f && h.pending == plan && !h.executed && h.doc.root == root
    requires f in c.trees && c.trees[f] == h.doc
    modifies c`text, c`order, c`trees, c.storage, h, h.doc
    ensures c.Valid() && c.trees == old(c.trees)
    ensures c.storage.pushed == old(c.storage.pushed) + SaveOf(f, plan, root, c.serialize)
    ensures c.storage.files == AfterPushes(old(c.storage.files), SaveOf(f, plan, root, c.serialize))
  {
    if plan != [] {
      var _ := h.Execute();
      var _ := c.WriteFile(f, None);
    }
  }

  /** `move`: checks the two answers, stages the inbound updates of every
      listed document, moves the file, rewrites and writes the moved
      document, then executes and writes every non-empty inbound update.
      The answer to the confirmation, `proceed`, changes nothing. `listed`
      is what the file listing found: existing files, each once. `rules`
      is `AsWritten` for the routine of move.ts and `Corrected` for the
      routine with the corrected reference rules. */
  method MoveDocument(c: FileCache, rules: Rules, cwd: string, targetInput: string, destinationInput: string,
                      listed: seq<string>, proceed: bool, ghost docs: map<string, Node>)
    returns (r: Result<()>, filesTouched: nat, attributesTouched: nat)
    requires c.Valid() && c.text == map[] && c.trees == map[]
    requires forall k :: c.resolve(k) == k
    requires c.ServesFresh(docs)
    requires NoDuplicates(listed) && forall f :: f in listed ==> f in c.storage.files
    modifies c, c.storage
    ensures var o := MoveOutcome(rules, cwd, targetInput, destinationInput, listed, old(c.storage.files), docs, c.serialize);
      r.Ok? == o.ok && c.storage.pushed == old(c.storage.pushed) + o.pushes && c.storage.files == o.files
    ensures r.Ok? ==>
      var plans := PlansOf(listed, docs, InboundFor(rules, cwd, Slashes(targetInput), Slashes(destinationInput)));
      filesTouched == FilesTouched(plans) && attributesTouched == AttributesTouched(plans)
  {
    var targetExists := c.ExistsFile(targetInput);
    var destinationExists := c.ExistsFile(destinationInput);
    var problem := CheckTarget(targetInput, targetExists);
    if problem.None? {
      problem := CheckDestination(destinationInput, destinationExists);
    }
    if problem.Some? {
      return Err(problem.value), 0, 0;
    }
    var target, destination := Slashes(targetInput), Slashes(destinationInput);
    r, filesTouched, attributesTouched :=
      Relocation(c, target, destination, listed, InboundFor(rules, cwd, target, destination), OutboundFor(rules, cwd, target, destination), docs);
  }

  /** Past the answers: stages the inbound `plan`, then moves, rewrites the
      moved document with `query` and commits. */
  method Relocation(c: FileCache, target: string, destination: string, listed: seq<string>,
                    plan: (string, Node) -> seq<Edit>, query: Node -> seq<Edit>, ghost docs: map<string, Node>)
    returns (r: Result<()>, filesTouched: nat, attributesTouched: nat)
    requires c.Valid() && c.text == map[] && c.trees == map[]
    requires forall k :: c.resolve(k) == k
    requires c.ServesFresh(docs)
    requires NoDuplicates(listed) && forall f :: f in listed ==> f in c.storage.files
    modifies c, c.storage
    ensures var o := Relocate(target, destination, listed, old(c.storage.files), docs, plan, Rendered(query, c.serialize), c.serialize);
      r.Ok? == o.ok && c.storage.pushed == old(c.storage.pushed) + o.pushes && c.storage.files == o.files
    ensures r.Ok? ==>
      filesTouched == FilesTouched(PlansOf(listed, docs, plan)) && attributesTouched == AttributesTouched(PlansOf(listed, docs, plan))
  {
    ghost var d := if target in docs then Some(docs[target]) else None;
    assert c.FetchLoad(target) == d;
    var ok, handles, plans := Stage(c, listed, plan, docs);
    if !ok {
      return Err("a listed document could not be loaded"), 0, 0;
    }
    filesTouched, attributesTouched := FilesTouched(plans), AttributesTouched(plans);
    assert c.FetchLoad(target) == d;
    StagedAll(c, listed, handles, plans, plan, docs);
    r := Finish(c, target, destination, listed, handles, plans, query, docs, plan, d);
  }

  lemma ConcatAssociates<T>(a: seq<T>, b: seq<T>, c: seq<T>)
    ensures a + b + c == a + (b + c)
  {
  }

  /** The staged routine: moves the file without overwriting, rewrites the
      moved document under its new key, then commits the inbound pass. */
  method Finish(c: FileCache, target: string, destination: string, listed: seq<string>,
                handles: seq<UpdateHandle>, plans: seq<seq<Edit>>, query: Node -> seq<Edit>,
                ghost docs: map<string, Node>, ghost plan: (string, Node) -> seq<Edit>, ghost d: Option<Node>)
    returns (r: Result<()>)
    requires c.Valid() && forall k :: c.resolve(k) == k
    requires NoDuplicates(listed) && forall f :: f in listed ==> f in c.storage.files
    requires AllIn(listed, docs) && plans == PlansOf(listed, docs, plan) && Keyed(c, listed, handles, plans)
    requires forall j :: 0 <= j < |listed| ==> !handles[j].executed && handles[j].doc.root == Roots(listed, docs)[j]
    requires forall k :: k in c.trees ==> k in listed
    requires forall k :: k in c.text ==> k in listed
    requires c.FetchLoad(target) == d && d == (if target in docs then Some(docs[target]) else None)
    modifies c`text, c`order, c`trees, c.storage, handles, DocsOf(handles)
    ensures var o := Relocate(target, destination, listed, old(c.storage.files), docs, plan, Rendered(query, c.serialize), c.serialize);
      r.Ok? == o.ok && c.storage.pushed == old(c.storage.pushed) + o.pushes && c.storage.files == o.files
  {
    ghost var files := c.storage.files;
    RelocateCases(target, destination, listed, files, docs, plan, Rendered(query, c.serialize), c.serialize, d);
    var moved := c.storage.Move(target, destination);
    if !moved {
      return Err("could not move " + target);
    }
    assert destination !in listed;
    assert c.LoadOf(destination) == d;
    ghost var roots := Roots(listed, docs);
    var ok := Publish(c, destination, listed, handles, plans, query, roots, d);
    if !ok {
      return Err("could not load " + destination);
    }
    r := Ok(());
  }

  /** `Relocate` by the three ways the move can go. */
  lemma RelocateCases(target: string, destination: string, listed: seq<string>, files: map<string, string>,
                      docs: map<string, Node>, plan: (string, Node) -> seq<Edit>, moved: Node -> string,
                      serialize: Node -> string, d: Option<Node>)
    requires AllIn(listed, docs) && d == (if target in docs then Some(docs[target]) else None)
    ensures var o := Relocate(target, destination, listed, files, docs, plan, moved, serialize);
      (!(target in files && destination !in files) ==> !o.ok && o.pushes == [] && o.files == files) &&
      (target in files && destination !in files && d.None? ==>
         !o.ok && o.pushes == [] && o.files == (files - {target})[destination := files[target]]) &&
      (target in files && destination !in files && d.Some? ==>
         var pushes := [(destination, moved(d.value))] + Saves(listed, PlansOf(listed, docs, plan), Roots(listed, docs), serialize);
         o.ok && o.pushes == pushes && o.files == AfterPushes((files - {target})[destination := files[target]], pushes))
  {
  }

  /** The writes after the move: the moved document under its new key,
      then the inbound pass. */
  method Publish(c: FileCache, destination: string, listed: seq<string>, handles: seq<UpdateHandle>,
                 plans: seq<seq<Edit>>, query: Node -> seq<Edit>, ghost roots: seq<Node>, ghost d: Option<Node>)
    returns (ok: bool)
    requires c.Valid() && NoDuplicates(listed) && destination !in listed
    requires Keyed(c, listed, handles, plans) && |roots| == |listed|
    requires forall j :: 0 <= j < |listed| ==> !handles[j].executed && handles[j].doc.root == roots[j]
    requires forall k :: k in c.trees ==> k in listed
    requires c.LoadOf(destination) == d
    modifies c`text, c`order, c`trees, c.storage, handles, DocsOf(handles)
    ensures ok == d.Some?
    ensures ok ==>
      var pushes := [(destination, Rendered(query, c.serialize)(d.value))] + Saves(listed, plans, roots, c.serialize);
      c.storage.pushed == old(c.storage.pushed) + pushes && c.storage.files == AfterPushes(old(c.storage.files), pushes)
    ensures !ok ==> c.storage.files == old(c.storage.files) && c.storage.pushed == old(c.storage.pushed)
  {
    ghost var files := c.storage.files;
    ok := RewriteMoved(c, destination, query, d);
    if !ok {
      return;
    }
    ghost var out := Rendered(query, c.serialize)(d.value);
    ghost var m := files[destination := out];
    CommitInbound(c, listed, handles, plans, roots);
    ghost var saves := Saves(listed, plans, roots, c.serialize);
    assert AfterPushes(files, [(destination, out)]) == m by {
      assert [(destination, out)][..0] == [];
    }
    AfterPushesSplit(files, [(destination, out)], saves);
    ConcatAssociates(old(c.storage.pushed), [(destination, out)], saves);
  }
}
