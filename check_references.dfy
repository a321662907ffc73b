/** src/routines/check-references.ts: walks every listed document, checks
    each DITA cross reference in it against its target and, when a fix kind
    is switched on, asks how to repair a broken one. The three problems are
    a target document that does not load, a fragment identifier that names
    no element, and link text that differs from the target's title. */
module CheckReferences {
  import opened Results
  import opened Strings
  import opened PosixPath
  import opened XPath
  import opened Xml
  import opened DomCaching

  datatype FixOptions = FixOptions(fixDocumentNotFound: bool, fixElementNotFound: bool, fixTextNotMatch: bool)

  datatype Kind = DocNotFound | ElementNotFound | TextNotMatch

  /** A choice offered to the user: a label and the pending updates its
      XQuery Update expression produces (none for "Skip"); the label is `caption`. */
  datatype FixOption = FixOption(caption: string, edits: seq<Edit>)

  datatype Suggestion = Suggestion(kind: Kind, options: seq<FixOption>)

  const Skip := FixOption("Skip", [])

  /** `resolve-relative-reference($self, @href)` split at '#': the project
      path of the target document and what follows the first '#'. */
  datatype Target = Target(file: string, identifiers: Option<string>)

  function TargetOf(referrer: string, href: string): Target
  {
    var pieces := SplitOn(ResolveRelativeReference(referrer, href), '#');
    Target(pieces[0], if |pieces| > 1 then Some(pieces[1]) else None)
  }

  /** The last '/'-separated part of the identifiers (a DITA `topic/element`
      pair names the element last); an empty one counts as none. */
  function IdentifierOf(ids: Option<string>): Option<string>
  {
    if ids.None? then None
    else
      var parts := SplitOn(ids.value, '/');
      var last := parts[|parts| - 1];
      if last == "" then None else Some(last)
  }

  /** The index of the first path in `ps`, from `i` on, whose element has
      `@id` equal to `id`. */
  function FirstWithId(n: Node, ps: seq<Path>, id: string, i: nat): (r: Option<nat>)
    requires i <= |ps|
    ensures r.Some? ==>
              i <= r.value < |ps| && AttrAt(n, ps[r.value], "id") == Some(id) &&
              forall j :: i <= j < r.value ==> AttrAt(n, ps[j], "id") != Some(id)
    ensures r.None? ==> forall j :: i <= j < |ps| ==> AttrAt(n, ps[j], "id") != Some(id)
    decreases |ps| - i
  {
    if i == |ps| then None
    else if AttrAt(n, ps[i], "id") == Some(id) then Some(i)
    else FirstWithId(n, ps, id, i + 1)
  }

  /** The first element, in document order, whose `@id` is `id`. */
  function ElementById(n: Node, id: string): (r: Option<Node>)
    ensures r.Some? ==> r.value.Element? && "id" in r.value.attrs && r.value.attrs["id"] == id
    ensures r.None? ==> forall q :: q in ElementPaths(n) ==> AttrAt(n, q, "id") != Some(id)
  {
    var ps := ElementPaths(n);
    var i := FirstWithId(n, ps, id, 0);
    if i.None? then None else At(n, ps[i.value])
  }

  /** The texts of the `title` children. */
  function Titles(cs: seq<Node>): seq<string>
  {
    if cs == [] then []
    else (if cs[0].Element? && cs[0].name == "title" then [StringValue(cs[0])] else []) + Titles(cs[1..])
  }

  /** `evaluateXPathToString('./title', el)`: the titles, space separated. */
  function TitleText(n: Node): string
  {
    if n.Text? then "" else JoinWith(Titles(n.children), ' ')
  }

  predicate IsLink(el: Node)
  {
    el.Element? && "href" in el.attrs
  }

  /** The element a link points at inside its loaded target document: the
      element with the identifier when the reference names one, otherwise
      the document itself. */
  function Pointed(doc: Node, id: Option<string>): Option<Node>
  {
    if id.Some? then ElementById(doc, id.value) else Some(doc)
  }

  /** The identifier part of the link's reference. */
  function LinkIdentifier(referrer: string, el: Node): Option<string>
    requires IsLink(el)
  {
    IdentifierOf(TargetOf(referrer, el.attrs["href"]).identifiers)
  }

  /** "Unwrap reference": the link is replaced by its own text. */
  function Unwrap(p: Path, text: string): FixOption
  {
    FixOption("Unwrap reference", [ReplaceWithText(p, text)])
  }

  /** "Reference the whole document instead": the reference drops its
      identifiers and names the target document only. */
  function Whole(cwd: string, referrer: string, p: Path, file: string): FixOption
  {
    FixOption("Reference the whole document instead",
              [ReplaceAttributeValue(p, "href", CreateRelativeReference(cwd, referrer, file))])
  }

  /** "Update to match reference target": the link text becomes the title. */
  function Update(p: Path, title: string): FixOption
  {
    FixOption("Update to match reference target", [ReplaceElementValue(p, title)])
  }

  /** `checkOneReference` for the link element `el` at `p` of document
      `referrer`, given the target document as `getDocument` hands it out
      (None when loading throws). The first problem that applies decides:
      the document does not load, else the identified element is missing,
      else the target's title differs from the link text; a problem whose
      fix kind is off yields nothing, and later problems are not tried. */
  function CheckOne(cwd: string, referrer: string, el: Node, p: Path, loaded: Option<Node>, opts: FixOptions)
    : (r: Option<Suggestion>)
    requires IsLink(el)
    ensures r.Some? ==>
              |r.value.options| >= 2 && r.value.options[0] == Skip &&
              forall i, j :: 0 <= i < |r.value.options| && 0 <= j < |r.value.options[i].edits| ==>
                r.value.options[i].edits[j].at == p
    ensures (r.Some? && r.value.kind == DocNotFound) <==> loaded.None? && opts.fixDocumentNotFound
    ensures (r.Some? && r.value.kind == ElementNotFound) <==>
              loaded.Some? && Pointed(loaded.value, LinkIdentifier(referrer, el)).None? && opts.fixElementNotFound
    ensures (r.Some? && r.value.kind == TextNotMatch) <==>
              loaded.Some? && Pointed(loaded.value, LinkIdentifier(referrer, el)).Some? &&
              TitleText(Pointed(loaded.value, LinkIdentifier(referrer, el)).value) != StringValue(el) &&
              opts.fixTextNotMatch
    ensures r.None? <==>
              (loaded.None? && !opts.fixDocumentNotFound) ||
              (loaded.Some? && Pointed(loaded.value, LinkIdentifier(referrer, el)).None? && !opts.fixElementNotFound) ||
              (loaded.Some? && Pointed(loaded.value, LinkIdentifier(referrer, el)).Some? &&
               (TitleText(Pointed(loaded.value, LinkIdentifier(referrer, el)).value) == StringValue(el) ||
                !opts.fixTextNotMatch))
    ensures r.Some? && r.value.kind == DocNotFound ==>
              r.value.options == [Skip, Unwrap(p, StringValue(el))]
    ensures r.Some? && r.value.kind == ElementNotFound ==>
              r.value.options == [Skip, Whole(cwd, referrer, p, TargetOf(referrer, el.attrs["href"]).file),
                                  Unwrap(p, StringValue(el))]
    ensures r.Some? && r.value.kind == TextNotMatch ==>
              r.value.options == [Skip, Update(p, TitleText(Pointed(loaded.value, LinkIdentifier(referrer, el)).value)),
                                  Unwrap(p, StringValue(el))]
  {
    var text := StringValue(el);
    var t := TargetOf(referrer, el.attrs["href"]);
    if loaded.None? then
      (if opts.fixDocumentNotFound then Some(Suggestion(DocNotFound, [Skip, Unwrap(p, text)])) else None)
    else
      var target := Pointed(loaded.value, IdentifierOf(t.identifiers));
      if target.None? then
        (if opts.fixElementNotFound
         then Some(Suggestion(ElementNotFound, [Skip, Whole(cwd, referrer, p, t.file), Unwrap(p, text)]))
         else None)
      else
        var title := TitleText(target.value);
        if title == text then None
        else if opts.fixTextNotMatch then Some(Suggestion(TextNotMatch, [Skip, Update(p, title), Unwrap(p, text)]))
        else None
  }

  // ---------------------------------------------------------------------
  // What the offered fixes do

  /** Where the fragment separator falls decides the target. */
  lemma TargetOfFragment(referrer: string, href: string, file: string, ids: string)
    requires '#' !in file && '#' !in ids
    requires ResolveRelativeReference(referrer, href) == file + "#" + ids
    ensures TargetOf(referrer, href) == Target(file, Some(ids))
  {
    SplitAround(file, ids, '#');
    SplitNoSep(file, '#');
    SplitNoSep(ids, '#');
  }

  lemma TargetOfWhole(referrer: string, href: string)
    requires '#' !in ResolveRelativeReference(referrer, href)
    ensures TargetOf(referrer, href) == Target(ResolveRelativeReference(referrer, href), None)
  {
    SplitNoSep(ResolveRelativeReference(referrer, href), '#');
  }

  /** "Update to match reference target" makes the link text the target's
      title, so checking the reference again finds nothing to fix. */
  lemma UpdateSettles(cwd: string, referrer: string, root: Node, p: Path, loaded: Option<Node>, opts: FixOptions)
    requires At(root, p).Some? && IsLink(At(root, p).value)
    requires var s := CheckOne(cwd, referrer, At(root, p).value, p, loaded, opts);
             s.Some? && s.value.kind == TextNotMatch
    ensures var s := CheckOne(cwd, referrer, At(root, p).value, p, loaded, opts);
            var root' := Apply(root, s.value.options[1].edits);
            At(root', p).Some? && IsLink(At(root', p).value) &&
            At(root', p).value.attrs == At(root, p).value.attrs &&
            CheckOne(cwd, referrer, At(root', p).value, p, loaded, opts).None?
  {
    var el := At(root, p).value;
    var s := CheckOne(cwd, referrer, el, p, loaded, opts);
    var e := s.value.options[1].edits[0];
    var title := e.text;
    assert s.value.options[1].edits == [e];
    ReplaceAtEffect(root, p, SetText(title), p);
    var el' := SetText(title)(el);
    if title != "" {
      assert el'.children == [Text(title)];
      assert ChildrenValue(el', 1) == "";
      assert ChildrenValue(el', 0) == StringValue(el'.children[0]) + ChildrenValue(el', 1);
    } else {
      assert ChildrenValue(el', 0) == "";
    }
    assert StringValue(el') == title;
    assert el'.attrs == el.attrs;
    assert At(Apply(root, [e]), p) == Some(el');
  }

  /** "Reference the whole document instead" writes a reference that
      resolves to the target document itself with no fragment, so checking
      again cannot find a missing document or element; the text of the
      referring document stays as it was. */
  lemma WholeDocumentSettles(cwd: string, referrer: string, root: Node, p: Path, loaded: Option<Node>, opts: FixOptions)
    requires At(root, p).Some? && IsLink(At(root, p).value)
    requires var s := CheckOne(cwd, referrer, At(root, p).value, p, loaded, opts);
             s.Some? && s.value.kind == ElementNotFound
    requires IsKey(referrer) && IsKey(TargetOf(referrer, At(root, p).value.attrs["href"]).file)
    ensures var el := At(root, p).value;
            var s := CheckOne(cwd, referrer, el, p, loaded, opts);
            var root' := Apply(root, s.value.options[1].edits);
            At(root', p).Some? && IsLink(At(root', p).value) &&
            TargetOf(referrer, At(root', p).value.attrs["href"]) == Target(TargetOf(referrer, el.attrs["href"]).file, None) &&
            StringValue(root') == StringValue(root) &&
            var again := CheckOne(cwd, referrer, At(root', p).value, p, loaded, opts);
            again.None? || again.value.kind == TextNotMatch
  {
    var el := At(root, p).value;
    var s := CheckOne(cwd, referrer, el, p, loaded, opts);
    var file := TargetOf(referrer, el.attrs["href"]).file;
    var href' := CreateRelativeReference(cwd, referrer, file);
    assert s.value.options[1].edits == [ReplaceAttributeValue(p, "href", href')];
    ReplaceAtEffect(root, p, SetAttr("href", href'), p);
    var el' := SetAttr("href", href')(el);
    KeyIsPath(file);
    ResolveCreateRoundTrip(cwd, referrer, file);
    KeyHasNoFragment(file);
    TargetOfWhole(referrer, href');
    ChildrenValueSame(el', el, 0);
    ReplaceAtKeepsString(root, p, SetAttr("href", href'));
  }

  /** "Unwrap reference", the last option of every suggestion, puts the link
      text in place of the link: no link is left at `p` and the text of the
      referring document stays as it was. */
  lemma UnwrapKeepsText(cwd: string, referrer: string, root: Node, p: Path, loaded: Option<Node>, opts: FixOptions)
    requires At(root, p).Some? && IsLink(At(root, p).value)
    requires CheckOne(cwd, referrer, At(root, p).value, p, loaded, opts).Some?
    ensures var s := CheckOne(cwd, referrer, At(root, p).value, p, loaded, opts);
            var root' := Apply(root, s.value.options[|s.value.options| - 1].edits);
            At(root', p) == Some(Text(StringValue(At(root, p).value))) &&
            StringValue(root') == StringValue(root)
  {
    var el := At(root, p).value;
    var s := CheckOne(cwd, referrer, el, p, loaded, opts);
    assert s.value.options[|s.value.options| - 1].edits == [ReplaceWithText(p, StringValue(el))];
    ReplaceAtEffect(root, p, ToText(StringValue(el)), p);
    ReplaceAtKeepsString(root, p, ToText(StringValue(el)));
  }

  // ---------------------------------------------------------------------
  // The references of a document

  /** A DITA reference: an element with `@href`, `@format` equal to "dita"
      and non-empty text. */
  predicate IsReference(n: Node)
  {
    IsLink(n) && "format" in n.attrs && n.attrs["format"] == "dita" && StringValue(n) != ""
  }

  predicate IsReferenceAt(root: Node, q: Path)
  {
    At(root, q).Some? && IsReference(At(root, q).value)
  }

  function ReferencesAmong(root: Node, ps: seq<Path>): (r: seq<Path>)
    ensures forall q :: q in r <==> q in ps && IsReferenceAt(root, q)
    ensures |r| <= |ps|
  {
    if ps == [] then []
    else (if IsReferenceAt(root, ps[0]) then [ps[0]] else []) + ReferencesAmong(root, ps[1..])
  }

  /** The paths of the references of a document, in document order. */
  function References(root: Node): (r: seq<Path>)
    ensures forall q :: q in r <==> q in ElementPaths(root) && IsReferenceAt(root, q)
  {
    ReferencesAmong(root, ElementPaths(root))
  }

  // ---------------------------------------------------------------------
  // The whole run, as a function of the documents and the answers

  /** The documents as the cache serves them, the answers still to be
      given at the prompts, and the files pushed so far. */
  datatype Run = Run(docs: map<string, Node>, answers: seq<nat>, pushes: seq<(string, string)>)

  function Loaded(docs: map<string, Node>, file: string): Option<Node>
  {
    if file in docs then Some(docs[file]) else None
  }

  /** The option picked at a prompt: the next answer, counted from 0; an
      answer that is missing or out of range picks "Skip". */
  function Choose(s: Suggestion, answers: seq<nat>): (r: (FixOption, seq<nat>))
    requires s.options != []
    ensures r.0 in s.options
    ensures answers != [] && answers[0] < |s.options| ==> r.0 == s.options[answers[0]]
    ensures r.1 == if answers == [] then [] else answers[1..]
  {
    if answers == [] then (s.options[0], [])
    else (if answers[0] < |s.options| then s.options[answers[0]] else s.options[0], answers[1..])
  }

  /** `formatClickableName` reads the position of the link's first text
      child, so a link with no text node among its children makes
      `checkOneReference` throw before anything is checked. */
  predicate HasTextChild(el: Node)
  {
    el.Element? && exists i :: 0 <= i < |el.children| && el.children[i].Text?
  }

  /** Where the `reduce` over the references of one document stands: the
      run so far, whether the document was updated, the edits of the
      fixes picked so far (each at the path its reference had when the
      references were selected), and whether the run ended with an error. */
  datatype Pass = Pass(run: Run, updated: bool, fixed: seq<Edit>, halted: bool)

  /** Whether a fix picked earlier cut the node selected at `q` out of the
      document: an "Unwrap" replaced one of its ancestors, or an "Update"
      replaced the children of one. The node keeps its own subtree. */
  predicate Detached(fixed: seq<Edit>, q: Path)
  {
    exists i :: 0 <= i < |fixed| && !fixed[i].ReplaceAttributeValue? && IsPrefix(fixed[i].at, q) && fixed[i].at != q
  }

  /** Whether `replace node` cannot put text where the node selected at `q`
      is: the document element, whose parent is the document node, or a
      node whose parent's children an "Update" replaced, which leaves it
      with no parent at all. */
  predicate Unplaceable(fixed: seq<Edit>, q: Path)
  {
    q == [] || exists i :: 0 <= i < |fixed| && fixed[i].ReplaceElementValue? && fixed[i].at == q[..|q| - 1]
  }

  /** One step of the `reduce` over the references of document `k`, whose
      tree was `selected` when they were selected. The node found at `q`
      then is checked as it is now, which is as it was then: a fix only
      changes its own reference and, by replacing it or its children,
      cuts later nodes loose without changing them. A link with no text
      child throws. Otherwise the user is prompted and the chosen update
      runs: it changes the document only while the node is still in it,
      an "Unwrap" of a node with no parent that can take text throws, and
      any non-empty update marks the document updated, which writes it. */
  function ReviewOne(cwd: string, opts: FixOptions, serialize: Node -> string,
                     k: string, selected: Node, q: Path, pass: Pass): (r: Pass)
    requires k in pass.run.docs
    ensures r.run.docs.Keys == pass.run.docs.Keys
    ensures forall j :: j in pass.run.docs && j != k ==> r.run.docs[j] == pass.run.docs[j]
    ensures IsReferenceAt(selected, q) && !HasTextChild(At(selected, q).value) ==> r.halted
    ensures r.halted ==>
              pass.halted || (At(selected, q).Some? && IsLink(At(selected, q).value) && (!HasTextChild(At(selected, q).value) || Unplaceable(pass.fixed, q)))
    ensures Detached(pass.fixed, q) ==> r.run.docs == pass.run.docs
    ensures |pass.fixed| <= |r.fixed| && r.fixed[..|pass.fixed|] == pass.fixed
    ensures forall i :: |pass.fixed| <= i < |r.fixed| ==> r.fixed[i].at == q
    ensures pass.updated ==> r.updated
    ensures r.run.docs != pass.run.docs ==> r.updated
    ensures r.run.pushes == pass.run.pushes ||
            (r.updated && r.run.pushes == pass.run.pushes + [(k, serialize(r.run.docs[k]))])
  {
    var run := pass.run;
    var el := At(selected, q);
    if el.None? || !IsLink(el.value) then pass
    else if !HasTextChild(el.value) then pass.(halted := true)
    else
      var s := CheckOne(cwd, k, el.value, q, Loaded(run.docs, TargetOf(k, el.value.attrs["href"]).file), opts);
      if s.None? then pass
      else
        var pick := Choose(s.value, run.answers);
        var edits := pick.0.edits;
        if edits != [] && edits[0].ReplaceWithText? && Unplaceable(pass.fixed, q) then
          pass.(run := run.(answers := pick.1), halted := true)
        else
          var docs := if edits != [] && !Detached(pass.fixed, q) then run.docs[k := Apply(run.docs[k], edits)] else run.docs;
          var upd := edits != [] || pass.updated;
          var pushes := if upd then run.pushes + [(k, serialize(docs[k]))] else run.pushes;
          Pass(Run(docs, pick.1, pushes), upd, pass.fixed + edits, false)
  }

  /** The `reduce` over the references `ps` of document `k`, until one
      throws. */
  function ReviewAll(cwd: string, opts: FixOptions, serialize: Node -> string,
                     k: string, selected: Node, ps: seq<Path>, pass: Pass): (r: Pass)
    requires k in pass.run.docs
    ensures r.run.docs.Keys == pass.run.docs.Keys
    decreases |ps|
  {
    if ps == [] || pass.halted then pass
    else ReviewAll(cwd, opts, serialize, k, selected, ps[1..], ReviewOne(cwd, opts, serialize, k, selected, ps[0], pass))
  }

  /** The review of document `k` as the run reaches it: its references,
      selected from its tree as it is then, from a fresh start. */
  function ReviewDoc(cwd: string, opts: FixOptions, serialize: Node -> string, k: string, run: Run): (r: Pass)
    requires k in run.docs
    ensures r.run.docs.Keys == run.docs.Keys
  {
    ReviewAll(cwd, opts, serialize, k, run.docs[k], References(run.docs[k]), Pass(run, false, [], false))
  }

  /** The loop over the listed keys: each document's references in turn;
      the second component is false when a document fails to load or its
      review throws, which ends the run. */
  function CheckFiles(cwd: string, opts: FixOptions, serialize: Node -> string,
                      ks: seq<string>, run: Run): (r: (Run, bool))
    ensures r.0.docs.Keys == run.docs.Keys
    decreases |ks|
  {
    if ks == [] then (run, true)
    else if ks[0] !in run.docs then (run, false)
    else
      var after := ReviewDoc(cwd, opts, serialize, ks[0], run);
      if after.halted then (after.run, false)
      else CheckFiles(cwd, opts, serialize, ks[1..], after.run)
  }

  /** The run succeeds only when every listed key loads. */
  lemma {:induction false} CheckFilesLoaded(cwd: string, opts: FixOptions, serialize: Node -> string,
                                            ks: seq<string>, run: Run)
    ensures CheckFiles(cwd, opts, serialize, ks, run).1 ==> forall i :: 0 <= i < |ks| ==> ks[i] in run.docs
    decreases |ks|
  {
    if ks != [] && ks[0] in run.docs {
      var after := ReviewDoc(cwd, opts, serialize, ks[0], run);
      CheckFilesLoaded(cwd, opts, serialize, ks[1..], after.run);
      assert forall i :: 1 <= i < |ks| ==> ks[i] == ks[1..][i - 1];
    }
  }

  lemma CheckFilesCons(cwd: string, opts: FixOptions, serialize: Node -> string,
                       ks: seq<string>, n: nat, run: Run)
    requires n < |ks|
    ensures var k := ks[n];
      CheckFiles(cwd, opts, serialize, ks[n..], run) ==
        if k !in run.docs then (run, false)
        else
          var after := ReviewDoc(cwd, opts, serialize, k, run);
          if after.halted then (after.run, false) else CheckFiles(cwd, opts, serialize, ks[n + 1..], after.run)
  {
    assert ks[n..][0] == ks[n] && ks[n..][1..] == ks[n + 1..];
  }

  /** What the last push for key `k` wrote. */
  function LastPush(pushes: seq<(string, string)>, k: string): Option<string>
  {
    if pushes == [] then None
    else if pushes[|pushes| - 1].0 == k then Some(pushes[|pushes| - 1].1)
    else LastPush(pushes[..|pushes| - 1], k)
  }

  // ---------------------------------------------------------------------
  // What the run promises

  predicate NoFixes(opts: FixOptions)
  {
    !opts.fixDocumentNotFound && !opts.fixElementNotFound && !opts.fixTextNotMatch
  }

  /** With every fix kind off the run only reports: nothing is asked,
      changed or written. */
  lemma {:induction false} ReviewAllQuiet(cwd: string, opts: FixOptions, serialize: Node -> string,
                                          k: string, selected: Node, ps: seq<Path>, pass: Pass)
    requires NoFixes(opts) && k in pass.run.docs
    ensures var out := ReviewAll(cwd, opts, serialize, k, selected, ps, pass);
            out.run == pass.run && out.updated == pass.updated
    decreases |ps|
  {
    if ps != [] && !pass.halted {
      var next := ReviewOne(cwd, opts, serialize, k, selected, ps[0], pass);
      assert next.run == pass.run && next.updated == pass.updated;
      ReviewAllQuiet(cwd, opts, serialize, k, selected, ps[1..], next);
    }
  }

  lemma {:induction false} CheckFilesQuiet(cwd: string, opts: FixOptions, serialize: Node -> string,
                                           ks: seq<string>, run: Run)
    requires NoFixes(opts)
    ensures CheckFiles(cwd, opts, serialize, ks, run).0 == run
    decreases |ks|
  {
    if ks != [] && ks[0] in run.docs {
      ReviewAllQuiet(cwd, opts, serialize, ks[0], run.docs[ks[0]], References(run.docs[ks[0]]), Pass(run, false, [], false));
      CheckFilesQuiet(cwd, opts, serialize, ks[1..], run);
    }
  }

  lemma LastPushAppend(pushes: seq<(string, string)>, j: string, v: string, k: string)
    ensures LastPush(pushes + [(j, v)], k) == if j == k then Some(v) else LastPush(pushes, k)
  {
    assert (pushes + [(j, v)])[..|pushes|] == pushes;
  }

  /** Within one document: only `k` changes, nothing is pushed for another
      key, and once the document changed, its last push is its current
      text. */
  lemma {:induction false} ReviewAllSaves(cwd: string, opts: FixOptions, serialize: Node -> string,
                                          k: string, selected: Node, ps: seq<Path>, pass: Pass)
    requires k in pass.run.docs
    requires pass.updated ==> LastPush(pass.run.pushes, k) == Some(serialize(pass.run.docs[k]))
    ensures var out := ReviewAll(cwd, opts, serialize, k, selected, ps, pass);
            (pass.updated ==> out.updated) &&
            (out.run.docs[k] != pass.run.docs[k] ==> out.updated) &&
            (out.updated ==> LastPush(out.run.pushes, k) == Some(serialize(out.run.docs[k]))) &&
            forall j :: j != k ==>
              (j in pass.run.docs ==> out.run.docs[j] == pass.run.docs[j]) &&
              LastPush(out.run.pushes, j) == LastPush(pass.run.pushes, j)
    decreases |ps|
  {
    if ps != [] && !pass.halted {
      var step := ReviewOne(cwd, opts, serialize, k, selected, ps[0], pass);
      forall j
        ensures LastPush(step.run.pushes, j) ==
                (if step.run.pushes != pass.run.pushes && j == k then Some(serialize(step.run.docs[k]))
                 else LastPush(pass.run.pushes, j))
      {
        if step.run.pushes != pass.run.pushes {
          LastPushAppend(pass.run.pushes, k, serialize(step.run.docs[k]), j);
        }
      }
      ReviewAllSaves(cwd, opts, serialize, k, selected, ps[1..], step);
    }
  }

  /** "Done, all changes saved": every document the run changed was among
      the keys it went through, and the last push for it holds its final
      text; no other document changes. This holds when the run ends with
      an error as well. */
  lemma {:induction false} ChangesSaved(cwd: string, opts: FixOptions, serialize: Node -> string,
                                        ks: seq<string>, run: Run)
    requires NoDuplicates(ks)
    ensures var out := CheckFiles(cwd, opts, serialize, ks, run).0;
            forall k :: k in run.docs ==>
              (out.docs[k] != run.docs[k] ==> k in ks && LastPush(out.pushes, k) == Some(serialize(out.docs[k]))) &&
              (k !in ks ==> out.docs[k] == run.docs[k] && LastPush(out.pushes, k) == LastPush(run.pushes, k))
    decreases |ks|
  {
    if ks != [] && ks[0] in run.docs {
      var k0 := ks[0];
      var after := ReviewDoc(cwd, opts, serialize, k0, run);
      ReviewAllSaves(cwd, opts, serialize, k0, run.docs[k0], References(run.docs[k0]), Pass(run, false, [], false));
      if !after.halted {
        assert NoDuplicates(ks[1..]) && k0 !in ks[1..];
        ChangesSaved(cwd, opts, serialize, ks[1..], after.run);
      }
    }
  }

  /** A link among the references with no text child stops the review of
      its document: the run ends with an error there, or earlier. */
  lemma {:induction false} ReviewAllHalts(cwd: string, opts: FixOptions, serialize: Node -> string,
                                          k: string, selected: Node, ps: seq<Path>, pass: Pass, i: nat)
    requires k in pass.run.docs && i < |ps|
    requires IsReferenceAt(selected, ps[i]) && !HasTextChild(At(selected, ps[i]).value)
    ensures ReviewAll(cwd, opts, serialize, k, selected, ps, pass).halted
    decreases |ps|
  {
    if !pass.halted {
      var next := ReviewOne(cwd, opts, serialize, k, selected, ps[0], pass);
      if i > 0 {
        assert ps[1..][i - 1] == ps[i];
        ReviewAllHalts(cwd, opts, serialize, k, selected, ps[1..], next, i - 1);
      }
    }
  }

  /** A reference with no text child in any listed document makes the run
      fail: `formatClickableName` throws on it unless the run ended before. */
  lemma {:induction false} CheckFilesEnds(cwd: string, opts: FixOptions, serialize: Node -> string,
                                          ks: seq<string>, run: Run, i: nat, q: Path)
    requires NoDuplicates(ks) && i < |ks| && ks[i] in run.docs
    requires q in References(run.docs[ks[i]]) && !HasTextChild(At(run.docs[ks[i]], q).value)
    ensures !CheckFiles(cwd, opts, serialize, ks, run).1
    decreases |ks|
  {
    var k0 := ks[0];
    if k0 in run.docs {
      var root := run.docs[k0];
      var after := ReviewDoc(cwd, opts, serialize, k0, run);
      if i == 0 {
        var refs := References(root);
        var j :| 0 <= j < |refs| && refs[j] == q;
        ReviewAllHalts(cwd, opts, serialize, k0, root, refs, Pass(run, false, [], false), j);
      } else if !after.halted {
        ReviewAllSaves(cwd, opts, serialize, k0, root, References(root), Pass(run, false, [], false));
        assert ks[1..][i - 1] == ks[i] && ks[i] != k0;
        CheckFilesEnds(cwd, opts, serialize, ks[1..], after.run, i - 1, q);
      }
    }
  }

  /** No reference of the document lies inside another one. */
  predicate Unnested(root: Node)
  {
    forall p, q :: p in References(root) && q in References(root) && IsPrefix(p, q) ==> p == q
  }

  /** A document whose review cannot throw: every reference has a text
      child, none is the document element, and none lies inside another. */
  predicate Checkable(root: Node)
  {
    Unnested(root) &&
    forall q :: q in References(root) ==> q != [] && HasTextChild(At(root, q).value)
  }

  /** In a document whose references do not nest, the parent of a
      reference is not one. */
  lemma ParentNotReference(root: Node, q: Path)
    requires Unnested(root) && q in References(root) && q != []
    ensures q[..|q| - 1] !in References(root)
  {
    var p := q[..|q| - 1];
    assert IsPrefix(p, q) && p != q;
  }

  lemma {:induction false} ReviewAllCompletes(cwd: string, opts: FixOptions, serialize: Node -> string,
                                              k: string, selected: Node, ps: seq<Path>, pass: Pass)
    requires k in pass.run.docs && !pass.halted && Checkable(selected)
    requires forall q :: q in ps ==> q in References(selected)
    requires forall i :: 0 <= i < |pass.fixed| ==> pass.fixed[i].at in References(selected)
    ensures !ReviewAll(cwd, opts, serialize, k, selected, ps, pass).halted
    decreases |ps|
  {
    if ps != [] {
      var q := ps[0];
      ParentNotReference(selected, q);
      assert !Unplaceable(pass.fixed, q);
      var next := ReviewOne(cwd, opts, serialize, k, selected, q, pass);
      forall i | 0 <= i < |next.fixed|
        ensures next.fixed[i].at in References(selected)
      {
        if i < |pass.fixed| {
          assert next.fixed[i] == next.fixed[..|pass.fixed|][i];
        }
      }
      ReviewAllCompletes(cwd, opts, serialize, k, selected, ps[1..], next);
    }
  }

  /** When every listed document loads and none of their reviews can
      throw, the run succeeds, whatever the answers. */
  lemma {:induction false} CheckFilesCompletes(cwd: string, opts: FixOptions, serialize: Node -> string,
                                               ks: seq<string>, run: Run)
    requires NoDuplicates(ks)
    requires forall k :: k in ks ==> k in run.docs && Checkable(run.docs[k])
    ensures CheckFiles(cwd, opts, serialize, ks, run).1
    decreases |ks|
  {
    if ks != [] {
      var k0 := ks[0];
      var root := run.docs[k0];
      ReviewAllCompletes(cwd, opts, serialize, k0, root, References(root), Pass(run, false, [], false));
      var after := ReviewDoc(cwd, opts, serialize, k0, run);
      ReviewAllSaves(cwd, opts, serialize, k0, root, References(root), Pass(run, false, [], false));
      assert NoDuplicates(ks[1..]) && k0 !in ks[1..];
      CheckFilesCompletes(cwd, opts, serialize, ks[1..], after.run);
    }
  }

  // ---------------------------------------------------------------------
  // The routine

  /** No key reads its file from where another document key is written. */
  ghost predicate WritesApart(c: FileCache, keys: set<string>)
  {
    forall j, k :: k in keys && c.resolve(j) == k ==> j == k
  }

  /** `getDocument` of a reference target, turned into the loaded tree or
      None when it throws (the `catch` of `checkOneReference`). */
  method LoadTarget(c: FileCache, file: string, ghost docs: map<string, Node>) returns (loaded: Option<Node>)
    requires c.Valid() && c.Serves(docs)
    modifies c`text, c`order, c`trees, c.storage`fetches
    ensures loaded == Loaded(docs, file)
    ensures c.Valid() && c.Serves(docs)
    ensures forall j :: j in old(c.trees) ==> j in c.trees && c.trees[j] == old(c.trees[j])
    ensures forall o :: o in c.trees.Values ==> o in old(c.trees.Values) || fresh(o)
  {
    var target := c.GetDocument(file);
    loaded := if target.Ok? then Some(target.value.root) else None;
  }

  /** `getDocument` of a listed key: its cached tree, which holds the
      document the cache serves, or an error when the key does not load. */
  method OpenDocument(c: FileCache, k: string, ghost docs: map<string, Node>) returns (d: Result<Dom>)
    requires c.Valid() && c.Serves(docs)
    modifies c`text, c`order, c`trees, c.storage`fetches
    ensures d.Ok? <==> k in docs
    ensures d.Ok? ==> k in c.trees && c.trees[k] == d.value && d.value.root == docs[k]
    ensures c.Valid() && c.Serves(docs)
    ensures forall o :: o in c.trees.Values ==> o in old(c.trees.Values) || fresh(o)
  {
    d := c.GetDocument(k);
  }

  /** `updateDocument` with the chosen update, then `execute()`; the result
      is whether the pending update list was non-empty. */
  method Commit(c: FileCache, k: string, dom: Dom, edits: seq<Edit>, ghost docs: map<string, Node>) returns (nonEmpty: bool)
    requires c.Valid() && c.Serves(docs) && k in c.trees && c.trees[k] == dom && k in docs
    modifies c`text, c`order, c`trees, c.storage`fetches, dom
    ensures dom.root == Apply(old(dom.root), edits) && nonEmpty == (edits != [])
    ensures c.Valid() && c.Serves(docs[k := dom.root]) && c.trees == old(c.trees)
  {
    var h := c.UpdateDocument(k, (m: Node) => edits);
    var done := h.value.Execute();
    nonEmpty := h.value.pending != [];
  }

  /** `writeFile(filePath)`: the cached tree of `k`, serialised, goes to
      storage; what the cache serves does not change. */
  method Save(c: FileCache, k: string, dom: Dom, ghost docs: map<string, Node>)
    requires c.Valid() && c.Serves(docs) && WritesApart(c, docs.Keys)
    requires k in c.trees && c.trees[k] == dom && k in docs
    modifies c`text, c`order, c`trees, c.storage
    ensures c.Valid() && c.Serves(docs) && c.trees == old(c.trees)
    ensures c.storage.pushed == old(c.storage.pushed) + [(k, c.serialize(dom.root))]
  {
    var written := c.WriteFile(k, None);
  }

  /** One step of the `reduce`: the reference selected at `q` of document
      `k`, whose tree the cache holds as `dom` and was `selected` when the
      references were selected; `fixed` holds the edits of the fixes
      picked before in this document. `base` is what storage had been
      sent before the run. */
  method ReviewReference(c: FileCache, cwd: string, opts: FixOptions, k: string, selected: Node, q: Path, dom: Dom,
                         answers: seq<nat>, updated: bool, fixed: seq<Edit>,
                         ghost run: Run, ghost base: seq<(string, string)>)
    returns (answers': seq<nat>, updated': bool, fixed': seq<Edit>, halted: bool, ghost run': Run)
    requires c.Valid() && c.Serves(run.docs) && WritesApart(c, run.docs.Keys)
    requires k in c.trees && c.trees[k] == dom && k in run.docs && dom.root == run.docs[k]
    requires run.answers == answers && c.storage.pushed == base + run.pushes
    modifies c, c.storage, dom
    ensures Pass(run', updated', fixed', halted) == ReviewOne(cwd, opts, c.serialize, k, selected, q, Pass(run, updated, fixed, false))
    ensures c.Valid() && c.Serves(run'.docs) && run'.docs.Keys == run.docs.Keys
    ensures k in c.trees && c.trees[k] == dom && dom.root == run'.docs[k]
    ensures run'.answers == answers' && c.storage.pushed == base + run'.pushes
    ensures forall o :: o in c.trees.Values ==> o in old(c.trees.Values) || fresh(o)
  {
    run', answers', updated', fixed', halted := run, answers, updated, fixed, false;
    var el := At(selected, q);
    if el.None? || !IsLink(el.value) {
      return;
    }
    if !HasTextChild(el.value) {
      halted := true;
      return;
    }
    var t := TargetOf(k, el.value.attrs["href"]);
    var loaded := LoadTarget(c, t.file, run.docs);
    var s := CheckOne(cwd, k, el.value, q, loaded, opts);
    if s.None? {
      return;
    }
    var pick := Choose(s.value, answers);
    answers' := pick.1;
    var edits := pick.0.edits;
    if edits != [] && edits[0].ReplaceWithText? && Unplaceable(fixed, q) {
      run', halted := run.(answers := answers'), true;
      return;
    }
    updated', run' := ApplyPick(c, k, dom, edits, !Detached(fixed, q), answers', updated, run, base);
    fixed' := fixed + edits;
  }

  /** The tail of a `reduce` step once a fix is picked: its edits go into
      the cached tree while the node is `attached` to it (otherwise they
      change only the node cut loose), a non-empty update marks the
      document updated, and the document is written when anything of it
      has been updated so far. */
  method ApplyPick(c: FileCache, k: string, dom: Dom, edits: seq<Edit>, attached: bool, answers': seq<nat>, updated: bool,
                   ghost run: Run, ghost base: seq<(string, string)>)
    returns (updated': bool, ghost run': Run)
    requires c.Valid() && c.Serves(run.docs) && WritesApart(c, run.docs.Keys)
    requires k in c.trees && c.trees[k] == dom && k in run.docs && dom.root == run.docs[k]
    requires c.storage.pushed == base + run.pushes
    modifies c, c.storage, dom
    ensures updated' == (edits != [] || updated)
    ensures run'.docs == (if edits != [] && attached then run.docs[k := Apply(run.docs[k], edits)] else run.docs)
    ensures run'.answers == answers'
    ensures run'.pushes == if updated' then run.pushes + [(k, c.serialize(run'.docs[k]))] else run.pushes
    ensures c.Valid() && c.Serves(run'.docs) && k in c.trees && c.trees[k] == dom && dom.root == run'.docs[k]
    ensures c.storage.pushed == base + run'.pushes && c.trees == old(c.trees)
  {
    updated' := updated;
    ghost var docs' := run.docs;
    if edits != [] {
      if attached {
        var nonEmpty := Commit(c, k, dom, edits, run.docs);
        docs' := run.docs[k := dom.root];
      }
      updated' := true;
    }
    assert WritesApart(c, docs'.Keys);
    if updated' {
      Save(c, k, dom, docs');
    }
    run' := Run(docs', answers', if updated' then run.pushes + [(k, c.serialize(dom.root))] else run.pushes);
  }

  /** The references of document `k`, selected from its cached tree, one
      `reduce` step after another, starting with nothing updated, until
      one throws. */
  method ReviewDocument(c: FileCache, cwd: string, opts: FixOptions, k: string, dom: Dom,
                        answers: seq<nat>, ghost run: Run, ghost base: seq<(string, string)>)
    returns (answers': seq<nat>, halted: bool, ghost run': Run)
    requires c.Valid() && c.Serves(run.docs) && WritesApart(c, run.docs.Keys)
    requires k in c.trees && c.trees[k] == dom && k in run.docs && dom.root == run.docs[k]
    requires run.answers == answers && c.storage.pushed == base + run.pushes
    modifies c, c.storage, dom
    ensures var out := ReviewDoc(cwd, opts, c.serialize, k, run); run' == out.run && halted == out.halted
    ensures c.Valid() && c.Serves(run'.docs) && run'.docs.Keys == run.docs.Keys
    ensures run'.answers == answers' && c.storage.pushed == base + run'.pushes
    ensures forall o :: o in c.trees.Values ==> o in old(c.trees.Values) || fresh(o)
  {
    var selected := dom.root;
    var refs := References(selected);
    ghost var goal := ReviewDoc(cwd, opts, c.serialize, k, run);
    var updated, fixed := false, [];
    answers', halted, run' := answers, false, run;
    var j := 0;
    while j < |refs| && !halted
      invariant 0 <= j <= |refs|
      invariant c.Valid() && c.Serves(run'.docs) && run'.docs.Keys == run.docs.Keys && WritesApart(c, run'.docs.Keys)
      invariant k in c.trees && c.trees[k] == dom && dom.root == run'.docs[k]
      invariant run'.answers == answers' && c.storage.pushed == base + run'.pushes
      invariant ReviewAll(cwd, opts, c.serialize, k, selected, refs[j..], Pass(run', updated, fixed, halted)) == goal
      invariant forall o :: o in c.trees.Values ==> o in old(c.trees.Values) || fresh(o)
    {
      assert refs[j..][0] == refs[j] && refs[j..][1..] == refs[j + 1..];
      answers', updated, fixed, halted, run' := ReviewReference(c, cwd, opts, k, selected, refs[j], dom, answers', updated, fixed, run', base);
      j := j + 1;
    }
  }

  /** One key of `keys()`: its document, then its references; false when
      the document does not load or its review throws. */
  method CheckFile(c: FileCache, cwd: string, opts: FixOptions, keys: seq<string>, n: nat,
                   answers: seq<nat>, ghost run: Run, ghost base: seq<(string, string)>)
    returns (ok: bool, answers': seq<nat>, ghost run': Run)
    requires n < |keys|
    requires c.Valid() && c.Serves(run.docs) && WritesApart(c, run.docs.Keys)
    requires run.answers == answers && c.storage.pushed == base + run.pushes
    modifies c, c.storage, c.trees.Values
    ensures CheckFiles(cwd, opts, c.serialize, keys[n..], run) ==
              if ok then CheckFiles(cwd, opts, c.serialize, keys[n + 1..], run') else (run', false)
    ensures c.Valid() && c.Serves(run'.docs) && run'.docs.Keys == run.docs.Keys
    ensures run'.answers == answers' && c.storage.pushed == base + run'.pushes
    ensures forall o :: o in c.trees.Values ==> o in old(c.trees.Values) || fresh(o)
  {
    CheckFilesCons(cwd, opts, c.serialize, keys, n, run);
    answers', run' := answers, run;
    var d := OpenDocument(c, keys[n], run.docs);
    if d.Err? {
      return false, answers', run';
    }
    var halted;
    answers', halted, run' := ReviewDocument(c, cwd, opts, keys[n], d.value, answers, run, base);
    ok := !halted;
  }

  lemma ElementsSnoc(s: seq<string>, i: int)
    requires 0 <= i < |s|
    ensures Elements(s[..i + 1]) == Elements(s[..i]) + {s[i]}
  {
    assert s[..i + 1] == s[..i] + [s[i]];
  }

  /** The insertion order after `discoverFile` of each of `files`: a file
      the text map does not hold yet goes to the end. */
  function Appended(order: seq<string>, files: seq<string>): (r: seq<string>)
    ensures |order| <= |r| && r[..|order|] == order
    ensures forall k :: k in r <==> k in order || k in files
    ensures NoDuplicates(order) ==> NoDuplicates(r)
    decreases |files|
  {
    if files == [] then order
    else Appended(if files[0] in order then order else order + [files[0]], files[1..])
  }

  lemma AppendedStep(order: seq<string>, files: seq<string>, i: int)
    requires 0 <= i < |files|
    ensures Appended(order, files[i..]) ==
            Appended(if files[i] in order then order else order + [files[i]], files[i + 1..])
  {
    assert files[i..][0] == files[i] && files[i..][1..] == files[i + 1..];
  }

  /** `discoverFile` of one project file, which the cache then serves as
      storage does. */
  method DiscoverOne(c: FileCache, k: string, ghost docs: map<string, Node>)
    requires c.Valid() && c.Serves(docs) && c.ServesFresh(docs)
    modifies c`text, c`order
    ensures c.Valid() && c.Serves(docs) && c.ServesFresh(docs)
    ensures c.ListedSet() == old(c.ListedSet()) + {k}
    ensures c.order == if k in old(c.order) then old(c.order) else old(c.order) + [k]
  {
    assert (k in c.text) == (k in c.order);
    c.DiscoverFile(k);
  }

  /** `discoverFile` for each project file. */
  method Discover(c: FileCache, files: seq<string>, ghost docs: map<string, Node>)
    requires c.Valid() && c.Serves(docs) && (files != [] ==> c.ServesFresh(docs))
    modifies c`text, c`order
    ensures c.Valid() && c.Serves(docs)
    ensures c.ListedSet() == old(c.ListedSet()) + Elements(files)
    ensures c.order == Appended(old(c.order), files)
  {
    var i := 0;
    while i < |files|
      invariant 0 <= i <= |files|
      invariant c.Valid() && c.Serves(docs)
      invariant c.ListedSet() == old(c.ListedSet()) + Elements(files[..i])
      invariant Appended(c.order, files[i..]) == Appended(old(c.order), files)
      invariant files != [] ==> c.ServesFresh(docs)
    {
      AppendedStep(c.order, files, i);
      DiscoverOne(c, files[i], docs);
      ElementsSnoc(files, i);
      i := i + 1;
    }
    assert files[..i] == files;
  }

  /** The `for await` over the listed keys. */
  method CheckAll(c: FileCache, cwd: string, opts: FixOptions, keys: seq<string>,
                  answers: seq<nat>, ghost run: Run, ghost base: seq<(string, string)>)
    returns (ok: bool)
    requires c.Valid() && c.Serves(run.docs) && WritesApart(c, run.docs.Keys)
    requires run.answers == answers && c.storage.pushed == base + run.pushes
    modifies c, c.storage, c.trees.Values
    ensures var out := CheckFiles(cwd, opts, c.serialize, keys, run);
            ok == out.1 && c.Valid() && c.Serves(out.0.docs) && c.storage.pushed == base + out.0.pushes
  {
    ghost var goal := CheckFiles(cwd, opts, c.serialize, keys, run);
    ghost var now := run;
    var remaining := answers;
    var n := 0;
    while n < |keys|
      invariant 0 <= n <= |keys|
      invariant c.Valid() && c.Serves(now.docs) && now.docs.Keys == run.docs.Keys && WritesApart(c, now.docs.Keys)
      invariant now.answers == remaining && c.storage.pushed == base + now.pushes
      invariant CheckFiles(cwd, opts, c.serialize, keys[n..], now) == goal
      invariant forall o :: o in c.trees.Values ==> o in old(c.trees.Values) || fresh(o)
    {
      ok, remaining, now := CheckFile(c, cwd, opts, keys, n, remaining, now, base);
      if !ok {
        assert goal == (now, false);
        return;
      }
      n := n + 1;
    }
    assert keys[n..] == [];
    assert goal == (now, true);
    ok := true;
  }

  /** `checkReferences`: marks the project files as discovered (the glob
      of the project root is `projectFiles`, empty without a root), then
      goes through `keys()`: the keys listed before, in insertion order,
      then the new project files in glob order. The documents served are
      `docs`; the answers given at the prompts are `answers`. A listed key
      that does not load, or a reference that throws, ends the routine
      with an error. */
  method CheckReferences(c: FileCache, cwd: string, projectFiles: seq<string>, opts: FixOptions,
                         answers: seq<nat>, ghost docs: map<string, Node>)
    returns (r: Result<()>, checked: seq<string>)
    requires c.Valid() && c.Serves(docs) && (projectFiles != [] ==> c.ServesFresh(docs))
    requires WritesApart(c, docs.Keys)
    modifies c, c.storage, c.trees.Values
    ensures c.Valid()
    ensures Elements(checked) == old(c.ListedSet()) + Elements(projectFiles)
    ensures NoDuplicates(checked) && Subsequence(checked, Appended(old(c.order), projectFiles))
    ensures var out := CheckFiles(cwd, opts, c.serialize, checked, Run(docs, answers, []));
            r.Ok? == out.1 && c.Serves(out.0.docs) &&
            c.storage.pushed == old(c.storage.pushed) + out.0.pushes
  {
    Discover(c, projectFiles, docs);
    checked := c.Keys();
    assert Elements(checked) == c.ListedSet();
    var ok := CheckAll(c, cwd, opts, checked, answers, Run(docs, answers, []), old(c.storage.pushed));
    r := if ok then Ok(()) else Err("a listed document could not be loaded, or one of its references threw");
  }
}
