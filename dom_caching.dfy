/** src/util/dom-caching.ts: the document cache every routine goes through.
    It keeps two maps keyed by document key: the text of a document
    (`string | null | false`) and its parsed tree. The options object that
    resolves, fetches, pushes, checks and moves files is a `Storage`;
    parsing and serialising are functions fixed when the cache is made. */
module DomCaching {
  import opened Results
  import opened Xml

  /** The value the text map holds for a key:
      a string (`Fetched`), `null` (`Stale`: a tree was handed out and may
      have changed since), `false` (`Discovered`: listed, never read), or
      `undefined` (`Undefined`: the key was created by copying a missing
      entry when moving a file). */
  datatype TextEntry = Fetched(s: string) | Stale | Discovered | Undefined

  /** JavaScript truthiness of an entry: only a non-empty string. */
  predicate Truthy(e: TextEntry)
  {
    e.Fetched? && e.s != ""
  }

  predicate NoDuplicates(s: seq<string>)
  {
    forall i, j :: 0 <= i < j < |s| ==> s[i] != s[j]
  }

  /** The keys a sequence lists. */
  ghost function Elements(s: seq<string>): set<string>
  {
    set k | k in s
  }

  /** `r` keeps some of the elements of `s`, in the order `s` has them. */
  ghost predicate Subsequence(r: seq<string>, s: seq<string>)
    decreases |s|
  {
    r == [] || (s != [] && ((r[0] == s[0] && Subsequence(r[1..], s[1..])) || Subsequence(r, s[1..])))
  }

  /** `s` without `x`. */
  function Without(s: seq<string>, x: string): (r: seq<string>)
    ensures forall y :: y in r <==> y in s && y != x
    ensures NoDuplicates(s) ==> NoDuplicates(r)
  {
    if s == [] then []
    else if s[0] == x then Without(s[1..], x)
    else
      assert NoDuplicates(s) ==> NoDuplicates(s[1..]) && s[0] !in s[1..];
      [s[0]] + Without(s[1..], x)
  }

  /** The file store behind the cache: `resolve` is a function of the cache,
      `fetch`, `push`, `exists` and `move` are these methods. A push is
      recorded in `pushed`; `fetches` counts reads. */
  class Storage {
    var files: map<string, string>
    var fetches: nat
    var pushed: seq<(string, string)>

    constructor(files: map<string, string>)
      ensures this.files == files && fetches == 0 && pushed == []
    {
      this.files := files;
      fetches := 0;
      pushed := [];
    }

    /** Reading a file that is not there fails. */
    method Fetch(name: string) returns (r: Option<string>)
      modifies this`fetches
      ensures fetches == old(fetches) + 1
      ensures r == if name in files then Some(files[name]) else None
    {
      fetches := fetches + 1;
      r := if name in files then Some(files[name]) else None;
    }

    method Push(name: string, contents: string)
      modifies this`files, this`pushed
      ensures files == old(files)[name := contents]
      ensures pushed == old(pushed) + [(name, contents)]
    {
      files := files[name := contents];
      pushed := pushed + [(name, contents)];
    }

    method Exists(name: string) returns (b: bool)
      ensures b == (name in files)
    {
      b := name in files;
    }

    /** Moving without overwriting: a missing source or an existing
        destination (the source itself included) fails. */
    method Move(from: string, to: string) returns (ok: bool)
      modifies this`files
      ensures ok == (from in old(files) && to !in old(files))
      ensures files == if ok then (old(files) - {from})[to := old(files)[from]] else old(files)
    {
      ok := from in files && to !in files;
      if ok {
        files := (files - {from})[to := files[from]];
      }
    }
  }

  /** A parsed document. The routines change it in place through pending
      update lists, and every holder of the object sees the change. */
  class Dom {
    var root: Node

    constructor(root: Node)
      ensures this.root == root
    {
      this.root := root;
    }
  }

  class FileCache {
    var text: map<string, TextEntry>
    /** The keys of `text` in insertion order. `Object.keys` lists them so
        when no key is an array index such as "0" or "12"; those it would
        list first, in ascending order. */
    var order: seq<string>
    var trees: map<string, Dom>
    const storage: Storage
    const resolve: string -> string
    const parse: string -> Option<Node>
    const serialize: Node -> string

    /** The text keys are the listed order, and no two keys share a tree. */
    ghost predicate Valid()
      reads this
    {
      (forall k :: k in text <==> k in order) && NoDuplicates(order) &&
      (forall i, j :: i in trees && j in trees && i != j ==> trees[i] != trees[j])
    }

    constructor(storage: Storage, resolve: string -> string,
                parse: string -> Option<Node>, serialize: Node -> string)
      ensures Valid() && text == map[] && order == [] && trees == map[]
      ensures this.storage == storage && this.resolve == resolve
      ensures this.parse == parse && this.serialize == serialize
    {
      text, order, trees := map[], [], map[];
      this.storage, this.resolve := storage, resolve;
      this.parse, this.serialize := parse, serialize;
    }

    /** `knowsAbout`: a truthy text entry or a cached tree. */
    predicate KnowsAbout(k: string)
      reads this
    {
      (k in text && Truthy(text[k])) || k in trees
    }

    /** Whether `keys()` lists a key of the text map. */
    predicate Listed(k: string)
      reads this
    {
      KnowsAbout(k) || (k in text && text[k] == Discovered)
    }

    /** The keys `keys()` lists, as a set. */
    ghost function ListedSet(): set<string>
      reads this
    {
      set k | k in text && Listed(k)
    }

    function ListedAmong(ks: seq<string>): (r: seq<string>)
      reads this
      ensures forall k :: k in r <==> k in ks && Listed(k)
      ensures NoDuplicates(ks) ==> NoDuplicates(r)
      ensures Subsequence(r, ks)
      ensures |r| <= |ks|
    {
      if ks == [] then []
      else if Listed(ks[0]) then
        var rest := ListedAmong(ks[1..]);
        assert ([ks[0]] + rest)[1..] == rest;
        [ks[0]] + rest
      else ListedAmong(ks[1..])
    }

    /** `keys()`: the keys of the text map, in insertion order, that are
        known or discovered. */
    function Keys(): (r: seq<string>)
      reads this
      requires Valid()
      ensures forall k :: k in r <==> k in text && Listed(k)
      ensures NoDuplicates(r)
    {
      ListedAmong(order)
    }

    /** What `getString` yields for a key, or None when it throws. */
    ghost function StringFor(k: string): Option<string>
      reads this, storage, trees.Values
    {
      if k in text && Truthy(text[k]) then Some(text[k].s)
      else if k in trees && serialize(trees[k].root) != "" then Some(serialize(trees[k].root))
      else if resolve(k) in storage.files then Some(storage.files[resolve(k)])
      else None
    }

    /** The tree `getDocument` hands out for a key, or None when it throws. */
    ghost function LoadOf(k: string): Option<Node>
      reads this, storage, trees.Values
    {
      if k in trees then Some(trees[k].root)
      else
        var s := StringFor(k);
        if s.Some? then parse(s.value) else None
    }

    /** The tree a key loads to once both of its entries are gone. */
    ghost function FetchLoad(k: string): Option<Node>
      reads this, storage
    {
      if resolve(k) in storage.files then parse(storage.files[resolve(k)]) else None
    }

    /** The cache hands out exactly the documents of `docs`: a key outside
        it fails to load. */
    ghost predicate Serves(docs: map<string, Node>)
      reads this, storage, trees.Values
    {
      forall k :: LoadOf(k) == (if k in docs then Some(docs[k]) else None)
    }

    /** So does storage, for keys whose entries were busted. */
    ghost predicate ServesFresh(docs: map<string, Node>)
      reads this, storage
    {
      forall k :: FetchLoad(k) == (if k in docs then Some(docs[k]) else None)
    }

    /** Whether `getString` has to fetch. */
    ghost predicate MustFetch(k: string)
      reads this, trees.Values
    {
      !(k in text && Truthy(text[k])) && !(k in trees && serialize(trees[k].root) != "")
    }

    /** Assigning `stringByName[k]`: a new key goes to the end of the order. */
    method SetText(k: string, e: TextEntry)
      requires Valid()
      modifies this`text, this`order
      ensures Valid()
      ensures text == old(text)[k := e]
      ensures order == if k in old(text) then old(order) else old(order) + [k]
    {
      if k !in text {
        order := order + [k];
      }
      text := text[k := e];
    }

    /** `injectString`: `None` stands for `null`. */
    method InjectString(k: string, contents: Option<string>)
      requires Valid()
      modifies this`text, this`order
      ensures Valid()
      ensures text == old(text)[k := if contents.Some? then Fetched(contents.value) else Stale]
      ensures order == if k in old(text) then old(order) else old(order) + [k]
    {
      SetText(k, if contents.Some? then Fetched(contents.value) else Stale);
    }

    /** `getString`: the cached text if truthy, else the serialised cached
        tree, else what storage has under `resolve(k)`; the result is stored. */
    method GetString(k: string) returns (r: Result<string>)
      requires Valid()
      modifies this`text, this`order, storage`fetches
      ensures Valid() && trees == old(trees)
      ensures r.Ok? <==> old(StringFor(k)).Some?
      ensures r.Ok? ==> r.value == old(StringFor(k)).value && text == old(text)[k := Fetched(r.value)]
      ensures r.Err? ==> forall j :: j != k ==> (j in text <==> j in old(text)) && (j in text ==> text[j] == old(text[j]))
      ensures r.Err? && old(k !in trees) ==> text == old(text) && order == old(order)
      ensures old(k in text && Truthy(text[k])) ==> text == old(text) && order == old(order)
      ensures order == old(order) || (k !in old(text) && order == old(order) + [k])
      ensures storage.fetches == old(storage.fetches) + (if old(MustFetch(k)) then 1 else 0)
    {
      if !(k in text && Truthy(text[k])) && k in trees {
        InjectString(k, Some(serialize(trees[k].root)));
      }
      if !(k in text && Truthy(text[k])) {
        var fetched := storage.Fetch(resolve(k));
        if fetched.None? {
          return Err("could not fetch " + k);
        }
        InjectString(k, Some(fetched.value));
      }
      r := Ok(text[k].s);
    }

    /** `getDocument`: the cached tree, or a tree parsed from `getString`,
        after which the text entry is `null` so the next `getString`
        serialises the tree again. Parsing fails on malformed text. */
    method GetDocument(k: string) returns (r: Result<Dom>)
      requires Valid()
      modifies this`text, this`order, this`trees, storage`fetches
      ensures Valid()
      ensures old(k in trees) ==>
                r == Ok(old(trees[k])) && text == old(text) && trees == old(trees) &&
                order == old(order) && storage.fetches == old(storage.fetches)
      ensures !old(k in trees) ==>
        (r.Ok? <==> old(StringFor(k)).Some? && parse(old(StringFor(k)).value).Some?)
      ensures !old(k in trees) && r.Ok? ==>
                fresh(r.value) && Some(r.value.root) == parse(old(StringFor(k)).value) &&
                text == old(text)[k := Stale] && trees == old(trees)[k := r.value]
      ensures r.Err? ==> trees == old(trees)
      ensures r.Ok? ==> k in trees && trees[k] == r.value && old(ListedSet()) <= ListedSet() <= old(ListedSet()) + {k}
      ensures r.Ok? ==> (k in ListedSet() <==> k in text)
      ensures forall j :: j != k ==> (j in text <==> j in old(text)) && (j in text ==> text[j] == old(text[j]))
      ensures order == old(order) || (k !in old(text) && order == old(order) + [k])
      ensures storage.fetches <= old(storage.fetches) + 1
      ensures !old(k in trees) ==> storage.fetches == old(storage.fetches) + (if old(MustFetch(k)) then 1 else 0)
      ensures storage.files == old(storage.files)
      ensures r.Ok? == old(LoadOf(k)).Some? && (r.Ok? ==> r.value.root == old(LoadOf(k)).value)
      ensures forall j :: LoadOf(j) == old(LoadOf(j))
    {
      if k in trees {
        return Ok(trees[k]);
      }
      r := LoadDocument(k);
    }

    /** The branch of `getDocument` that has no cached tree: the string is
        fetched and parsed, and the tree is cached in place of the string. */
    method LoadDocument(k: string) returns (r: Result<Dom>)
      requires Valid() && k !in trees
      modifies this`text, this`order, this`trees, storage`fetches
      ensures Valid()
      ensures r.Ok? <==> old(StringFor(k)).Some? && parse(old(StringFor(k)).value).Some?
      ensures r.Ok? ==>
                fresh(r.value) && Some(r.value.root) == parse(old(StringFor(k)).value) &&
                text == old(text)[k := Stale] && trees == old(trees)[k := r.value]
      ensures r.Err? ==> trees == old(trees)
      ensures forall j :: j != k ==> (j in text <==> j in old(text)) && (j in text ==> text[j] == old(text[j]))
      ensures order == old(order) || (k !in old(text) && order == old(order) + [k])
      ensures storage.fetches == old(storage.fetches) + (if old(MustFetch(k)) then 1 else 0)
      ensures storage.files == old(storage.files)
      ensures r.Ok? == old(LoadOf(k)).Some? && (r.Ok? ==> r.value.root == old(LoadOf(k)).value)
      ensures forall j :: LoadOf(j) == old(LoadOf(j))
    {
      var s := GetString(k);
      if s.Err? {
        return Err(s.message);
      }
      r := CacheParsed(k, s.value);
    }

    /** Parsing the fetched string of `k`: on success the tree is cached
        and the string entry becomes `null`. */
    method CacheParsed(k: string, s: string) returns (r: Result<Dom>)
      requires Valid() && k !in trees && k in text && text[k] == Fetched(s)
      modifies this`text, this`order, this`trees
      ensures Valid() && order == old(order)
      ensures r.Ok? <==> parse(s).Some?
      ensures r.Ok? ==>
                fresh(r.value) && Some(r.value.root) == parse(s) &&
                text == old(text)[k := Stale] && trees == old(trees)[k := r.value]
      ensures r.Err? ==> trees == old(trees) && text == old(text)
      ensures forall j :: j != k ==> LoadOf(j) == old(LoadOf(j))
    {
      var n := parse(s);
      if n.None? {
        return Err("could not parse " + k);
      }
      var d := new Dom(n.value);
      trees := trees[k := d];
      SetText(k, Stale);
      r := Ok(d);
    }

    /** `updateDocument`: evaluates an updating query against the document
        and hands back its pending update list with a one-shot commit. The
        query, with its variables bound, is a function of the document. */
    method UpdateDocument(k: string, query: Node -> seq<Edit>) returns (r: Result<UpdateHandle>)
      requires Valid()
      modifies this`text, this`order, this`trees, storage`fetches
      ensures Valid()
      ensures old(k in trees) ==> text == old(text) && trees == old(trees) && order == old(order)
      ensures r.Ok? ==>
                fresh(r.value) && r.value.cache == this && r.value.key == k &&
                k in trees && r.value.doc == trees[k] && r.value.pending == query(trees[k].root) &&
                !r.value.executed
      ensures old(k in trees) ==> r.Ok? && r.value.doc == old(trees[k])
      ensures forall j :: j != k ==> (j in text <==> j in old(text)) && (j in text ==> text[j] == old(text[j]))
      ensures forall j :: j != k ==> (j in trees <==> j in old(trees)) && (j in trees ==> trees[j] == old(trees[j]))
      ensures order == old(order) || (k !in old(text) && order == old(order) + [k])
      ensures r.Ok? == old(LoadOf(k)).Some? && (r.Ok? ==> r.value.doc.root == old(LoadOf(k)).value)
      ensures r.Ok? && !old(k in trees) ==> fresh(r.value.doc)
      ensures storage.files == old(storage.files)
      ensures forall j :: LoadOf(j) == old(LoadOf(j))
    {
      var d := GetDocument(k);
      if d.Err? {
        return Err(d.message);
      }
      var h := new UpdateHandle(this, k, d.value, query(d.value.root));
      r := Ok(h);
    }

    /** `bustFile`: both entries go. */
    method BustFile(k: string)
      requires Valid()
      modifies this`text, this`order, this`trees
      ensures Valid()
      ensures text == old(text) - {k} && trees == old(trees) - {k} && order == Without(old(order), k)
      ensures !KnowsAbout(k) && k !in Keys() && ListedSet() == old(ListedSet()) - {k}
      ensures LoadOf(k) == FetchLoad(k) && MustFetch(k)
      ensures forall j :: j != k ==> LoadOf(j) == old(LoadOf(j))
    {
      text := text - {k};
      trees := trees - {k};
      order := Without(order, k);
      forall j | j != k
        ensures LoadOf(j) == old(LoadOf(j))
      {
        assert StringFor(j) == old(StringFor(j));
      }
    }

    /** `writeFile`: pushes the given tree, or the key's own document, serialised. */
    method WriteFile(k: string, contents: Option<Dom>) returns (r: Result<()>)
      requires Valid()
      modifies this`text, this`order, this`trees, storage
      ensures Valid()
      ensures contents.Some? ==> r.Ok? && text == old(text) && trees == old(trees) && order == old(order)
      ensures old(k in trees) && contents.None? ==> r.Ok? && text == old(text) && trees == old(trees) && order == old(order)
      ensures r.Ok? && contents.Some? ==>
                storage.pushed == old(storage.pushed) + [(k, serialize(contents.value.root))] &&
                storage.files == old(storage.files)[k := serialize(contents.value.root)]
      ensures r.Ok? && contents.None? ==>
                k in trees &&
                storage.pushed == old(storage.pushed) + [(k, serialize(trees[k].root))] &&
                storage.files == old(storage.files)[k := serialize(trees[k].root)]
      ensures r.Err? ==> storage.files == old(storage.files) && storage.pushed == old(storage.pushed)
      ensures old(k in trees) && contents.None? && (forall j :: resolve(j) == k ==> j == k) ==>
                forall j :: LoadOf(j) == old(LoadOf(j))
    {
      var dom: Dom;
      if contents.Some? {
        dom := contents.value;
      } else {
        var d := GetDocument(k);
        if d.Err? {
          return Err(d.message);
        }
        dom := d.value;
      }
      storage.Push(k, serialize(dom.root));
      r := Ok(());
    }

    method ExistsFile(k: string) returns (b: bool)
      ensures b == (k in storage.files)
    {
      b := storage.Exists(k);
    }

    /** `moveFile`: moves the stored file first, then copies both entries to
        the new key and busts the old key. */
    method MoveFile(from: string, to: string) returns (r: Result<()>)
      requires Valid()
      modifies this`text, this`order, this`trees, storage`files
      ensures Valid()
      ensures r.Ok? == (from in old(storage.files) && to !in old(storage.files))
      ensures r.Err? ==> text == old(text) && trees == old(trees) && order == old(order)
      ensures r.Err? ==> storage.files == old(storage.files)
      ensures r.Ok? ==> storage.files == (old(storage.files) - {from})[to := old(storage.files)[from]]
      ensures r.Ok? ==>
        text == old(text)[to := if from in old(text) then old(text[from]) else Undefined] - {from} &&
        trees == (if from in old(trees) then old(trees)[to := old(trees[from])] else old(trees) - {to}) - {from}
      ensures r.Ok? ==> order == Without(if to in old(text) then old(order) else old(order) + [to], from)
      ensures r.Ok? ==> !KnowsAbout(from)
      ensures r.Ok? ==> from != to && KnowsAbout(to) == old(KnowsAbout(from))
      ensures r.Ok? && resolve(from) == from && resolve(to) == to ==>
                LoadOf(to) == old(LoadOf(from)) && LoadOf(from).None?
    {
      var ok := storage.Move(from, to);
      if !ok {
        return Err("could not move " + from);
      }
      RenameEntries(from, to);
      r := Ok(());
    }

    /** The cache side of `moveFile`: the entries of `from` move to `to`. */
    method RenameEntries(from: string, to: string)
      requires Valid() && from != to
      modifies this`text, this`order, this`trees
      ensures Valid()
      ensures text == old(text)[to := if from in old(text) then old(text[from]) else Undefined] - {from}
      ensures trees == (if from in old(trees) then old(trees)[to := old(trees[from])] else old(trees) - {to}) - {from}
      ensures order == Without(if to in old(text) then old(order) else old(order) + [to], from)
    {
      SetText(to, if from in text then text[from] else Undefined);
      trees := (if from in trees then trees[to := trees[from]] else trees - {to}) - {from};
      text := text - {from};
      order := Without(order, from);
    }

    /** `discoverFile`: listed by `keys()` without being known. */
    method DiscoverFile(k: string)
      requires Valid()
      modifies this`text, this`order
      ensures Valid()
      ensures text == old(text)[k := Discovered] && trees == old(trees)
      ensures order == if k in old(text) then old(order) else old(order) + [k]
      ensures Listed(k) && KnowsAbout(k) == (k in trees)
      ensures ListedSet() == old(ListedSet()) + {k}
      ensures LoadOf(k) == if k in trees then old(LoadOf(k)) else FetchLoad(k)
      ensures forall j :: j != k ==> LoadOf(j) == old(LoadOf(j))
    {
      SetText(k, Discovered);
    }
  }

  /** What `updateDocument` returns: the pending update list and its
      `execute`, which may run once. */
  class UpdateHandle {
    const cache: FileCache
    const key: string
    const doc: Dom
    const pending: seq<Edit>
    var executed: bool

    constructor(cache: FileCache, key: string, doc: Dom, pending: seq<Edit>)
      ensures this.cache == cache && this.key == key && this.doc == doc && this.pending == pending
      ensures !executed
    {
      this.cache, this.key, this.doc, this.pending := cache, key, doc, pending;
      executed := false;
    }

    /** The first call applies the list to the document and marks the text
        of the key stale; a second call throws. */
    method Execute() returns (r: Result<()>)
      requires cache.Valid()
      modifies this`executed, doc`root, cache`text, cache`order
      ensures cache.Valid() && executed
      ensures r.Ok? == !old(executed)
      ensures r.Ok? ==>
                doc.root == Apply(old(doc.root), pending) &&
                cache.text == old(cache.text)[key := Stale] &&
                cache.order == (if key in old(cache.text) then old(cache.order) else old(cache.order) + [key])
      ensures r.Err? ==> doc.root == old(doc.root) && cache.text == old(cache.text) && cache.order == old(cache.order)
      ensures r.Ok? && old(key in cache.trees && cache.trees[key] == doc) ==>
                forall j :: cache.LoadOf(j) == if j == key then Some(doc.root) else old(cache.LoadOf(j))
    {
      if executed {
        return Err("Cannot execute pending update list twice");
      }
      executed := true;
      doc.root := Apply(doc.root, pending);
      cache.SetText(key, Stale);
      r := Ok(());
    }
  }

  /** The case of dom-caching.test.ts: asking twice for the same document
      reads storage at most once, and the second answer is the first; a
      document with neither a tree nor a usable text, as in a new cache, is
      read exactly once. */
  method GetDocumentTwice(c: FileCache, k: string) returns (first: Result<Dom>, second: Result<Dom>)
    requires c.Valid()
    modifies c`text, c`order, c`trees, c.storage`fetches
    ensures c.Valid()
    ensures first.Ok? ==> second == first && c.storage.fetches <= old(c.storage.fetches) + 1
    ensures old(k in c.trees) ==> second == first && c.storage.fetches == old(c.storage.fetches)
    ensures old(k !in c.trees && !(k in c.text && Truthy(c.text[k]))) && first.Ok? ==>
              c.storage.fetches == old(c.storage.fetches) + 1
  {
    first := c.GetDocument(k);
    second := c.GetDocument(k);
  }
}
