/** Loading the chapter modules from the markdown files under the content directory: the
    recursive directory walk, the exclusion of the template, the record built from a file's
    path and its parsed front matter, and the sort by chapter and subchapter. The file system
    is a value (`Listing`); the front-matter parser is the parameter `read`. */
module Markdown {
  import opened Text
  import opened Seqs
  import opened Order
  import opened JsValues
  import Natural

  /** What `fs.statSync` reports for a directory entry: a directory (listable or not), some
      other file, or a failure. */
  datatype Node = File | Dir(listing: Listing) | Unstattable
  /** What `fs.readdirSync` reports for a directory: its entries in order, or a failure. */
  datatype Listing = Readable(entries: seq<Entry>) | Unreadable
  datatype Entry = Entry(name: string, node: Node)

  /** `path.join(dir, name)` on relative paths; the root is the empty path. */
  function Join(dir: string, name: string): (p: string)
    ensures |name| <= |p| && p[|p| - |name|..] == name
  {
    if dir == "" then name else dir + "/" + name
  }

  lemma JoinKeepsSuffix(dir: string, name: string, suffix: string)
    requires EndsWith(name, suffix)
    ensures EndsWith(Join(dir, name), suffix)
  {
    var p := Join(dir, name);
    assert p[|p| - |suffix|..] == p[|p| - |name|..][|name| - |suffix|..];
  }

  /** The files `getFilesRecursively(dir)` returns for a directory with this listing. */
  function Collect(dir: string, listing: Listing): (r: seq<string>)
    ensures forall i :: 0 <= i < |r| ==> EndsWith(r[i], ".md")
    ensures listing.Unreadable? ==> r == []
    decreases listing
  {
    match listing
    case Unreadable => []
    case Readable(entries) => Walk(dir, entries).0
  }

  /** The `forEach` over the entries: the paths gathered so far, and whether every entry so
      far could be examined. The first entry that cannot be examined ends the walk of this
      directory; what was gathered before it is kept. */
  function Walk(dir: string, entries: seq<Entry>): (r: (seq<string>, bool))
    ensures forall i :: 0 <= i < |r.0| ==> EndsWith(r.0[i], ".md")
    decreases entries
  {
    if entries == [] then ([], true)
    else
      var (gathered, ok) := Walk(dir, entries[..|entries| - 1]);
      var e := entries[|entries| - 1];
      if !ok then (gathered, false)
      else
        match e.node
        case Unstattable => (gathered, false)
        case Dir(sub) => (gathered + Collect(Join(dir, e.name), sub), true)
        case File =>
          if EndsWith(e.name, ".md") then
            JoinKeepsSuffix(dir, e.name, ".md");
            (gathered + [Join(dir, e.name)], true)
          else (gathered, true)
  }

  /** `getFilesRecursively(dir)`: every markdown file below `dir`, depth first, in listing
      order. A listing or a `stat` that throws is caught: the walk of that directory ends and
      returns what it had gathered. */
  method FilesRecursively(dir: string, listing: Listing) returns (results: seq<string>)
    ensures results == Collect(dir, listing)
    decreases listing
  {
    results := [];
    if listing.Unreadable? {
      return;
    }
    var list := listing.entries;
    var i := 0;
    while i < |list|
      invariant 0 <= i <= |list|
      invariant Walk(dir, list[..i]) == (results, true)
    {
      var entry := list[i];
      var filePath := Join(dir, entry.name);
      assert list[..i + 1][..i] == list[..i] && list[..i + 1][i] == entry;
      match entry.node {
        case Unstattable =>
          WalkStaysFailed(dir, list, i + 1);
          return;
        case Dir(sub) =>
          var more := FilesRecursively(filePath, sub);
          results := results + more;
          assert Walk(dir, list[..i + 1]) == (results, true);
        case File =>
          if EndsWith(entry.name, ".md") {
            results := results + [filePath];
          }
          assert Walk(dir, list[..i + 1]) == (results, true);
      }
      i := i + 1;
    }
    assert list[..i] == list;
  }

  /** Once an entry has failed, the remaining entries change nothing. */
  lemma {:induction false} WalkStaysFailed(dir: string, entries: seq<Entry>, k: nat)
    requires k <= |entries| && !Walk(dir, entries[..k]).1
    ensures Walk(dir, entries) == Walk(dir, entries[..k])
    decreases |entries|
  {
    if k < |entries| {
      var init := entries[..|entries| - 1];
      assert init[..k] == entries[..k];
      WalkStaysFailed(dir, init, k);
    } else {
      assert entries[..k] == entries;
    }
  }

  /** A failure at entry `k` leaves exactly what the entries before it gave. */
  lemma FailureKeepsGathered(dir: string, entries: seq<Entry>, k: nat)
    requires k < |entries| && entries[k].node.Unstattable?
    ensures Collect(dir, Readable(entries)) == Walk(dir, entries[..k]).0
  {
    assert entries[..k + 1][..k] == entries[..k];
    WalkStaysFailed(dir, entries, k + 1);
  }

  /** What a walk has gathered is never lost: the paths from the first `k` entries are a
      prefix of the whole result. */
  lemma {:induction false} WalkGrows(dir: string, entries: seq<Entry>, k: nat)
    requires k <= |entries|
    ensures var before := Walk(dir, entries[..k]).0;
      var after := Walk(dir, entries).0;
      |before| <= |after| && after[..|before|] == before
    decreases |entries|
  {
    if k < |entries| {
      var init := entries[..|entries| - 1];
      assert init[..k] == entries[..k];
      WalkGrows(dir, init, k);
    } else {
      assert entries[..k] == entries;
    }
  }

  /** A markdown file at `path` is in the tree below `dir`. */
  ghost predicate InTree(path: string, dir: string, listing: Listing)
    decreases listing
  {
    listing.Readable? && exists i :: 0 <= i < |listing.entries| && AtEntry(path, dir, listing.entries[i])
  }

  ghost predicate AtEntry(path: string, dir: string, e: Entry)
    decreases e
  {
    match e.node
    case File => EndsWith(e.name, ".md") && path == Join(dir, e.name)
    case Dir(sub) => InTree(path, Join(dir, e.name), sub)
    case Unstattable => false
  }

  /** Every directory below can be listed and every entry examined. */
  ghost predicate Healthy(listing: Listing)
    decreases listing
  {
    listing.Readable? && forall i :: 0 <= i < |listing.entries| ==> HealthyEntry(listing.entries[i])
  }

  ghost predicate HealthyEntry(e: Entry)
    decreases e
  {
    match e.node
    case File => true
    case Dir(sub) => Healthy(sub)
    case Unstattable => false
  }

  /** Everything the walk returns is a markdown file of the tree. */
  lemma {:induction false} CollectSound(path: string, dir: string, listing: Listing)
    ensures path in Collect(dir, listing) ==> InTree(path, dir, listing)
    decreases listing
  {
    if listing.Readable? {
      WalkSound(path, dir, listing.entries);
    }
  }

  lemma {:induction false} WalkSound(path: string, dir: string, entries: seq<Entry>)
    ensures path in Walk(dir, entries).0 ==>
      exists i :: 0 <= i < |entries| && AtEntry(path, dir, entries[i])
    decreases entries
  {
    if entries != [] {
      var n := |entries| - 1;
      var init := entries[..n];
      var e := entries[n];
      WalkSound(path, dir, init);
      if path in Walk(dir, init).0 {
        var i :| 0 <= i < |init| && AtEntry(path, dir, init[i]);
        assert entries[i] == init[i];
      } else if path in Walk(dir, entries).0 {
        match e.node
        case Dir(sub) =>
          CollectSound(path, Join(dir, e.name), sub);
          assert AtEntry(path, dir, entries[n]);
        case File =>
          assert AtEntry(path, dir, entries[n]);
      }
    }
  }

  /** When nothing fails, the walk finds every markdown file of the tree. */
  lemma {:induction false} CollectComplete(path: string, dir: string, listing: Listing)
    requires Healthy(listing) && InTree(path, dir, listing)
    ensures path in Collect(dir, listing)
    decreases listing
  {
    var i :| 0 <= i < |listing.entries| && AtEntry(path, dir, listing.entries[i]);
    WalkComplete(path, dir, listing.entries, i);
  }

  lemma {:induction false} WalkComplete(path: string, dir: string, entries: seq<Entry>, i: nat)
    requires forall j :: 0 <= j < |entries| ==> HealthyEntry(entries[j])
    requires i < |entries| && AtEntry(path, dir, entries[i])
    ensures Walk(dir, entries).1 && path in Walk(dir, entries).0
    decreases entries
  {
    var n := |entries| - 1;
    var init := entries[..n];
    assert forall j :: 0 <= j < |init| ==> init[j] == entries[j];
    WalkHealthy(dir, init);
    if i < n {
      WalkComplete(path, dir, init, i);
      WalkExtends(dir, entries);
    } else {
      WalkCompleteLast(path, dir, entries);
    }
  }

  /** A file at the last entry of a walk that has not failed is found. */
  lemma {:induction false} WalkCompleteLast(path: string, dir: string, entries: seq<Entry>)
    requires entries != [] && Walk(dir, entries[..|entries| - 1]).1
    requires HealthyEntry(entries[|entries| - 1]) && AtEntry(path, dir, entries[|entries| - 1])
    ensures Walk(dir, entries).1 && path in Walk(dir, entries).0
    decreases entries, 0
  {
    var e := entries[|entries| - 1];
    var gathered := Walk(dir, entries[..|entries| - 1]).0;
    if e.node.Dir? {
      CollectComplete(path, Join(dir, e.name), e.node.listing);
      assert Walk(dir, entries) == (gathered + Collect(Join(dir, e.name), e.node.listing), true);
    } else {
      assert Walk(dir, entries) == (gathered + [Join(dir, e.name)], true);
    }
  }

  /** The last entry of a completed walk only adds paths. */
  lemma WalkExtends(dir: string, entries: seq<Entry>)
    requires entries != [] && HealthyEntry(entries[|entries| - 1])
    requires Walk(dir, entries[..|entries| - 1]).1
    ensures Walk(dir, entries).1
    ensures forall p :: p in Walk(dir, entries[..|entries| - 1]).0 ==> p in Walk(dir, entries).0
  {
  }

  /** A walk over entries that can all be examined completes. */
  lemma {:induction false} WalkHealthy(dir: string, entries: seq<Entry>)
    requires forall j :: 0 <= j < |entries| ==> HealthyEntry(entries[j])
    ensures Walk(dir, entries).1
    decreases |entries|
  {
    if entries != [] {
      var init := entries[..|entries| - 1];
      assert forall j :: 0 <= j < |init| ==> init[j] == entries[j];
      WalkHealthy(dir, init);
      assert HealthyEntry(entries[|entries| - 1]);
    }
  }

  /** `path.replace(/\.md$/, '')`: one trailing ".md" removed, nothing else. */
  function StripMd(path: string): (slug: string)
    ensures EndsWith(path, ".md") ==> slug + ".md" == path
    ensures !EndsWith(path, ".md") ==> slug == path
  {
    if EndsWith(path, ".md") then path[..|path| - 3] else path
  }

  /** Only the last ".md" goes: "a.md.md" becomes "a.md". */
  lemma StripMdOnce()
    ensures StripMd("a.md.md") == "a.md"
    ensures StripMd("notes.mdx") == "notes.mdx"
  {
    assert EndsWith("a.md.md", ".md");
    assert !EndsWith("notes.mdx", ".md") by {
      assert "notes.mdx"[6..] == "mdx";
    }
  }

  /** A module record: field names to front-matter values. */
  type Record = map<string, Value>

  /** A markdown file parsed by gray-matter: its front matter and its body. */
  datatype Doc = Doc(data: Record, content: string)

  /** The value of a field, `undefined` when absent. */
  function Field(r: Record, key: string): Value {
    if key in r then r[key] else Absent
  }

  /** The record `getAllModules` builds for a file: slug, file path and body, then the front
      matter spread over them, so that a front-matter field of the same name wins. */
  function ModuleRecord(path: string, doc: Doc): (r: Record)
    ensures r.Keys == {"slug", "filePath", "content"} + doc.data.Keys
    ensures forall k :: k in doc.data ==> r[k] == doc.data[k]
    ensures "slug" !in doc.data ==> r["slug"] == Str(StripMd(path))
    ensures "filePath" !in doc.data ==> r["filePath"] == Str(path)
    ensures "content" !in doc.data ==> r["content"] == Str(doc.content)
  {
    map["slug" := Str(StripMd(path)), "filePath" := Str(path), "content" := Str(doc.content)]
      + doc.data
  }

  /** `getModuleData(filePath)`: the same record with the rendered HTML of the body (the
      renderer's output is the parameter `html`) before the front matter. */
  function ModuleData(filePath: string, doc: Doc, html: string): (r: Record)
    ensures r.Keys == {"slug", "filePath", "content", "htmlContent"} + doc.data.Keys
    ensures forall k :: k in doc.data ==> r[k] == doc.data[k]
    ensures "htmlContent" !in doc.data ==> r["htmlContent"] == Str(html)
    ensures forall k :: k in r && k != "htmlContent" ==> r[k] == ModuleRecord(filePath, doc)[k]
  {
    map["slug" := Str(StripMd(filePath)), "filePath" := Str(filePath),
        "content" := Str(doc.content), "htmlContent" := Str(html)]
      + doc.data
  }

  /** `!file.endsWith('template.md')`. */
  predicate NotTemplate(path: string)
    ensures !NotTemplate(path) <==> |path| >= 11 && path[|path| - 11..] == "template.md"
  {
    !EndsWith(path, "template.md")
  }

  /** The records of the non-template files, in walk order. */
  function Records(files: seq<string>, read: string -> Doc): (r: seq<Record>)
    ensures |r| <= |files|
    ensures forall x :: x in r <==>
      exists f :: f in files && NotTemplate(f) && x == ModuleRecord(f, read(f))
  {
    var kept := Filter(files, NotTemplate);
    var r := seq(|kept|, i requires 0 <= i < |kept| => ModuleRecord(kept[i], read(kept[i])));
    RecordsSound(files, read, kept, r);
    RecordsComplete(files, read, kept, r);
    r
  }

  /** Every record comes from a kept file. */
  lemma RecordsSound(files: seq<string>, read: string -> Doc, kept: seq<string>, r: seq<Record>)
    requires kept == Filter(files, NotTemplate)
    requires |r| == |kept| && forall i :: 0 <= i < |r| ==> r[i] == ModuleRecord(kept[i], read(kept[i]))
    ensures forall x :: x in r ==> exists f :: f in files && NotTemplate(f) && x == ModuleRecord(f, read(f))
  {
    forall x | x in r
      ensures exists f :: f in files && NotTemplate(f) && x == ModuleRecord(f, read(f))
    {
      var i :| 0 <= i < |r| && r[i] == x;
      assert kept[i] in files && NotTemplate(kept[i]);
    }
  }

  /** Every kept file gives a record. */
  lemma RecordsComplete(files: seq<string>, read: string -> Doc, kept: seq<string>, r: seq<Record>)
    requires kept == Filter(files, NotTemplate)
    requires |r| == |kept| && forall i :: 0 <= i < |r| ==> r[i] == ModuleRecord(kept[i], read(kept[i]))
    ensures forall f :: f in files && NotTemplate(f) ==> ModuleRecord(f, read(f)) in r
  {
    forall f | f in files && NotTemplate(f) ensures ModuleRecord(f, read(f)) in r {
      var j :| 0 <= j < |files| && files[j] == f;
      assert f in kept;
      var i :| 0 <= i < |kept| && kept[i] == f;
      assert r[i] == ModuleRecord(f, read(f));
    }
  }

  /** `String(m.kapitel || '')` and `String(m.unterkapitel || '')`. */
  function SortKey(m: Record): (k: seq<string>)
    ensures |k| == 2
  {
    [ToStr(Or(Field(m, "kapitel"), Str(""))), ToStr(Or(Field(m, "unterkapitel"), Str("")))]
  }

  /** Lexicographic numeric-aware comparison of sort keys. */
  function KeyCmp(a: seq<string>, b: seq<string>): int {
    LexCmp(a, b, Natural.Compare)
  }

  /** The comparator handed to `modules.sort`: chapters first, subchapters on a tie. */
  function SourceCmp(a: Record, b: Record): (r: int)
    ensures r == 0 <==> SortKey(a) == SortKey(b)
  {
    Natural.CompareIsTotalOrder();
    var valA := ToStr(Or(Field(a, "kapitel"), Str("")));
    var valB := ToStr(Or(Field(b, "kapitel"), Str("")));
    if valA != valB then Natural.Compare(valA, valB)
    else
      var subA := ToStr(Or(Field(a, "unterkapitel"), Str("")));
      var subB := ToStr(Or(Field(b, "unterkapitel"), Str("")));
      Natural.Compare(subA, subB)
  }

  /** The source's comparator is the lexicographic comparison of the two-part keys. */
  lemma SourceCmpIsKeyCmp(a: Record, b: Record)
    ensures SourceCmp(a, b) == KeyCmp(SortKey(a), SortKey(b))
  {
    Natural.CompareIsTotalOrder();
    var ka, kb := SortKey(a), SortKey(b);
    assert Natural.Compare(ka[0], kb[0]) == 0 <==> ka[0] == kb[0];
    assert Natural.Compare(ka[1], kb[1]) == 0 <==> ka[1] == kb[1];
    assert ka[1..][1..] == [] && kb[1..][1..] == [];
    assert LexCmp(ka[1..], kb[1..], Natural.Compare) == Natural.Compare(ka[1], kb[1]);
  }

  lemma KeyCmpIsTotalOrder()
    ensures IsTotalOrder(KeyCmp)
  {
    Natural.CompareIsTotalOrder();
    LexIsTotalOrder(Natural.Compare);
    var lex := (a: seq<string>, b: seq<string>) => LexCmp(a, b, Natural.Compare);
    assert IsTotalOrder(lex);
    forall a, b ensures KeyCmp(a, b) == 0 <==> a == b {
      assert lex(a, b) == KeyCmp(a, b);
    }
    forall a, b ensures KeyCmp(a, b) < 0 <==> KeyCmp(b, a) > 0 {
      assert lex(a, b) == KeyCmp(a, b) && lex(b, a) == KeyCmp(b, a);
    }
    forall a, b, c | KeyCmp(a, b) < 0 && KeyCmp(b, c) < 0 ensures KeyCmp(a, c) < 0 {
      assert lex(a, b) == KeyCmp(a, b) && lex(b, c) == KeyCmp(b, c) && lex(a, c) == KeyCmp(a, c);
    }
  }

  /** `getAllModules()`: no content directory gives no modules; otherwise the records of the
      markdown files found, templates excluded, sorted stably by chapter and subchapter. */
  function GetAllModules(exists_: bool, root: Listing, read: string -> Doc): (r: seq<Record>)
    ensures !exists_ ==> r == []
    ensures exists_ ==> multiset(r) == multiset(Records(Collect("", root), read))
  {
    if !exists_ then []
    else SortBy(Records(Collect("", root), read), SortKey, KeyCmp)
  }

  /** The modules come out in the order the source's comparator asks for. */
  lemma GetAllModulesSorted(exists_: bool, root: Listing, read: string -> Doc)
    ensures var r := GetAllModules(exists_, root, read);
      forall i, j :: 0 <= i < j < |r| ==> SourceCmp(r[i], r[j]) <= 0
  {
    var r := GetAllModules(exists_, root, read);
    if exists_ {
      KeyCmpIsTotalOrder();
      SortBySorted(Records(Collect("", root), read), SortKey, KeyCmp);
      forall i, j | 0 <= i < j < |r| ensures SourceCmp(r[i], r[j]) <= 0 {
        SourceCmpIsKeyCmp(r[i], r[j]);
      }
    }
  }

  /** Modules with the same chapter and subchapter keep the order the walk found them in. */
  lemma GetAllModulesStable(root: Listing, read: string -> Doc, k: seq<string>)
    ensures WithKey(GetAllModules(true, root, read), SortKey, k)
            == WithKey(Records(Collect("", root), read), SortKey, k)
  {
    KeyCmpIsTotalOrder();
    SortByStable(Records(Collect("", root), read), SortKey, KeyCmp, k);
  }

  /** Exactly the non-template markdown files of the tree become modules. */
  lemma GetAllModulesMembers(root: Listing, read: string -> Doc, x: Record)
    ensures x in GetAllModules(true, root, read) <==>
      exists f :: f in Collect("", root) && NotTemplate(f) && x == ModuleRecord(f, read(f))
  {
    var s := Records(Collect("", root), read);
    var r := GetAllModules(true, root, read);
    assert x in r <==> x in multiset(r);
    assert x in s <==> x in multiset(s);
  }

  /** A file whose name merely ends in "template.md" is excluded as well. */
  lemma TemplateSuffixExcluded()
    ensures !NotTemplate("kapitel1/project-template.md")
    ensures NotTemplate("kapitel1/template.mdx")
  {
    var p := "kapitel1/project-template.md";
    assert p[|p| - 11..] == "template.md";
    var q := "kapitel1/template.mdx";
    assert q[|q| - 11..] != "template.md" by {
      assert q[|q| - 1] == 'x';
    }
  }
}
