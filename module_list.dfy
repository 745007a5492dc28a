/** The module table: modules grouped by chapter, the chapters in numeric-aware order, a
    download action on every real chapter, and the chapter label shown for each module. */
module ModuleList {
  import opened Text
  import opened Seqs
  import opened Order
  import opened JsValues
  import opened Types
  import Natural

  /** `String(module.kapitel || 'Andere')`. */
  function ChapterKey(m: Module): (k: string)
    ensures Truthy(m.kapitel) ==> k == ToStr(m.kapitel)
    ensures !Truthy(m.kapitel) ==> k == "Andere"
  {
    ToStr(Or(m.kapitel, Str("Andere")))
  }

  /** The modules without a chapter share the group "Andere", and so does a module whose
      chapter is literally "Andere"; every other module is grouped under its chapter's text. */
  lemma AndereGroup(m: Module)
    ensures ChapterKey(m) == "Andere" <==> !Truthy(m.kapitel) || ToStr(m.kapitel) == "Andere"
    ensures Truthy(m.kapitel) ==> ChapterKey(m) == ToStr(m.kapitel)
  {
  }

  /** The chapters that occur among the modules. */
  ghost function Chapters(modules: seq<Module>): set<string> {
    set k | 0 <= k < |modules| :: ChapterKey(modules[k])
  }

  /** The dictionary the grouping builds: each chapter to its modules in input order. */
  ghost function ChapterGroups(modules: seq<Module>): map<string, seq<Module>> {
    map c | c in Chapters(modules) :: WithKey(modules, ChapterKey, c)
  }

  /** The chapters in order of first appearance (the order of `Object.keys` on the
      dictionary for keys that are not array indices). */
  function FirstAppearance(modules: seq<Module>): (keys: seq<string>)
    ensures forall c :: c in keys ==> exists k :: 0 <= k < |modules| && ChapterKey(modules[k]) == c
  {
    if modules == [] then []
    else
      var init := FirstAppearance(modules[..|modules| - 1]);
      var c := ChapterKey(modules[|modules| - 1]);
      if c in init then init else init + [c]
  }

  lemma {:induction false} FirstAppearanceOnce(modules: seq<Module>)
    ensures forall c :: multiset(FirstAppearance(modules))[c] == if c in Chapters(modules) then 1 else 0
  {
    if modules != [] {
      var init := modules[..|modules| - 1];
      var x := modules[|modules| - 1];
      FirstAppearanceOnce(init);
      assert init + [x] == modules;
      ChaptersAppend(init, x);
    }
  }

  lemma ChaptersAppend(s: seq<Module>, x: Module)
    ensures Chapters(s + [x]) == Chapters(s) + {ChapterKey(x)}
  {
    var t := s + [x];
    forall d | d in Chapters(t) ensures d in Chapters(s) + {ChapterKey(x)} {
      var k :| 0 <= k < |t| && ChapterKey(t[k]) == d;
      if k < |s| {
        assert t[k] == s[k];
      }
    }
    forall d | d in Chapters(s) ensures d in Chapters(t) {
      var k :| 0 <= k < |s| && ChapterKey(s[k]) == d;
      assert t[k] == s[k];
    }
    assert t[|s|] == x;
  }

  lemma FirstAppearanceStep(s: seq<Module>, x: Module)
    ensures var c := ChapterKey(x);
      FirstAppearance(s + [x]) == if c in FirstAppearance(s) then FirstAppearance(s) else FirstAppearance(s) + [c]
  {
    assert (s + [x])[..|s|] == s;
  }

  /** One more module: its chapter's group grows by it, created empty first if needed. */
  lemma GroupsStep(s: seq<Module>, x: Module)
    ensures var g := ChapterGroups(s); var c := ChapterKey(x);
      ChapterGroups(s + [x]) == g[c := (if c in g then g[c] else []) + [x]]
  {
    var g := ChapterGroups(s);
    var c := ChapterKey(x);
    var t := s + [x];
    ChaptersAppend(s, x);
    forall d | d in Chapters(t)
      ensures WithKey(t, ChapterKey, d) == g[c := (if c in g then g[c] else []) + [x]][d]
    {
      WithKeyAppend(s, x, ChapterKey, d);
      if d == c && c !in g {
        WithKeyAbsent(s, ChapterKey, c);
      }
    }
  }

  /** A chapter has a group exactly when it is among the chapters seen so far. */
  lemma FirstAppearanceMembers(s: seq<Module>, c: string)
    ensures c in FirstAppearance(s) <==> c in ChapterGroups(s)
  {
    FirstAppearanceOnce(s);
    assert c in FirstAppearance(s) <==> multiset(FirstAppearance(s))[c] > 0;
  }

  /** What one more module does to the dictionary and to its keys. */
  lemma GroupingStep(s: seq<Module>, x: Module)
    ensures var g := ChapterGroups(s); var c := ChapterKey(x);
      && (c in g <==> c in FirstAppearance(s))
      && ChapterGroups(s + [x]) == g[c := (if c in g then g[c] else []) + [x]]
      && FirstAppearance(s + [x]) == if c in g then FirstAppearance(s) else FirstAppearance(s) + [c]
  {
    FirstAppearanceMembers(s, ChapterKey(x));
    GroupsStep(s, x);
    FirstAppearanceStep(s, x);
  }

  /** Creating the list if it is missing and then pushing onto it is one update. */
  lemma PushOnto(g: map<string, seq<Module>>, created: map<string, seq<Module>>,
                 pushed: map<string, seq<Module>>, c: string, m: Module)
    requires created == if c in g then g else g[c := []]
    requires c in created && pushed == created[c := created[c] + [m]]
    ensures pushed == g[c := (if c in g then g[c] else []) + [m]]
  {
  }

  /** The `forEach` that fills `groupedModules`: each module is pushed onto the list of its
      chapter, which is created empty the first time the chapter is met. */
  method GroupByChapter(modules: seq<Module>) returns (groups: map<string, seq<Module>>, keys: seq<string>)
    ensures groups == ChapterGroups(modules)
    ensures keys == FirstAppearance(modules)
  {
    groups := map[];
    keys := [];
    for i := 0 to |modules|
      invariant groups == ChapterGroups(modules[..i])
      invariant keys == FirstAppearance(modules[..i])
    {
      var m := modules[i];
      var chapter := ToStr(Or(m.kapitel, Str("Andere")));
      ghost var seen := modules[..i];
      assert modules[..i + 1] == seen + [m];
      GroupingStep(seen, m);
      ghost var g := groups;
      if chapter !in groups {
        groups := groups[chapter := []];
        keys := keys + [chapter];
      }
      ghost var created := groups;
      groups := groups[chapter := groups[chapter] + [m]];
      PushOnto(g, created, groups, chapter, m);
    }
    assert modules[..|modules|] == modules;
  }

  /** Every module lands in exactly one group, the one of its chapter, as often as it
      occurs; each group keeps input order. */
  lemma GroupsPartition(modules: seq<Module>, m: Module)
    ensures ChapterKey(m) in Chapters(modules) ==>
      multiset(ChapterGroups(modules)[ChapterKey(m)])[m] == multiset(modules)[m]
    ensures forall c :: c in ChapterGroups(modules) && c != ChapterKey(m) ==>
      m !in ChapterGroups(modules)[c]
    ensures forall c :: c in ChapterGroups(modules) ==> Subsequence(ChapterGroups(modules)[c], modules)
  {
    var g := ChapterGroups(modules);
    forall c | c in g
      ensures multiset(g[c])[m] == if ChapterKey(m) == c then multiset(modules)[m] else 0
      ensures Subsequence(g[c], modules)
    {
      WithKeyMultiset(modules, ChapterKey, c);
      WithKeySubsequence(modules, ChapterKey, c);
    }
    forall c | c in g && c != ChapterKey(m) ensures m !in g[c] {
      assert m in g[c] <==> m in multiset(g[c]);
    }
  }

  lemma {:induction false} WithKeySubsequence<T, K>(s: seq<T>, key: T -> K, k: K)
    ensures Subsequence(WithKey(s, key, k), s)
  {
    if s != [] {
      WithKeySubsequence(s[1..], key, k);
      var r := WithKey(s, key, k);
      if key(s[0]) == k {
        assert r[0] == s[0] && r[1..] == WithKey(s[1..], key, k);
      }
    }
  }

  /** `Object.keys(groupedModules).sort((a, b) => a.localeCompare(b, undefined, { numeric: true }))`. */
  function SortedChapters(keys: seq<string>): (r: seq<string>)
    ensures multiset(r) == multiset(keys)
  {
    SortBy(keys, (s: string) => s, Natural.Compare)
  }

  /** The chapters are listed in numeric-aware order. */
  lemma SortedChaptersOrdered(keys: seq<string>)
    ensures var r := SortedChapters(keys);
      forall a, b :: 0 <= a < b < |r| ==> Natural.Compare(r[a], r[b]) <= 0
  {
    Natural.CompareIsTotalOrder();
    SortBySorted(keys, (s: string) => s, Natural.Compare);
  }

  /** Numbered chapters come in numeric order: chapter 2 before chapter 10. */
  lemma NumberedChaptersInOrder(keys: seq<string>, a: nat, b: nat)
    requires var r := SortedChapters(keys); a < |r| && b < |r|
    requires var r := SortedChapters(keys);
      r[a] != [] && AllDigits(r[a]) && r[b] != [] && AllDigits(r[b])
      && DigitsValue(r[a]) < DigitsValue(r[b])
    ensures a < b
  {
    var r := SortedChapters(keys);
    SortedChaptersOrdered(keys);
    Natural.CompareNumbers(r[a], r[b]);
    Natural.CompareFlip(r[a], r[b]);
  }

  /** The table body: each chapter in sorted order followed by its modules. */
  ghost function Table(chapters: seq<string>, groups: map<string, seq<Module>>): seq<Module>
    requires forall c :: c in chapters ==> c in groups
  {
    if chapters == [] then [] else groups[chapters[0]] + Table(chapters[1..], groups)
  }

  lemma {:induction false} TableCount(chapters: seq<string>, modules: seq<Module>, m: Module)
    requires forall c :: multiset(chapters)[c] <= 1
    requires forall c :: c in chapters ==> c in ChapterGroups(modules)
    ensures multiset(Table(chapters, ChapterGroups(modules)))[m]
            == if ChapterKey(m) in chapters then multiset(modules)[m] else 0
  {
    if chapters != [] {
      var c := chapters[0];
      assert chapters == [c] + chapters[1..];
      assert forall d :: multiset(chapters[1..])[d] <= multiset(chapters)[d];
      TableCount(chapters[1..], modules, m);
      WithKeyMultiset(modules, ChapterKey, c);
      if ChapterKey(m) == c {
        assert multiset(chapters[1..])[c] == 0;
      }
    }
  }

  /** The table lists every module exactly as often as the input holds it. */
  lemma TableListsEveryModule(modules: seq<Module>)
    ensures var chapters := SortedChapters(FirstAppearance(modules));
      (forall c :: c in chapters ==> c in ChapterGroups(modules))
      && multiset(Table(chapters, ChapterGroups(modules))) == multiset(modules)
  {
    var keys := FirstAppearance(modules);
    var chapters := SortedChapters(keys);
    FirstAppearanceOnce(modules);
    assert forall c :: c in chapters <==> c in multiset(keys);
    forall m ensures multiset(Table(chapters, ChapterGroups(modules)))[m] == multiset(modules)[m] {
      TableCount(chapters, modules, m);
      if m in modules {
        var k :| 0 <= k < |modules| && modules[k] == m;
        assert ChapterKey(m) in Chapters(modules);
      }
    }
  }

  /** The download action is offered for every chapter but "Andere". */
  predicate ShowsDownload(chapter: string)
    ensures ShowsDownload(chapter) <==> chapter != "Andere"
  {
    chapter != "Andere"
  }

  /** A module with a chapter (other than the text "Andere") sits in a group with a download
      action; a module without one does not. */
  lemma DownloadOnlyForChapters(m: Module)
    ensures ShowsDownload(ChapterKey(m)) <==> Truthy(m.kapitel) && ToStr(m.kapitel) != "Andere"
  {
  }

  /** How React renders a value as text: `undefined` and booleans render nothing, an array
      its items one after another. */
  function Render(v: Value): string {
    match v
    case Absent => ""
    case Num(n) => IntToString(n)
    case Str(s) => s
    case Bool(_) => ""
    case List(items) => Concat(items)
  }

  /** The chapter cell: with both chapter and subchapter, the subchapter when its text
      already starts with the chapter's text, else "chapter.subchapter"; otherwise
      `kapitel || unterkapitel || ''`. */
  function ChapterLabel(m: Module): (l: string)
    ensures Truthy(m.kapitel) && Truthy(m.unterkapitel) && !StartsWith(ToStr(m.unterkapitel), ToStr(m.kapitel))
            ==> StartsWith(l, ToStr(m.kapitel) + ".")
    ensures !Truthy(m.kapitel) && !Truthy(m.unterkapitel) ==> l == ""
  {
    if Truthy(m.kapitel) && Truthy(m.unterkapitel) then
      if StartsWith(ToStr(m.unterkapitel), ToStr(m.kapitel)) then Render(m.unterkapitel)
      else
        var k := ToStr(m.kapitel) + ".";
        assert (k + ToStr(m.unterkapitel))[..|k|] == k;
        k + ToStr(m.unterkapitel)
    else Render(Or(Or(m.kapitel, m.unterkapitel), Str("")))
  }

  /** A chapter number or string. */
  predicate Scalar(v: Value) {
    v.Num? || v.Str?
  }

  /** With both parts present the label starts with the chapter; with only one, it is that
      part; with neither, it is empty. */
  lemma ChapterLabelCases(m: Module)
    ensures Truthy(m.kapitel) && Truthy(m.unterkapitel) && Scalar(m.unterkapitel)
            ==> StartsWith(ChapterLabel(m), ToStr(m.kapitel))
    ensures Truthy(m.kapitel) && !Truthy(m.unterkapitel) ==> ChapterLabel(m) == Render(m.kapitel)
    ensures !Truthy(m.kapitel) && Truthy(m.unterkapitel) ==> ChapterLabel(m) == Render(m.unterkapitel)
    ensures !Truthy(m.kapitel) && !Truthy(m.unterkapitel) ==> ChapterLabel(m) == ""
  {
    var k, u := ToStr(m.kapitel), ToStr(m.unterkapitel);
    if Truthy(m.kapitel) && Truthy(m.unterkapitel) && Scalar(m.unterkapitel) && !StartsWith(u, k) {
      assert (k + "." + u)[..|k|] == k;
    }
  }

  /** Chapter 3, subchapter 1 reads "3.1"; chapter 3, subchapter "3.2" reads "3.2". */
  lemma ChapterLabelExamples(m: Module)
    ensures m.kapitel == Num(3) && m.unterkapitel == Num(1) ==> ChapterLabel(m) == "3.1"
    ensures m.kapitel == Num(3) && m.unterkapitel == Str("3.2") ==> ChapterLabel(m) == "3.2"
  {
    if m.kapitel == Num(3) {
      assert IntToString(3) == "3";
      assert IntToString(1) == "1";
      assert !StartsWith("1", "3");
      assert StartsWith("3.2", "3");
    }
  }

  /** As written, the prefix test is on the bare chapter text, so chapter 1, subchapter 12
      is labelled "12", the same as chapter 12 without a subchapter. */
  lemma ChapterLabelPrefixClash(m1: Module, m2: Module)
    requires m1.kapitel == Num(1) && m1.unterkapitel == Num(12)
    requires m2.kapitel == Num(12) && m2.unterkapitel == Absent
    ensures ChapterLabel(m1) == ChapterLabel(m2) == "12"
    ensures ChapterKey(m1) != ChapterKey(m2)
  {
    assert IntToString(1) == "1";
    assert IntToString(12) == NatToString(1) + [DigitChar(2)] == "12";
    assert StartsWith("12", "1");
  }

  /** The label with the prefix test on "chapter." — a subchapter written in full ("1.2")
      is shown as is, a bare one ("2", "12") is prefixed with its chapter. */
  function IntendedChapterLabel(m: Module): string {
    if Truthy(m.kapitel) && Truthy(m.unterkapitel) then
      if StartsWith(ToStr(m.unterkapitel), ToStr(m.kapitel) + ".") then Render(m.unterkapitel)
      else ToStr(m.kapitel) + "." + ToStr(m.unterkapitel)
    else Render(Or(Or(m.kapitel, m.unterkapitel), Str("")))
  }

  /** With both parts present, the intended label starts with "chapter."; so two modules of
      different chapters (chapter texts without '.') never share a label. */
  lemma IntendedLabelNamesChapter(m1: Module, m2: Module)
    requires Truthy(m1.kapitel) && Truthy(m1.unterkapitel) && Scalar(m1.unterkapitel)
    requires Truthy(m2.kapitel) && Truthy(m2.unterkapitel) && Scalar(m2.unterkapitel)
    requires '.' !in ToStr(m1.kapitel) && '.' !in ToStr(m2.kapitel)
    requires ToStr(m1.kapitel) != ToStr(m2.kapitel)
    ensures IntendedChapterLabel(m1) != IntendedChapterLabel(m2)
  {
    var p1, p2 := ToStr(m1.kapitel) + ".", ToStr(m2.kapitel) + ".";
    var l1, l2 := IntendedChapterLabel(m1), IntendedChapterLabel(m2);
    IntendedLabelPrefix(m1);
    IntendedLabelPrefix(m2);
    var k1, k2 := ToStr(m1.kapitel), ToStr(m2.kapitel);
    var i: nat;
    if |p1| == |p2| {
      i :| i < |k1| && k1[i] != k2[i];
    } else if |p1| < |p2| {
      i := |k1|;
      assert p1[i] == '.' && p2[i] == k2[i];
    } else {
      i := |k2|;
      assert p2[i] == '.' && p1[i] == k1[i];
    }
    assert l1[i] == p1[i] && l2[i] == p2[i];
  }

  lemma IntendedLabelPrefix(m: Module)
    requires Truthy(m.kapitel) && Truthy(m.unterkapitel) && Scalar(m.unterkapitel)
    ensures StartsWith(IntendedChapterLabel(m), ToStr(m.kapitel) + ".")
  {
    var p, u := ToStr(m.kapitel) + ".", ToStr(m.unterkapitel);
    if !StartsWith(u, p) {
      assert (ToStr(m.kapitel) + "." + u)[..|p|] == p;
    }
  }

  /** Without a chapter the corrected rule still shows the subchapter alone, so a module with
      no chapter and subchapter "1.2" reads like chapter 1, subchapter 2. */
  lemma IntendedLabelNeedsChapter(m1: Module, m2: Module)
    requires m1.kapitel == Absent && m1.unterkapitel == Str("1.2")
    requires m2.kapitel == Num(1) && m2.unterkapitel == Num(2)
    ensures IntendedChapterLabel(m1) == IntendedChapterLabel(m2) == "1.2"
    ensures ChapterKey(m1) != ChapterKey(m2)
  {
    assert IntToString(1) == "1" && IntToString(2) == "2";
    assert !StartsWith("2", "1.");
    assert ChapterKey(m2) == "1";
  }
}
