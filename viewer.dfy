/**
 * The client-side viewer (`Home`): the version tabs, the selection state
 * (`version`, `file`, `format`) and its transitions, and the values derived
 * from it for the page: the copied text, the raw-file link, the external bin
 * link and `classNames`.
 */
module Viewer {
  import opened Wrappers
  import opened Text
  import opened Loader

  /** One version tab: its label and the catalog key it selects. */
  datatype Tab = Tab(name: string, version: string)

  /** The two values `format` is ever set to. */
  datatype Format = Json | Yaml
  {
    /** The string the page stores and puts into links: "json" or "yaml". */
    function Name(): (n: string)
      ensures |n| == 4 && '/' !in n
    {
      match this
      case Json => "json"
      case Yaml => "yaml"
    }
  }

  lemma FormatNameInjective(f: Format, g: Format)
    requires f.Name() == g.Name()
    ensures f == g
  {
    assert f.Name()[0] == g.Name()[0];
  }

  // ---------------------------------------------------------------------------
  // Tabs

  /** One tab per catalog key, in key order, named "v" followed by the key. */
  function TabsOf(keys: seq<string>): (tabs: seq<Tab>)
    ensures |tabs| == |keys|
    ensures forall i :: 0 <= i < |keys| ==> tabs[i].version == keys[i] && tabs[i].name == "v" + keys[i]
  {
    if keys == [] then [] else [Tab("v" + keys[0], keys[0])] + TabsOf(keys[1..])
  }

  /** Distinct catalog keys give tabs with distinct names, the React keys of the tab list. */
  lemma TabNamesDistinct(keys: seq<string>)
    requires Distinct(keys)
    ensures forall i, j :: 0 <= i < j < |keys| ==> TabsOf(keys)[i].name != TabsOf(keys)[j].name
  {
    var tabs := TabsOf(keys);
    forall i, j | 0 <= i < j < |keys|
      ensures tabs[i].name != tabs[j].name
    {
      assert tabs[i].name[1..] == keys[i] && tabs[j].name[1..] == keys[j];
    }
  }

  /** The first tab whose version is `v`, as the array search of the page finds it. */
  function FindTab(tabs: seq<Tab>, v: string): (r: Option<Tab>)
    ensures r.Some? ==> r.value in tabs && r.value.version == v
    ensures r.Some? ==> exists i :: 0 <= i < |tabs| && tabs[i] == r.value && forall j :: 0 <= j < i ==> tabs[j].version != v
    ensures r.None? <==> forall i :: 0 <= i < |tabs| ==> tabs[i].version != v
  {
    if tabs == [] then None
    else if tabs[0].version == v then Some(tabs[0])
    else FindTab(tabs[1..], v)
  }

  /** With distinct keys, the tab found for a key is that key's own tab, named "v" + key. */
  lemma {:induction false} FindOwnTab(keys: seq<string>, i: int)
    requires Distinct(keys) && 0 <= i < |keys|
    ensures FindTab(TabsOf(keys), keys[i]) == Some(Tab("v" + keys[i], keys[i]))
    decreases |keys|
  {
    var tabs := TabsOf(keys);
    if i > 0 {
      assert tabs[0].version == keys[0] != keys[i];
      assert TabsOf(keys)[1..] == TabsOf(keys[1..]);
      assert Distinct(keys[1..]) by {
        forall p, q | 0 <= p < q < |keys[1..]| ensures keys[1..][p] != keys[1..][q] {
          assert keys[1..][p] == keys[p + 1] && keys[1..][q] == keys[q + 1];
        }
      }
      FindOwnTab(keys[1..], i - 1);
    }
  }

  /** Exactly one tab is highlighted: the one whose version is the selected version. */
  lemma OneActiveTab(keys: seq<string>, v: string)
    requires Distinct(keys) && v in keys
    ensures exists i :: 0 <= i < |keys| && TabsOf(keys)[i].version == v
    ensures forall i, j ::
              (0 <= i < |keys| && 0 <= j < |keys| && TabsOf(keys)[i].version == v && TabsOf(keys)[j].version == v)
              ==> i == j
  {
    var i :| 0 <= i < |keys| && keys[i] == v;
    assert TabsOf(keys)[i].version == v;
  }

  // ---------------------------------------------------------------------------
  // classNames

  /** The class strings that are truthy, that is not empty, in order. */
  function Truthy(classes: seq<string>): (r: seq<string>)
    ensures forall i :: 0 <= i < |r| ==> r[i] != []
    ensures forall c :: multiset(r)[c] == if c == [] then 0 else multiset(classes)[c]
  {
    if classes == [] then []
    else
      assert classes == [classes[0]] + classes[1..];
      (if classes[0] != [] then [classes[0]] else []) + Truthy(classes[1..])
  }

  /** The page's class-list helper: the non-empty classes joined by single spaces. */
  function ClassNames(classes: seq<string>): string
  {
    Join(Truthy(classes))
  }

  /** Joining gives the empty string only for no words or one empty word. */
  lemma JoinEmpty(ws: seq<string>)
    ensures Join(ws) == [] <==> (ws == [] || (|ws| == 1 && ws[0] == []))
  {
    if |ws| > 1 {
      assert Join(ws) == ws[0] + [Space] + Join(ws[1..]);
      assert Join(ws)[|ws[0]|] == Space;
    }
  }

  /** The result is empty exactly when every part is falsy. */
  lemma ClassNamesEmpty(classes: seq<string>)
    ensures ClassNames(classes) == [] <==> forall i :: 0 <= i < |classes| ==> classes[i] == []
  {
    var t := Truthy(classes);
    JoinEmpty(t);
    if exists i :: 0 <= i < |classes| && classes[i] != [] {
      var i :| 0 <= i < |classes| && classes[i] != [];
      assert classes[i] in multiset(classes);
      assert classes[i] in multiset(t);
      assert classes[i] in t;
      assert t != [];
    } else {
      assert forall c :: c != [] ==> multiset(t)[c] == 0 by {
        forall c | c != [] ensures multiset(t)[c] == 0 {
          assert c !in classes;
        }
      }
      assert multiset(t) == multiset{};
      assert |t| == |multiset(t)| == 0;
    }
  }

  lemma {:induction false} JoinSnoc(ws: seq<string>, w: string)
    requires ws != []
    ensures Join(ws + [w]) == Join(ws) + [Space] + w
    decreases |ws|
  {
    if |ws| == 1 {
      assert ws + [w] == [ws[0], w];
    } else {
      assert (ws + [w])[1..] == ws[1..] + [w];
      JoinSnoc(ws[1..], w);
    }
  }

  lemma {:induction false} TruthySnoc(classes: seq<string>, c: string)
    ensures Truthy(classes + [c]) == Truthy(classes) + (if c != [] then [c] else [])
    decreases |classes|
  {
    if classes == [] {
      assert [] + [c] == [c];
    } else {
      assert (classes + [c])[1..] == classes[1..] + [c];
      TruthySnoc(classes[1..], c);
    }
  }

  /**
   * Adding one more class: a falsy one changes nothing, a truthy one is
   * appended after a single space (or alone when nothing came before).
   */
  lemma ClassNamesSnoc(classes: seq<string>, c: string)
    ensures ClassNames(classes + [c]) ==
              if c == [] then ClassNames(classes)
              else if ClassNames(classes) == [] then c
              else ClassNames(classes) + [Space] + c
  {
    TruthySnoc(classes, c);
    var t := Truthy(classes);
    if c != [] {
      if t == [] {
        assert t + [c] == [c];
      } else {
        JoinSnoc(t, c);
        JoinEmpty(t);
        assert t[0] != [];
      }
    } else {
      assert t + [] == t;
    }
  }

  /** When no class holds a space, splitting the result at spaces gives back the truthy classes. */
  lemma ClassNamesSplit(classes: seq<string>)
    requires forall i :: 0 <= i < |classes| ==> Space !in classes[i]
    requires Truthy(classes) != []
    ensures Split(ClassNames(classes)) == Truthy(classes)
  {
    var t := Truthy(classes);
    forall i | 0 <= i < |t| ensures Space !in t[i] {
      assert t[i] in multiset(t);
      assert t[i] in multiset(classes);
      assert t[i] in classes;
    }
    SplitJoin(t);
  }

  // ---------------------------------------------------------------------------
  // Derived values

  const RawBase: string := "https://raw.githubusercontent.com/readmeio/oas-examples/main/"
  const BinBase: string := "https://bin.readme.com/?url="

  /** The "view raw" link for a selection. */
  function RawUrl(version: string, format: Format, file: string): (u: string)
    ensures |RawBase| <= |u| && u[..|RawBase|] == RawBase
    ensures u[|RawBase|..] == version + "/" + format.Name() + "/" + file + "." + format.Name()
  {
    RawBase + version + "/" + format.Name() + "/" + file + "." + format.Name()
  }

  lemma SplitAtSeparator(a: string, x: string, b: string, y: string, c: char)
    requires c !in a && c !in b
    requires a + [c] + x == b + [c] + y
    ensures a == b && x == y
  {
    var s := a + [c] + x;
    assert s == b + [c] + y;
    // both |a| and |b| are the index of the first c in s
    assert forall k :: 0 <= k < |a| ==> s[k] == a[k] != c;
    assert forall k :: 0 <= k < |b| ==> s[k] == b[k] != c;
    assert s[|a|] == c && s[|b|] == c;
    assert |a| == |b|;
    assert a == s[..|a|] == b;
    assert x == s[|a| + 1..] == y;
  }

  /**
   * Distinct selections get distinct raw links: the version (which holds no
   * '/'), the format and the file are all read back from the link.
   */
  lemma RawUrlInjective(v1: string, f1: Format, n1: string, v2: string, f2: Format, n2: string)
    requires '/' !in v1 && '/' !in v2
    requires RawUrl(v1, f1, n1) == RawUrl(v2, f2, n2)
    ensures v1 == v2 && f1 == f2 && n1 == n2
  {
    RawUrlTail(v1, f1, n1);
    RawUrlTail(v2, f2, n2);
    var e1, e2 := n1 + ['.'] + f1.Name(), n2 + ['.'] + f2.Name();
    SplitAtSeparator(v1, f1.Name() + ['/'] + e1, v2, f2.Name() + ['/'] + e2, '/');
    SplitAtSeparator(f1.Name(), e1, f2.Name(), e2, '/');
    FormatNameInjective(f1, f2);
    assert e1 == n1 + (['.'] + f1.Name()) && e2 == n2 + (['.'] + f1.Name());
    SuffixCancel(n1, n2, ['.'] + f1.Name());
  }

  /** The part of a raw link after the base, regrouped at its separators. */
  lemma RawUrlTail(v: string, f: Format, n: string)
    ensures RawUrl(v, f, n)[|RawBase|..] == v + ['/'] + (f.Name() + ['/'] + (n + ['.'] + f.Name()))
  {
  }

  lemma SuffixCancel(a: string, b: string, t: string)
    requires a + t == b + t
    ensures a == b
  {
    assert a == (a + t)[..|a|];
    assert b == (b + t)[..|b|];
  }

  /** The text the copy button copies (line 277). */
  function CopyText(file: Record, format: Format): string
  {
    if format == Json then file.json else file.yaml
  }

  /** The code block the page shows: its Prism language class and its text. */
  function CodeBlock(file: Record, format: Format): (string, string)
  {
    if format == Json then ("language-json", file.json) else ("language-yaml", file.yaml)
  }

  /**
   * What is copied is what is shown, in the language whose extension ends the
   * raw link: the JSON text for "json" and the YAML text for "yaml".
   */
  lemma CopyShowsSameFormat(file: Record, format: Format, version: string)
    ensures CopyText(file, format) == CodeBlock(file, format).1
    ensures CopyText(file, format) == (if format == Json then file.json else file.yaml)
    ensures CodeBlock(file, format).0 == "language-" + format.Name()
    ensures var u := RawUrl(version, format, file.file);
            u[|u| - 5..] == "." + format.Name()
  {
    var u := RawUrl(version, format, file.file);
    assert u == (RawBase + version + "/" + format.Name() + "/" + file.file) + ("." + format.Name());
  }

  /** The external bin link: shown for every version but "2.0", opening the encoded raw link. */
  function BinLink(version: string, raw: string, encode: string -> string): (r: Option<string>)
    ensures r.Some? <==> version != "2.0"
    ensures r.Some? ==> |BinBase| <= |r.value| && r.value[..|BinBase|] == BinBase && r.value[|BinBase|..] == encode(raw)
  {
    if version != "2.0" then Some(BinBase + encode(raw)) else None
  }

  // ---------------------------------------------------------------------------
  // The view state

  /**
   * The `useState` fields of `Home`. The catalog and the tabs are fixed for
   * the page; `version`, `file` and `format` change through the handlers.
   */
  class ViewState {
    const catalog: Catalog
    const tabs: seq<Tab>
    var version: Tab
    var file: Record
    var format: Format

    /** The selected version is a key of the catalog, whose lists the page renders. */
    ghost predicate Valid()
      reads this
    {
      WellFormed(catalog) && tabs == TabsOf(catalog.keys) && version.version in catalog.files
    }

    /** The shown file is one of the selected version's files. */
    ghost predicate Selected()
      reads this
      requires Valid()
    {
      file in catalog.files[version.version]
    }

    /** The initial state: the second tab, that version's first file, and the JSON format. */
    constructor (catalog: Catalog)
      requires WellFormed(catalog)
      requires |catalog.keys| >= 2 && |catalog.files[catalog.keys[1]]| > 0
      ensures this.catalog == catalog && tabs == TabsOf(catalog.keys)
      ensures version == tabs[1] && version == Tab("v" + catalog.keys[1], catalog.keys[1])
      ensures file == catalog.files[catalog.keys[1]][0]
      ensures format == Json
      ensures Valid() && Selected()
    {
      this.catalog := catalog;
      var tabs := TabsOf(catalog.keys);
      this.tabs := tabs;
      version := tabs[1];
      file := catalog.files[tabs[1].version][0];
      format := Json;
    }

    /** Clicking a version tab: select its version and reset the file to that version's first entry. */
    method UpdateVersion(tab: Tab)
      requires Valid()
      requires tab.version in catalog.files && |catalog.files[tab.version]| > 0
      modifies this
      ensures version == tab && file == catalog.files[tab.version][0]
      ensures format == old(format)
      ensures Valid() && Selected()
    {
      version := tab;
      file := catalog.files[tab.version][0];
    }

    /** Clicking a file link: only the file changes. */
    method SetFile(f: Record)
      requires Valid()
      modifies this
      ensures file == f && version == old(version) && format == old(format)
      ensures Valid()
      ensures f in catalog.files[version.version] ==> Selected()
    {
      file := f;
    }

    /** Clicking a format button: only the format changes; choosing the current format changes nothing. */
    method SetFormat(x: Format)
      requires Valid()
      modifies this
      ensures format == x && version == old(version) && file == old(file)
      ensures Valid()
      ensures old(Selected()) ==> Selected()
      ensures old(format) == x ==> unchanged(this)
    {
      format := x;
    }

    /** The text handed to the clipboard. */
    function Copied(): (t: string)
      reads this
      ensures t == CodeBlock(file, format).1
    {
      CopyText(file, format)
    }

    /** The "view raw" link. */
    function RawLink(): (u: string)
      reads this
      ensures |RawBase| <= |u| && u[..|RawBase|] == RawBase
      ensures u[|RawBase|..] == version.version + "/" + format.Name() + "/" + file.file + "." + format.Name()
    {
      RawUrl(version.version, format, file.file)
    }

    /** The external bin link, if shown. */
    function Bin(encode: string -> string): (r: Option<string>)
      reads this
      ensures r.Some? <==> version.version != "2.0"
      ensures r.Some? ==> |BinBase| <= |r.value| && r.value[..|BinBase|] == BinBase && r.value[|BinBase|..] == encode(RawLink())
    {
      BinLink(version.version, RawLink(), encode)
    }

    /** The mobile select's default: the name of the selected version's tab. */
    function TabLabel(): Option<string>
      reads this
    {
      match FindTab(tabs, version.version)
      case None => None
      case Some(t) => Some(t.name)
    }

    /** The select always shows the selected version's own tab, "v" followed by the version. */
    lemma TabLabelOfVersion()
      requires Valid()
      ensures TabLabel() == Some("v" + version.version)
    {
      var i :| 0 <= i < |catalog.keys| && catalog.keys[i] == version.version;
      FindOwnTab(catalog.keys, i);
    }
  }

  /** The tabs of the three specification versions. */
  lemma VersionTabs()
    ensures TabsOf(Versions) == [Tab("v2.0", "2.0"), Tab("v3.0", "3.0"), Tab("v3.1", "3.1")]
  {
    var tabs := TabsOf(Versions);
    assert "v" + "2.0" == "v2.0" && "v" + "3.0" == "v3.0" && "v" + "3.1" == "v3.1";
    assert tabs[0] == Tab("v2.0", "2.0") && tabs[1] == Tab("v3.0", "3.0") && tabs[2] == Tab("v3.1", "3.1");
  }

  /**
   * The page's first view of a loaded catalog, then the clicks "v3.1", "YAML",
   * "v2.0": the default is version 3.0 in JSON with the bin link; after the
   * clicks it is version 2.0's first file, still in YAML, without the bin link.
   */
  method SwitchScenario(catalog: Catalog, encode: string -> string)
    returns (first: (Tab, Record, Format), firstBin: bool, last: (Tab, Record, Format), lastBin: bool)
    requires WellFormed(catalog) && catalog.keys == Versions
    requires forall v :: v in Versions ==> |catalog.files[v]| > 0
    ensures first == (Tab("v3.0", "3.0"), catalog.files["3.0"][0], Json) && firstBin
    ensures last == (Tab("v2.0", "2.0"), catalog.files["2.0"][0], Yaml) && !lastBin
  {
    VersionTabs();
    assert catalog.keys[2] in catalog.files && catalog.keys[0] in catalog.files;
    var view := new ViewState(catalog);
    first, firstBin := (view.version, view.file, view.format), view.Bin(encode).Some?;
    view.UpdateVersion(view.tabs[2]);
    view.SetFormat(Yaml);
    view.UpdateVersion(view.tabs[0]);
    last, lastBin := (view.version, view.file, view.format), view.Bin(encode).Some?;
  }
}
