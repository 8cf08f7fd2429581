/**
 * The build-time catalog loader (`getStaticProps`): for each spec version it
 * lists the `.json` example files, derives each example's stem and display
 * title, pairs its re-serialised JSON with its YAML text, and orders the
 * version's records with the page's comparator.
 *
 * The file system is an `Io` value: a directory listing, the parsed JSON
 * document, the YAML text (each `None` when the read fails) and the JSON
 * serialiser, all given as total functions.
 */
module Loader {
  import opened Wrappers
  import opened Text

  // ---------------------------------------------------------------------------
  // Data model

  /** The part of a parsed OpenAPI document the loader inspects: `info.title`. */
  datatype Info = Info(title: string)
  datatype Oas = Oas(info: Option<Info>)

  /** One example: display `name`, stem `file`, pretty-printed `json`, raw `yaml`. */
  datatype Record = Record(name: string, file: string, json: string, yaml: string)

  /** The page's `files` prop: the version labels in key order and each version's records. */
  datatype Catalog = Catalog(keys: seq<string>, files: map<string, seq<Record>>)

  predicate WellFormed(c: Catalog)
  {
    Distinct(c.keys) && c.files.Keys == set k | k in c.keys
  }

  datatype Io = Io(
    readDir: string -> Option<seq<string>>,       // entries of <version>/json
    readJson: (string, string) -> Option<Oas>,     // parsed <version>/json/<stem>.json
    readYaml: (string, string) -> Option<string>,  // text of <version>/yaml/<stem>.yaml
    stringify: Oas -> string)                      // JSON.stringify(oas, undefined, 2)

  /** The keys of the `versions` object literal, in for-in order. */
  const Versions: seq<string> := ["2.0", "3.0", "3.1"]

  const JsonExt: string := ".json"

  // ---------------------------------------------------------------------------
  // Directory entries and stems

  /** The directory entries in which ".json" occurs somewhere, in their order. */
  function JsonNames(names: seq<string>): (r: seq<string>)
    ensures forall n :: n in r ==> Contains(n, JsonExt)
    ensures forall n :: multiset(r)[n] == if Contains(n, JsonExt) then multiset(names)[n] else 0
  {
    if names == [] then []
    else
      assert names == [names[0]] + names[1..];
      (if Contains(names[0], JsonExt) then [names[0]] else []) + JsonNames(names[1..])
  }

  /** The stem of an entry: the entry name with its first ".json" cut out. */
  function Stem(name: string): string
  {
    RemoveFirst(name, JsonExt)
  }

  /** The stem of a kept entry, with ".json" put back where it was cut, is the entry. */
  lemma StemRestores(name: string)
    requires Contains(name, JsonExt)
    ensures |Stem(name)| + |JsonExt| == |name|
    ensures exists i :: 0 <= i <= |Stem(name)| && name == Stem(name)[..i] + JsonExt + Stem(name)[i..]
  {
    var i := IndexOf(name, JsonExt).value;
    assert name == Stem(name)[..i] + JsonExt + Stem(name)[i..];
  }

  /** Filtering keeps the entries' order: filtering a concatenation concatenates the filtered parts. */
  lemma {:induction false} JsonNamesAppend(a: seq<string>, b: seq<string>)
    ensures JsonNames(a + b) == JsonNames(a) + JsonNames(b)
    decreases |a|
  {
    if a != [] {
      assert (a + b)[1..] == a[1..] + b;
      JsonNamesAppend(a[1..], b);
    } else {
      assert a + b == b;
    }
  }

  /** A kept entry is kept where it stands: filtering one entry gives it back exactly when it contains ".json". */
  lemma JsonNamesSingle(n: string)
    ensures JsonNames([n]) == if Contains(n, JsonExt) then [n] else []
  {
    assert [n][1..] == [];
  }

  /** The usual case: the stem of "<x>.json", where x holds no ".json", is x. */
  lemma {:induction false} StemOfJsonFile(x: string)
    requires !Contains(x, JsonExt)
    ensures Contains(x + JsonExt, JsonExt)
    ensures Stem(x + JsonExt) == x
  {
    var s := x + JsonExt;
    assert s[|x|..|x| + 5] == JsonExt;
    assert OccursAt(s, JsonExt, |x|);
    forall j | 0 <= j < |x|
      ensures !OccursAt(s, JsonExt, j)
    {
      if j + 5 <= |x| {
        assert s[j..j + 5] == x[j..j + 5];
        assert !OccursAt(x, JsonExt, j);
      } else if j + 5 <= |s| {
        // a match would straddle the end of x, but only index 0 of ".json" is a '.'
        assert s[j..j + 5][|x| - j] == s[|x|] == '.';
        assert JsonExt[|x| - j] != '.';
      }
    }
    assert IndexOf(s, JsonExt) == Some(|x|);
    assert Stem(s) == s[..|x|] + s[|x| + 5..];
    assert s[..|x|] == x && s[|x| + 5..] == [];
  }

  // ---------------------------------------------------------------------------
  // Titles

  /** One word with its first character upper-cased and the rest kept. */
  function Capitalize(w: string): (r: string)
    ensures |r| == |w|
    ensures |w| > 0 ==> r[0] == UpperChar(w[0]) && r[1..] == w[1..]
  {
    if w == [] then [] else [UpperChar(w[0])] + w[1..]
  }

  function CapitalizeAll(ws: seq<string>): (r: seq<string>)
    ensures |r| == |ws|
    ensures forall i :: 0 <= i < |ws| ==> r[i] == Capitalize(ws[i])
  {
    if ws == [] then [] else [Capitalize(ws[0])] + CapitalizeAll(ws[1..])
  }

  /** What `titleCase(str)` computes: lower-case, split at spaces, capitalise each word, join. */
  function TitleCaseOf(s: string): string
  {
    Join(CapitalizeAll(Split(ToLower(s))))
  }

  /** `titleCase`: the loop that overwrites each word of the split, lower-cased string in place. */
  method TitleCase(str: string) returns (r: string)
    ensures r == TitleCaseOf(str)
  {
    var words := Split(ToLower(str));
    var a := new string[|words|](k requires 0 <= k < |words| => words[k]);
    for i := 0 to a.Length
      invariant forall k :: 0 <= k < i ==> a[k] == Capitalize(words[k])
      invariant forall k :: i <= k < a.Length ==> a[k] == words[k]
    {
      a[i] := Capitalize(a[i]);
    }
    assert a[..] == CapitalizeAll(words);
    r := Join(a[..]);
  }

  /** A single word as the title case leaves it. */
  function TitleWord(w: string): (r: string)
    ensures |r| == |w|
    ensures |w| > 0 ==> r[0] == UpperChar(w[0]) && !IsLower(r[0])
    ensures forall k :: 1 <= k < |w| ==> r[k] == LowerChar(w[k]) && !IsUpper(r[k])
  {
    UpperOfLower(if w == [] then 'a' else w[0]);
    Capitalize(ToLower(w))
  }

  /**
   * `titleCase` keeps the space-separated words: there are as many words as
   * before, each is the title-cased original word (first character upper
   * case, the rest lower case), and an empty word stays empty.
   */
  lemma TitleCaseWords(s: string)
    ensures |Split(TitleCaseOf(s))| == |Split(s)|
    ensures forall i :: 0 <= i < |Split(s)| ==> Split(TitleCaseOf(s))[i] == TitleWord(Split(s)[i])
  {
    var lw := Split(ToLower(s));
    var cw := CapitalizeAll(lw);
    forall i | 0 <= i < |cw|
      ensures Space !in cw[i]
    {
      assert forall k :: 0 <= k < |cw[i]| ==> cw[i][k] != Space by {
        assert Space !in lw[i];
        forall k | 0 <= k < |cw[i]| ensures cw[i][k] != Space {
          assert lw[i][k] != Space;
          if k == 0 { assert cw[i][0] == UpperChar(lw[i][0]); } else { assert cw[i][k] == lw[i][k]; }
        }
      }
    }
    SplitJoin(cw);
    SplitLower(s);
  }

  /** `titleCase` of a string without a character that is neither a letter nor a space has none either. */
  lemma TitleCaseExcludes(s: string, c: char)
    requires !IsLetter(c) && c != Space
    requires c !in s
    ensures c !in TitleCaseOf(s)
  {
    var l := ToLower(s);
    assert c !in l by {
      forall k | 0 <= k < |l| ensures l[k] != c { assert l[k] == LowerChar(s[k]); }
    }
    var lw := Split(l);
    SplitChars(l, c);
    var cw := CapitalizeAll(lw);
    forall i | 0 <= i < |cw|
      ensures c !in cw[i]
    {
      forall k | 0 <= k < |cw[i]| ensures cw[i][k] != c {
        assert c !in lw[i];
        assert lw[i][k] != c;
        if k == 0 { assert cw[i][0] == UpperChar(lw[i][0]); } else { assert cw[i][k] == lw[i][k]; }
      }
    }
    JoinChars(cw, c);
  }

  /**
   * `title(example, oas)`: a "petstore" stem is title-cased with hyphens read as
   * spaces; any other stem takes the document's `info.title`, and a document
   * without `info` makes the lookup throw.
   */
  function Title(example: string, oas: Oas): (r: Option<string>)
    ensures Contains(example, "petstore") ==> r == Some(TitleCaseOf(ReplaceAll(example, '-', Space)))
    ensures Contains(example, "petstore") ==> '-' !in r.value && |r.value| == |example|
    ensures !Contains(example, "petstore") ==> (r.Some? <==> oas.info.Some?)
    ensures !Contains(example, "petstore") && oas.info.Some? ==> r.value == oas.info.value.title
  {
    if Contains(example, "petstore") then
      var spaced := ReplaceAll(example, '-', Space);
      ReplaceAllRemoves(example, '-', Space);
      TitleCaseExcludes(spaced, '-');
      JoinSplit(TitleCaseOf(spaced));
      TitleCaseLength(spaced);
      Some(TitleCaseOf(spaced))
    else
      match oas.info
      case None => None
      case Some(info) => Some(info.title)
  }

  /**
   * The title of a "petstore" stem, word by word: one word per hyphen- or
   * space-separated part of the stem, each with its first character upper
   * case and the rest lower case.
   */
  lemma TitleWords(example: string, oas: Oas)
    requires Contains(example, "petstore")
    ensures var parts := Split(ReplaceAll(example, '-', Space));
            && |Split(Title(example, oas).value)| == |parts|
            && forall i :: 0 <= i < |parts| ==> Split(Title(example, oas).value)[i] == TitleWord(parts[i])
  {
    TitleCaseWords(ReplaceAll(example, '-', Space));
  }

  /** `titleCase` keeps the length of its argument. */
  lemma TitleCaseLength(s: string)
    ensures |TitleCaseOf(s)| == |s|
  {
    TitleCaseWords(s);
    JoinSplit(s);
    JoinSplit(TitleCaseOf(s));
    JoinLength(Split(s), Split(TitleCaseOf(s)));
  }

  /** Joins of pointwise equal-length word lists have equal length. */
  lemma {:induction false} JoinLength(ws: seq<string>, vs: seq<string>)
    requires |ws| == |vs|
    requires forall i :: 0 <= i < |ws| ==> |ws[i]| == |vs[i]|
    ensures |Join(ws)| == |Join(vs)|
    decreases |ws|
  {
    if |ws| > 1 {
      JoinLength(ws[1..], vs[1..]);
    }
  }

  /** The example a hyphenated petstore stem shows in the catalog. */
  lemma PetstoreSimpleTitle(e: string, oas: Oas)
    requires e == "petstore-simple"
    ensures Title(e, oas) == Some("Petstore Simple")
  {
    ghost var p, q := e[..8], e[9..];
    assert p == "petstore" && q == "simple" && e == p + "-" + q;
    assert OccursAt(e, "petstore", 0) by { assert e[0..8] == p; }
    PetstoreSimpleSpaced(e, p, q);
    PetstoreSimpleCased(p, q);
  }

  lemma PetstoreSimpleSpaced(e: string, p: string, q: string)
    requires p == "petstore" && q == "simple" && e == p + "-" + q
    ensures ReplaceAll(e, '-', Space) == p + [Space] + q
  {
    ReplaceAllAbsent(p, '-', Space);
    ReplaceAllAbsent(q, '-', Space);
    assert ReplaceAll("-", '-', Space) == [Space];
    ReplaceAllAppend(p, "-", '-', Space);
    ReplaceAllAppend(p + "-", q, '-', Space);
  }

  lemma PetstoreSimpleCased(p: string, q: string)
    requires p == "petstore" && q == "simple"
    ensures TitleCaseOf(p + [Space] + q) == "Petstore Simple"
  {
    var spaced := p + [Space] + q;
    PetstoreSimpleLower(spaced);
    SplitWord(q);
    SplitCons(p, q);
    assert Split(spaced) == [p, q];
    PetstoreSimpleCapitals(p, q);
  }

  lemma PetstoreSimpleLower(spaced: string)
    requires spaced == "petstore simple"
    ensures ToLower(spaced) == spaced
  {
    ToLowerNoUpper(spaced);
  }

  lemma PetstoreSimpleCapitals(p: string, q: string)
    requires p == "petstore" && q == "simple"
    ensures Join(CapitalizeAll([p, q])) == "Petstore Simple"
  {
    assert Capitalize(p) == "Petstore" by { assert UpperChar(p[0]) == 'P'; assert p[1..] == "etstore"; }
    assert Capitalize(q) == "Simple" by { assert UpperChar(q[0]) == 'S'; assert q[1..] == "imple"; }
    assert CapitalizeAll([p, q]) == ["Petstore", "Simple"];
    assert Join(["Petstore", "Simple"]) == "Petstore" + [Space] + "Simple";
  }

  // ---------------------------------------------------------------------------
  // Reading one version

  /** Loading one directory entry: read its two files and build the record. */
  function LoadRecord(io: Io, v: string, entry: string): Option<Record>
  {
    var example := Stem(entry);
    match io.readJson(v, example)
    case None => None
    case Some(oas) =>
      match io.readYaml(v, example)
      case None => None
      case Some(yaml) =>
        match Title(example, oas)
        case None => None
        case Some(name) => Some(Record(name, example, io.stringify(oas), yaml))
  }

  /**
   * An entry loads exactly when its JSON and YAML files read and its title
   * exists; the record then carries the stem, the re-serialised document, the
   * YAML text and the title.
   */
  lemma LoadRecordFields(io: Io, v: string, entry: string)
    ensures var oas := io.readJson(v, Stem(entry));
            var yaml := io.readYaml(v, Stem(entry));
            var r := LoadRecord(io, v, entry);
            && (r.Some? <==> oas.Some? && yaml.Some? && Title(Stem(entry), oas.value).Some?)
            && (r.Some? ==>
                  && r.value.file == Stem(entry)
                  && r.value.json == io.stringify(oas.value)
                  && r.value.yaml == yaml.value
                  && Some(r.value.name) == Title(Stem(entry), oas.value))
  {
  }

  /** `Promise.all` over the entries: every record in entry order, or a failure if any read fails. */
  function LoadAll(io: Io, v: string, entries: seq<string>): Option<seq<Record>>
  {
    if entries == [] then Some([])
    else
      match LoadRecord(io, v, entries[0])
      case None => None
      case Some(rec) =>
        match LoadAll(io, v, entries[1..])
        case None => None
        case Some(rest) => Some([rec] + rest)
  }

  /** `Promise.all` succeeds exactly when every entry loads, and then holds the records in entry order. */
  lemma {:induction false} LoadAllRecords(io: Io, v: string, entries: seq<string>)
    ensures LoadAll(io, v, entries).Some? <==> forall i :: 0 <= i < |entries| ==> LoadRecord(io, v, entries[i]).Some?
    ensures LoadAll(io, v, entries).Some? ==>
              && |LoadAll(io, v, entries).value| == |entries|
              && forall i :: 0 <= i < |entries| ==> LoadAll(io, v, entries).value[i] == LoadRecord(io, v, entries[i]).value
    decreases |entries|
  {
    if entries != [] {
      LoadAllRecords(io, v, entries[1..]);
      assert forall i :: 1 <= i < |entries| ==> entries[1..][i - 1] == entries[i];
    }
  }

  /** The unsorted records of version `v`, or `None` when the build would throw. */
  function VersionRecords(io: Io, v: string): Option<seq<Record>>
  {
    match io.readDir(v)
    case None => None
    case Some(names) => LoadAll(io, v, JsonNames(names))
  }

  // ---------------------------------------------------------------------------
  // Ordering

  /** `sortOrder`: the fixed ranks of five well-known examples. */
  const SortOrder: map<string, int> := map[
    "petstore" := 1, "petstore-simple" := 2, "petstore-minimal" := 3,
    "petstore-expanded" := 4, "readme-extensions" := 5]

  /** The five ranked stems, in rank order. */
  const RankedStems: seq<string> :=
    ["petstore", "petstore-simple", "petstore-minimal", "petstore-expanded", "readme-extensions"]

  predicate Listed(r: Record) { r.file in SortOrder }

  /** The score the comparator gives its first argument: its rank, or else its YAML length. */
  function Score(r: Record): (s: int)
    ensures Listed(r) ==> s == SortOrder[r.file] && 1 <= s <= 5
    ensures !Listed(r) ==> s == |r.yaml|
  {
    if Listed(r) then SortOrder[r.file] else |r.yaml|
  }

  /**
   * The comparator as written: the second score falls back to the length of
   * the first record's YAML text, not the second's.
   */
  function Compare(a: Record, b: Record): (r: int)
    ensures r == -1 || r == 0 || r == 1
  {
    var aScore := Score(a);
    var bScore := if Listed(b) then SortOrder[b.file] else |a.yaml|;
    if aScore < bScore then -1 else if aScore > bScore then 1 else 0
  }

  /**
   * What the comparator as written decides: an example ties with itself (and
   * with any record of the same stem), two unranked examples always tie, and
   * two ranked examples compare by rank.
   */
  lemma CompareCases(a: Record, b: Record)
    ensures a.file == b.file ==> Compare(a, b) == 0
    ensures !Listed(a) && !Listed(b) ==> Compare(a, b) == 0
    ensures Listed(a) && Listed(b) ==>
              && (Compare(a, b) < 0 <==> SortOrder[a.file] < SortOrder[b.file])
              && (Compare(a, b) > 0 <==> SortOrder[a.file] > SortOrder[b.file])
              && (Compare(a, b) == 0 <==> a.file == b.file)
  {
  }

  /**
   * When the YAML texts are longer than any rank (more than 5 characters),
   * the comparator as written puts a ranked example before an unranked one.
   */
  lemma CompareRankedFirst(a: Record, b: Record)
    requires |a.yaml| > 5 && |b.yaml| > 5
    ensures Listed(a) && !Listed(b) ==> Compare(a, b) == -1 && Compare(b, a) == 1
  {
  }

  /** The comparator with the fallback on the second record's YAML length, as evidently intended. */
  function CompareIntended(a: Record, b: Record): (r: int)
    ensures r == -1 || r == 0 || r == 1
    ensures r < 0 <==> Score(a) < Score(b)
    ensures r > 0 <==> Score(a) > Score(b)
  {
    var aScore := Score(a);
    var bScore := Score(b);
    if aScore < bScore then -1 else if aScore > bScore then 1 else 0
  }

  /** The five ranked stems come in the order petstore, -simple, -minimal, -expanded, readme-extensions. */
  lemma RankedOrder(a: Record, b: Record)
    requires a.file in RankedStems && b.file in RankedStems
    ensures Compare(a, b) < 0 <==> SortOrder[a.file] < SortOrder[b.file]
    ensures Compare(a, b) == CompareIntended(a, b)
  {
    CompareCases(a, b);
  }

  /** As written, two unranked examples always compare equal, whatever their YAML lengths. */
  lemma CompareIgnoresSecondLength()
    ensures var a := Record("A", "a", "", "x");
            var b := Record("B", "b", "", "xyz");
            Compare(a, b) == 0 && CompareIntended(a, b) == -1
  {
  }

  /**
   * As written, a ranked example whose YAML text is shorter than its rank and
   * an unranked example can each be "greater" than the other.
   */
  lemma CompareNotAntisymmetric()
    ensures var a := Record("Petstore", "petstore", "", "");
            var b := Record("B", "b", "", "xyz");
            Compare(a, b) == 1 && Compare(b, a) == 1
  {
  }

  /** The intended comparator is a total preorder: antisymmetric and transitive. */
  lemma IntendedIsPreorder(a: Record, b: Record, c: Record)
    ensures CompareIntended(b, a) == -CompareIntended(a, b)
    ensures CompareIntended(a, b) <= 0 && CompareIntended(b, c) <= 0 ==> CompareIntended(a, c) <= 0
  {
  }

  /** Which comparator a sort is run with. */
  datatype Comparator = AsWritten | Intended

  function CompareWith(c: Comparator, a: Record, b: Record): int
  {
    match c
    case AsWritten => Compare(a, b)
    case Intended => CompareIntended(a, b)
  }

  /** The key the unranked examples share under the comparator as written: one after the last rank. */
  const Unranked: int := 6

  /**
   * The key a comparator sorts by where it is consistent: the score for the
   * intended one; for the one as written the rank, with every unranked example
   * tied behind the ranked ones.
   */
  function Key(c: Comparator, r: Record): int
  {
    match c
    case Intended => Score(r)
    case AsWritten => if Listed(r) then SortOrder[r.file] else Unranked
  }

  predicate AllListed(s: seq<Record>)
  {
    forall x :: x in multiset(s) ==> Listed(x)
  }

  predicate AllLong(s: seq<Record>)
  {
    forall x :: x in multiset(s) ==> |x.yaml| > 5
  }

  /**
   * The comparator orders the records of `s` by `Key`: always for the intended
   * one; for the one as written when every record is ranked or every YAML text
   * is longer than 5 characters, as for the examples the page lists.
   */
  predicate Consistent(c: Comparator, s: seq<Record>)
  {
    c == Intended || AllListed(s) || AllLong(s)
  }

  lemma ConsistentCompare(c: Comparator, s: seq<Record>, x: Record, y: Record)
    requires Consistent(c, s) && x in multiset(s) && y in multiset(s)
    ensures CompareWith(c, x, y) > 0 <==> Key(c, x) > Key(c, y)
  {
    if c == AsWritten {
      CompareCases(x, y);
      if !AllListed(s) {
        CompareRankedFirst(x, y);
        CompareRankedFirst(y, x);
      }
    }
  }

  lemma ConsistentPermutation(c: Comparator, s: seq<Record>, t: seq<Record>)
    requires multiset(s) == multiset(t)
    ensures Consistent(c, s) == Consistent(c, t)
  {
  }

  /** The first `n` entries are in key order. */
  predicate SortedPrefix(c: Comparator, s: seq<Record>, n: int)
  {
    forall p, q :: 0 <= p < q < n && q < |s| ==> Key(c, s[p]) <= Key(c, s[q])
  }

  /**
   * Sorted by the key of the comparator as written: the ranked examples come
   * first, in rank order, and the unranked ones after them.
   */
  lemma WrittenOrder(s: seq<Record>)
    requires SortedPrefix(AsWritten, s, |s|)
    ensures forall p, q :: 0 <= p < q < |s| && Listed(s[q]) ==>
              Listed(s[p]) && SortOrder[s[p].file] <= SortOrder[s[q].file]
  {
    forall p, q | 0 <= p < q < |s| && Listed(s[q])
      ensures Listed(s[p]) && SortOrder[s[p].file] <= SortOrder[s[q].file]
    {
      assert Key(AsWritten, s[p]) <= Key(AsWritten, s[q]) <= 5;
    }
  }

  /** While entry `j` moves left: `s[..i+1]` without position `j` is in key order... */
  predicate SortedExcept(c: Comparator, s: seq<Record>, i: int, j: int)
  {
    forall p, q :: 0 <= p < q <= i && q < |s| && p != j && q != j ==> Key(c, s[p]) <= Key(c, s[q])
  }

  /** ... and the moving entry has a key below everything it has passed. */
  predicate BelowPassed(c: Comparator, s: seq<Record>, i: int, j: int)
    requires 0 <= j < |s|
  {
    forall q :: j < q <= i && q < |s| ==> Key(c, s[j]) < Key(c, s[q])
  }

  /** The state of one insertion while the entry at `j` moves left, when the comparator is consistent. */
  predicate Inserting(c: Comparator, s: seq<Record>, i: int, j: int)
    requires 0 <= j <= i < |s|
  {
    Consistent(c, s) && SortedExcept(c, s, i, j) && BelowPassed(c, s, i, j)
  }

  lemma StartInsert(c: Comparator, s: seq<Record>, i: int)
    requires 0 <= i < |s| && Consistent(c, s) && SortedPrefix(c, s, i)
    ensures Inserting(c, s, i, i)
  {
  }

  /** Swapping the moving entry with a greater left neighbour keeps the insertion state. */
  lemma SwapStep(c: Comparator, s: seq<Record>, t: seq<Record>, i: int, j: int)
    requires 0 < j <= i < |s|
    requires Inserting(c, s, i, j)
    requires CompareWith(c, s[j - 1], s[j]) > 0
    requires t == s[j - 1 := s[j]][j := s[j - 1]]
    ensures Inserting(c, t, i, j - 1)
  {
    ConsistentCompare(c, s, s[j - 1], s[j]);
    assert multiset(t) == multiset(s);
    ConsistentPermutation(c, s, t);
  }

  /** The insertion stops at the front or below a neighbour that is not greater: the prefix is sorted. */
  lemma InsertDone(c: Comparator, s: seq<Record>, i: int, j: int)
    requires 0 <= j <= i < |s|
    requires Inserting(c, s, i, j)
    requires j == 0 || CompareWith(c, s[j - 1], s[j]) <= 0
    ensures SortedPrefix(c, s, i + 1)
  {
    if j > 0 { ConsistentCompare(c, s, s[j - 1], s[j]); }
    forall p, q | 0 <= p < q < i + 1
      ensures Key(c, s[p]) <= Key(c, s[q])
    {
      if p == j {
      } else if q == j {
        assert Key(c, s[p]) <= Key(c, s[j - 1]);
      }
    }
  }

  /**
   * The page's array sort, here an insertion sort of the array in place. The
   * result is a permutation of the input; where the comparator is consistent
   * it is ordered by the comparator's key.
   */
  method SortList(a: array<Record>, c: Comparator)
    modifies a
    ensures multiset(a[..]) == old(multiset(a[..]))
    ensures Consistent(c, old(a[..])) ==> SortedPrefix(c, a[..], a.Length)
  {
    var i := 0;
    while i < a.Length
      invariant 0 <= i <= a.Length
      invariant multiset(a[..]) == old(multiset(a[..]))
      invariant Consistent(c, old(a[..])) ==> SortedPrefix(c, a[..], i)
    {
      ConsistentPermutation(c, old(a[..]), a[..]);
      Insert(a, c, i);
      i := i + 1;
    }
  }

  method Swap(a: array<Record>, j: int)
    requires 0 < j < a.Length
    modifies a
    ensures a[..] == old(a[..])[j - 1 := old(a[j])][j := old(a[j - 1])]
    ensures multiset(a[..]) == old(multiset(a[..]))
  {
    a[j - 1], a[j] := a[j], a[j - 1];
  }

  /** Moves `a[i]` left past every entry that compares greater. */
  method Insert(a: array<Record>, c: Comparator, i: int)
    requires 0 <= i < a.Length
    modifies a
    ensures multiset(a[..]) == old(multiset(a[..]))
    ensures Consistent(c, old(a[..])) && SortedPrefix(c, old(a[..]), i) ==> SortedPrefix(c, a[..], i + 1)
  {
    ghost var s := a[..];
    ghost var ok := Consistent(c, s) && SortedPrefix(c, s, i);
    if ok { StartInsert(c, s, i); }
    var j := i;
    while j > 0 && CompareWith(c, a[j - 1], a[j]) > 0
      invariant 0 <= j <= i
      invariant s == a[..] && multiset(s) == old(multiset(a[..]))
      invariant ok ==> Inserting(c, s, i, j)
    {
      Swap(a, j);
      ghost var t := s[j - 1 := s[j]][j := s[j - 1]];
      if ok { SwapStep(c, s, t, i, j); }
      s := t;
      j := j - 1;
    }
    if ok { InsertDone(c, s, i, j); }
  }

  // ---------------------------------------------------------------------------
  // The whole catalog

  /**
   * `recs` is `orig` reordered, and in the comparator's key order whenever the
   * comparator is consistent on `orig`.
   */
  predicate SortingOf(c: Comparator, recs: seq<Record>, orig: seq<Record>)
  {
    && multiset(recs) == multiset(orig)
    && (Consistent(c, orig) ==> SortedPrefix(c, recs, |recs|))
  }

  /** One turn of the loop over the versions: load all of the version's records, then sort them. */
  method LoadVersion(io: Io, v: string, c: Comparator) returns (r: Option<seq<Record>>)
    ensures r.Some? <==> VersionRecords(io, v).Some?
    ensures r.Some? ==> Loaded(io, v, c, r.value)
  {
    var recs := VersionRecords(io, v);
    if recs.None? {
      return None;
    }
    var a := new Record[|recs.value|](k requires 0 <= k < |recs.value| => recs.value[k]);
    assert a[..] == recs.value;
    SortList(a, c);
    r := Some(a[..]);
  }

  /** `recs` are the records of version `v`, sorted with comparator `c`. */
  predicate Loaded(io: Io, v: string, c: Comparator, recs: seq<Record>)
  {
    VersionRecords(io, v).Some? && SortingOf(c, recs, VersionRecords(io, v).value)
  }

  predicate Distinct(keys: seq<string>)
  {
    forall i, j :: 0 <= i < j < |keys| ==> keys[i] != keys[j]
  }

  /** `files` holds exactly the versions `keys`, each loaded and sorted with `c`. */
  predicate AllLoaded(io: Io, keys: seq<string>, c: Comparator, files: map<string, seq<Record>>)
  {
    && files.Keys == (set k | k in keys)
    && forall v :: v in keys ==> Loaded(io, v, c, files[v])
  }

  lemma LoadedExtend(io: Io, keys: seq<string>, c: Comparator, files: map<string, seq<Record>>,
                     v: string, recs: seq<Record>)
    requires AllLoaded(io, keys, c, files) && Loaded(io, v, c, recs)
    ensures AllLoaded(io, keys + [v], c, files[v := recs])
  {
    var files' := files[v := recs];
    assert files'.Keys == (set k | k in keys + [v]);
    forall u | u in keys + [v]
      ensures Loaded(io, u, c, files'[u])
    {
      if u != v { assert u in keys; }
    }
  }

  /** The for-in loop over the given keys of the `versions` object. */
  method LoadKeys(io: Io, keys: seq<string>, c: Comparator) returns (r: Option<Catalog>)
    requires Distinct(keys)
    ensures r.Some? <==> forall v :: v in keys ==> VersionRecords(io, v).Some?
    ensures r.Some? ==> WellFormed(r.value) && r.value.keys == keys
    ensures r.Some? ==> forall v :: v in keys ==> v in r.value.files && Loaded(io, v, c, r.value.files[v])
  {
    var files: map<string, seq<Record>> := map[];
    for i := 0 to |keys|
      invariant AllLoaded(io, keys[..i], c, files)
    {
      var v := keys[i];
      var recs := LoadVersion(io, v, c);
      if recs.None? {
        return None;
      }
      LoadedExtend(io, keys[..i], c, files, v, recs.value);
      assert keys[..i + 1] == keys[..i] + [v];
      files := files[v := recs.value];
    }
    assert keys[..|keys|] == keys;
    r := Some(Catalog(keys, files));
  }

  /**
   * `getStaticProps`: for each version in turn, read and sort its records; the
   * first failing read aborts the build with no catalog. The page itself is
   * `LoadCatalog(io, AsWritten)`: where every YAML text is longer than 5
   * characters, each version lists its ranked examples first, in rank order.
   * With `Intended` every version comes out in score order.
   */
  method LoadCatalog(io: Io, c: Comparator) returns (r: Option<Catalog>)
    ensures r.Some? <==> forall v :: v in Versions ==> VersionRecords(io, v).Some?
    ensures r.Some? ==> WellFormed(r.value) && r.value.keys == Versions
    ensures r.Some? ==> forall v :: v in Versions ==> v in r.value.files && Loaded(io, v, c, r.value.files[v])
    ensures r.Some? && c == Intended ==>
              forall v :: v in Versions ==> SortedPrefix(Intended, r.value.files[v], |r.value.files[v]|)
    ensures r.Some? && c == AsWritten ==>
              forall v :: v in Versions && AllLong(r.value.files[v]) ==>
                SortedPrefix(AsWritten, r.value.files[v], |r.value.files[v]|)
  {
    r := LoadKeys(io, Versions, c);
  }
}
