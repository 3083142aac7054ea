/**
 * Document selection and the knowledge graph built from each document:
 * `build_knowledge_graph` keeps the most frequent long alphabetic words and
 * chains them into a path; `process_documents` reads the supported files of
 * a directory and keeps those with text. The file system and the three text
 * extractors are parameters.
 */
module ContentProcessing {
  import opened Text
  import opened Seqs
  import opened KeyConcepts

  // ---------------------------------------------------------------------------
  // The word list
  // ---------------------------------------------------------------------------

  /**
   * `[word.lower() for word in text.split() if len(word) > 3 and word.isalpha()]`:
   * the test is made on the token as written, the lower-casing after it.
   */
  function Words(text: string): (ws: seq<string>)
    ensures forall i :: 0 <= i < |ws| ==> |ws[i]| > 3 && IsAlpha(ws[i]) && Lower(ws[i]) == ws[i]
  {
    var kept := Filter(SplitWhitespace(text), Qualifies);
    var ws := LowerAll(kept);
    assert forall i :: 0 <= i < |ws| ==> |ws[i]| > 3 && IsAlpha(ws[i]) && Lower(ws[i]) == ws[i] by {
      forall i | 0 <= i < |ws| ensures |ws[i]| > 3 && IsAlpha(ws[i]) && Lower(ws[i]) == ws[i] {
        assert kept[i] in kept;
        LowerIdempotent(kept[i]);
      }
    }
    ws
  }

  function LowerAll(ss: seq<string>): (r: seq<string>)
    ensures |r| == |ss|
    ensures forall i :: 0 <= i < |ss| ==> r[i] == Lower(ss[i])
  {
    seq(|ss|, i requires 0 <= i < |ss| => Lower(ss[i]))
  }

  /** Each word is the lower-cased form of a whitespace-separated token that qualifies, and every such token gives one. */
  lemma WordsFromTokens(text: string)
    ensures forall w :: w in Words(text) <==>
              exists t :: t in SplitWhitespace(text) && Qualifies(t) && w == Lower(t)
  {
    var kept := Filter(SplitWhitespace(text), Qualifies);
    var ws := Words(text);
    assert ws == LowerAll(kept);
    forall w | w in ws ensures exists t :: t in SplitWhitespace(text) && Qualifies(t) && w == Lower(t) {
      var i :| 0 <= i < |ws| && ws[i] == w;
      assert kept[i] in kept;
    }
    forall t | t in SplitWhitespace(text) && Qualifies(t) ensures Lower(t) in ws {
      var i :| 0 <= i < |kept| && kept[i] == t;
      assert ws[i] == Lower(t);
    }
  }

  // ---------------------------------------------------------------------------
  // Counter(words).most_common(k)
  // ---------------------------------------------------------------------------

  /**
   * The order `most_common` lists words in: the higher count first, and
   * between equal counts the word seen first (a `Counter` keeps insertion
   * order and the selection is stable).
   */
  predicate RanksBefore(words: seq<string>, a: string, b: string) {
    a in words && b in words
    && (Count(words, a) > Count(words, b)
        || (Count(words, a) == Count(words, b) && IndexOf(words, a) < IndexOf(words, b)))
  }

  predicate SortedByRank(words: seq<string>, s: seq<string>) {
    forall i, j :: 0 <= i < j < |s| ==> RanksBefore(words, s[i], s[j])
  }

  /** Of two different words of the text, one ranks before the other. */
  lemma RankTotal(words: seq<string>, a: string, b: string)
    requires a in words && b in words && a != b
    ensures RanksBefore(words, a, b) || RanksBefore(words, b, a)
  {
  }

  /** Ranked lists have no repeated word. */
  lemma SortedNoDup(words: seq<string>, s: seq<string>)
    requires SortedByRank(words, s)
    ensures NoDup(s)
  {
    forall i, j | 0 <= i < j < |s| ensures s[i] != s[j] {
      assert RanksBefore(words, s[i], s[j]);
    }
  }

  /** One step of an insertion sort by rank. */
  function Insert(words: seq<string>, x: string, s: seq<string>): (r: seq<string>)
    ensures |r| == |s| + 1
    ensures forall y :: y in r <==> y == x || y in s
    decreases |s|
  {
    if s == [] then [x]
    else if RanksBefore(words, x, s[0]) then [x] + s
    else [s[0]] + Insert(words, x, s[1..])
  }

  /** The distinct words `d` sorted by rank. */
  function Rank(words: seq<string>, d: seq<string>): (r: seq<string>)
    ensures |r| == |d|
    ensures forall y :: y in r <==> y in d
    decreases |d|
  {
    if d == [] then [] else Insert(words, d[0], Rank(words, d[1..]))
  }

  lemma {:induction false} InsertSorted(words: seq<string>, x: string, s: seq<string>)
    requires x in words && x !in s && forall y :: y in s ==> y in words
    requires SortedByRank(words, s)
    ensures SortedByRank(words, Insert(words, x, s))
    decreases |s|
  {
    if s != [] {
      var r := Insert(words, x, s);
      if RanksBefore(words, x, s[0]) {
        forall i, j | 0 <= i < j < |r| ensures RanksBefore(words, r[i], r[j]) {
          if i == 0 && j > 1 {
            assert RanksBefore(words, s[0], s[j - 1]);
          }
        }
      } else {
        RankTotal(words, x, s[0]);
        var tail := s[1..];
        assert SortedByRank(words, tail) by {
          forall i, j | 0 <= i < j < |tail| ensures RanksBefore(words, tail[i], tail[j]) {
            assert tail[i] == s[i + 1] && tail[j] == s[j + 1];
          }
        }
        InsertSorted(words, x, tail);
        var rest := Insert(words, x, tail);
        forall i, j | 0 <= i < j < |r| ensures RanksBefore(words, r[i], r[j]) {
          if i == 0 {
            assert r[j] == rest[j - 1] && r[j] in rest;
            if r[j] != x {
              var k :| 0 <= k < |tail| && tail[k] == r[j];
              assert RanksBefore(words, s[0], s[k + 1]);
            }
          } else {
            assert r[i] == rest[i - 1] && r[j] == rest[j - 1];
          }
        }
      }
    }
  }

  lemma {:induction false} RankSorted(words: seq<string>, d: seq<string>)
    requires NoDup(d) && forall y :: y in d ==> y in words
    ensures SortedByRank(words, Rank(words, d))
    decreases |d|
  {
    if d != [] {
      var tail := d[1..];
      assert NoDup(tail);
      assert d[0] !in tail;
      RankSorted(words, tail);
      InsertSorted(words, d[0], Rank(words, tail));
    }
  }

  /** `[word for word, count in Counter(words).most_common(k)]`. */
  function MostCommon(words: seq<string>, k: nat): seq<string> {
    Take(Rank(words, Distinct(words)), k)
  }

  /**
   * `most_common(k)` lists `min(k, number of distinct words)` words of the
   * text, each once, by decreasing count with ties in first-occurrence order,
   * and every word it leaves out ranks after all of those it lists.
   */
  lemma MostCommonSpec(words: seq<string>, k: nat)
    ensures var r := MostCommon(words, k);
      && |r| == (if k <= |Distinct(words)| then k else |Distinct(words)|)
      && (forall i :: 0 <= i < |r| ==> r[i] in words)
      && SortedByRank(words, r)
      && NoDup(r)
      && (forall w :: w in words && w !in r ==> forall i :: 0 <= i < |r| ==> RanksBefore(words, r[i], w))
  {
    var s := Rank(words, Distinct(words));
    RankSorted(words, Distinct(words));
    var r := MostCommon(words, k);
    assert r == s[..|r|];
    assert forall i :: 0 <= i < |r| ==> r[i] == s[i];
    assert forall i :: 0 <= i < |r| ==> r[i] in s;
    assert SortedByRank(words, r);
    SortedNoDup(words, r);
    forall w | w in words && w !in r ensures forall i :: 0 <= i < |r| ==> RanksBefore(words, r[i], w) {
      var j :| 0 <= j < |s| && s[j] == w;
      assert j >= |r|;
    }
  }

  lemma MostCommonDistinct(words: seq<string>, k: nat)
    ensures NoDup(MostCommon(words, k))
  {
    MostCommonSpec(words, k);
  }

  // ---------------------------------------------------------------------------
  // The graph
  // ---------------------------------------------------------------------------

  /** An undirected `networkx` graph: nodes in insertion order, each edge the set of its ends. */
  class Graph {
    var nodes: seq<string>
    var edges: set<set<string>>

    /** No node twice, and every edge joins nodes of the graph. */
    predicate Valid()
      reads this
    {
      NoDup(nodes) && forall e, v :: e in edges && v in e ==> v in nodes
    }

    /** `nx.Graph()`. */
    constructor ()
      ensures nodes == [] && edges == {}
      ensures Valid()
    {
      nodes := [];
      edges := {};
    }

    /** `add_node(v)`: a node already present keeps its place. */
    method AddNode(v: string)
      requires Valid()
      modifies this
      ensures nodes == if v in old(nodes) then old(nodes) else old(nodes) + [v]
      ensures edges == old(edges)
      ensures Valid()
    {
      if v !in nodes {
        nodes := nodes + [v];
      }
    }

    /** `add_edge(u, v)`: adds the missing ends, `u` first, then the edge. */
    method AddEdge(u: string, v: string)
      requires Valid()
      modifies this
      ensures var withU := if u in old(nodes) then old(nodes) else old(nodes) + [u];
        nodes == if v in withU then withU else withU + [v]
      ensures edges == old(edges) + {{u, v}}
      ensures Valid()
    {
      if u !in nodes {
        nodes := nodes + [u];
      }
      if v !in nodes {
        nodes := nodes + [v];
      }
      edges := edges + {{u, v}};
    }
  }

  /** The edges of the path through `r` in order: each node joined to the next. */
  function PathEdges(r: seq<string>): set<set<string>> {
    set i | 1 <= i < |r| :: Edge(r, i)
  }

  /** The edge from node `i - 1` to node `i` of the path. */
  function Edge(r: seq<string>, i: nat): set<string>
    requires 1 <= i < |r|
  {
    {r[i - 1], r[i]}
  }

  /** Extending the path by one node adds the edge from the old last node to it. */
  lemma PathEdgesSnoc(r: seq<string>, x: string)
    requires r != []
    ensures PathEdges(r + [x]) == PathEdges(r) + {{r[|r| - 1], x}}
  {
    var s := r + [x];
    forall e | e in PathEdges(s) ensures e in PathEdges(r) + {{r[|r| - 1], x}} {
      var i :| 1 <= i < |s| && e == Edge(s, i);
      if i < |r| {
        assert e == Edge(r, i);
      }
    }
    forall e | e in PathEdges(r) ensures e in PathEdges(s) {
      var i :| 1 <= i < |r| && e == Edge(r, i);
      assert e == Edge(s, i);
    }
    assert Edge(s, |r|) in PathEdges(s);
  }

  /** The ends of every path edge are nodes of the path. */
  lemma PathEdgeEnds(r: seq<string>)
    ensures forall e, v :: e in PathEdges(r) && v in e ==> v in r
  {
    forall e, v | e in PathEdges(r) && v in e ensures v in r {
      var i :| 1 <= i < |r| && e == Edge(r, i);
    }
  }

  /**
   * On nodes that are pairwise different, two nodes are joined exactly when
   * they are next to each other in the path, and no node is joined to itself.
   */
  lemma PathAdjacency(r: seq<string>)
    requires NoDup(r)
    ensures forall i, j :: 0 <= i < |r| && 0 <= j < |r| ==>
              ({r[i], r[j]} in PathEdges(r) <==> i == j + 1 || j == i + 1)
  {
    forall i, j | 0 <= i < |r| && 0 <= j < |r|
      ensures {r[i], r[j]} in PathEdges(r) <==> i == j + 1 || j == i + 1
    {
      if {r[i], r[j]} in PathEdges(r) {
        var k :| 1 <= k < |r| && {r[i], r[j]} == Edge(r, k);
        assert r[i] in {r[k - 1], r[k]} && r[j] in {r[k - 1], r[k]};
        assert r[k - 1] in {r[i], r[j]} && r[k] in {r[i], r[j]};
      }
      if i == j + 1 {
        assert {r[i], r[j]} == Edge(r, i);
      }
      if j == i + 1 {
        assert {r[i], r[j]} == Edge(r, j);
      }
    }
  }

  /** A new node joined to the last one gives an edge the path did not have, and not a loop. */
  lemma NewEdge(p: seq<string>, x: string)
    requires p != [] && x !in p
    ensures {p[|p| - 1], x} !in PathEdges(p)
    ensures |{p[|p| - 1], x}| == 2
  {
    PathEdgeEnds(p);
    var e := {p[|p| - 1], x};
    assert x in e;
    assert e == {p[|p| - 1]} + {x};
  }

  /** A path through `n >= 1` different nodes has `n - 1` edges, none of them a loop. */
  lemma {:induction false} PathEdgeCount(r: seq<string>)
    requires NoDup(r)
    ensures |PathEdges(r)| == if r == [] then 0 else |r| - 1
    ensures forall e :: e in PathEdges(r) ==> |e| == 2
    decreases |r|
  {
    if |r| <= 1 {
      assert PathEdges(r) == {};
    } else {
      var p := r[..|r| - 1];
      var x := r[|r| - 1];
      assert p + [x] == r;
      assert NoDup(p);
      assert x !in p;
      PathEdgeCount(p);
      PathEdgesSnoc(p, x);
      NewEdge(p, x);
    }
  }

  /**
   * `build_knowledge_graph(text, max_nodes)`: adds the most common words one
   * by one, joining each to the one before.
   */
  method BuildKnowledgeGraph(text: string, maxNodes: nat) returns (g: Graph)
    ensures fresh(g) && g.Valid()
    ensures g.nodes == MostCommon(Words(text), maxNodes)
    ensures g.edges == PathEdges(g.nodes)
  {
    var common := MostCommon(Words(text), maxNodes);
    MostCommonDistinct(Words(text), maxNodes);
    g := new Graph();
    for i := 0 to |common|
      invariant g.Valid()
      invariant g.nodes == common[..i]
      invariant g.edges == PathEdges(common[..i])
    {
      PathPrefixStep(common, i);
      g.AddNode(common[i]);
      if i > 0 {
        g.AddEdge(common[i - 1], common[i]);
      }
    }
    assert common[..|common|] == common;
  }

  /** Extending a prefix of a list without repeats by its next word: the word is new, and so is the edge from the word before it. */
  lemma PathPrefixStep(r: seq<string>, i: nat)
    requires NoDup(r) && i < |r|
    ensures r[..i + 1] == r[..i] + [r[i]] && r[i] !in r[..i]
    ensures i == 0 ==> PathEdges(r[..i + 1]) == {}
    ensures i > 0 ==> r[i - 1] in r[..i] && PathEdges(r[..i + 1]) == PathEdges(r[..i]) + {{r[i - 1], r[i]}}
  {
    assert r[..i + 1] == r[..i] + [r[i]];
    if i > 0 {
      assert r[i - 1] == r[..i][i - 1];
      PathEdgesSnoc(r[..i], r[i]);
    }
  }

  // ---------------------------------------------------------------------------
  // Choosing the documents
  // ---------------------------------------------------------------------------

  /** The last position of `c` in `s`, or -1 (`str.rfind`). */
  function RFind(s: string, c: char): (r: int)
    ensures -1 <= r < |s|
    ensures r >= 0 ==> s[r] == c
    ensures forall k :: r < k < |s| ==> s[k] != c
    decreases |s|
  {
    if s == [] then -1
    else if s[|s| - 1] == c then |s| - 1
    else RFind(s[..|s| - 1], c)
  }

  /**
   * `os.path.splitext(p)`: the extension starts at the last dot after the
   * last slash, unless every character before that dot in the final
   * component is a dot (a name such as `.bashrc` has no extension).
   */
  function SplitExt(p: string): (r: (string, string))
    ensures r.0 + r.1 == p
    ensures r.1 == [] || (r.1[0] == '.' && forall k :: 1 <= k < |r.1| ==> r.1[k] != '.' && r.1[k] != '/')
    ensures r.1 != [] ==> exists k :: RFind(p, '/') < k < |r.0| && r.0[k] != '.'
    ensures var sep, dot := RFind(p, '/'), RFind(p, '.');
      if dot > sep && (exists k :: sep < k < dot && p[k] != '.') then r == (p[..dot], p[dot..]) else r == (p, [])
  {
    var sep := RFind(p, '/');
    var dot := RFind(p, '.');
    if dot > sep && exists k :: sep < k < dot && p[k] != '.' then
      assert p[..dot] + p[dot..] == p;
      (p[..dot], p[dot..])
    else (p, [])
  }

  /** `os.path.splitext(filename)[1]`. */
  function Extension(name: string): string {
    SplitExt(name).1
  }

  /** A name with a dot after a non-dot in its last component keeps its extension, in its own case: `report.PDF` gives `.PDF`, which lower-cases to a supported one. */
  lemma ReportExtension()
    ensures Extension("docs/report.PDF") == ".PDF" && Lower(".PDF") == ".pdf"
  {
    var p := "docs/report.PDF";
    var sep, dot := RFind(p, '/'), RFind(p, '.');
    assert p[4] == '/' && forall k :: 4 < k < |p| ==> p[k] != '/';
    assert sep == 4;
    assert p[11] == '.' && forall k :: 11 < k < |p| ==> p[k] != '.';
    assert dot == 11;
    assert p[5] != '.';
    assert p[11..] == ".PDF";
  }

  const SupportedExtensions: set<string> := {".pdf", ".docx", ".txt"}

  /**
   * The text `process_documents` gets for one file: the extractor the
   * lower-cased extension selects, or nothing for an unsupported file.
   */
  function ExtractedText(name: string, pdf: string -> string, docx: string -> string, txt: string -> string): string {
    var ext := Lower(Extension(name));
    if ext == ".pdf" then pdf(name)
    else if ext == ".docx" then docx(name)
    else if ext == ".txt" then txt(name)
    else []
  }

  /**
   * Only a supported extension yields text, and each one yields what its own
   * extractor gives.
   */
  lemma ExtractedSupported(name: string, pdf: string -> string, docx: string -> string, txt: string -> string)
    ensures ExtractedText(name, pdf, docx, txt) != [] ==> Lower(Extension(name)) in SupportedExtensions
    ensures Lower(Extension(name)) == ".pdf" ==> ExtractedText(name, pdf, docx, txt) == pdf(name)
    ensures Lower(Extension(name)) == ".docx" ==> ExtractedText(name, pdf, docx, txt) == docx(name)
    ensures Lower(Extension(name)) == ".txt" ==> ExtractedText(name, pdf, docx, txt) == txt(name)
  {
  }

  /**
   * The `extracted_content` dictionary after the files of `listing`, in
   * listing order, as its (file name, text) items: a file whose extractor
   * gives text is assigned that text.
   */
  function SelectedItems(listing: seq<string>, pdf: string -> string, docx: string -> string, txt: string -> string)
    : seq<(string, string)>
    decreases |listing|
  {
    if listing == [] then []
    else
      var items := SelectedItems(listing[..|listing| - 1], pdf, docx, txt);
      var name := listing[|listing| - 1];
      var text := ExtractedText(name, pdf, docx, txt);
      if text != [] then Assign(items, name, text) else items
  }

  /** Each item's value is its file's extracted text, which is never empty. */
  predicate TextsExtracted(items: seq<(string, string)>, pdf: string -> string, docx: string -> string, txt: string -> string) {
    forall i :: 0 <= i < |items| ==> items[i].1 == ExtractedText(items[i].0, pdf, docx, txt) && items[i].1 != []
  }

  /** Each file's value is its extractor's text, which is never empty. */
  lemma {:induction false} SelectedTexts(listing: seq<string>, pdf: string -> string, docx: string -> string, txt: string -> string)
    ensures TextsExtracted(SelectedItems(listing, pdf, docx, txt), pdf, docx, txt)
    decreases |listing|
  {
    if listing != [] {
      var init := listing[..|listing| - 1];
      var name := listing[|listing| - 1];
      SelectedTexts(init, pdf, docx, txt);
      var items := SelectedItems(init, pdf, docx, txt);
      var text := ExtractedText(name, pdf, docx, txt);
      if text != [] {
        AssignKeepsTexts(items, name, text, pdf, docx, txt);
      }
    }
  }

  /** Assigning a file its non-empty extracted text keeps every value its file's text. */
  lemma AssignKeepsTexts(items: seq<(string, string)>, name: string, text: string, pdf: string -> string, docx: string -> string, txt: string -> string)
    requires TextsExtracted(items, pdf, docx, txt)
    requires text == ExtractedText(name, pdf, docx, txt) && text != []
    ensures TextsExtracted(Assign(items, name, text), pdf, docx, txt)
  {
    var r := Assign(items, name, text);
    var j := IndexOf(Keys(r), name);
    forall i | 0 <= i < |r| ensures r[i].1 == ExtractedText(r[i].0, pdf, docx, txt) && r[i].1 != [] {
      if i != j {
        assert r[i] == items[i];
      }
    }
  }

  /** The listed files whose extractor gives text, in listing order: `[f for f in listing if text(f)]`. */
  function RecordedFiles(listing: seq<string>, pdf: string -> string, docx: string -> string, txt: string -> string)
    : seq<string>
    decreases |listing|
  {
    if listing == [] then []
    else
      var name := listing[|listing| - 1];
      RecordedFiles(listing[..|listing| - 1], pdf, docx, txt) + if ExtractedText(name, pdf, docx, txt) != [] then [name] else []
  }

  /** A file is recorded exactly when it is listed and its extractor gives text. */
  lemma {:induction false} RecordedMembers(listing: seq<string>, pdf: string -> string, docx: string -> string,
                                           txt: string -> string, f: string)
    ensures f in RecordedFiles(listing, pdf, docx, txt) <==> f in listing && ExtractedText(f, pdf, docx, txt) != []
    decreases |listing|
  {
    if listing != [] {
      var init := listing[..|listing| - 1];
      RecordedMembers(init, pdf, docx, txt, f);
      assert listing == init + [listing[|listing| - 1]];
    }
  }

  /**
   * The dictionary's keys are the files with text, each once, in the order
   * they first appear in the listing.
   */
  lemma {:induction false} SelectedOrder(listing: seq<string>, pdf: string -> string, docx: string -> string, txt: string -> string)
    ensures Keys(SelectedItems(listing, pdf, docx, txt)) == Distinct(RecordedFiles(listing, pdf, docx, txt))
    ensures NoDup(Keys(SelectedItems(listing, pdf, docx, txt)))
    ensures FirstOccurrenceOrder(Keys(SelectedItems(listing, pdf, docx, txt)), RecordedFiles(listing, pdf, docx, txt))
    decreases |listing|
  {
    if listing != [] {
      var init := listing[..|listing| - 1];
      var name := listing[|listing| - 1];
      SelectedOrder(init, pdf, docx, txt);
      var items, rec := SelectedItems(init, pdf, docx, txt), RecordedFiles(init, pdf, docx, txt);
      var text := ExtractedText(name, pdf, docx, txt);
      if text != [] {
        var s := rec + [name];
        assert RecordedFiles(listing, pdf, docx, txt) == s;
        assert s[..|s| - 1] == rec;
        assert Distinct(s) == if name in Distinct(rec) then Distinct(rec) else Distinct(rec) + [name];
        assert SelectedItems(listing, pdf, docx, txt) == Assign(items, name, text);
      } else {
        assert RecordedFiles(listing, pdf, docx, txt) == rec;
        assert SelectedItems(listing, pdf, docx, txt) == items;
      }
    }
    DistinctOrder(RecordedFiles(listing, pdf, docx, txt));
  }

  /**
   * A file is a key exactly when it is listed, has a supported extension and
   * its extractor gives text (its value is that text, by `SelectedTexts`).
   */
  lemma SelectedFiles(listing: seq<string>, pdf: string -> string, docx: string -> string, txt: string -> string, f: string)
    ensures f in Keys(SelectedItems(listing, pdf, docx, txt)) <==>
      f in listing && Lower(Extension(f)) in SupportedExtensions && ExtractedText(f, pdf, docx, txt) != []
  {
    SelectedOrder(listing, pdf, docx, txt);
    RecordedMembers(listing, pdf, docx, txt, f);
    ExtractedSupported(f, pdf, docx, txt);
  }

  /** `g` is the knowledge graph of `text`: its `max_nodes` most common words, chained. */
  predicate IsKnowledgeGraph(g: Graph, text: string, maxNodes: nat)
    reads g
  {
    g.Valid() && g.nodes == MostCommon(Words(text), maxNodes) && g.edges == PathEdges(g.nodes)
  }

  /**
   * `process_documents(directory)`: for a missing directory two empty
   * dictionaries (creating the directory is not modelled); otherwise, for
   * each file in listing order whose supported extension gives non-empty
   * text, that text and its knowledge graph, both under the file's name. The
   * content dictionary is returned as its items in insertion order, which is
   * the order `extract_key_concepts` joins its values in.
   */
  method ProcessDocuments(dirExists: bool, listing: seq<string>,
                          pdf: string -> string, docx: string -> string, txt: string -> string)
    returns (content: seq<(string, string)>, graphs: map<string, Graph>)
    ensures !dirExists ==> content == []
    ensures dirExists ==> content == SelectedItems(listing, pdf, docx, txt)
    ensures forall f :: f in graphs <==> f in Keys(content)
    ensures forall f :: f in graphs ==>
              fresh(graphs[f]) && IsKnowledgeGraph(graphs[f], ExtractedText(f, pdf, docx, txt), 10)
  {
    content, graphs := [], map[];
    if !dirExists {
      return;
    }
    for i := 0 to |listing|
      invariant content == SelectedItems(listing[..i], pdf, docx, txt)
      invariant forall f :: f in graphs <==> f in Keys(content)
      invariant forall f :: f in graphs ==>
                  fresh(graphs[f]) && IsKnowledgeGraph(graphs[f], ExtractedText(f, pdf, docx, txt), 10)
    {
      var name := listing[i];
      assert listing[..i + 1][..i] == listing[..i];
      // Unsupported files get no text, so they are skipped like empty ones.
      var text := ExtractedText(name, pdf, docx, txt);
      if text != [] {
        ghost var beforeGraphs := graphs;
        var g := BuildKnowledgeGraph(text, 10);
        content := Assign(content, name, text);
        graphs := graphs[name := g];
        forall f | f in graphs
          ensures fresh(graphs[f]) && IsKnowledgeGraph(graphs[f], ExtractedText(f, pdf, docx, txt), 10)
        {
          if f != name {
            assert graphs[f] == beforeGraphs[f];
          }
        }
      }
    }
    assert listing[..|listing|] == listing;
  }
}
