/**
 * The earlier variant of the pipeline, lectorium/src/parse_utils.py: lemmas
 * keep every service token, definitions stay a list in document order, a name
 * lemma is looked up whole in the other text lemma, and `graph_html` builds an
 * undirected graph whose nodes are the positions in the definition list.
 */
module ParseUtils {
  import opened Wrappers
  import opened PyStr
  import opened Document
  import opened Networkx
  import Core

  // ---------------------------------------------------------------- lemmatize

  /** The service returned at least one token, and none holds a space. */
  predicate SpaceFreeTokens(ts: seq<string>)
  {
    ts != [] && forall k :: 0 <= k < |ts| ==> ' ' !in ts[k]
  }

  /**
   * `lemmatize(text)` of this variant: every service token, joined by single
   * spaces. Nothing is filtered: the lemma string has the characters of every
   * token plus one space between each two, and when the service returns at
   * least one token and none holds a space, splitting it gives the tokens back.
   */
  function Lemmatize(m: Lemmatizer, text: string): (r: string)
    ensures m(text) == [] ==> r == ""
    ensures m(text) != [] ==> |r| == TotalLength(m(text)) + |m(text)| - 1
    ensures SpaceFreeTokens(m(text)) ==> Split(r) == m(text)
  {
    JoinLength(m(text));
    if SpaceFreeTokens(m(text)) then SplitJoin(m(text)); Join(m(text)) else Join(m(text))
  }

  /** On alphabetic tokens only, the two variants of `lemmatize` agree. */
  lemma {:induction false} LemmatizeAgrees(m: Lemmatizer, text: string)
    requires forall k :: 0 <= k < |m(text)| ==> Core.IsAlpha(m(text)[k])
    ensures Lemmatize(m, text) == Core.Lemmatize(m, text)
  {
    Core.AlphaTokensKeepsAlpha(m(text));
  }

  // ---------------------------------------------------------------- definitions

  /** `Definition.name_lemma`; raises, like `name`, without a bold span. */
  function NameLemma(m: Lemmatizer, d: Definition): (r: Result<string, Error>)
    ensures r.Ok? <==> HasName(d)
  {
    match Name(d)
    case Err(e) => Err(e)
    case Ok(n) => Ok(Lemmatize(m, n))
  }

  /**
   * `Definition.text_lemma`: never raises. It has the characters of every service
   * token of the text plus the spaces between them, and splits back into those
   * tokens when none holds a space.
   */
  function TextLemma(m: Lemmatizer, d: Definition): (r: string)
    ensures m(Text(d)) != [] ==> |r| == TotalLength(m(Text(d))) + |m(Text(d))| - 1
    ensures SpaceFreeTokens(m(Text(d))) ==> Split(r) == m(Text(d))
  {
    Lemmatize(m, Text(d))
  }

  /**
   * `Lecture.definitions`: a list of every definition environment, in document
   * order. Whatever the lemmatizer, core.py's set of the same lecture raises
   * exactly when some definition of this list has no name.
   */
  function Definitions(parse: Parser, lecture: Lecture): (r: seq<Definition>)
    ensures forall m: Lemmatizer :: Core.Definitions(m, parse, lecture).Ok? <==> AllNamed(r)
  {
    parse(CleanedText(lecture))
  }

  /**
   * The list holds the same definitions as the set of lectorium/core.py, minus
   * the repetitions: where the set exists it has the same name lemmas, is no
   * longer, and is the whole list when no two definitions share a name lemma.
   */
  lemma {:induction false} ListAndSet(m: Lemmatizer, parse: Parser, lecture: Lecture)
    ensures Core.Definitions(m, parse, lecture).Ok? ==>
      var list, kept := Definitions(parse, lecture), Core.Definitions(m, parse, lecture).value;
      && |kept| <= |list|
      && Core.KeysOf(m, kept) == Core.KeysOf(m, list)
      && (Core.DistinctKeys(m, list) ==> kept == list)
  {
    var list := Definitions(parse, lecture);
    if AllNamed(list) && Core.DistinctKeys(m, list) {
      Core.SetOfDistinct(m, list);
    }
  }

  /** `[definition for lecture in lectures for definition in lecture.definitions]`. */
  function DefinitionList(parse: Parser, lectures: seq<Lecture>): (r: seq<Definition>)
    ensures forall i, d :: 0 <= i < |lectures| && d in Definitions(parse, lectures[i]) ==> d in r
    ensures forall d :: d in r ==> exists i :: 0 <= i < |lectures| && d in Definitions(parse, lectures[i])
  {
    if lectures == [] then []
    else
      var rest := DefinitionList(parse, lectures[1..]);
      assert forall i :: 1 <= i < |lectures| ==> lectures[1..][i - 1] == lectures[i];
      Definitions(parse, lectures[0]) + rest
  }

  /** The list of several lectures is the lists of the single lectures, one after the other. */
  lemma {:induction false} DefinitionListConcat(parse: Parser, a: seq<Lecture>, b: seq<Lecture>)
    ensures DefinitionList(parse, a + b) == DefinitionList(parse, a) + DefinitionList(parse, b)
  {
    if a == [] {
      assert a + b == b;
    } else {
      assert (a + b)[1..] == a[1..] + b;
      DefinitionListConcat(parse, a[1..], b);
    }
  }

  /** The definitions of `def_l` with their cached properties; fails when one has no name. */
  function Entries(m: Lemmatizer, defs: seq<Definition>): (r: Result<seq<Core.Entry>, Error>)
    ensures r.Ok? <==> AllNamed(defs)
    ensures r.Ok? ==> |r.value| == |defs|
  {
    if defs == [] then Ok([])
    else
      match Name(defs[0])
      case Err(e) => Err(e)
      case Ok(n) =>
        match Entries(m, defs[1..])
        case Err(e) => assert !AllNamed(defs[1..]); Err(e)
        case Ok(rest) =>
          assert forall k :: 1 <= k < |defs| ==> defs[k] == defs[1..][k - 1];
          Ok([Core.Entry(n, Lemmatize(m, n), TextLemma(m, defs[0]))] + rest)
  }

  /** Entry `k` holds the name, name lemma and text lemma of definition `k`. */
  lemma {:induction false} EntriesAt(m: Lemmatizer, defs: seq<Definition>, k: int)
    requires AllNamed(defs) && 0 <= k < |defs|
    ensures Entries(m, defs).value[k] == Core.Entry(Name(defs[k]).value, NameLemma(m, defs[k]).value, TextLemma(m, defs[k]))
  {
    if k > 0 {
      assert AllNamed(defs[1..]);
      EntriesAt(m, defs[1..], k - 1);
    }
  }

  // ---------------------------------------------------------------- graph

  /** `cur_definition.name_lemma in definition.text_lemma` on evaluated definitions. */
  predicate Mentions(a: Core.Entry, b: Core.Entry)
  {
    IsSubstring(a.nameLemma, b.textLemma)
  }

  /** `rel` answers `Mentions` on entries `p` and `q`. */
  predicate MentionsAt(es: seq<Core.Entry>, rel: Core.Relation, p: int, q: int)
    requires 0 <= p < |es| && 0 <= q < |es|
  {
    rel(es[p], es[q]) == IsSubstring(es[p].nameLemma, es[q].textLemma)
  }

  /** `rel` answers `Mentions` on every two entries. */
  predicate DecidesMentions(es: seq<Core.Entry>, rel: Core.Relation)
  {
    forall p, q :: 0 <= p < |es| && 0 <= q < |es| ==> MentionsAt(es, rel, p, q)
  }

  /** Node `k` for every position, labelled with the name of definition `k`. */
  function NameLabels(es: seq<Core.Entry>): map<int, Option<string>>
  {
    map k | 0 <= k < |es| :: Some(es[k].name)
  }

  /**
   * The adjacency of the graph: `{p, q}` for every two distinct positions where
   * one name lemma occurs in the other's text lemma; it is symmetric, joins
   * positions only and has no self-loop.
   */
  function Adjacency(es: seq<Core.Entry>, rel: Core.Relation): (r: set<(int, int)>)
    ensures forall e :: e in r ==> 0 <= e.0 < |es| && 0 <= e.1 < |es| && e.0 != e.1
    ensures Symmetric(r)
  {
    var r := set p, q | 0 <= p < |es| && 0 <= q < |es| && p != q && (rel(es[p], es[q]) || rel(es[q], es[p])) :: (p, q);
    assert forall e :: e in r ==> (e.1, e.0) in r by {
      forall e | e in r ensures (e.1, e.0) in r {
        var p, q :| 0 <= p < |es| && 0 <= q < |es| && p != q && (rel(es[p], es[q]) || rel(es[q], es[p])) && e == (p, q);
        assert (q, p) in r;
      }
    }
    r
  }

  /** The edge `add_edge(i, j)` adds, both ways, when `i != j` and `i` is mentioned in `j`. */
  function PairAdj(es: seq<Core.Entry>, rel: Core.Relation, i: int, j: int): set<(int, int)>
    requires 0 <= i < |es| && 0 <= j < |es|
  {
    if i != j && rel(es[i], es[j]) then {(i, j), (j, i)} else {}
  }

  /** The adjacency the `for j` loop of row `i` adds before it reaches `j`. */
  function RowAdj(es: seq<Core.Entry>, rel: Core.Relation, i: int, j: int): set<(int, int)>
    requires 0 <= i < |es| && 0 <= j <= |es|
    decreases j
  {
    if j == 0 then {} else RowAdj(es, rel, i, j - 1) + PairAdj(es, rel, i, j - 1)
  }

  /** The adjacency the first `i` rows of `graph_html` add. */
  function AdjAfterRows(es: seq<Core.Entry>, rel: Core.Relation, i: int): set<(int, int)>
    requires 0 <= i <= |es|
  {
    if i == 0 then {} else AdjAfterRows(es, rel, i - 1) + RowAdj(es, rel, i - 1, |es|)
  }

  lemma {:induction false} RowAdjKept(es: seq<Core.Entry>, rel: Core.Relation, i: int, j: int, k: int, e: (int, int))
    requires 0 <= i < |es| && 0 <= j <= k <= |es| && e in RowAdj(es, rel, i, j)
    ensures e in RowAdj(es, rel, i, k)
    decreases k
  {
    if k > j {
      RowAdjKept(es, rel, i, j, k - 1, e);
    }
  }

  lemma {:induction false} AdjKept(es: seq<Core.Entry>, rel: Core.Relation, i: int, k: int, e: (int, int))
    requires 0 <= i <= k <= |es| && e in AdjAfterRows(es, rel, i)
    ensures e in AdjAfterRows(es, rel, k)
    decreases k
  {
    if k > i {
      AdjKept(es, rel, i, k - 1, e);
    }
  }

  /** Every edge a row adds joins two distinct positions, the first mentioned in the second. */
  lemma {:induction false} RowAdjSource(es: seq<Core.Entry>, rel: Core.Relation, i: int, j: int, e: (int, int))
    returns (p: int, q: int)
    requires 0 <= i < |es| && 0 <= j <= |es| && e in RowAdj(es, rel, i, j)
    ensures 0 <= p < |es| && 0 <= q < |es| && p != q && rel(es[p], es[q])
    ensures e == (p, q) || e == (q, p)
    decreases j
  {
    if e in RowAdj(es, rel, i, j - 1) {
      p, q := RowAdjSource(es, rel, i, j - 1, e);
    } else {
      p, q := i, j - 1;
    }
  }

  lemma {:induction false} AdjSource(es: seq<Core.Entry>, rel: Core.Relation, k: int, e: (int, int))
    returns (p: int, q: int)
    requires 0 <= k <= |es| && e in AdjAfterRows(es, rel, k)
    ensures 0 <= p < |es| && 0 <= q < |es| && p != q && rel(es[p], es[q])
    ensures e == (p, q) || e == (q, p)
  {
    if e in AdjAfterRows(es, rel, k - 1) {
      p, q := AdjSource(es, rel, k - 1, e);
    } else {
      p, q := RowAdjSource(es, rel, k - 1, |es|, e);
    }
  }

  /** The edge of two distinct positions, the first mentioned in the second, is added in row `p`. */
  lemma {:induction false} AdjAdded(es: seq<Core.Entry>, rel: Core.Relation, p: int, q: int)
    requires 0 <= p < |es| && 0 <= q < |es| && p != q && rel(es[p], es[q])
    ensures (p, q) in AdjAfterRows(es, rel, |es|) && (q, p) in AdjAfterRows(es, rel, |es|)
  {
    assert PairAdj(es, rel, p, q) == {(p, q), (q, p)};
    assert (p, q) in RowAdj(es, rel, p, q + 1) && (q, p) in RowAdj(es, rel, p, q + 1);
    RowAdjKept(es, rel, p, q + 1, |es|, (p, q));
    RowAdjKept(es, rel, p, q + 1, |es|, (q, p));
    assert (p, q) in AdjAfterRows(es, rel, p + 1) && (q, p) in AdjAfterRows(es, rel, p + 1);
    AdjKept(es, rel, p + 1, |es|, (p, q));
    AdjKept(es, rel, p + 1, |es|, (q, p));
  }

  /** The rows of `graph_html` together add exactly `Adjacency`. */
  lemma {:induction false} AdjAfterAllRows(es: seq<Core.Entry>, rel: Core.Relation)
    ensures AdjAfterRows(es, rel, |es|) == Adjacency(es, rel)
  {
    forall e | e in AdjAfterRows(es, rel, |es|) ensures e in Adjacency(es, rel) {
      var p, q := AdjSource(es, rel, |es|, e);
      assert (p, q) in Adjacency(es, rel) && (q, p) in Adjacency(es, rel);
    }
    forall e | e in Adjacency(es, rel) ensures e in AdjAfterRows(es, rel, |es|) {
      var p, q :| 0 <= p < |es| && 0 <= q < |es| && p != q && (rel(es[p], es[q]) || rel(es[q], es[p])) && e == (p, q);
      if rel(es[p], es[q]) {
        AdjAdded(es, rel, p, q);
      } else {
        AdjAdded(es, rel, q, p);
      }
    }
  }

  /** The node map after step `j` of row `i`: `add_edge(i, j)` creates `j` without a label if need be. */
  function StepNodes(nodes: map<int, Option<string>>, es: seq<Core.Entry>, rel: Core.Relation, i: int, j: int): map<int, Option<string>>
    requires 0 <= i < |es| && 0 <= j < |es|
  {
    if i != j && rel(es[i], es[j]) then EnsureNode(EnsureNode(nodes, i), j) else nodes
  }

  /** The node map the `for j` loop of row `i` leaves once it reaches `j`, from `nodes` at its start. */
  function RowNodes(nodes: map<int, Option<string>>, es: seq<Core.Entry>, rel: Core.Relation, i: int, j: int): map<int, Option<string>>
    requires 0 <= i < |es| && 0 <= j <= |es|
    decreases j
  {
    if j == 0 then nodes else StepNodes(RowNodes(nodes, es, rel, i, j - 1), es, rel, i, j - 1)
  }

  /** The node map after the first `i` rows: `add_node(i - 1, label=name)`, then its row. */
  function NodesAfterRows(es: seq<Core.Entry>, rel: Core.Relation, i: int): map<int, Option<string>>
    requires 0 <= i <= |es|
  {
    if i == 0 then map[]
    else RowNodes(NodesAfterRows(es, rel, i - 1)[i - 1 := Some(es[i - 1].name)], es, rel, i - 1, |es|)
  }

  /** The first `count` positions are nodes labelled with their names, and every node is a position. */
  ghost predicate Labelled(nodes: map<int, Option<string>>, es: seq<Core.Entry>, count: int)
    requires 0 <= count <= |es|
  {
    && (forall k :: 0 <= k < count ==> k in nodes && nodes[k] == Some(es[k].name))
    && (forall k :: k in nodes ==> 0 <= k < |es|)
  }

  /** A step of row `i` keeps the labels: it can only create a later position, without a label. */
  lemma {:induction false} StepNodesKeepLabels(nodes: map<int, Option<string>>, es: seq<Core.Entry>, rel: Core.Relation, i: int, j: int)
    requires 0 <= i < |es| && 0 <= j < |es| && Labelled(nodes, es, i + 1)
    ensures Labelled(StepNodes(nodes, es, rel, i, j), es, i + 1)
  {
    assert i in nodes && EnsureNode(nodes, i) == nodes;
    assert j !in nodes ==> j > i;
  }

  lemma {:induction false} RowNodesKeepLabels(nodes: map<int, Option<string>>, es: seq<Core.Entry>, rel: Core.Relation, i: int, j: int)
    requires 0 <= i < |es| && 0 <= j <= |es| && Labelled(nodes, es, i + 1)
    ensures Labelled(RowNodes(nodes, es, rel, i, j), es, i + 1)
    decreases j
  {
    if j > 0 {
      RowNodesKeepLabels(nodes, es, rel, i, j - 1);
      StepNodesKeepLabels(RowNodes(nodes, es, rel, i, j - 1), es, rel, i, j - 1);
    }
  }

  lemma {:induction false} NodesAfterRowsLabels(es: seq<Core.Entry>, rel: Core.Relation, i: int)
    requires 0 <= i <= |es|
    ensures Labelled(NodesAfterRows(es, rel, i), es, i)
  {
    if i > 0 {
      NodesAfterRowsLabels(es, rel, i - 1);
      var added := NodesAfterRows(es, rel, i - 1)[i - 1 := Some(es[i - 1].name)];
      assert Labelled(added, es, i);
      RowNodesKeepLabels(added, es, rel, i - 1, |es|);
    }
  }

  /** After every row, node `k` exists for each position `k` and carries the name of definition `k`. */
  lemma {:induction false} AllRowsNodes(es: seq<Core.Entry>, rel: Core.Relation)
    ensures NodesAfterRows(es, rel, |es|) == NameLabels(es)
  {
    NodesAfterRowsLabels(es, rel, |es|);
    var nodes := NodesAfterRows(es, rel, |es|);
    assert nodes.Keys == NameLabels(es).Keys;
  }

  /** Step `j` of the inner loop for definition `i`: `add_edge(i, j)` when `i != j` and `i` is mentioned in `j`. */
  method MentionOne(graph: Graph, es: seq<Core.Entry>, rel: Core.Relation, i: int, j: int)
    requires 0 <= i < |es| && 0 <= j < |es| && DecidesMentions(es, rel)
    modifies graph
    ensures graph.nodes == StepNodes(old(graph.nodes), es, rel, i, j)
    ensures graph.adj == old(graph.adj) + PairAdj(es, rel, i, j)
  {
    if i != j {
      assert MentionsAt(es, rel, i, j);
      if IsSubstring(es[i].nameLemma, es[j].textLemma) {
        graph.AddEdge(i, j);
      }
    }
  }

  /** The inner loop of `graph_html` for definition `i`, over every position `j`. */
  method CompareWithAll(graph: Graph, es: seq<Core.Entry>, rel: Core.Relation, i: int)
    requires 0 <= i < |es| && DecidesMentions(es, rel)
    modifies graph
    ensures graph.nodes == RowNodes(old(graph.nodes), es, rel, i, |es|)
    ensures graph.adj == old(graph.adj) + RowAdj(es, rel, i, |es|)
  {
    var j := 0;
    while j < |es|
      invariant 0 <= j <= |es|
      invariant graph.nodes == RowNodes(old(graph.nodes), es, rel, i, j)
      invariant graph.adj == old(graph.adj) + RowAdj(es, rel, i, j)
    {
      MentionOne(graph, es, rel, i, j);
      j := j + 1;
    }
  }

  /** The loops of `graph_html` over `def_l`, given with its cached properties. */
  method BuildFromEntries(es: seq<Core.Entry>, rel: Core.Relation) returns (graph: Graph)
    requires DecidesMentions(es, rel)
    ensures fresh(graph)
    ensures graph.nodes == NodesAfterRows(es, rel, |es|)
    ensures graph.adj == AdjAfterRows(es, rel, |es|)
  {
    graph := new Graph();
    var i := 0;
    while i < |es|
      invariant 0 <= i <= |es|
      invariant graph.nodes == NodesAfterRows(es, rel, i)
      invariant graph.adj == AdjAfterRows(es, rel, i)
    {
      AddRow(graph, es, rel, i);
      i := i + 1;
    }
  }

  /** Row `i` of `graph_html`: `add_node(i)`, then its comparisons with every entry. */
  method AddRow(graph: Graph, es: seq<Core.Entry>, rel: Core.Relation, i: int)
    requires 0 <= i < |es| && DecidesMentions(es, rel)
    requires graph.nodes == NodesAfterRows(es, rel, i) && graph.adj == AdjAfterRows(es, rel, i)
    modifies graph
    ensures graph.nodes == NodesAfterRows(es, rel, i + 1)
    ensures graph.adj == AdjAfterRows(es, rel, i + 1)
  {
    graph.AddNode(i, es[i].name);
    CompareWithAll(graph, es, rel, i);
  }

  /**
   * The graph `graph_html(lectures)` renders: node `k` for each definition of
   * `def_l`, labelled with its name, and the undirected edge `{p, q}` where one
   * name lemma occurs in the other's text lemma; fails when a definition has no name.
   */
  method GraphHtml(m: Lemmatizer, parse: Parser, lectures: seq<Lecture>) returns (r: Result<Graph, Error>)
    ensures r.Err? <==> !AllNamed(DefinitionList(parse, lectures))
    ensures r.Ok? ==> fresh(r.value) && r.value.Valid()
    ensures r.Ok? ==> var es := Entries(m, DefinitionList(parse, lectures)).value;
      r.value.nodes == NameLabels(es) && r.value.adj == Adjacency(es, Mentions)
  {
    var defs := DefinitionList(parse, lectures);
    var entries := Entries(m, defs);
    if entries.Err? {
      return Err(entries.error);
    }
    var es := entries.value;
    assert DecidesMentions(es, Mentions);
    var graph := BuildFromEntries(es, Mentions);
    AllRowsNodes(es, Mentions);
    AdjAfterAllRows(es, Mentions);
    return Ok(graph);
  }

  /** `{p, q}` is adjacent exactly when `p` and `q` are distinct positions and one mentions the other. */
  lemma {:induction false} AdjacencyAt(es: seq<Core.Entry>, p: int, q: int)
    ensures (p, q) in Adjacency(es, Mentions) <==>
      && 0 <= p < |es| && 0 <= q < |es| && p != q
      && (Mentions(es[p], es[q]) || Mentions(es[q], es[p]))
  {
  }

  /**
   * The edges stated on the definitions: `{p, q}` is an edge exactly when `p` and
   * `q` are distinct positions of `def_l` and the name lemma of one occurs in the
   * text lemma of the other.
   */
  lemma {:induction false} AdjacencyOfDefinitions(m: Lemmatizer, defs: seq<Definition>, p: int, q: int)
    requires AllNamed(defs)
    ensures (p, q) in Adjacency(Entries(m, defs).value, Mentions) <==>
      && 0 <= p < |defs| && 0 <= q < |defs| && p != q
      && (IsSubstring(NameLemma(m, defs[p]).value, TextLemma(m, defs[q]))
          || IsSubstring(NameLemma(m, defs[q]).value, TextLemma(m, defs[p])))
  {
    var es := Entries(m, defs).value;
    AdjacencyAt(es, p, q);
    if 0 <= p < |defs| && 0 <= q < |defs| {
      EntriesAt(m, defs, p);
      EntriesAt(m, defs, q);
    }
  }

  /** Node `k` is labelled with the name of definition `k`. */
  lemma {:induction false} LabelsOfDefinitions(m: Lemmatizer, defs: seq<Definition>, k: int)
    requires AllNamed(defs) && 0 <= k < |defs|
    ensures NameLabels(Entries(m, defs).value)[k] == Some(Name(defs[k]).value)
  {
    EntriesAt(m, defs, k);
  }
}
