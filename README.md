# lectorium definition graph, modelled in Dafny

lectorium reads LaTeX lecture notes and extracts their `definition`
environments. It names each definition after its first bold (`\textbf`)
span. Names and texts are reduced to lemmas by an external morphological
service, and the tool draws a graph of which definition refers to which.
The pipeline exists twice:

- `lectorium/core.py` builds a directed graph keyed by name lemma. It keeps
  each lecture's definitions in a set whose identity is the name lemma. An
  edge `a -> b` means every space-separated token of `a`'s name lemma occurs
  in `b`'s text lemma.
- `lectorium/src/parse_utils.py` is an earlier variant. It keeps every
  definition in a list and builds an undirected graph over list positions.
  Its edge `{i, j}` means the whole name lemma of one definition occurs in
  the text lemma of the other.

Files:

- `wrappers.dfy`: `Option` and `Result`.
- `pystr.dfy`: the Python string built-ins the pipeline uses.
  - `x in s` is `IsSubstring`; `s.replace(c, '')` is `RemoveChar`; `s.lower()` is `Lower`.
  - `s.split(' ')` is `Split`; `' '.join` is `Join`; `re.sub(r' +', ' ', s)` is `CollapseSpaces`.
- `document.dfy`: what both source files define identically.
  - The lecture and its `cleaned_text`.
  - The definition environment, as the markup parser hands it over.
  - `clean`, and a definition's `name` and `text`.
- `networkx.dfy`: the parts of `networkx.DiGraph` and `networkx.Graph` that are used.
  - Both are classes with a node map (node to optional `label`) and an edge set.
  - `add_node` and `add_edge` update them in place.
- `core.dfy`: `lectorium/core.py`.
  - Filtered `lemmatize`, and identity by name lemma.
  - The set built from a lecture's definitions.
  - The `contains` loop.
  - The nested loops of `_build_graph`.
- `parse_utils.dfy`: `lectorium/src/parse_utils.py`.
  - Unfiltered `lemmatize` and the definition list.
  - The loops of `graph_html`.

Two collaborators become parameters:

- The markup parser (TexSoup) is `Parser`. It maps the cleaned lecture text
  to its `definition` environments in document order. Each environment is a
  rendered source text plus its rendered bold spans.
- The lemmatizer (Mystem) is `Lemmatizer`. It is any deterministic map from
  a text to a token list.

`names[0]` on a definition without a bold span raises `IndexError`. The
model returns `Err(MissingName)` in that case. In `core.py`, building a
lecture's set already evaluates every name lemma through `__hash__`. A
nameless definition therefore makes `Lecture.definitions`, together with
everything built on it, fail.

`core.py`'s graph is proved to have:

- one node per name lemma of `def_l`;
- each node labelled with the name of the *last* definition that has that
  name lemma, because a later `add_node` overwrites the label;
- exactly the edges `(a.name_lemma, b.name_lemma)`, for every two
  definitions at different positions of `def_l` with `a.contains(b)`;
- both directions tested for every pair `i < j`;
- every edge endpoint a node;
- no self-loop when the name lemmas are distinct, as they are within one
  lecture.

`graph_html`'s graph is proved to have:

- nodes `0 .. n-1`, node `k` labelled with the name of `def_l[k]`;
- a symmetric adjacency, with `{p, q}` present exactly when `p != q` and one
  name lemma occurs in the other's text lemma;
- no self-loop.

Four behaviours of the code are easy to misread:

- A node's label comes from the *last* definition with that name lemma.
  `_build_graph` calls `add_node` for every definition, and a later call
  overwrites the label (lectorium/core.py:115; `Core.LabelOf`,
  `Core.LabelIsLastName`).
- The definition text still contains the name. The doc-comment at
  lectorium/core.py:48 promises the name is removed, but
  lectorium/core.py:49 cleans the whole environment (`Document.Text`).
- `core.py`'s graph can have a self-loop. Two lectures can each define the
  same name lemma. Both definitions then reach `def_l`, and the pair is
  compared like any other. If one contains the other, `add_edge(x, x)` adds a
  self-loop. `Core.Edges` admits this, and `Core.NoSelfLoopWhenDistinct` and
  `Core.SingleLectureNoSelfLoop` state when it cannot happen.
- `clean` keeps only `а-я`, `А-Я` and the space, not every letter
  (lectorium/core.py:85; `Document.CleanChar`).

## Model

| member | source | states |
|---|---|---|
| PyStr.RemoveCharAbsent | lectorium/core.py:20 | `replace(c, '')` leaves a string without `c` unchanged |
| PyStr.RemoveCharOutput | lectorium/core.py:20 | `replace('$', '')` leaves no `'$'` and removes exactly the `'$'` characters |
| PyStr.LowerChar | lectorium/core.py:94 | lowering a character leaves no capital; capitals `А-Я` and `A-Z` map to their small letters at offset 0x20, `Ѐ-Џ` at offset 0x50; other characters stay |
| PyStr.LowerIdempotent | lectorium/core.py:20 | `s.lower().lower() == s.lower()` |
| PyStr.LowerAt | lectorium/core.py:94 | `lower()` keeps the length and lowers each position independently |
| PyStr.SplitPieces | lectorium/core.py:66 | `split(' ')` gives one more piece than there are spaces, and no piece holds a space |
| PyStr.JoinLength | lectorium/src/parse_utils.py:52 | `' '.join(ts)` is empty for no pieces, and otherwise has the characters of every piece plus one space between each two |
| PyStr.JoinSplit | lectorium/core.py:66 | `' '.join(s.split(' ')) == s` for every string |
| PyStr.SplitJoin | lectorium/core.py:89 | `' '.join(ts).split(' ') == ts` for a non-empty list of pieces without spaces |
| PyStr.CollapseOutput | lectorium/core.py:44 | `re.sub(r' +', ' ', s)` has no two adjacent spaces, is no longer than `s`, starts like `s`, keeps every non-space character in order and has one space per run of spaces of `s` |
| PyStr.CollapseRun | lectorium/core.py:44 | a run of one or more spaces becomes a single space |
| PyStr.CollapseConcat | lectorium/core.py:44 | the substitution works run by run: where two strings do not meet inside a run of spaces, their concatenation collapses to the two collapsed strings one after the other |
| PyStr.CollapseFixes | lectorium/core.py:44 | a string without runs of spaces is returned unchanged |
| PyStr.CollapseIdempotent | lectorium/core.py:44 | collapsing runs of spaces twice is the same as once |
| Document.CleanedText | lectorium/core.py:17-20 | `cleaned_text` has no `'$'` and no capital, and, with lowering one character to one as modelled, is shorter than the source by exactly the number of `'$'` (identical at lectorium/src/parse_utils.py:65-68) |
| Document.CleanedTextIdempotent | lectorium/core.py:17-20 | cleaning an already cleaned lecture text changes nothing |
| Document.DropTrashOutput | lectorium/core.py:85 | the substitution with `[^а-яА-Я ]` keeps only `а-я`, `А-Я` and the space, and never lengthens |
| Document.Clean | lectorium/core.py:92-94 | `clean` output holds only `а-я` and the space and is no longer than its input (identical at lectorium/src/parse_utils.py:55-57) |
| Document.CleanChar | lectorium/core.py:85-94 | on one character: a capital `А-Я` becomes its small letter, `а-я` and the space stay, everything else is dropped |
| Document.CleanConcat | lectorium/core.py:92-94 | `clean` works character by character: `clean(a + b) == clean(a) + clean(b)` |
| Document.CleanFixes | lectorium/core.py:92-94 | `clean` leaves a string of `а-я` and spaces unchanged |
| Document.CleanIdempotent | lectorium/core.py:92-94 | `clean(clean(x)) == clean(x)` |
| Document.CollapseKeepsClean | lectorium/core.py:44 | collapsing spaces after `clean` keeps the output within `а-я` and the space |
| Document.Name | lectorium/core.py:43-44 | `name` is defined exactly when the definition has a bold span; otherwise `names[0]` raises (identical at lectorium/src/parse_utils.py:24-25) |
| Document.NameIsClean | lectorium/core.py:43-44 | a name holds only `а-я` and single spaces, with the letters of the cleaned first bold span in order |
| Document.Text | lectorium/core.py:46-49 | a text holds only `а-я` and single spaces, with the letters of the whole cleaned environment in order, name included (identical at lectorium/src/parse_utils.py:30) |
| Networkx.DiGraph.constructor | lectorium/core.py:110 | `DiGraph()` is empty and every edge joins two nodes |
| Networkx.DiGraph.AddNode | lectorium/core.py:115 | `add_node(n, label=name)` creates `n` or overwrites its label, leaves the edges alone and keeps every edge between nodes |
| Networkx.DiGraph.AddEdge | lectorium/core.py:127 | `add_edge(u, v)` adds the edge, creates a missing endpoint without a label and keeps every edge between nodes |
| Networkx.AddEdgeKeepsJoined | lectorium/core.py:127 | after `add_edge` every edge still joins two nodes |
| Networkx.Graph.constructor | lectorium/src/parse_utils.py:98 | `Graph()` is empty, and its adjacency is symmetric and between nodes |
| Networkx.Graph.AddNode | lectorium/src/parse_utils.py:103 | `add_node(i, label=name)` creates `i` or overwrites its label, leaves the adjacency alone and keeps it symmetric and between nodes |
| Networkx.Graph.AddEdge | lectorium/src/parse_utils.py:107 | `add_edge(i, j)` adds `{i, j}` in both orientations, creates a missing endpoint without a label and keeps the adjacency symmetric and between nodes |
| Networkx.AddUndirectedKeepsSymmetric | lectorium/src/parse_utils.py:107 | an undirected `add_edge` keeps the adjacency symmetric |
| Core.AlphaTokensOutput | lectorium/core.py:89 | the filter keeps only tokens satisfying `isalpha`, and never more than the service produced |
| Core.AlphaTokensMembers | lectorium/core.py:89 | a token survives exactly when it is a service token and alphabetic |
| Core.AlphaTokensConcat | lectorium/core.py:89 | the filter keeps the service's order: it distributes over concatenation |
| Core.AlphaTokensKeepsAlpha | lectorium/core.py:89 | a list of alphabetic tokens passes the filter unchanged |
| Core.Lemmatize | lectorium/core.py:88-89 | splitting `lemmatize(text)` on spaces gives exactly the alphabetic service tokens in order; with none, the single empty piece |
| Core.NameLemma | lectorium/core.py:55-57 | `name_lemma` is defined exactly when `name` is |
| Core.TextLemma | lectorium/core.py:51-53 | `text_lemma` never raises, unlike `name_lemma`; splitting it gives back the alphabetic service tokens of the text, or `['']` when there are none |
| Core.Equal | lectorium/core.py:74-75 | `a == b` raises exactly when `a` or `b` has no name, since it evaluates both name lemmas |
| Core.Hash | lectorium/core.py:71-72 | `hash(d)` raises exactly when `d` has no name |
| Core.IdentityIgnoresText | lectorium/core.py:71-75 | definitions with the same first bold span are equal and hash equal, whatever their text |
| Core.EqualConsistent | lectorium/core.py:71-75 | equal definitions hash equal; equality is reflexive, symmetric and transitive on named definitions |
| Core.SetOf | lectorium/core.py:25 | `set(...)` fails exactly when a definition has no name. Otherwise it keeps at most one definition per name lemma, loses no name lemma and is no larger than the input |
| Core.SetOfKeepsFirst | lectorium/core.py:25 | every element kept is the first definition of the lecture with its name lemma |
| Core.SetOfByEqual | lectorium/core.py:25 | the set compares through `__eq__`: no two kept definitions are equal, and every definition of the lecture is equal to one that is kept |
| Core.EnvironmentsOfCleanedText | lectorium/core.py:25-29 | the environments of `find_all('definition')` on `TexSoup(cleaned_text)` depend on the cleaned text alone: the file name and the `$` signs do not change them, and a lecture whose text is already cleaned has the same environments |
| Core.Definitions | lectorium/core.py:22-25 | `Lecture.definitions` raises exactly when an environment has no name. Otherwise no two of its definitions share a name lemma, and it has exactly the name lemmas of the environments |
| Core.SetOfDistinct | lectorium/core.py:25 | with pairwise distinct name lemmas the set keeps every definition, in order |
| Core.DefinitionList | lectorium/core.py:109 | `def_l` is defined exactly when every lecture's definitions have names, and then all of them are named |
| Core.DefinitionListMembers | lectorium/core.py:109 | a definition is in `def_l` exactly when it is in the set of some lecture |
| Core.DefinitionListConcatOk | lectorium/core.py:109 | `def_l` of two runs of lectures one after the other exists exactly when `def_l` of each run does |
| Core.DefinitionListConcat | lectorium/core.py:109 | where `def_l` of two runs of lectures exists, it is the first run's `def_l` followed by the second's, in lecture order |
| Core.ContainsTokens | lectorium/core.py:66-69 | the loop returns true exactly when every piece of `name_lemma.split(' ')` occurs in `text_lemma`; it returns false at the first piece that does not |
| Core.Contains | lectorium/core.py:59-69 | `a.contains(b)` raises exactly when `a` has no name, and otherwise answers the all-tokens test |
| Core.ContainsMeaning | lectorium/core.py:66-69 | `a.contains(b)` holds exactly when every alphabetic service token of `a`'s name occurs in `b`'s text lemma |
| Core.EmptyNameContainsAll | lectorium/core.py:66-69 | a definition whose name lemma is empty contains every definition, since `''.split(' ') == ['']` and `'' in s` |
| Core.ContainsIsRelated | lectorium/core.py:109 | on `def_l` with cached properties, `contains` and the node keys are those of the definitions themselves |
| Core.Edges | lectorium/core.py:112-134 | every edge of the graph joins two node keys |
| Core.EdgeOfPair | lectorium/core.py:116-134 | two distinct positions whose first contains the second give an edge |
| Core.EdgesOfDefinitions | lectorium/core.py:112-134 | the edge set is `(a.name_lemma, b.name_lemma)` for each two definitions of `def_l` at different positions with `a.contains(b)`, and nothing else |
| Core.NoSelfLoopWhenDistinct | lectorium/core.py:116 | pairs are taken at different positions only, so pairwise distinct name lemmas give no self-loop |
| Core.SingleLectureNoSelfLoop | lectorium/core.py:22-25 | the graph of a single lecture has no self-loop, because its set has distinct name lemmas |
| Core.LabelOf | lectorium/core.py:115 | a node has a label exactly when it is a name lemma of `def_l` |
| Core.LabelIsLastName | lectorium/core.py:115 | the label is the name of a definition with that name lemma, and no later definition has it |
| Core.EdgesAfterAllRows | lectorium/core.py:112-134 | the rows `i` of the loops, each testing both directions against every `j > i`, add exactly `Edges` |
| Core.AllRowsNodes | lectorium/core.py:112-134 | after all rows the nodes are exactly the name lemmas, each has the last name as its label, and every edge joins two nodes |
| Core.CompareOne | lectorium/core.py:121-134 | one comparison adds `i -> j` when `i` contains `j` and `j -> i` when `j` contains `i`, creating missing endpoints |
| Core.CompareWithLater | lectorium/core.py:116-134 | the `for j` loop of row `i` leaves the node map and edge set of the row functions `RowNodes` and `RowEdges` |
| Core.AddRow | lectorium/core.py:115-134 | one pass of the `for i` loop, `add_node` of entry `i` and its row, takes the node map and edge set of the first `i` rows to those of the first `i + 1` |
| Core.BuildFromEntries | lectorium/core.py:112-134 | the loops over `def_l` leave the node map and edge set of all rows |
| Core.BuildGraph | lectorium/core.py:107-139 | `_build_graph` fails exactly when a lecture has a nameless definition. Otherwise the graph is new and consistent, its nodes are the name lemmas, each labelled with the last name, and its edges are `Edges` |
| ParseUtils.Lemmatize | lectorium/src/parse_utils.py:51-52 | the variant filters nothing: for every token list the lemma string has the characters of every token plus one space between each two, and when the service returns at least one token and none holds a space, splitting it gives back exactly the service tokens |
| ParseUtils.LemmatizeAgrees | lectorium/src/parse_utils.py:51-52 | on alphabetic service tokens the two `lemmatize` variants agree |
| ParseUtils.NameLemma | lectorium/src/parse_utils.py:36-38 | `name_lemma` is defined exactly when `name` is |
| ParseUtils.TextLemma | lectorium/src/parse_utils.py:32-34 | `text_lemma` never raises; it has the characters of every service token of the text plus the spaces between them, and splits back into those tokens when none holds a space |
| ParseUtils.Definitions | lectorium/src/parse_utils.py:70-73 | `definitions` is the list of environments in document order. For every lemmatizer, the set of lectorium/core.py fails exactly when some definition of this list has no name |
| ParseUtils.ListAndSet | lectorium/src/parse_utils.py:70-73 | the list has no deduplication: where the set of lectorium/core.py exists, it has the list's name lemmas, is no longer, and is the whole list when the name lemmas are distinct |
| ParseUtils.DefinitionList | lectorium/src/parse_utils.py:97 | `def_l` holds every definition of every lecture, and nothing else |
| ParseUtils.DefinitionListConcat | lectorium/src/parse_utils.py:97 | `def_l` of several lectures is their definition lists one after another |
| ParseUtils.Entries | lectorium/src/parse_utils.py:97-103 | evaluating `name` over `def_l` fails exactly when a definition has no name, and otherwise gives one entry per definition |
| ParseUtils.EntriesAt | lectorium/src/parse_utils.py:97-103 | entry `k` holds the name, name lemma and text lemma of `def_l[k]` |
| ParseUtils.Adjacency | lectorium/src/parse_utils.py:104-107 | the adjacency is symmetric, joins positions only and has no self-loop |
| ParseUtils.AdjAfterAllRows | lectorium/src/parse_utils.py:100-107 | the loops over every `i` and every `j != i` add exactly `Adjacency` |
| ParseUtils.AllRowsNodes | lectorium/src/parse_utils.py:100-107 | after the loops the nodes are exactly `0 .. n-1` and node `k` is labelled with the name of definition `k` |
| ParseUtils.MentionOne | lectorium/src/parse_utils.py:105-107 | step `j` of row `i` adds `{i, j}` exactly when `i != j` and `i`'s name lemma occurs in `j`'s text lemma |
| ParseUtils.CompareWithAll | lectorium/src/parse_utils.py:104-107 | the inner loop of row `i` leaves the node map and adjacency of the row functions `RowNodes` and `RowAdj` |
| ParseUtils.AddRow | lectorium/src/parse_utils.py:103-107 | one pass of the outer loop, `add_node(i)` and its row, takes the node map and adjacency of the first `i` rows to those of the first `i + 1` |
| ParseUtils.BuildFromEntries | lectorium/src/parse_utils.py:100-107 | the loops leave the node map and adjacency of all rows |
| ParseUtils.GraphHtml | lectorium/src/parse_utils.py:96-107 | `graph_html` fails exactly when a definition has no name. Otherwise the graph is new, symmetric and between nodes, node `k` carries the name of `def_l[k]`, and its adjacency is `Adjacency` |
| ParseUtils.AdjacencyOfDefinitions | lectorium/src/parse_utils.py:104-107 | `{p, q}` is an edge exactly when `p` and `q` are distinct positions of `def_l` and the name lemma of one occurs in the text lemma of the other |
| ParseUtils.LabelsOfDefinitions | lectorium/src/parse_utils.py:103 | node `k` is labelled with the name of `def_l[k]` |

## Left out

- The markup parser (TexSoup) is the `Parser` parameter. The rendering `str(soap)` of an environment and of a bold span is taken as given.
- The lemmatizer (Mystem) is the `Lemmatizer` parameter. No morphology is specified.
- `str.lower()` is modelled for basic Latin and basic Cyrillic only: every other capital is left unchanged, and each character lowers to exactly one character. Python's `lower()` also lowers other capitals, and a few of them to two code points (`'İ'.lower()`), so `Document.CleanedText`'s exact length holds only for the modelled characters. `str.isalpha()` is modelled for ASCII and Cyrillic letters only. The full Unicode tables are not part of this model.
- ParseUtils.Lemmatize: when a service token holds a space (Mystem returns `' '` tokens between words), the split of the lemma string is not characterised; only its length is.
- `str.__hash__` is the parameter `h` of `Core.Hash`.
- Python's set iteration order depends on string hashes. The model iterates a set in first-insertion order.
- The web service is not part of this model: lectorium/src/main.py, main.py, the storage modules, lectorium/views.py and the async file reading of `parse_lecture_from`. They are I/O, persistence and network.
- `get_graph_settings` is an unused constant of rendering options and is not modelled.
- The pyvis `Network` rendering, the HTML file `graph_html` saves, and its return value `'/index'` are left out. `ParseUtils.GraphHtml` returns the graph that would be rendered.
- The `print` output of `DefinitionsGraph.__init__` and `_build_graph` is left out.
- The `length=220` edge attribute is left out.
- The `DefinitionsGraph` wrapper object is left out. It only stores the result of `_build_graph`, modelled by `Core.BuildGraph`.
- `cached_property` memoization is left out; it does not change values.
- `__str__` and `__repr__` are left out.
- Core.Contains: the loop is modelled once, in `Core.ContainsTokens` on the cached lemmas. `Core.CompareOne` calls it directly with cached `name_lemma` and `text_lemma`.
- Core.BuildGraph: it checks names before the loops. In the source, a nameless definition raises inside `Lecture.definitions` before any node is added, so the outcome is the same.
- ParseUtils.GraphHtml: it checks every name before the loops. The source raises at `add_node` of the first nameless definition, part-way through the loops. The partly built graph is local and is lost with the exception, so only the outcome is modelled, not the point of failure.
