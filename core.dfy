/**
 * The pipeline of lectorium/core.py: lemmas filtered to alphabetic tokens,
 * definitions identified by their lemmatized name and kept in a set, the
 * all-tokens containment test and the directed graph keyed by name lemma.
 */
module Core {
  import opened Wrappers
  import opened PyStr
  import opened Document
  import opened Networkx

  // ---------------------------------------------------------------- lemmatize

  /** The letters `str.isalpha()` is modelled on: ASCII and Cyrillic letters. */
  predicate IsAlphaChar(c: char)
  {
    'A' <= c <= 'Z' || 'a' <= c <= 'z' || 'Ѐ' <= c <= '\U{0481}' || '\U{048A}' <= c <= '\U{052F}'
  }

  /** `t.isalpha()`: non-empty and letters only. */
  predicate IsAlpha(t: string)
  {
    |t| > 0 && forall k :: 0 <= k < |t| ==> IsAlphaChar(t[k])
  }

  /** `[token for token in ts if str(token).isalpha()]`. */
  function AlphaTokens(ts: seq<string>): seq<string>
  {
    if ts == [] then [] else (if IsAlpha(ts[0]) then [ts[0]] else []) + AlphaTokens(ts[1..])
  }

  /** Only alphabetic tokens remain, and never more than the service produced. */
  lemma {:induction false} AlphaTokensOutput(ts: seq<string>)
    ensures |AlphaTokens(ts)| <= |ts|
    ensures forall k :: 0 <= k < |AlphaTokens(ts)| ==> IsAlpha(AlphaTokens(ts)[k])
  {
    if ts != [] {
      AlphaTokensOutput(ts[1..]);
    }
  }

  /** The filter works token by token and keeps the order: it distributes over concatenation. */
  lemma {:induction false} AlphaTokensConcat(a: seq<string>, b: seq<string>)
    ensures AlphaTokens(a + b) == AlphaTokens(a) + AlphaTokens(b)
  {
    if a == [] {
      assert a + b == b;
    } else {
      assert (a + b)[1..] == a[1..] + b;
      AlphaTokensConcat(a[1..], b);
    }
  }

  /** A token survives the filter exactly when it is a service token that is alphabetic. */
  lemma {:induction false} AlphaTokensMembers(ts: seq<string>, t: string)
    ensures t in AlphaTokens(ts) <==> t in ts && IsAlpha(t)
  {
    if ts != [] {
      AlphaTokensMembers(ts[1..], t);
      assert ts == [ts[0]] + ts[1..];
    }
  }

  /** A list of alphabetic tokens passes the filter unchanged. */
  lemma {:induction false} AlphaTokensKeepsAlpha(ts: seq<string>)
    requires forall k :: 0 <= k < |ts| ==> IsAlpha(ts[k])
    ensures AlphaTokens(ts) == ts
  {
    if ts != [] {
      AlphaTokensKeepsAlpha(ts[1..]);
      assert ts == [ts[0]] + ts[1..];
    }
  }

  /**
   * `lemmatize(text)`: the service's alphabetic tokens joined by single spaces.
   * Splitting it on spaces gives back exactly those tokens, in the service's
   * order; with none, it gives the single empty piece of `''.split(' ')`.
   */
  function Lemmatize(m: Lemmatizer, text: string): (r: string)
    ensures Split(r) == if AlphaTokens(m(text)) == [] then [""] else AlphaTokens(m(text))
  {
    var toks := AlphaTokens(m(text));
    AlphaTokensOutput(m(text));
    if toks == [] then "" else SplitJoin(toks); Join(toks)
  }

  // ---------------------------------------------------------------- definitions

  /** `Definition.name_lemma`; raises, like `name`, without a bold span. */
  function NameLemma(m: Lemmatizer, d: Definition): (r: Result<string, Error>)
    ensures r.Ok? <==> HasName(d)
  {
    match Name(d)
    case Err(e) => Err(e)
    case Ok(n) => Ok(Lemmatize(m, n))
  }

  /**
   * `Definition.text_lemma`: never raises, unlike `name_lemma`; splitting it gives
   * back the alphabetic service tokens of the text, or `['']` when there are none.
   */
  function TextLemma(m: Lemmatizer, d: Definition): (r: string)
    ensures Split(r) == if AlphaTokens(m(Text(d))) == [] then [""] else AlphaTokens(m(Text(d)))
  {
    Lemmatize(m, Text(d))
  }

  /** The identity of a named definition: its `name_lemma`. */
  function Key(m: Lemmatizer, d: Definition): string
    requires HasName(d)
  {
    NameLemma(m, d).value
  }

  /**
   * `a == b` (`Definition.__eq__`): compares the name lemmas, evaluating `a`'s
   * first; raises exactly when one of the two has no name.
   */
  function Equal(m: Lemmatizer, a: Definition, b: Definition): (r: Result<bool, Error>)
    ensures r.Ok? <==> HasName(a) && HasName(b)
  {
    if !HasName(a) || !HasName(b) then Err(MissingName) else Ok(Key(m, a) == Key(m, b))
  }

  /** `hash(d)` (`Definition.__hash__`): the string hash `h` of the name lemma; raises exactly without a name. */
  function Hash(h: string -> int, m: Lemmatizer, d: Definition): (r: Result<int, Error>)
    ensures r.Ok? <==> HasName(d)
  {
    if !HasName(d) then Err(MissingName) else Ok(h(Key(m, d)))
  }

  /** Identity ignores the text: definitions with the same first bold span are equal and hash equal. */
  lemma {:induction false} IdentityIgnoresText(h: string -> int, m: Lemmatizer, a: Definition, b: Definition)
    requires HasName(a) && HasName(b) && a.bold[0] == b.bold[0]
    ensures Equal(m, a, b) == Ok(true)
    ensures Hash(h, m, a) == Hash(h, m, b)
  {
  }

  /** Equal definitions hash equal, and equality is an equivalence on named definitions. */
  lemma {:induction false} EqualConsistent(h: string -> int, m: Lemmatizer, a: Definition, b: Definition, c: Definition)
    ensures Equal(m, a, b) == Ok(true) ==> Hash(h, m, a) == Hash(h, m, b)
    ensures HasName(a) ==> Equal(m, a, a) == Ok(true)
    ensures Equal(m, a, b) == Equal(m, b, a) || !HasName(a) || !HasName(b)
    ensures Equal(m, a, b) == Ok(true) && Equal(m, b, c) == Ok(true) ==> Equal(m, a, c) == Ok(true)
  {
  }

  /** The name lemmas of a list of named definitions. */
  function KeysOf(m: Lemmatizer, ds: seq<Definition>): set<string>
    requires AllNamed(ds)
  {
    set k | 0 <= k < |ds| :: Key(m, ds[k])
  }

  /** No two definitions of `ds` share a name lemma. */
  predicate DistinctKeys(m: Lemmatizer, ds: seq<Definition>)
    requires AllNamed(ds)
  {
    forall p, q :: 0 <= p < q < |ds| ==> Key(m, ds[p]) != Key(m, ds[q])
  }

  lemma {:induction false} KeysOfSnoc(m: Lemmatizer, ds: seq<Definition>, d: Definition)
    requires AllNamed(ds) && HasName(d)
    ensures AllNamed(ds + [d])
    ensures KeysOf(m, ds + [d]) == KeysOf(m, ds) + {Key(m, d)}
  {
    var ds' := ds + [d];
    assert ds'[|ds|] == d;
    forall x | x in KeysOf(m, ds') ensures x in KeysOf(m, ds) + {Key(m, d)} {
      var k :| 0 <= k < |ds'| && Key(m, ds'[k]) == x;
      if k < |ds| { assert ds'[k] == ds[k]; }
    }
    forall x | x in KeysOf(m, ds) ensures x in KeysOf(m, ds') {
      var k :| 0 <= k < |ds| && Key(m, ds[k]) == x;
      assert ds'[k] == ds[k];
    }
  }

  lemma {:induction false} AllNamedSnoc(ds: seq<Definition>, d: Definition)
    ensures AllNamed(ds + [d]) <==> AllNamed(ds) && HasName(d)
  {
    var ds' := ds + [d];
    assert ds'[|ds|] == d;
    assert forall k :: 0 <= k < |ds| ==> ds'[k] == ds[k];
  }

  lemma {:induction false} DistinctKeysSnoc(m: Lemmatizer, ds: seq<Definition>, d: Definition)
    requires AllNamed(ds) && HasName(d) && DistinctKeys(m, ds) && Key(m, d) !in KeysOf(m, ds)
    ensures AllNamed(ds + [d]) && DistinctKeys(m, ds + [d])
  {
    var ds' := ds + [d];
    AllNamedSnoc(ds, d);
    forall p, q | 0 <= p < q < |ds'| ensures Key(m, ds'[p]) != Key(m, ds'[q]) {
      assert ds'[p] == ds[p];
      if q < |ds| {
        assert ds'[q] == ds[q];
      } else {
        assert ds'[q] == d;
        assert Key(m, ds[p]) in KeysOf(m, ds);
      }
    }
  }

  /**
   * `set(ds)` built by inserting `ds` in order: hashing evaluates every name lemma,
   * so a definition without a name raises; an element equal to one already present
   * is not inserted, so the first definition of each name lemma is the one kept.
   */
  function SetOf(m: Lemmatizer, ds: seq<Definition>): (r: Result<seq<Definition>, Error>)
    ensures r.Ok? <==> AllNamed(ds)
    ensures r.Ok? ==> AllNamed(r.value) && |r.value| <= |ds|
    ensures r.Ok? ==> DistinctKeys(m, r.value)
    ensures r.Ok? ==> KeysOf(m, r.value) == KeysOf(m, ds)
    decreases |ds|
  {
    if ds == [] then Ok([])
    else
      var init, d := ds[..|ds| - 1], ds[|ds| - 1];
      assert ds == init + [d];
      AllNamedSnoc(init, d);
      match SetOf(m, init)
      case Err(e) => Err(e)
      case Ok(acc) =>
        if !HasName(d) then Err(MissingName)
        else
          KeysOfSnoc(m, init, d);
          if Key(m, d) in KeysOf(m, acc) then Ok(acc)
          else KeysOfSnoc(m, acc, d); DistinctKeysSnoc(m, acc, d); Ok(acc + [d])
  }

  /** Without two definitions of the same name lemma, the set keeps the whole list, in order. */
  lemma {:induction false} SetOfDistinct(m: Lemmatizer, ds: seq<Definition>)
    requires AllNamed(ds) && DistinctKeys(m, ds)
    ensures SetOf(m, ds) == Ok(ds)
    decreases |ds|
  {
    if ds != [] {
      var init, d := ds[..|ds| - 1], ds[|ds| - 1];
      assert ds == init + [d];
      assert AllNamed(init);
      forall p, q | 0 <= p < q < |init| ensures Key(m, init[p]) != Key(m, init[q]) {
        assert init[p] == ds[p] && init[q] == ds[q];
      }
      SetOfDistinct(m, init);
      forall x | x in KeysOf(m, init) ensures x != Key(m, d) {
        var k :| 0 <= k < |init| && Key(m, init[k]) == x;
        assert init[k] == ds[k];
      }
    }
  }

  /** `d` occurs in `ds` with no earlier definition of the same name lemma. */
  ghost predicate IsFirstOfKey(m: Lemmatizer, ds: seq<Definition>, d: Definition)
    requires AllNamed(ds) && HasName(d)
  {
    exists p :: 0 <= p < |ds| && ds[p] == d && forall q :: 0 <= q < p ==> Key(m, ds[q]) != Key(m, d)
  }

  /** Appending a definition keeps every first-of-its-key definition first. */
  lemma {:induction false} FirstOfKeyExtends(m: Lemmatizer, init: seq<Definition>, d: Definition, acc: seq<Definition>)
    requires AllNamed(init) && HasName(d) && AllNamed(init + [d])
    requires forall k :: 0 <= k < |acc| ==> HasName(acc[k]) && IsFirstOfKey(m, init, acc[k])
    ensures forall k :: 0 <= k < |acc| ==> IsFirstOfKey(m, init + [d], acc[k])
  {
    var ds := init + [d];
    forall k | 0 <= k < |acc| ensures IsFirstOfKey(m, ds, acc[k]) {
      var p :| 0 <= p < |init| && init[p] == acc[k] && forall q :: 0 <= q < p ==> Key(m, init[q]) != Key(m, acc[k]);
      assert ds[p] == init[p];
      forall q | 0 <= q < p ensures Key(m, ds[q]) != Key(m, acc[k]) { assert ds[q] == init[q]; }
    }
  }

  /** A definition whose name lemma is new is the first of its key once appended. */
  lemma {:induction false} FirstOfKeyNew(m: Lemmatizer, init: seq<Definition>, d: Definition)
    requires AllNamed(init) && HasName(d) && AllNamed(init + [d])
    requires Key(m, d) !in KeysOf(m, init)
    ensures IsFirstOfKey(m, init + [d], d)
  {
    var ds := init + [d];
    forall q | 0 <= q < |init| ensures Key(m, ds[q]) != Key(m, d) {
      assert ds[q] == init[q];
      assert Key(m, init[q]) in KeysOf(m, init);
    }
    assert ds[|init|] == d;
  }

  /** Every element of the set is the first definition in `ds` with its name lemma. */
  lemma {:induction false} SetOfKeepsFirst(m: Lemmatizer, ds: seq<Definition>)
    requires AllNamed(ds)
    ensures forall k :: 0 <= k < |SetOf(m, ds).value| ==> IsFirstOfKey(m, ds, SetOf(m, ds).value[k])
    decreases |ds|
  {
    if ds != [] {
      var init, d := ds[..|ds| - 1], ds[|ds| - 1];
      assert ds == init + [d];
      assert AllNamed(init);
      SetOfKeepsFirst(m, init);
      var acc := SetOf(m, init).value;
      FirstOfKeyExtends(m, init, d, acc);
      if Key(m, d) !in KeysOf(m, acc) {
        FirstOfKeyNew(m, init, d);
        var r := acc + [d];
        assert SetOf(m, ds).value == r;
        forall k | 0 <= k < |r| ensures IsFirstOfKey(m, ds, r[k]) {
          if k < |acc| { assert r[k] == acc[k]; } else { assert r[k] == d; }
        }
      }
    }
  }

  /**
   * The set compares through `__eq__`: no two kept definitions are equal, and
   * every definition of `ds` equals one that is kept.
   */
  lemma {:induction false} SetOfByEqual(m: Lemmatizer, ds: seq<Definition>)
    requires AllNamed(ds)
    ensures forall p, q :: 0 <= p < q < |SetOf(m, ds).value| ==>
      Equal(m, SetOf(m, ds).value[p], SetOf(m, ds).value[q]) == Ok(false)
    ensures forall k :: 0 <= k < |ds| ==>
      exists j :: 0 <= j < |SetOf(m, ds).value| && Equal(m, ds[k], SetOf(m, ds).value[j]) == Ok(true)
  {
    var r := SetOf(m, ds).value;
    forall k | 0 <= k < |ds|
      ensures exists j :: 0 <= j < |r| && Equal(m, ds[k], r[j]) == Ok(true)
    {
      assert Key(m, ds[k]) in KeysOf(m, ds);
      var j :| 0 <= j < |r| && Key(m, r[j]) == Key(m, ds[k]);
      assert Equal(m, ds[k], r[j]) == Ok(true);
    }
  }

  /** The definition environments of a lecture: `find_all('definition')` on `TexSoup(cleaned_text)`. */
  function Environments(parse: Parser, lecture: Lecture): seq<Definition>
  {
    parse(CleanedText(lecture))
  }

  /**
   * The parser sees only the cleaned text: the file name, the `$` signs and the
   * case of the source do not change the environments, and a lecture whose text
   * is already cleaned has the same environments.
   */
  lemma {:induction false} EnvironmentsOfCleanedText(parse: Parser, lecture: Lecture, name: string)
    ensures Environments(parse, Lecture(name, CleanedText(lecture))) == Environments(parse, lecture)
    ensures Environments(parse, Lecture(name, RemoveChar(lecture.text, '$'))) == Environments(parse, lecture)
  {
    CleanedTextIdempotent(lecture, name);
    RemoveCharOutput(lecture.text, '$');
    RemoveCharAbsent(RemoveChar(lecture.text, '$'), '$');
  }

  /**
   * `Lecture.definitions`: the set of the lecture's definitions. It raises exactly
   * when an environment has no name; otherwise it holds one definition for each
   * name lemma of the environments, and no other.
   */
  function Definitions(m: Lemmatizer, parse: Parser, lecture: Lecture): (r: Result<seq<Definition>, Error>)
    ensures r.Ok? <==> AllNamed(Environments(parse, lecture))
    ensures r.Ok? ==> AllNamed(r.value) && DistinctKeys(m, r.value)
    ensures r.Ok? ==> KeysOf(m, r.value) == KeysOf(m, Environments(parse, lecture))
  {
    SetOf(m, Environments(parse, lecture))
  }

  /** `[definition for lecture in lectures for definition in lecture.definitions]`. */
  function DefinitionList(m: Lemmatizer, parse: Parser, lectures: seq<Lecture>): (r: Result<seq<Definition>, Error>)
    ensures r.Ok? <==> forall i :: 0 <= i < |lectures| ==> AllNamed(Environments(parse, lectures[i]))
    ensures r.Ok? ==> AllNamed(r.value)
  {
    if lectures == [] then Ok([])
    else
      assert forall i :: 0 <= i < |lectures| - 1 ==> lectures[1..][i] == lectures[i + 1];
      match Definitions(m, parse, lectures[0])
      case Err(e) => Err(e)
      case Ok(ds) =>
        match DefinitionList(m, parse, lectures[1..])
        case Err(e) => Err(e)
        case Ok(rest) => Ok(ds + rest)
  }

  /**
   * `def_l` holds exactly the definitions of the lectures' sets: a definition is
   * in it when it is in the set of some lecture, and only then.
   */
  lemma {:induction false} DefinitionListMembers(m: Lemmatizer, parse: Parser, lectures: seq<Lecture>)
    requires DefinitionList(m, parse, lectures).Ok?
    ensures forall d :: d in DefinitionList(m, parse, lectures).value <==>
      exists i :: 0 <= i < |lectures| && Definitions(m, parse, lectures[i]).Ok? && d in Definitions(m, parse, lectures[i]).value
  {
    forall d | d in DefinitionList(m, parse, lectures).value
      ensures exists i :: 0 <= i < |lectures| && Definitions(m, parse, lectures[i]).Ok? && d in Definitions(m, parse, lectures[i]).value
    {
      DefinitionListFrom(m, parse, lectures, d);
    }
    forall d, i | 0 <= i < |lectures| && Definitions(m, parse, lectures[i]).Ok? && d in Definitions(m, parse, lectures[i]).value
      ensures d in DefinitionList(m, parse, lectures).value
    {
      DefinitionListHas(m, parse, lectures, i, d);
    }
  }

  /** Every definition in `def_l` comes from one of the lectures. */
  lemma {:induction false} DefinitionListFrom(m: Lemmatizer, parse: Parser, lectures: seq<Lecture>, d: Definition)
    requires DefinitionList(m, parse, lectures).Ok? && d in DefinitionList(m, parse, lectures).value
    ensures exists i :: 0 <= i < |lectures| && Definitions(m, parse, lectures[i]).Ok? && d in Definitions(m, parse, lectures[i]).value
  {
    DefinitionListCons(m, parse, lectures);
    if d !in Definitions(m, parse, lectures[0]).value {
      var tail := lectures[1..];
      DefinitionListFrom(m, parse, tail, d);
      var i :| 0 <= i < |tail| && Definitions(m, parse, tail[i]).Ok? && d in Definitions(m, parse, tail[i]).value;
      assert tail[i] == lectures[i + 1];
    }
  }

  /** Every definition of every lecture is in `def_l`. */
  lemma {:induction false} DefinitionListHas(m: Lemmatizer, parse: Parser, lectures: seq<Lecture>, i: nat, d: Definition)
    requires DefinitionList(m, parse, lectures).Ok?
    requires i < |lectures| && Definitions(m, parse, lectures[i]).Ok? && d in Definitions(m, parse, lectures[i]).value
    ensures d in DefinitionList(m, parse, lectures).value
  {
    var before, after := lectures[..i], lectures[i..];
    assert lectures == before + after;
    DefinitionListConcat(m, parse, before, after);
    DefinitionListCons(m, parse, after);
    assert after[0] == lectures[i];
    var tail := DefinitionList(m, parse, after).value;
    assert tail == Definitions(m, parse, lectures[i]).value + DefinitionList(m, parse, after[1..]).value;
    assert d in tail;
    assert DefinitionList(m, parse, lectures).value == DefinitionList(m, parse, before).value + tail;
  }



  /** `def_l` of a non-empty list: the first lecture's set followed by `def_l` of the rest. */
  lemma {:induction false} DefinitionListCons(m: Lemmatizer, parse: Parser, ls: seq<Lecture>)
    requires ls != []
    ensures DefinitionList(m, parse, ls).Ok? <==>
      Definitions(m, parse, ls[0]).Ok? && DefinitionList(m, parse, ls[1..]).Ok?
    ensures DefinitionList(m, parse, ls).Ok? ==>
      DefinitionList(m, parse, ls).value == Definitions(m, parse, ls[0]).value + DefinitionList(m, parse, ls[1..]).value
  {
  }

  /** `def_l` of several lectures exists exactly when each part's does. */
  lemma {:induction false} DefinitionListConcatOk(m: Lemmatizer, parse: Parser, a: seq<Lecture>, b: seq<Lecture>)
    ensures DefinitionList(m, parse, a + b).Ok? <==> DefinitionList(m, parse, a).Ok? && DefinitionList(m, parse, b).Ok?
  {
    var ab := a + b;
    assert forall i :: 0 <= i < |a| ==> ab[i] == a[i];
    assert forall i :: 0 <= i < |b| ==> ab[|a| + i] == b[i];
  }

  /** Appending is associative; stated once so the solver need not rediscover it. */
  lemma {:induction false} AppendAssoc(h: seq<Definition>, x: seq<Definition>, y: seq<Definition>)
    ensures h + (x + y) == (h + x) + y
  {
  }

  /** The first step of `def_l` of `a + b` takes the first lecture of `a`. */
  lemma {:induction false} DefinitionListConsAppend(m: Lemmatizer, parse: Parser, a: seq<Lecture>, b: seq<Lecture>)
    requires a != [] && DefinitionList(m, parse, a + b).Ok?
    ensures Definitions(m, parse, a[0]).Ok? && DefinitionList(m, parse, a[1..] + b).Ok?
    ensures DefinitionList(m, parse, a + b).value ==
      Definitions(m, parse, a[0]).value + DefinitionList(m, parse, a[1..] + b).value
  {
    assert (a + b)[0] == a[0] && (a + b)[1..] == a[1..] + b;
    DefinitionListCons(m, parse, a + b);
  }

  /** `def_l` of several lectures is their `def_l`s one after another. */
  lemma {:induction false} DefinitionListConcat(m: Lemmatizer, parse: Parser, a: seq<Lecture>, b: seq<Lecture>)
    requires DefinitionList(m, parse, a + b).Ok?
    ensures DefinitionList(m, parse, a).Ok? && DefinitionList(m, parse, b).Ok?
    ensures DefinitionList(m, parse, a + b).value == DefinitionList(m, parse, a).value + DefinitionList(m, parse, b).value
    decreases |a|
  {
    DefinitionListConcatOk(m, parse, a, b);
    if a == [] {
      assert a + b == b;
    } else {
      DefinitionListConsAppend(m, parse, a, b);
      DefinitionListConcat(m, parse, a[1..], b);
      DefinitionListCons(m, parse, a);
      AppendAssoc(Definitions(m, parse, a[0]).value, DefinitionList(m, parse, a[1..]).value, DefinitionList(m, parse, b).value);
    }
  }

  // ---------------------------------------------------------------- contains

  /** Every piece of `nameLemma.split(' ')` occurs in `textLemma`. */
  predicate TokensIn(nameLemma: string, textLemma: string)
  {
    var tokens := Split(nameLemma);
    forall k :: 0 <= k < |tokens| ==> IsSubstring(tokens[k], textLemma)
  }

  /** `a.contains(b)` as a predicate, for a definition `a` that has a name. */
  predicate NameTokensIn(m: Lemmatizer, a: Definition, b: Definition)
    requires HasName(a)
  {
    TokensIn(Key(m, a), TextLemma(m, b))
  }

  /**
   * The loop of `contains` on the cached lemmas: walks the tokens of
   * `nameLemma` and answers false at the first one missing from `textLemma`.
   */
  method ContainsTokens(nameLemma: string, textLemma: string) returns (r: bool)
    ensures r <==> TokensIn(nameLemma, textLemma)
  {
    var tokens := Split(nameLemma);
    var k := 0;
    while k < |tokens|
      invariant 0 <= k <= |tokens|
      invariant forall t :: 0 <= t < k ==> IsSubstring(tokens[t], textLemma)
    {
      if !IsSubstring(tokens[k], textLemma) {
        return false;
      }
      k := k + 1;
    }
    return true;
  }

  /** `a.contains(b)`: raises when `a` has no name, since `a.name_lemma` does. */
  method Contains(m: Lemmatizer, a: Definition, b: Definition) returns (r: Result<bool, Error>)
    ensures r.Err? <==> !HasName(a)
    ensures r.Ok? ==> (r.value <==> NameTokensIn(m, a, b))
  {
    var nameLemma := NameLemma(m, a);
    if nameLemma.Err? {
      return Err(nameLemma.error);
    }
    var found := ContainsTokens(nameLemma.value, TextLemma(m, b));
    return Ok(found);
  }

  /** Containment in the service's terms: every alphabetic token of the name's lemmas occurs in the text lemma. */
  lemma {:induction false} ContainsMeaning(m: Lemmatizer, a: Definition, b: Definition)
    requires HasName(a)
    ensures NameTokensIn(m, a, b) <==>
      forall t :: t in AlphaTokens(m(Name(a).value)) ==> IsSubstring(t, TextLemma(m, b))
  {
    EmptyIsSubstring(TextLemma(m, b));
  }

  /** A definition whose name lemma is empty contains every definition (`'' in s` holds). */
  lemma {:induction false} EmptyNameContainsAll(m: Lemmatizer, a: Definition, b: Definition)
    requires HasName(a) && Key(m, a) == ""
    ensures NameTokensIn(m, a, b)
  {
    EmptyTokensIn(TextLemma(m, b));
  }

  /** The only piece of `''.split(' ')` is `''`, which occurs in every string. */
  lemma {:induction false} EmptyTokensIn(textLemma: string)
    ensures TokensIn("", textLemma)
  {
    assert Split("") == [""];
    EmptyIsSubstring(textLemma);
  }

  // ---------------------------------------------------------------- graph

  /** A named definition with its cached properties `name`, `name_lemma` and `text_lemma` evaluated. */
  datatype Entry = Entry(name: string, nameLemma: string, textLemma: string)

  function Resolve(m: Lemmatizer, d: Definition): Entry
    requires HasName(d)
  {
    Entry(Name(d).value, Key(m, d), TextLemma(m, d))
  }

  /** The definitions of `def_l` with their cached properties. */
  function Resolved(m: Lemmatizer, defs: seq<Definition>): (r: seq<Entry>)
    requires AllNamed(defs)
    ensures |r| == |defs|
  {
    if defs == [] then [] else [Resolve(m, defs[0])] + Resolved(m, defs[1..])
  }

  lemma {:induction false} ResolvedAt(m: Lemmatizer, defs: seq<Definition>, k: int)
    requires AllNamed(defs) && 0 <= k < |defs|
    ensures Resolved(m, defs)[k] == Resolve(m, defs[k])
  {
    if k > 0 {
      ResolvedAt(m, defs[1..], k - 1);
    }
  }

  /** `contains` on two definitions of `def_l` is `Related` on their entries. */
  lemma {:induction false} ContainsIsRelated(m: Lemmatizer, defs: seq<Definition>, p: int, q: int)
    requires AllNamed(defs) && 0 <= p < |defs| && 0 <= q < |defs|
    ensures NameTokensIn(m, defs[p], defs[q]) == Related(Resolved(m, defs)[p], Resolved(m, defs)[q])
    ensures Resolved(m, defs)[p].nameLemma == Key(m, defs[p]) && Resolved(m, defs)[q].nameLemma == Key(m, defs[q])
  {
    ResolvedAt(m, defs, p);
    ResolvedAt(m, defs, q);
  }

  /** `a.contains(b)` on evaluated definitions. */
  predicate Related(a: Entry, b: Entry)
  {
    TokensIn(a.nameLemma, b.textLemma)
  }

  /**
   * A relation between entries that decides which edges the graph gets. It is
   * no setting of the source: `_build_graph` always uses `contains`, which
   * `Core.BuildGraph` passes as `Related`. The graph methods take it as a
   * parameter, constrained by `DecidesContains`, only so that their proofs do
   * not unfold the lemma strings.
   */
  type Relation = (Entry, Entry) -> bool

  /** The node keys: the name lemmas of `def_l`. */
  function Nodes(es: seq<Entry>): set<string>
  {
    set k | 0 <= k < |es| :: es[k].nameLemma
  }

  /** The edges of the graph: `(x, y)` for every ordered pair of distinct positions where `x.contains(y)`. */
  function Edges(es: seq<Entry>, rel: Relation): (r: set<(string, string)>)
    ensures forall e :: e in r ==> e.0 in Nodes(es) && e.1 in Nodes(es)
  {
    set p, q | 0 <= p < |es| && 0 <= q < |es| && p != q && rel(es[p], es[q]) :: (es[p].nameLemma, es[q].nameLemma)
  }

  /** Every ordered pair of distinct positions whose first contains the second gives its edge. */
  lemma {:induction false} EdgeOfPair(es: seq<Entry>, rel: Relation, p: int, q: int)
    requires 0 <= p < |es| && 0 <= q < |es| && p != q
    ensures rel(es[p], es[q]) ==> (es[p].nameLemma, es[q].nameLemma) in Edges(es, rel)
  {
  }

  /** The edges `_build_graph` adds, stated on the definitions themselves. */
  ghost function EdgesByContains(m: Lemmatizer, defs: seq<Definition>): set<(string, string)>
    requires AllNamed(defs)
  {
    set p, q | 0 <= p < |defs| && 0 <= q < |defs| && p != q && NameTokensIn(m, defs[p], defs[q])
      :: (Key(m, defs[p]), Key(m, defs[q]))
  }

  lemma {:induction false} EdgesWithinContains(m: Lemmatizer, defs: seq<Definition>)
    requires AllNamed(defs)
    ensures Edges(Resolved(m, defs), Related) <= EdgesByContains(m, defs)
  {
    var es := Resolved(m, defs);
    forall e | e in Edges(es, Related) ensures e in EdgesByContains(m, defs) {
      var p, q :| 0 <= p < |es| && 0 <= q < |es| && p != q && Related(es[p], es[q]) && e == (es[p].nameLemma, es[q].nameLemma);
      ContainsIsRelated(m, defs, p, q);
    }
  }

  lemma {:induction false} ContainsWithinEdges(m: Lemmatizer, defs: seq<Definition>)
    requires AllNamed(defs)
    ensures EdgesByContains(m, defs) <= Edges(Resolved(m, defs), Related)
  {
    var es := Resolved(m, defs);
    forall e | e in EdgesByContains(m, defs) ensures e in Edges(es, Related) {
      var p, q :| 0 <= p < |defs| && 0 <= q < |defs| && p != q && NameTokensIn(m, defs[p], defs[q])
        && e == (Key(m, defs[p]), Key(m, defs[q]));
      ContainsIsRelated(m, defs, p, q);
      EdgeOfPair(es, Related, p, q);
    }
  }

  /**
   * The edge set of the definitions: `(a.name_lemma, b.name_lemma)` for every two
   * definitions at different positions such that `a.contains(b)`.
   */
  lemma {:induction false} EdgesOfDefinitions(m: Lemmatizer, defs: seq<Definition>)
    requires AllNamed(defs)
    ensures Edges(Resolved(m, defs), Related) == EdgesByContains(m, defs)
  {
    EdgesWithinContains(m, defs);
    ContainsWithinEdges(m, defs);
  }

  /** No two entries share a name lemma. */
  predicate DistinctNodes(es: seq<Entry>)
  {
    forall p, q :: 0 <= p < q < |es| ==> es[p].nameLemma != es[q].nameLemma
  }

  /** Without two definitions of the same name lemma there is no self-loop. */
  lemma {:induction false} NoSelfLoopWhenDistinct(es: seq<Entry>, rel: Relation, x: string)
    requires DistinctNodes(es)
    ensures (x, x) !in Edges(es, rel)
  {
  }

  /** The graph of a single lecture has no self-loop: its definitions form a set. */
  lemma {:induction false} SingleLectureNoSelfLoop(m: Lemmatizer, parse: Parser, lecture: Lecture, x: string)
    requires DefinitionList(m, parse, [lecture]).Ok?
    ensures (x, x) !in Edges(Resolved(m, DefinitionList(m, parse, [lecture]).value), Related)
  {
    var ds := Definitions(m, parse, lecture).value;
    assert [lecture][1..] == [];
    assert DefinitionList(m, parse, [lecture]).value == ds + [];
    assert ds + [] == ds;
    var es := Resolved(m, ds);
    forall p, q | 0 <= p < q < |es| ensures es[p].nameLemma != es[q].nameLemma {
      ResolvedAt(m, ds, p);
      ResolvedAt(m, ds, q);
      assert Key(m, ds[p]) != Key(m, ds[q]);
    }
    NoSelfLoopWhenDistinct(es, Related, x);
  }

  /** The label of node `x`: the name of the last entry with name lemma `x` (`add_node` overwrites). */
  function LabelOf(es: seq<Entry>, x: string): (r: Option<string>)
    ensures r.None? <==> x !in Nodes(es)
  {
    if es == [] then None
    else
      var init, e := es[..|es| - 1], es[|es| - 1];
      assert es == init + [e];
      assert Nodes(es) == Nodes(init) + {e.nameLemma} by {
        forall y | y in Nodes(es) ensures y in Nodes(init) + {e.nameLemma} {
          var k :| 0 <= k < |es| && es[k].nameLemma == y;
          if k < |init| { assert es[k] == init[k]; }
        }
        forall y | y in Nodes(init) ensures y in Nodes(es) {
          var k :| 0 <= k < |init| && init[k].nameLemma == y;
          assert es[k] == init[k];
        }
      }
      if e.nameLemma == x then Some(e.name) else LabelOf(init, x)
  }

  /** The label is the name of an entry with that name lemma, and no later entry has it. */
  lemma {:induction false} LabelIsLastName(es: seq<Entry>, x: string)
    requires x in Nodes(es)
    ensures exists k :: (0 <= k < |es| && es[k].nameLemma == x && LabelOf(es, x) == Some(es[k].name)
      && forall k' :: k < k' < |es| ==> es[k'].nameLemma != x)
  {
    var init, e := es[..|es| - 1], es[|es| - 1];
    assert es == init + [e];
    if e.nameLemma == x {
      assert es[|es| - 1] == e;
    } else {
      var k :| 0 <= k < |es| && es[k].nameLemma == x;
      assert k < |init| && init[k] == es[k];
      LabelIsLastName(init, x);
      var k0 :| 0 <= k0 < |init| && init[k0].nameLemma == x && LabelOf(init, x) == Some(init[k0].name)
        && forall k' :: k0 < k' < |init| ==> init[k'].nameLemma != x;
      assert es[k0] == init[k0];
      forall k' | k0 < k' < |es| ensures es[k'].nameLemma != x {
        if k' < |init| { assert es[k'] == init[k']; }
      }
    }
  }

  /** The edge from entry `p` to entry `q`, when `p` contains `q`. */
  function PairEdge(es: seq<Entry>, rel: Relation, p: int, q: int): set<(string, string)>
    requires 0 <= p < |es| && 0 <= q < |es|
  {
    if rel(es[p], es[q]) then {(es[p].nameLemma, es[q].nameLemma)} else {}
  }

  /** The edges the `for j` loop of row `i` adds before it reaches `j`. */
  function RowEdges(es: seq<Entry>, rel: Relation, i: int, j: int): set<(string, string)>
    requires 0 <= i < j <= |es|
    decreases j
  {
    if j == i + 1 then {} else RowEdges(es, rel, i, j - 1) + PairEdge(es, rel, i, j - 1) + PairEdge(es, rel, j - 1, i)
  }

  /** The edges the first `i` rows of `_build_graph` add. */
  function EdgesAfterRows(es: seq<Entry>, rel: Relation, i: int): set<(string, string)>
    requires 0 <= i <= |es|
  {
    if i == 0 then {} else EdgesAfterRows(es, rel, i - 1) + RowEdges(es, rel, i - 1, |es|)
  }

  /** An edge of a row stays once the row goes on. */
  lemma {:induction false} RowEdgeKept(es: seq<Entry>, rel: Relation, i: int, j: int, k: int, e: (string, string))
    requires 0 <= i < j <= k <= |es| && e in RowEdges(es, rel, i, j)
    ensures e in RowEdges(es, rel, i, k)
    decreases k
  {
    if k > j {
      RowEdgeKept(es, rel, i, j, k - 1, e);
    }
  }

  /** An edge stays once later rows run. */
  lemma {:induction false} EdgeAfterRowsKept(es: seq<Entry>, rel: Relation, i: int, k: int, e: (string, string))
    requires 0 <= i <= k <= |es| && e in EdgesAfterRows(es, rel, i)
    ensures e in EdgesAfterRows(es, rel, k)
    decreases k
  {
    if k > i {
      EdgeAfterRowsKept(es, rel, i, k - 1, e);
    }
  }

  /** Every edge a row adds comes from two distinct related entries. */
  lemma {:induction false} RowEdgeSource(es: seq<Entry>, rel: Relation, i: int, j: int, e: (string, string)) returns (p: int, q: int)
    requires 0 <= i < j <= |es| && e in RowEdges(es, rel, i, j)
    ensures 0 <= p < |es| && 0 <= q < |es| && p != q && rel(es[p], es[q])
    ensures e == (es[p].nameLemma, es[q].nameLemma)
    decreases j
  {
    if e in RowEdges(es, rel, i, j - 1) {
      p, q := RowEdgeSource(es, rel, i, j - 1, e);
    } else if e in PairEdge(es, rel, i, j - 1) {
      p, q := i, j - 1;
    } else {
      p, q := j - 1, i;
    }
  }

  /** Every edge of the first `k` rows comes from two distinct related entries. */
  lemma {:induction false} EdgeSource(es: seq<Entry>, rel: Relation, k: int, e: (string, string)) returns (p: int, q: int)
    requires 0 <= k <= |es| && e in EdgesAfterRows(es, rel, k)
    ensures 0 <= p < |es| && 0 <= q < |es| && p != q && rel(es[p], es[q])
    ensures e == (es[p].nameLemma, es[q].nameLemma)
  {
    if e in EdgesAfterRows(es, rel, k - 1) {
      p, q := EdgeSource(es, rel, k - 1, e);
    } else {
      p, q := RowEdgeSource(es, rel, k - 1, |es|, e);
    }
  }

  /** The edge of a related pair is added in the row of the smaller of the two positions. */
  lemma {:induction false} EdgeAdded(es: seq<Entry>, rel: Relation, p: int, q: int)
    requires 0 <= p < |es| && 0 <= q < |es| && p != q && rel(es[p], es[q])
    ensures (es[p].nameLemma, es[q].nameLemma) in EdgesAfterRows(es, rel, |es|)
  {
    var lo, hi := if p < q then p else q, if p < q then q else p;
    var e := (es[p].nameLemma, es[q].nameLemma);
    assert e in PairEdge(es, rel, lo, hi) + PairEdge(es, rel, hi, lo);
    assert e in RowEdges(es, rel, lo, hi + 1);
    RowEdgeKept(es, rel, lo, hi + 1, |es|, e);
    assert e in EdgesAfterRows(es, rel, lo + 1);
    EdgeAfterRowsKept(es, rel, lo + 1, |es|, e);
  }

  /** The rows of `_build_graph` together add exactly `Edges`. */
  lemma {:induction false} EdgesAfterAllRows(es: seq<Entry>, rel: Relation)
    ensures EdgesAfterRows(es, rel, |es|) == Edges(es, rel)
  {
    forall e | e in EdgesAfterRows(es, rel, |es|) ensures e in Edges(es, rel) {
      var p, q := EdgeSource(es, rel, |es|, e);
      EdgeOfPair(es, rel, p, q);
    }
    forall e | e in Edges(es, rel) ensures e in EdgesAfterRows(es, rel, |es|) {
      var p, q :| 0 <= p < |es| && 0 <= q < |es| && p != q && rel(es[p], es[q]) && e == (es[p].nameLemma, es[q].nameLemma);
      EdgeAdded(es, rel, p, q);
    }
  }

  /**
   * The first `count` entries have nodes, and every node is a name lemma of `es`
   * carrying the label the first `count` entries give it.
   */
  ghost predicate LabelsMatch(nodes: map<string, Option<string>>, es: seq<Entry>, count: int)
    requires 0 <= count <= |es|
  {
    && (forall k :: 0 <= k < count ==> es[k].nameLemma in nodes)
    && (forall x :: x in nodes ==> x in Nodes(es) && nodes[x] == LabelOf(es[..count], x))
  }

  /** `add_edge` creating endpoint `v` without a label keeps the labels right when no processed entry has `v`. */
  lemma {:induction false} EnsureNodeKeepsLabels(nodes: map<string, Option<string>>, es: seq<Entry>, count: int, v: string)
    requires 0 <= count <= |es| && LabelsMatch(nodes, es, count) && v in Nodes(es)
    requires v !in nodes ==> LabelOf(es[..count], v) == None
    ensures LabelsMatch(EnsureNode(nodes, v), es, count)
  {
  }

  /** A name lemma not yet among the nodes after `add_node` of entry `i` has no label so far. */
  lemma {:induction false} NotYetLabelled(es: seq<Entry>, i: int, j: int, keys: set<string>)
    requires 0 <= i < j < |es|
    requires forall k :: 0 <= k <= i ==> es[k].nameLemma in keys
    ensures es[j].nameLemma !in keys ==> LabelOf(es[..i + 1], es[j].nameLemma) == None
  {
    if es[j].nameLemma !in keys {
      var done := es[..i + 1];
      forall k | 0 <= k < |done| ensures done[k].nameLemma != es[j].nameLemma {
        assert done[k] == es[k];
      }
    }
  }

  /** The node map after `add_edge(u, v)`. */
  function WithEdge(nodes: map<string, Option<string>>, u: string, v: string): map<string, Option<string>>
  {
    EnsureNode(EnsureNode(nodes, u), v)
  }

  /** The node map after step `j` of row `i`: `add_edge` each way the two entries contain each other. */
  function StepNodes(nodes: map<string, Option<string>>, es: seq<Entry>, rel: Relation, i: int, j: int): map<string, Option<string>>
    requires 0 <= i < |es| && 0 <= j < |es|
  {
    var mid := if rel(es[i], es[j]) then WithEdge(nodes, es[i].nameLemma, es[j].nameLemma) else nodes;
    if rel(es[j], es[i]) then WithEdge(mid, es[j].nameLemma, es[i].nameLemma) else mid
  }

  /** The node map the `for j` loop of row `i` leaves once it reaches `j`, from `nodes` at its start. */
  function RowNodes(nodes: map<string, Option<string>>, es: seq<Entry>, rel: Relation, i: int, j: int): map<string, Option<string>>
    requires 0 <= i < j <= |es|
    decreases j
  {
    if j == i + 1 then nodes else StepNodes(RowNodes(nodes, es, rel, i, j - 1), es, rel, i, j - 1)
  }

  /**
   * `add_edge` between entry `i` and a later entry `q` keeps the labels: it can
   * only create `q`'s name lemma, and then no entry up to `i` has it.
   */
  lemma {:induction false} WithEdgeKeepsLabels(nodes: map<string, Option<string>>, es: seq<Entry>, i: int, q: int, forward: bool)
    requires 0 <= i < q < |es|
    requires LabelsMatch(nodes, es, i + 1)
    ensures var after := if forward then WithEdge(nodes, es[i].nameLemma, es[q].nameLemma)
                         else WithEdge(nodes, es[q].nameLemma, es[i].nameLemma);
      LabelsMatch(after, es, i + 1)
  {
    var u, v := es[i].nameLemma, es[q].nameLemma;
    NotYetLabelled(es, i, q, nodes.Keys);
    assert v in Nodes(es);
    EnsureNodeKeepsLabels(nodes, es, i + 1, v);
    var grown := EnsureNode(nodes, v);
    assert u in nodes && u in grown;
    assert EnsureNode(nodes, u) == nodes && EnsureNode(grown, u) == grown;
  }

  /** Step `j` of row `i` keeps the labels of the entries up to `i`. */
  lemma {:induction false} StepNodesKeepLabels(nodes: map<string, Option<string>>, es: seq<Entry>, rel: Relation, i: int, j: int)
    requires 0 <= i < j < |es|
    requires LabelsMatch(nodes, es, i + 1)
    ensures LabelsMatch(StepNodes(nodes, es, rel, i, j), es, i + 1)
  {
    var mid := nodes;
    if rel(es[i], es[j]) {
      WithEdgeKeepsLabels(mid, es, i, j, true);
      mid := WithEdge(mid, es[i].nameLemma, es[j].nameLemma);
    }
    WithEdgeKeepsLabels(mid, es, i, j, false);
  }

  /** Row `i` keeps the labels of the entries up to `i`. */
  lemma {:induction false} RowNodesKeepLabels(nodes: map<string, Option<string>>, es: seq<Entry>, rel: Relation, i: int, j: int)
    requires 0 <= i < j <= |es|
    requires LabelsMatch(nodes, es, i + 1)
    ensures LabelsMatch(RowNodes(nodes, es, rel, i, j), es, i + 1)
    decreases j
  {
    if j > i + 1 {
      RowNodesKeepLabels(nodes, es, rel, i, j - 1);
      StepNodesKeepLabels(RowNodes(nodes, es, rel, i, j - 1), es, rel, i, j - 1);
    }
  }

  /** `rel` answers `contains` on entries `p` and `q`. */
  predicate ContainsAt(es: seq<Entry>, rel: Relation, p: int, q: int)
    requires 0 <= p < |es| && 0 <= q < |es|
  {
    rel(es[p], es[q]) == TokensIn(es[p].nameLemma, es[q].textLemma)
  }

  /**
   * `rel` answers `contains` on every two entries, as `Related` does. The graph
   * methods require it instead of taking `Related` directly, to keep their
   * proofs small; the source has no such parameter.
   */
  predicate DecidesContains(es: seq<Entry>, rel: Relation)
  {
    forall p, q :: 0 <= p < |es| && 0 <= q < |es| ==> ContainsAt(es, rel, p, q)
  }

  /** Step `j` of the `for j` loop for definition `i`: `add_edge` each way one of the two contains the other. */
  method CompareOne(graph: DiGraph, es: seq<Entry>, rel: Relation, i: int, j: int)
    requires 0 <= i < |es| && 0 <= j < |es| && DecidesContains(es, rel)
    modifies graph
    ensures graph.nodes == StepNodes(old(graph.nodes), es, rel, i, j)
    ensures graph.edges == old(graph.edges) + PairEdge(es, rel, i, j) + PairEdge(es, rel, j, i)
  {
    assert ContainsAt(es, rel, i, j) && ContainsAt(es, rel, j, i);
    var forward := ContainsTokens(es[i].nameLemma, es[j].textLemma);
    if forward {
      graph.AddEdge(es[i].nameLemma, es[j].nameLemma);
    }
    var backward := ContainsTokens(es[j].nameLemma, es[i].textLemma);
    if backward {
      graph.AddEdge(es[j].nameLemma, es[i].nameLemma);
    }
  }

  /**
   * The `for j` loop of `_build_graph` for definition `i`: an edge each way
   * between `i` and every later definition that the other contains.
   */
  method CompareWithLater(graph: DiGraph, es: seq<Entry>, rel: Relation, i: int)
    requires 0 <= i < |es| && DecidesContains(es, rel)
    modifies graph
    ensures graph.nodes == RowNodes(old(graph.nodes), es, rel, i, |es|)
    ensures graph.edges == old(graph.edges) + RowEdges(es, rel, i, |es|)
  {
    var j := i + 1;
    while j < |es|
      invariant i + 1 <= j <= |es|
      invariant graph.nodes == RowNodes(old(graph.nodes), es, rel, i, j)
      invariant graph.edges == old(graph.edges) + RowEdges(es, rel, i, j)
    {
      CompareOne(graph, es, rel, i, j);
      UnionAssoc(old(graph.edges), RowEdges(es, rel, i, j), PairEdge(es, rel, i, j), PairEdge(es, rel, j, i));
      j := j + 1;
    }
  }

  /** Set union regrouped; stated once so the solver need not rediscover it. */
  lemma {:induction false} UnionAssoc<T>(a: set<T>, b: set<T>, c: set<T>, d: set<T>)
    ensures a + b + c + d == a + (b + c + d)
  {
  }

  /** The node map after the first `i` rows of `_build_graph`: `add_node` of entry `i - 1`, then its row. */
  function NodesAfterRows(es: seq<Entry>, rel: Relation, i: int): map<string, Option<string>>
    requires 0 <= i <= |es|
  {
    if i == 0 then map[]
    else
      var e := es[i - 1];
      RowNodes(NodesAfterRows(es, rel, i - 1)[e.nameLemma := Some(e.name)], es, rel, i - 1, |es|)
  }

  /** `add_node` of entry `i` labels its name lemma with its name and keeps the other labels. */
  lemma {:induction false} AddNodeLabels(nodes: map<string, Option<string>>, es: seq<Entry>, i: int)
    requires 0 <= i < |es|
    requires LabelsMatch(nodes, es, i)
    ensures LabelsMatch(nodes[es[i].nameLemma := Some(es[i].name)], es, i + 1)
  {
    var done := es[..i + 1];
    assert done[..i] == es[..i] && done[i] == es[i];
    assert es[i].nameLemma in Nodes(es);
  }

  lemma {:induction false} NodesAfterRowsLabels(es: seq<Entry>, rel: Relation, i: int)
    requires 0 <= i <= |es|
    ensures LabelsMatch(NodesAfterRows(es, rel, i), es, i)
  {
    if i > 0 {
      NodesAfterRowsLabels(es, rel, i - 1);
      var prev := NodesAfterRows(es, rel, i - 1);
      var added := prev[es[i - 1].nameLemma := Some(es[i - 1].name)];
      AddNodeLabels(prev, es, i - 1);
      RowNodesKeepLabels(added, es, rel, i - 1, |es|);
      assert NodesAfterRows(es, rel, i) == RowNodes(added, es, rel, i - 1, |es|);
    }
  }

  /**
   * After every row the nodes are exactly the name lemmas, each labelled with
   * the name of the last entry that has it, and every edge joins two nodes.
   */
  lemma {:induction false} AllRowsNodes(es: seq<Entry>, rel: Relation)
    ensures NodesAfterRows(es, rel, |es|).Keys == Nodes(es)
    ensures forall x :: x in NodesAfterRows(es, rel, |es|) ==> NodesAfterRows(es, rel, |es|)[x] == LabelOf(es, x)
    ensures Joined(NodesAfterRows(es, rel, |es|), EdgesAfterRows(es, rel, |es|))
  {
    var nodes := NodesAfterRows(es, rel, |es|);
    NodesAfterRowsLabels(es, rel, |es|);
    assert es[..|es|] == es;
    forall x | x in Nodes(es) ensures x in nodes {
      var k :| 0 <= k < |es| && es[k].nameLemma == x;
    }
    EdgesAfterAllRows(es, rel);
  }

  /** The loops of `_build_graph` over `def_l`, given with its cached properties. */
  method BuildFromEntries(es: seq<Entry>, rel: Relation) returns (graph: DiGraph)
    requires DecidesContains(es, rel)
    ensures fresh(graph)
    ensures graph.nodes == NodesAfterRows(es, rel, |es|)
    ensures graph.edges == EdgesAfterRows(es, rel, |es|)
  {
    graph := new DiGraph();
    var i := 0;
    while i < |es|
      invariant 0 <= i <= |es|
      invariant graph.nodes == NodesAfterRows(es, rel, i)
      invariant graph.edges == EdgesAfterRows(es, rel, i)
    {
      AddRow(graph, es, rel, i);
      i := i + 1;
    }
  }

  /** Row `i` of `_build_graph`: `add_node` of entry `i`, then its comparisons with the later entries. */
  method AddRow(graph: DiGraph, es: seq<Entry>, rel: Relation, i: int)
    requires 0 <= i < |es| && DecidesContains(es, rel)
    requires graph.nodes == NodesAfterRows(es, rel, i) && graph.edges == EdgesAfterRows(es, rel, i)
    modifies graph
    ensures graph.nodes == NodesAfterRows(es, rel, i + 1)
    ensures graph.edges == EdgesAfterRows(es, rel, i + 1)
  {
    graph.AddNode(es[i].nameLemma, es[i].name);
    CompareWithLater(graph, es, rel, i);
  }

  /**
   * `DefinitionsGraph(lectures).graph` (`_build_graph`): a node per name lemma,
   * labelled with the name of the last definition that has it, and the edges of
   * `Edges`; fails when some lecture holds a definition without a name.
   */
  method BuildGraph(m: Lemmatizer, parse: Parser, lectures: seq<Lecture>) returns (r: Result<DiGraph, Error>)
    ensures r.Err? <==> DefinitionList(m, parse, lectures).Err?
    ensures r.Ok? ==> fresh(r.value) && r.value.Valid()
    ensures r.Ok? ==> var es := Resolved(m, DefinitionList(m, parse, lectures).value);
      && r.value.nodes.Keys == Nodes(es)
      && (forall x :: x in r.value.nodes ==> r.value.nodes[x] == LabelOf(es, x))
      && r.value.edges == Edges(es, Related)
  {
    var defList := DefinitionList(m, parse, lectures);
    if defList.Err? {
      return Err(defList.error);
    }
    var es := Resolved(m, defList.value);
    var graph := BuildFromEntries(es, Related);
    AllRowsNodes(es, Related);
    EdgesAfterAllRows(es, Related);
    return Ok(graph);
  }
}
