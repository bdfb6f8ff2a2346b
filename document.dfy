/**
 * The entities both variants of the pipeline share: a lecture, a definition
 * environment found in it, the text cleaning, and a definition's name and text.
 * Both core files define these identically.
 */
module Document {
  import opened Wrappers
  import opened PyStr

  /** An uploaded lecture: its file name and its LaTeX source. */
  datatype Lecture = Lecture(name: string, text: string)

  /**
   * A `definition` environment as the markup parser hands it over: `source` is the
   * environment rendered back to text (`str(soap)`), `bold` the rendered `textbf`
   * spans inside it in document order (`soap.find_all('textbf')`).
   */
  datatype Definition = Definition(source: string, bold: seq<string>)

  /** The markup parser: the `definition` environments of `TexSoup(text)`, in document order. */
  type Parser = string -> seq<Definition>

  /** The lemmatizer service (`Mystem().lemmatize`): deterministic, from text to tokens. */
  type Lemmatizer = string -> seq<string>

  /** `names[0]` on an empty list of bold spans raises: the definition has no name. */
  datatype Error = MissingName

  /**
   * `Lecture.cleaned_text`: the source without `$`, lowercased. It has no `$` and
   * no capital, and is shorter than the source by exactly the number of `$`.
   */
  function CleanedText(lecture: Lecture): (r: string)
    ensures '$' !in r
    ensures |r| == |lecture.text| - Count(lecture.text, '$')
    ensures forall k :: 0 <= k < |r| ==> !IsUpper(r[k])
  {
    RemoveCharOutput(lecture.text, '$');
    LowerAt(RemoveChar(lecture.text, '$'));
    Lower(RemoveChar(lecture.text, '$'))
  }

  /** Cleaning an already cleaned text changes nothing. */
  lemma {:induction false} CleanedTextIdempotent(lecture: Lecture, name: string)
    ensures CleanedText(Lecture(name, CleanedText(lecture))) == CleanedText(lecture)
  {
    var t := CleanedText(lecture);
    RemoveCharAbsent(t, '$');
    LowerIdempotent(RemoveChar(lecture.text, '$'));
  }

  /** The characters `[а-яА-Я ]` that cleaning keeps. */
  predicate IsKept(c: char)
  {
    'а' <= c <= 'я' || 'А' <= c <= 'Я' || c == ' '
  }

  /** The characters that can remain after cleaning: lowercase `а-я` and the space. */
  predicate IsCleanChar(c: char)
  {
    'а' <= c <= 'я' || c == ' '
  }

  predicate IsClean(s: string)
  {
    forall k :: 0 <= k < |s| ==> IsCleanChar(s[k])
  }

  /** `REPLACE_TRASH_PATTERN.sub('', s)`: drop every character outside `[а-яА-Я ]`. */
  function DropTrash(s: string): string
  {
    if s == [] then "" else (if IsKept(s[0]) then [s[0]] else "") + DropTrash(s[1..])
  }

  lemma {:induction false} DropTrashOutput(s: string)
    ensures |DropTrash(s)| <= |s|
    ensures forall k :: 0 <= k < |DropTrash(s)| ==> IsKept(DropTrash(s)[k])
  {
    if s != [] {
      DropTrashOutput(s[1..]);
    }
  }

  /**
   * `clean(text)`: drop the trash characters, then lowercase. Only `а-я` and
   * spaces are left, and the text never gets longer.
   */
  function Clean(s: string): (r: string)
    ensures IsClean(r)
    ensures |r| <= |s|
  {
    DropTrashOutput(s);
    LowerAt(DropTrash(s));
    Lower(DropTrash(s))
  }

  lemma {:induction false} DropTrashConcat(a: string, b: string)
    ensures DropTrash(a + b) == DropTrash(a) + DropTrash(b)
  {
    if a != [] {
      assert (a + b)[1..] == a[1..] + b;
      DropTrashConcat(a[1..], b);
    } else {
      assert a + b == b;
    }
  }

  /** Cleaning works character by character: it distributes over concatenation. */
  lemma {:induction false} CleanConcat(a: string, b: string)
    ensures Clean(a + b) == Clean(a) + Clean(b)
  {
    DropTrashConcat(a, b);
    LowerConcat(DropTrash(a), DropTrash(b));
  }

  /** One character: a capital `А-Я` becomes its small letter, `а-я` and the space stay, the rest is dropped. */
  lemma {:induction false} CleanChar(c: char)
    ensures 'А' <= c <= 'Я' ==> Clean([c]) == [(c as int + 0x20) as char]
    ensures ('а' <= c <= 'я' || c == ' ') ==> Clean([c]) == [c]
    ensures !IsKept(c) ==> Clean([c]) == []
  {
    assert [c][1..] == [];
    assert DropTrash([c]) == (if IsKept(c) then [c] else "") + DropTrash([]);
    LowerAt(DropTrash([c]));
  }

  /** Cleaning leaves a clean string unchanged. */
  lemma {:induction false} CleanFixes(s: string)
    requires IsClean(s)
    ensures Clean(s) == s
  {
    if s != [] {
      CleanFixes(s[1..]);
      assert s == [s[0]] + s[1..];
      CleanConcat([s[0]], s[1..]);
      CleanChar(s[0]);
    }
  }

  /** `clean` is idempotent. */
  lemma {:induction false} CleanIdempotent(s: string)
    ensures Clean(Clean(s)) == Clean(s)
  {
    CleanFixes(Clean(s));
  }

  /** Collapsing runs of spaces keeps a string clean. */
  lemma {:induction false} CollapseKeepsClean(s: string)
    requires IsClean(s)
    ensures IsClean(CollapseSpaces(s))
  {
    if |s| > 1 {
      CollapseKeepsClean(s[1..]);
      CollapseOutput(s[1..]);
    }
  }

  /** The definition has at least one bold span to take its name from. */
  predicate HasName(d: Definition)
  {
    |d.bold| > 0
  }

  predicate AllNamed(ds: seq<Definition>)
  {
    forall k :: 0 <= k < |ds| ==> HasName(ds[k])
  }

  /**
   * `Definition.name`: the first bold span, cleaned, with runs of spaces collapsed.
   * Without a bold span `names[0]` raises.
   */
  function Name(d: Definition): (r: Result<string, Error>)
    ensures r.Ok? <==> HasName(d)
  {
    if |d.bold| == 0 then Err(MissingName) else Ok(CollapseSpaces(Clean(d.bold[0])))
  }

  /**
   * A name holds only `а-я` and single spaces, and has the same letters, in the same
   * order, as the cleaned first bold span.
   */
  lemma {:induction false} NameIsClean(d: Definition)
    requires HasName(d)
    ensures IsClean(Name(d).value) && NoDoubleSpace(Name(d).value)
    ensures RemoveChar(Name(d).value, ' ') == RemoveChar(Clean(d.bold[0]), ' ')
  {
    CollapseKeepsClean(Clean(d.bold[0]));
    CollapseOutput(Clean(d.bold[0]));
  }

  /**
   * `Definition.text`: the whole environment, cleaned, with runs of spaces
   * collapsed. It holds only `а-я` and single spaces, and has the letters of the
   * cleaned environment, the name among them, in order.
   */
  function Text(d: Definition): (r: string)
    ensures IsClean(r) && NoDoubleSpace(r)
    ensures RemoveChar(r, ' ') == RemoveChar(Clean(d.source), ' ')
  {
    CollapseKeepsClean(Clean(d.source));
    CollapseOutput(Clean(d.source));
    CollapseSpaces(Clean(d.source))
  }
}
