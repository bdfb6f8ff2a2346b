/**
 * The Python string built-ins that the lecture pipeline relies on, over
 * `string` (a sequence of Unicode scalar values).
 */
module PyStr {

  /** Number of occurrences of `c` in `s`. */
  function Count(s: string, c: char): nat
  {
    if s == [] then 0 else (if s[0] == c then 1 else 0) + Count(s[1..], c)
  }

  /** Python's `x in s` on strings: `x` occurs in `s` as a contiguous block. */
  predicate IsSubstring(x: string, s: string)
  {
    exists i :: 0 <= i <= |s| && x <= s[i..]
  }

  /** The empty string occurs in every string. */
  lemma {:induction false} EmptyIsSubstring(s: string)
    ensures IsSubstring("", s)
  {
    assert "" <= s[0..];
  }

  /** Python's `s.replace(c, '')`: `s` with every `c` removed, the rest in order. */
  function RemoveChar(s: string, c: char): string
  {
    if s == [] then "" else (if s[0] == c then "" else [s[0]]) + RemoveChar(s[1..], c)
  }

  /** After `replace(c, '')` no `c` is left, and exactly the `c`s are gone. */
  lemma {:induction false} RemoveCharOutput(s: string, c: char)
    ensures c !in RemoveChar(s, c)
    ensures |RemoveChar(s, c)| == |s| - Count(s, c)
  {
    if s != [] {
      RemoveCharOutput(s[1..], c);
    }
  }

  /** Removing a character that does not occur changes nothing. */
  lemma {:induction false} RemoveCharAbsent(s: string, c: char)
    requires c !in s
    ensures RemoveChar(s, c) == s
  {
    if s != [] {
      assert s == [s[0]] + s[1..];
      RemoveCharAbsent(s[1..], c);
    }
  }

  /** The capitals whose `str.lower()` mapping the model knows: basic Latin and basic Cyrillic. */
  predicate IsUpper(c: char)
  {
    'A' <= c <= 'Z' || 'А' <= c <= 'Я' || 'Ѐ' <= c <= 'Џ'
  }

  /** `c.lower()` for one character. */
  function LowerChar(c: char): (r: char)
    ensures !IsUpper(r)
    ensures !IsUpper(c) ==> r == c
    ensures 'A' <= c <= 'Z' ==> 'a' <= r <= 'z' && r as int == c as int + 0x20
    ensures 'А' <= c <= 'Я' ==> 'а' <= r <= 'я' && r as int == c as int + 0x20
    ensures 'Ѐ' <= c <= 'Џ' ==> 'ѐ' <= r <= 'џ' && r as int == c as int + 0x50
  {
    if 'A' <= c <= 'Z' || 'А' <= c <= 'Я' then (c as int + 0x20) as char
    else if 'Ѐ' <= c <= 'Џ' then (c as int + 0x50) as char
    else c
  }

  /** Python's `s.lower()`, one character at a time. */
  function Lower(s: string): string
  {
    if s == [] then "" else [LowerChar(s[0])] + Lower(s[1..])
  }

  /** `lower()` keeps the length and maps every position with LowerChar. */
  lemma {:induction false} LowerAt(s: string)
    ensures |Lower(s)| == |s|
    ensures forall k :: 0 <= k < |s| ==> Lower(s)[k] == LowerChar(s[k])
  {
    if s != [] {
      LowerAt(s[1..]);
    }
  }

  /** Lowering twice is the same as lowering once. */
  lemma {:induction false} LowerIdempotent(s: string)
    ensures Lower(Lower(s)) == Lower(s)
  {
    if s != [] {
      LowerIdempotent(s[1..]);
      assert Lower(s)[1..] == Lower(s[1..]);
    }
  }

  lemma {:induction false} LowerConcat(a: string, b: string)
    ensures Lower(a + b) == Lower(a) + Lower(b)
  {
    LowerAt(a + b);
    LowerAt(a);
    LowerAt(b);
    assert |Lower(a + b)| == |Lower(a) + Lower(b)|;
    forall k | 0 <= k < |a| + |b| ensures Lower(a + b)[k] == (Lower(a) + Lower(b))[k] {
      if k < |a| { assert (a + b)[k] == a[k]; } else { assert (a + b)[k] == b[k - |a|]; }
    }
  }

  /** Python's `s.split(' ')`: the pieces between single spaces; `''.split(' ') == ['']`. */
  function Split(s: string): (r: seq<string>)
    ensures |r| > 0
  {
    if s == [] then [""]
    else
      var rest := Split(s[1..]);
      if s[0] == ' ' then [""] + rest else [[s[0]] + rest[0]] + rest[1..]
  }

  /** One piece more than there are spaces, and no piece holds a space. */
  lemma {:induction false} SplitPieces(s: string)
    ensures |Split(s)| == Count(s, ' ') + 1
    ensures forall k :: 0 <= k < |Split(s)| ==> ' ' !in Split(s)[k]
  {
    if s != [] {
      SplitPieces(s[1..]);
    }
  }

  /** Python's `' '.join(ts)`. */
  function Join(ts: seq<string>): string
  {
    if ts == [] then "" else if |ts| == 1 then ts[0] else ts[0] + " " + Join(ts[1..])
  }

  /** The total number of characters in the pieces `ts`. */
  function TotalLength(ts: seq<string>): nat
  {
    if ts == [] then 0 else |ts[0]| + TotalLength(ts[1..])
  }

  /** `' '.join(ts)` has the characters of every piece plus one space between each two. */
  lemma {:induction false} JoinLength(ts: seq<string>)
    ensures ts == [] ==> Join(ts) == ""
    ensures ts != [] ==> |Join(ts)| == TotalLength(ts) + |ts| - 1
  {
    if |ts| > 1 {
      JoinLength(ts[1..]);
    }
  }

  /** Splitting a string whose first part has no space keeps that part in front of the first piece. */
  lemma {:induction false} SplitAfterWord(x: string, y: string)
    requires ' ' !in x
    ensures Split(x + y) == [x + Split(y)[0]] + Split(y)[1..]
  {
    if x == [] {
      assert x + y == y;
      assert x + Split(y)[0] == Split(y)[0];
      assert Split(y) == [Split(y)[0]] + Split(y)[1..];
    } else {
      assert (x + y)[1..] == x[1..] + y;
      SplitAfterWord(x[1..], y);
      assert [x[0]] + (x[1..] + Split(y)[0]) == x + Split(y)[0];
    }
  }

  /** Joining a list of two or more pieces puts a space after the first. */
  lemma {:induction false} JoinCons(t: string, ts: seq<string>)
    requires ts != []
    ensures Join([t] + ts) == t + " " + Join(ts)
  {
    assert ([t] + ts)[1..] == ts;
  }

  /** `' '.join` undoes `split(' ')`, for every string. */
  lemma {:induction false} JoinSplit(s: string)
    ensures Join(Split(s)) == s
  {
    if s != [] {
      var rest := Split(s[1..]);
      JoinSplit(s[1..]);
      assert s == [s[0]] + s[1..];
      if s[0] == ' ' {
        JoinCons("", rest);
      } else {
        var ts := [[s[0]] + rest[0]] + rest[1..];
        assert Split(s) == ts;
        if |rest| == 1 {
          assert Join(ts) == [s[0]] + Join(rest);
        } else {
          assert rest == [rest[0]] + rest[1..];
          JoinCons([s[0]] + rest[0], rest[1..]);
          JoinCons(rest[0], rest[1..]);
          assert Join(ts) == [s[0]] + Join(rest);
        }
      }
    }
  }

  /** `split(' ')` undoes `' '.join` for a non-empty list of pieces without spaces. */
  lemma {:induction false} SplitJoin(ts: seq<string>)
    requires ts != []
    requires forall k :: 0 <= k < |ts| ==> ' ' !in ts[k]
    ensures Split(Join(ts)) == ts
  {
    if |ts| == 1 {
      SplitAfterWord(ts[0], "");
      assert ts[0] + "" == ts[0];
    } else {
      var j := Join(ts[1..]);
      SplitJoin(ts[1..]);
      assert Join(ts) == ts[0] + (" " + j);
      assert (" " + j)[1..] == j;
      assert Split(" " + j) == [""] + Split(j);
      SplitAfterWord(ts[0], " " + j);
      assert ts[0] + "" == ts[0];
      assert ts == [ts[0]] + ts[1..];
    }
  }

  /** No two adjacent characters of `s` are both spaces. */
  predicate NoDoubleSpace(s: string)
  {
    |s| < 2 || (!(s[0] == ' ' && s[1] == ' ') && NoDoubleSpace(s[1..]))
  }

  /** The number of runs of spaces in `s`, counted at the last space of each run. */
  function SpaceRuns(s: string): nat
  {
    if s == [] then 0 else (if s[0] == ' ' && (|s| == 1 || s[1] != ' ') then 1 else 0) + SpaceRuns(s[1..])
  }

  /** Python's `re.sub(r' +', ' ', s)`: every run of spaces becomes a single space. */
  function CollapseSpaces(s: string): string
  {
    if |s| <= 1 then s
    else if s[0] == ' ' && s[1] == ' ' then CollapseSpaces(s[1..])
    else [s[0]] + CollapseSpaces(s[1..])
  }

  /**
   * The result has no two adjacent spaces, is no longer than `s`, starts like `s`,
   * keeps every other character of `s` in order and holds one space per run of
   * spaces of `s`.
   */
  lemma {:induction false} CollapseOutput(s: string)
    ensures |CollapseSpaces(s)| <= |s|
    ensures |s| > 0 ==> |CollapseSpaces(s)| > 0 && CollapseSpaces(s)[0] == s[0]
    ensures NoDoubleSpace(CollapseSpaces(s))
    ensures RemoveChar(CollapseSpaces(s), ' ') == RemoveChar(s, ' ')
    ensures Count(CollapseSpaces(s), ' ') == SpaceRuns(s)
  {
    if |s| > 1 {
      CollapseOutput(s[1..]);
      var t := CollapseSpaces(s[1..]);
      if !(s[0] == ' ' && s[1] == ' ') {
        assert ([s[0]] + t)[1..] == t;
      }
    }
  }

  /** A run of one or more spaces becomes a single space. */
  lemma {:induction false} CollapseRun(s: string)
    requires |s| > 0 && forall k :: 0 <= k < |s| ==> s[k] == ' '
    ensures CollapseSpaces(s) == " "
  {
    if |s| > 1 {
      CollapseRun(s[1..]);
    }
  }

  /**
   * Collapsing works run by run: where `a` and `b` do not meet inside a run of
   * spaces, `a + b` collapses to the collapsed `a` followed by the collapsed `b`.
   */
  lemma {:induction false} CollapseConcat(a: string, b: string)
    requires a == [] || b == [] || a[|a| - 1] != ' ' || b[0] != ' '
    ensures CollapseSpaces(a + b) == CollapseSpaces(a) + CollapseSpaces(b)
  {
    if a == [] {
      assert a + b == b;
    } else if b == [] {
      assert a + b == a;
    } else if |a| == 1 {
      var ab := a + b;
      assert ab[0] == a[0] && ab[1] == b[0] && ab[1..] == b;
      assert CollapseSpaces(ab) == [a[0]] + CollapseSpaces(b);
    } else {
      var ab := a + b;
      assert ab[0] == a[0] && ab[1] == a[1] && ab[1..] == a[1..] + b;
      assert a[1..][|a| - 2] == a[|a| - 1];
      CollapseConcat(a[1..], b);
    }
  }

  /** A string without runs of spaces is left as it is. */
  lemma {:induction false} CollapseFixes(s: string)
    requires NoDoubleSpace(s)
    ensures CollapseSpaces(s) == s
  {
    if |s| > 1 {
      CollapseFixes(s[1..]);
      assert s == [s[0]] + s[1..];
    }
  }

  /** Collapsing runs of spaces is idempotent. */
  lemma {:induction false} CollapseIdempotent(s: string)
    ensures CollapseSpaces(CollapseSpaces(s)) == CollapseSpaces(s)
  {
    CollapseOutput(s);
    CollapseFixes(CollapseSpaces(s));
  }
}
