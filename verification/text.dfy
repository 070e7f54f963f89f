/** The parts of Go's `strings` package the program relies on, over strings of
    one char per byte. */
module GoText {

  ghost predicate OccursAt(s: string, sub: string, i: int) {
    0 <= i && i + |sub| <= |s| && s[i..i + |sub|] == sub
  }

  /** strings.Index starting the search at `i`. */
  function IndexFrom(s: string, sub: string, i: nat): (r: int)
    requires i <= |s|
    ensures r == -1 || i <= r
    ensures r >= 0 ==> OccursAt(s, sub, r)
    ensures forall j :: i <= j && (r >= 0 ==> j < r) ==> !OccursAt(s, sub, j)
    decreases |s| - i
  {
    if i + |sub| > |s| then -1
    else if s[i..i + |sub|] == sub then i
    else if i == |s| then -1
    else IndexFrom(s, sub, i + 1)
  }

  /** strings.Index: the first occurrence, or -1. */
  function Index(s: string, sub: string): (r: int)
    ensures r == -1 || 0 <= r <= |s| - |sub|
    ensures r >= 0 ==> OccursAt(s, sub, r)
    ensures forall j :: 0 <= j && (r >= 0 ==> j < r) ==> !OccursAt(s, sub, j)
  {
    IndexFrom(s, sub, 0)
  }

  /** strings.Contains */
  predicate Contains(s: string, sub: string)
    ensures Contains(s, sub) <==> exists i :: OccursAt(s, sub, i)
  {
    Index(s, sub) >= 0
  }

  /** strings.IndexAny: the first position holding one of `chars`, or -1. */
  function IndexAny(s: string, chars: set<char>): (r: int)
    ensures r == -1 ==> forall i :: 0 <= i < |s| ==> s[i] !in chars
    ensures r >= 0 ==> r < |s| && s[r] in chars && forall i :: 0 <= i < r ==> s[i] !in chars
    ensures r >= -1
  {
    if s == "" then -1
    else if s[0] in chars then 0
    else
      var r := IndexAny(s[1..], chars);
      if r < 0 then -1 else r + 1
  }

  /** strings.TrimLeft */
  function TrimLeft(s: string, cutset: set<char>): string {
    if s != "" && s[0] in cutset then TrimLeft(s[1..], cutset) else s
  }

  /** strings.TrimRight */
  function TrimRight(s: string, cutset: set<char>): string {
    if s != "" && s[|s| - 1] in cutset then TrimRight(s[..|s| - 1], cutset) else s
  }

  /** strings.Trim */
  function Trim(s: string, cutset: set<char>): string {
    TrimRight(TrimLeft(s, cutset), cutset)
  }

  /** White space within ASCII: tab, newline, vertical tab, form feed, carriage
      return and blank. */
  const SPACES: set<char> := {'\t', '\n', '\U{B}', '\U{C}', '\r', ' '}

  /** strings.TrimSpace */
  function TrimSpace(s: string): string {
    Trim(s, SPACES)
  }

  /** strings.ToLower on ASCII letters. */
  function ToLower(s: string): (r: string)
    ensures |r| == |s|
  {
    seq(|s|, i requires 0 <= i < |s| => if 'A' <= s[i] <= 'Z' then s[i] + '\U{20}' else s[i])
  }

  predicate HasSuffix(s: string, p: string) {
    |p| <= |s| && s[|s| - |p|..] == p
  }

  // ------------------------------------------------------- occurrences

  /** A char of the pattern that the text lacks there rules an occurrence out. */
  lemma Mismatch(s: string, sub: string, i: int, k: nat)
    requires k < |sub| && 0 <= i + k < |s| && s[i + k] != sub[k]
    ensures !OccursAt(s, sub, i)
  {
    if 0 <= i && i + |sub| <= |s| {
      assert s[i..i + |sub|][k] == s[i + k];
    }
  }

  /** A text cut at a char the pattern does not have: no occurrence straddles it. */
  lemma ContainsAcross(a: string, c: char, b: string, sub: string)
    requires c !in sub && sub != ""
    ensures Contains(a + [c] + b, sub) <==> Contains(a, sub) || Contains(b, sub)
  {
    assert a + [c] + b == a + ([c] + b);
    AcrossParts(a + [c] + b, a, [c] + b, a + [c], b, sub);
  }

  /** The same with the two ways of cutting the text named. */
  lemma AcrossParts(s: string, a: string, cb: string, ac: string, b: string, sub: string)
    requires s == a + cb && s == ac + b && |ac| == |a| + 1 && cb != "" && cb[0] !in sub && sub != ""
    ensures Contains(s, sub) <==> Contains(a, sub) || Contains(b, sub)
  {
    assert s[|a|] == cb[0];
    forall i: nat | |a| - |sub| < i <= |a|
      ensures !OccursAt(s, sub, i)
    {
      Mismatch(s, sub, i, |a| - i);
    }
    hide OccursAt;
    var i, j, k := Index(a, sub), Index(b, sub), Index(s, sub);
    if i >= 0 {
      OccursPrefix(a, cb, sub, i);
      assert OccursAt(s, sub, i);
    }
    if j >= 0 {
      OccursShift(ac, b, sub, j);
      assert OccursAt(s, sub, |ac| + j);
    }
    if 0 <= k <= |a| - |sub| {
      OccursPrefix(a, cb, sub, k);
      assert OccursAt(a, sub, k);
    } else if k > |a| {
      OccursShift(ac, b, sub, k - |ac|);
      assert OccursAt(b, sub, k - |ac|);
    }
  }

  /** Occurrences in the first part of a text. */
  lemma OccursPrefix(p: string, tail: string, sub: string, i: nat)
    requires i + |sub| <= |p|
    ensures OccursAt(p + tail, sub, i) <==> OccursAt(p, sub, i)
  {
    var a, b := (p + tail)[i..i + |sub|], p[i..i + |sub|];
    assert |a| == |b|;
    forall k | 0 <= k < |sub|
      ensures a[k] == b[k]
    {
      assert a[k] == (p + tail)[i + k] == p[i + k];
    }
  }

  /** Occurrences in the second part of a text. */
  lemma OccursShift(p: string, tail: string, sub: string, i: nat)
    ensures OccursAt(p + tail, sub, |p| + i) <==> OccursAt(tail, sub, i)
  {
    if i + |sub| <= |tail| {
      var a, b := (p + tail)[|p| + i..|p| + i + |sub|], tail[i..i + |sub|];
      assert |a| == |b|;
      forall k | 0 <= k < |sub|
        ensures a[k] == b[k]
      {
        assert a[k] == (p + tail)[|p| + i + k] == tail[i + k];
      }
    }
  }

  /** Text before the first possible start of the pattern does not matter. */
  lemma ContainsAfter(p: string, s: string, sub: string)
    requires sub != "" && sub[0] !in p
    ensures Contains(p + s, sub) <==> Contains(s, sub)
  {
    forall i | 0 <= i && i + |sub| <= |p + s|
      ensures OccursAt(p + s, sub, i) <==> OccursAt(s, sub, i - |p|)
    {
      if i < |p| {
        assert (p + s)[i] == p[i];
        Mismatch(p + s, sub, i, 0);
      } else {
        assert (p + s)[i..i + |sub|] == s[i - |p|..i - |p| + |sub|];
      }
    }
    forall i | OccursAt(s, sub, i)
      ensures OccursAt(p + s, sub, i + |p|)
    {
      assert (p + s)[i + |p|..i + |p| + |sub|] == s[i..i + |sub|];
    }
  }

  /** The first occurrence is where it is if nothing occurs earlier. */
  lemma IndexIs(s: string, sub: string, k: nat)
    requires OccursAt(s, sub, k)
    requires forall j :: 0 <= j < k ==> !OccursAt(s, sub, j)
    ensures Index(s, sub) == k
  {
  }

  /** A text without one of the pattern's chars does not contain the pattern. */
  lemma MissingChar(s: string, sub: string, k: nat)
    requires k < |sub| && sub[k] !in s
    ensures !Contains(s, sub)
  {
    forall i | 0 <= i && i + |sub| <= |s|
      ensures !OccursAt(s, sub, i)
    {
      Mismatch(s, sub, i, k);
    }
  }

  /** A pattern that goes on after a char cannot occur where that char comes last. */
  lemma MissingBeforeLast(h: string, c: char, sub: string, k: nat)
    requires k + 1 < |sub| && sub[k] == c && c !in h
    ensures !Contains(h + [c], sub)
  {
    forall i | 0 <= i && i + |sub| <= |h + [c]|
      ensures !OccursAt(h + [c], sub, i)
    {
      Mismatch(h + [c], sub, i, k);
    }
  }

  // ------------------------------------------------------- trimming

  lemma {:induction false} TrimLeftStops(s: string, cutset: set<char>)
    ensures var r := TrimLeft(s, cutset);
            |r| <= |s| && r == s[|s| - |r|..] && (r != "" ==> r[0] !in cutset) &&
            forall i :: 0 <= i < |s| - |r| ==> s[i] in cutset
  {
    if s == "" || s[0] !in cutset {
    } else {
      TrimLeftStops(s[1..], cutset);
      var r := TrimLeft(s, cutset);
      assert forall i :: 1 <= i < |s| - |r| ==> s[i] == s[1..][i - 1];
    }
  }

  lemma {:induction false} TrimRightStops(s: string, cutset: set<char>)
    ensures var r := TrimRight(s, cutset);
            |r| <= |s| && r == s[..|r|] && (r != "" ==> r[|r| - 1] !in cutset) &&
            forall i :: |r| <= i < |s| ==> s[i] in cutset
  {
    if s == "" || s[|s| - 1] !in cutset {
    } else {
      TrimRightStops(s[..|s| - 1], cutset);
    }
  }

  /** Leading cut chars in front of text that starts with a kept char. */
  lemma {:induction false} TrimLeftConcat(a: string, b: string, cutset: set<char>)
    requires b != "" && b[0] !in cutset
    ensures TrimLeft(a + b, cutset) == TrimLeft(a, cutset) + b
  {
    if a == "" {
      assert a + b == b;
    } else if a[0] in cutset {
      TrimLeftConcat(a[1..], b, cutset);
      assert (a + b)[1..] == a[1..] + b;
    }
  }

  lemma {:induction false} TrimRightConcat(a: string, b: string, cutset: set<char>)
    requires a != "" && a[|a| - 1] !in cutset
    ensures TrimRight(a + b, cutset) == a + TrimRight(b, cutset)
  {
    if b == "" {
      assert a + b == a;
    } else if b[|b| - 1] in cutset {
      TrimRightConcat(a, b[..|b| - 1], cutset);
      assert (a + b)[..|a + b| - 1] == a + b[..|b| - 1];
    }
  }
}
