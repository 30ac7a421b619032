/**
 "The distinct values of a sequence, each once, in order of first
 appearance": the shape shared by the two facet lists and by the keys of
 the location dictionary.
 */
module Distinct {

  /** Position of the first occurrence of `x` in `s`, or `|s|` when absent. */
  function IndexOf(s: seq<string>, x: string): (k: nat)
    ensures k <= |s|
    ensures k < |s| <==> x in s
    ensures k < |s| ==> s[k] == x
    ensures forall j :: 0 <= j < k ==> s[j] != x
  {
    if s == [] then 0
    else if s[0] == x then 0
    else 1 + IndexOf(s[1..], x)
  }

  ghost predicate NoDuplicates(s: seq<string>) {
    forall i, j :: 0 <= i < j < |s| ==> s[i] != s[j]
  }

  /**
   `r` lists every value of `s` exactly once, and no other value, ordered by
   where each value first occurs in `s`.
   */
  ghost predicate FirstAppearanceOrder(r: seq<string>, s: seq<string>) {
    && NoDuplicates(r)
    && (forall x :: x in r <==> x in s)
    && (forall i, j {:trigger IndexOf(s, r[i]), IndexOf(s, r[j])} :: 0 <= i < j < |r| ==> IndexOf(s, r[i]) < IndexOf(s, r[j]))
  }

  /** Appending to `s` does not move the first occurrence of a value already in `s`. */
  lemma IndexOfAppend(s: seq<string>, v: string, x: string)
    ensures x in s ==> IndexOf(s + [v], x) == IndexOf(s, x)
    ensures x !in s && x == v ==> IndexOf(s + [v], x) == |s|
  {
    var k, k' := IndexOf(s, x), IndexOf(s + [v], x);
    if x in s {
      assert (s + [v])[k] == x;
    } else if x == v {
      assert (s + [v])[|s|] == x;
    }
  }

  /**
   One step of the "if not includes then push" accumulator: keeping the
   first-appearance order of `s` when `s` grows by one value.
   */
  lemma FirstAppearanceStep(acc: seq<string>, s: seq<string>, v: string)
    requires FirstAppearanceOrder(acc, s)
    ensures v in acc ==> FirstAppearanceOrder(acc, s + [v])
    ensures v !in acc ==> FirstAppearanceOrder(acc + [v], s + [v])
  {
    forall x | x in s {
      IndexOfAppend(s, v, x);
    }
    if v !in acc {
      IndexOfAppend(s, v, v);
      var r := acc + [v];
      forall i, j | 0 <= i < j < |r|
        ensures IndexOf(s + [v], r[i]) < IndexOf(s + [v], r[j])
      {
        assert r[i] in acc;
        if j == |acc| {
          assert r[i] in s;
        }
      }
    }
  }

  /**
   A sequence in first-appearance order of `s` is determined by `s` alone,
   so a contract stating `FirstAppearanceOrder(r, s)` pins `r` down completely.
   */
  lemma {:induction false} FirstAppearanceUnique(r1: seq<string>, r2: seq<string>, s: seq<string>)
    requires FirstAppearanceOrder(r1, s) && FirstAppearanceOrder(r2, s)
    ensures r1 == r2
    decreases |s|
  {
    if s == [] {
      HeadIsElement(r1);
      HeadIsElement(r2);
    } else {
      var s', v := s[..|s| - 1], s[|s| - 1];
      assert s == s' + [v];
      forall x | x in s' {
        IndexOfAppend(s', v, x);
      }
      if v in s' {
        FirstAppearancePrefix(r1, s', v);
        FirstAppearancePrefix(r2, s', v);
        FirstAppearanceUnique(r1, r2, s');
      } else {
        var r1' := FirstAppearanceDropNew(r1, s', v);
        var r2' := FirstAppearanceDropNew(r2, s', v);
        FirstAppearanceUnique(r1', r2', s');
      }
    }
  }

  lemma HeadIsElement(r: seq<string>)
    ensures r != [] ==> r[0] in r
  {
  }

  /** When the last value of `s` already occurred earlier, it adds nothing. */
  lemma FirstAppearancePrefix(r: seq<string>, s': seq<string>, v: string)
    requires v in s'
    requires FirstAppearanceOrder(r, s' + [v])
    ensures FirstAppearanceOrder(r, s')
  {
    forall x | x in s' {
      IndexOfAppend(s', v, x);
    }
    forall i, j | 0 <= i < j < |r|
      ensures IndexOf(s', r[i]) < IndexOf(s', r[j])
    {
      assert r[i] in s' + [v] && r[j] in s' + [v];
    }
  }

  /** When the last value of `s` is new, it is the last entry of `r`. */
  lemma NewValueIsLast(r: seq<string>, s': seq<string>, v: string)
    requires v !in s'
    requires FirstAppearanceOrder(r, s' + [v])
    ensures r != [] && r[|r| - 1] == v
  {
    var s := s' + [v];
    IndexOfAppend(s', v, v);
    assert v in r;
    var k := IndexOf(r, v);
    assert IndexOf(s, r[k]) == |s'|;
    var last := r[|r| - 1];
    if last != v {
      assert last in r && last in s;
      assert last in s';
      IndexOfAppend(s', v, last);
    }
    assert last == v || IndexOf(s, r[|r| - 1]) < |s'|;
  }

  /** Dropping that last entry leaves the first-appearance order of the shorter `s`. */
  lemma FirstAppearanceDropNew(r: seq<string>, s': seq<string>, v: string) returns (r': seq<string>)
    requires v !in s'
    requires FirstAppearanceOrder(r, s' + [v])
    ensures r == r' + [v]
    ensures FirstAppearanceOrder(r', s')
  {
    NewValueIsLast(r, s', v);
    r' := r[..|r| - 1];
    assert r == r' + [v];
    forall x | x in s' {
      IndexOfAppend(s', v, x);
    }
    forall x ensures x in r' <==> x in s' {
      if x in r' || x in s' {
        assert x in r && x != v;
      }
    }
    forall i, j | 0 <= i < j < |r'|
      ensures IndexOf(s', r'[i]) < IndexOf(s', r'[j])
    {
      assert r'[i] == r[i] && r'[j] == r[j];
      assert r[i] in s' && r[j] in s';
    }
  }
}
