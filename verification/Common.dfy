/** What several components share: optional values, searching a sequence, and
    rounding. */
module Common {

  datatype Option<T> = None | Some(value: T)

  lemma SomeMember<T>(s: set<T>) returns (x: T)
    requires s != {}
    ensures x in s
  {
    x :| x in s;
  }

  /** `strings.IndexByte`: the first place of x, or -1. */
  function IndexOf<T(==)>(s: seq<T>, x: T): (i: int)
    ensures -1 <= i < |s|
    ensures i >= 0 ==> s[i] == x && forall k | 0 <= k < i :: s[k] != x
    ensures i < 0 <==> x !in s
  {
    if s == [] then -1
    else if s[0] == x then 0
    else
      var j := IndexOf(s[1..], x);
      assert s == [s[0]] + s[1..];
      if j < 0 then -1 else j + 1
  }

  lemma FirstIsUnique<T>(a: seq<T>, x: T, rest: seq<T>)
    requires x !in a
    ensures IndexOf(a + [x] + rest, x) == |a|
  {
    hide IndexOf;
    var s := a + [x] + rest;
    assert s[|a|] == x;
    assert forall k | 0 <= k < |a| :: s[k] == a[k];
  }

  /** `strings.LastIndexByte`: the last place of x, or -1. */
  function LastIndexOf<T(==)>(s: seq<T>, x: T): (i: int)
    ensures -1 <= i < |s|
    ensures i >= 0 ==> s[i] == x && forall k | i < k < |s| :: s[k] != x
    ensures i < 0 <==> x !in s
    decreases |s|
  {
    if s == [] then -1
    else if s[|s| - 1] == x then |s| - 1
    else
      var init := s[..|s| - 1];
      assert s == init + [s[|s| - 1]];
      LastIndexOf(init, x)
  }

  lemma {:induction false} LastIsUnique<T>(a: seq<T>, x: T, rest: seq<T>)
    requires x !in rest
    ensures LastIndexOf(a + [x] + rest, x) == |a|
    decreases |rest|
  {
    var s := a + [x] + rest;
    if rest == [] {
      assert s == a + [x];
    } else {
      var init := rest[..|rest| - 1];
      assert s[..|s| - 1] == a + [x] + init;
      assert s[|s| - 1] == rest[|rest| - 1];
      LastIsUnique(a, x, init);
    }
  }

  /** `math.Round`: to the nearest integer, halves away from zero. */
  function Round(x: real): int {
    if x < 0.0 then -(0.5 - x).Floor else (x + 0.5).Floor
  }

  /** No integer is nearer, and of two equally near it is the one further from zero. */
  lemma RoundIsTheNearest(x: real, n: int)
    ensures var d := Round(x) as real - x;
      && -0.5 <= d <= 0.5 && (d == -0.5 ==> x < 0.0) && (d == 0.5 ==> x > 0.0)
    ensures n != Round(x) ==> n as real - x >= 0.5 || x - n as real >= 0.5
  {
  }
}
