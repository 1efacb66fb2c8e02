/** DXCC lookup by callsign: the in-place sort of the prefix table, the lookup it
    makes correct, and the cleaning of aliases. */
module CtyPrefix {
  import opened Common
  import opened Text

  datatype Entry = Entry(name: string, dxcc: int, cqZone: int, ituZone: int)

  datatype Found = NotFound | Is(entry: Entry)

  datatype PrefixEntry = PrefixEntry(prefix: string, entry: Entry)

  // ── the sort ─────────────────────────────────────────────────────────────

  /** Longer first, then in byte order. */
  predicate Precedes(x: PrefixEntry, y: PrefixEntry) {
    |x.prefix| > |y.prefix| || (|x.prefix| == |y.prefix| && Before(x.prefix, y.prefix))
  }

  predicate NotAfter(x: PrefixEntry, y: PrefixEntry) { !Precedes(y, x) }

  lemma NotAfterTransitive(x: PrefixEntry, y: PrefixEntry, z: PrefixEntry)
    requires NotAfter(x, y) && NotAfter(y, z)
    ensures NotAfter(x, z)
  {
    if |x.prefix| == |y.prefix| == |z.prefix| {
      BeforeTotal(x.prefix, y.prefix);
      BeforeTotal(y.prefix, z.prefix);
      if Before(x.prefix, y.prefix) && Before(y.prefix, z.prefix) {
        BeforeTransitive(x.prefix, y.prefix, z.prefix);
        BeforeAsymmetric(x.prefix, z.prefix);
      }
    }
  }

  lemma PrecedesIsNotAfter(x: PrefixEntry, y: PrefixEntry)
    requires Precedes(x, y)
    ensures NotAfter(x, y)
  {
    if |x.prefix| == |y.prefix| { BeforeAsymmetric(x.prefix, y.prefix); }
  }

  predicate Ranked(s: seq<PrefixEntry>) {
    forall i, j | 0 <= i < j < |s| :: NotAfter(s[i], s[j])
  }

  /** In a ranked table no prefix stands behind a shorter one, and prefixes of one length
      stand in alphabetic order. */
  lemma RankedInLengthAndAlphabet(s: seq<PrefixEntry>, i: nat, j: nat, k: nat)
    requires Ranked(s) && i < j < |s|
    ensures |s[i].prefix| >= |s[j].prefix|
    ensures |s[i].prefix| == |s[j].prefix| && k < |s[i].prefix| && s[i].prefix[..k] == s[j].prefix[..k] ==>
      s[i].prefix[k] <= s[j].prefix[k]
  {
    var p, q := s[i].prefix, s[j].prefix;
    assert NotAfter(s[i], s[j]);
    BeforeAtTheFirstDifference(q, p);
  }

  /** The first i places are final. */
  predicate Settled(s: seq<PrefixEntry>, i: int) {
    forall k, l | 0 <= k < i && k < l < |s| :: NotAfter(s[k], s[l])
  }

  /** Place i holds the best of the places from i up to j. */
  predicate BestSoFar(s: seq<PrefixEntry>, i: int, j: int)
    requires 0 <= i < |s| && j <= |s|
  {
    forall l | i < l < j :: NotAfter(s[i], s[l])
  }

  function Swapped(s: seq<PrefixEntry>, i: nat, j: nat): seq<PrefixEntry>
    requires i < |s| && j < |s|
  {
    s[i := s[j]][j := s[i]]
  }

  /** Where the element at place l of the swapped table came from. */
  function Source(i: nat, j: nat, l: nat): nat { if l == i then j else if l == j then i else l }

  lemma SwapKeepsTheElements(s: seq<PrefixEntry>, i: nat, j: nat)
    requires i < j < |s|
    ensures multiset(Swapped(s, i, j)) == multiset(s)
    ensures forall l | 0 <= l < |s| :: Swapped(s, i, j)[l] == s[Source(i, j, l)]
  {
  }

  lemma SwapKeepsTheRest(s: seq<PrefixEntry>, i: nat, j: nat)
    requires i < j < |s| && Settled(s, i) && BestSoFar(s, i, j) && Precedes(s[j], s[i])
    ensures Settled(Swapped(s, i, j), i) && BestSoFar(Swapped(s, i, j), i, j + 1)
  {
    hide NotAfter, Precedes;
    PrecedesIsNotAfter(s[j], s[i]);
    SwapKeepsTheElements(s, i, j);
    var t := Swapped(s, i, j);
    hide Swapped;
    forall l | i < l < j + 1
      ensures NotAfter(t[i], t[l])
    {
      if l < j { NotAfterTransitive(s[j], s[i], s[l]); }
    }
    forall k, l | 0 <= k < i && k < l < |t|
      ensures NotAfter(t[k], t[l])
    {
      assert k < Source(i, j, l) < |s| && t[k] == s[k];
    }
  }

  method SortPrefixes(a: array<PrefixEntry>)
    modifies a
    ensures multiset(a[..]) == multiset(old(a[..]))
    ensures Ranked(a[..])
  {
    var i := 0;
    while i < a.Length
      invariant 0 <= i <= a.Length && Settled(a[..], i)
      invariant multiset(a[..]) == multiset(old(a[..]))
    {
      hide Settled, BestSoFar, Precedes, NotAfter;
      var j := i + 1;
      assert BestSoFar(a[..], i, j) by { NothingYet(a[..], i); }
      while j < a.Length
        invariant i < j <= a.Length && Settled(a[..], i) && BestSoFar(a[..], i, j)
        invariant multiset(a[..]) == multiset(old(a[..]))
      {
        ghost var s := a[..];
        if Precedes(a[j], a[i]) {
          SwapKeepsTheElements(s, i, j);
          SwapKeepsTheRest(s, i, j);
          a[i], a[j] := a[j], a[i];
          assert a[..] == Swapped(s, i, j);
        } else {
          OneMoreCompared(s, i, j);
        }
        j := j + 1;
      }
      BestSettles(a[..], i);
      i := i + 1;
    }
  }

  lemma NothingYet(s: seq<PrefixEntry>, i: nat)
    requires i < |s|
    ensures BestSoFar(s, i, i + 1)
  {
  }

  lemma OneMoreCompared(s: seq<PrefixEntry>, i: nat, j: nat)
    requires i < j < |s| && BestSoFar(s, i, j) && !Precedes(s[j], s[i])
    ensures BestSoFar(s, i, j + 1)
  {
  }

  lemma BestSettles(s: seq<PrefixEntry>, i: nat)
    requires i < |s| && Settled(s, i) && BestSoFar(s, i, |s|)
    ensures Settled(s, i + 1)
  {
  }

  // ── the lookup ───────────────────────────────────────────────────────────

  /** An entry stored under the longest prefix that the call starts with. */
  predicate IsLongestMatch(table: seq<PrefixEntry>, call: string, p: PrefixEntry) {
    p in table && p.prefix <= call && forall q | q in table && q.prefix <= call :: q.prefix <= p.prefix
  }

  class Db {
    var exact: map<string, Entry>
    const prefixes: array<PrefixEntry>
    var defaultEntry: Found

    predicate Valid()
      reads this, prefixes
    {
      Ranked(prefixes[..])
    }

    /** The last step of `ParseCSV`: the collected prefixes are put in order. */
    constructor (calls: map<string, Entry>, collected: array<PrefixEntry>, fallback: Found)
      modifies collected
      ensures Valid() && exact == calls && defaultEntry == fallback && prefixes == collected
      ensures multiset(prefixes[..]) == multiset(old(collected[..]))
    {
      exact, prefixes, defaultEntry := calls, collected, fallback;
      new;
      SortPrefixes(prefixes);
    }

    /** `Find`: the exact entry, else one under the longest matching prefix, else
        the default; nothing for a blank call. */
    method Find(callsign: string) returns (r: Found)
      requires Valid()
      ensures var call := Upper(Trim(callsign));
        && (call == "" ==> r == NotFound)
        && (call != "" && call in exact ==> r == Is(exact[call]))
        && (call != "" && call !in exact && (forall p | p in prefixes[..] :: !(p.prefix <= call)) ==> r == defaultEntry)
        && (call != "" && call !in exact && (exists p | p in prefixes[..] :: p.prefix <= call) ==>
              exists p :: IsLongestMatch(prefixes[..], call, p) && r == Is(p.entry))
    {
      var call := Upper(Trim(callsign));
      if call == "" { return NotFound; }
      if call in exact { return Is(exact[call]); }
      var i := 0;
      while i < prefixes.Length
        invariant 0 <= i <= prefixes.Length
        invariant forall k | 0 <= k < i :: !(prefixes[k].prefix <= call)
      {
        if prefixes[i].prefix <= call {
          FirstMatchIsLongest(prefixes[..], call, i);
          return Is(prefixes[i].entry);
        }
        i := i + 1;
      }
      return defaultEntry;
    }
  }

  lemma FirstMatchIsLongest(table: seq<PrefixEntry>, call: string, i: nat)
    requires Ranked(table) && i < |table| && table[i].prefix <= call
    requires forall k | 0 <= k < i :: !(table[k].prefix <= call)
    ensures IsLongestMatch(table, call, table[i])
  {
    forall q | q in table && q.prefix <= call
      ensures q.prefix <= table[i].prefix
    {
      var k :| 0 <= k < |table| && table[k] == q;
      assert k == i || NotAfter(table[i], table[k]);
      assert |q.prefix| <= |table[i].prefix|;
    }
  }

  /** All longest matches are stored under one and the same prefix. */
  lemma LongestMatchesShareThePrefix(table: seq<PrefixEntry>, call: string, p: PrefixEntry, q: PrefixEntry)
    requires IsLongestMatch(table, call, p) && IsLongestMatch(table, call, q)
    ensures p.prefix == q.prefix
  {
    assert p.prefix <= q.prefix && q.prefix <= p.prefix;
  }

  // ── zone overrides ───────────────────────────────────────────────────────

  /** The text without the stretch from the first opening character to the first
      closing one after it. */
  function Removed(s: string, open: char, close: char): string {
    var idx := IndexOf(s, open);
    if idx < 0 then s
    else
      var end := IndexOf(s[idx..], close);
      if end < 0 then s else s[..idx] + s[idx + end + 1..]
  }

  /** One round of the loop. */
  function Cleaned(s: string): string { Removed(Removed(s, '[', ']'), '(', ')') }

  predicate ClosedPair(s: string, open: char, close: char) {
    exists i, j | 0 <= i < j < |s| :: s[i] == open && s[j] == close
  }

  lemma RemovedShrinks(s: string, open: char, close: char)
    requires open != close
    ensures |Removed(s, open, close)| <= |s|
    ensures Removed(s, open, close) == s <==> !ClosedPair(s, open, close)
    ensures Removed(s, open, close) != s ==> |Removed(s, open, close)| < |s|
  {
    hide IndexOf;
    var idx := IndexOf(s, open);
    if idx >= 0 {
      var end := IndexOf(s[idx..], close);
      if end >= 0 {
        assert s[idx + end] == close && end > 0;
      } else {
        NoPairAfter(s, open, close, idx);
      }
    }
  }

  lemma NoPairAfter(s: string, open: char, close: char, idx: nat)
    requires idx < |s| && (forall k | 0 <= k < idx :: s[k] != open) && close !in s[idx..]
    ensures !ClosedPair(s, open, close)
  {
    forall i, j | 0 <= i < j < |s| && s[i] == open
      ensures s[j] != close
    {
      assert s[j] == s[idx..][j - idx];
    }
  }

  lemma CleanedShrinks(s: string)
    ensures Cleaned(s) != s ==> |Cleaned(s)| < |s|
    ensures Cleaned(s) == s <==> !ClosedPair(s, '[', ']') && !ClosedPair(s, '(', ')')
  {
    hide Removed;
    RemovedShrinks(s, '[', ']');
    RemovedShrinks(Removed(s, '[', ']'), '(', ')');
  }

  function Stripped(s: string): string
    decreases |s|
  {
    CleanedShrinks(s);
    if Cleaned(s) == s then s else Stripped(Cleaned(s))
  }

  method StripZoneOverrides(alias: string) returns (s: string)
    ensures s == Stripped(alias)
  {
    s := alias;
    var going := true;
    while going
      invariant Stripped(alias) == Stripped(s)
      invariant !going ==> Cleaned(s) == s
      decreases |s| + if going then 1 else 0
    {
      CleanedShrinks(s);
      var before := s;
      s := Removed(s, '[', ']');
      s := Removed(s, '(', ')');
      if s == before { going := false; }
    }
  }

  /** No closed bracket or parenthesis pair is left, and a text without one is
      left alone. */
  lemma {:induction false} StrippedHasNoPair(s: string)
    ensures !ClosedPair(Stripped(s), '[', ']') && !ClosedPair(Stripped(s), '(', ')')
    ensures Stripped(s) == s <==> !ClosedPair(s, '[', ']') && !ClosedPair(s, '(', ')')
    decreases |s|
  {
    hide Cleaned, ClosedPair;
    CleanedShrinks(s);
    if Cleaned(s) == s {
    } else {
      StrippedHasNoPair(Cleaned(s));
      StrippedIsNoLonger(Cleaned(s));
    }
  }

  lemma {:induction false} StrippedIsNoLonger(s: string)
    ensures |Stripped(s)| <= |s|
    decreases |s|
  {
    hide Cleaned, ClosedPair;
    CleanedShrinks(s);
    if Cleaned(s) != s { StrippedIsNoLonger(Cleaned(s)); }
  }

  /** One zone override as the file writes it: `(4)` or `[7]`. */
  datatype Override = Override(square: bool, text: string)

  function Opening(square: bool): char { if square then '[' else '(' }

  function Closing(square: bool): char { if square then ']' else ')' }

  predicate Plain(s: string) { '[' !in s && ']' !in s && '(' !in s && ')' !in s }

  function Written(o: Override): string { [Opening(o.square)] + o.text + [Closing(o.square)] }

  function AllWritten(overrides: seq<Override>): string {
    if overrides == [] then "" else Written(overrides[0]) + AllWritten(overrides[1..])
  }

  /** The overrides without the first of one kind. */
  function Without(overrides: seq<Override>, square: bool): (rest: seq<Override>)
    ensures |rest| <= |overrides|
    ensures forall o | o in rest :: o in overrides
    ensures overrides != [] && overrides[0].square == square ==> |rest| < |overrides|
    ensures overrides != [] && overrides[0].square != square ==> rest != [] && rest[0] == overrides[0]
  {
    if overrides == [] then []
    else if overrides[0].square == square then overrides[1..]
    else [overrides[0]] + Without(overrides[1..], square)
  }

  lemma FirstPairIsRemoved(a: string, text: string, rest: string, open: char, close: char)
    requires open !in a && close !in text && open != close
    ensures Removed(a + ([open] + text + [close]) + rest, open, close) == a + rest
  {
    hide IndexOf;
    var s := a + ([open] + text + [close]) + rest;
    var marked := [open] + text;
    var tail := marked + [close] + rest;
    Regroup(a, marked + [close], rest);
    assert s == a + [open] + (text + [close] + rest);
    FirstIsUnique(a, open, text + [close] + rest);
    assert s[..|a|] == a && s[|a|..] == tail;
    FirstIsUnique(marked, close, rest);
    assert s[|a| + |marked| + 1..] == rest;
  }

  lemma Regroup(a: string, b: string, c: string)
    ensures a + (b + c) == a + b + c
  {
  }

  lemma OtherKindDoesNotOpen(a: string, o: Override, square: bool)
    requires Opening(square) !in a && Plain(o.text) && o.square != square
    ensures Opening(square) !in a + Written(o)
  {
  }

  lemma TextDoesNotClose(o: Override)
    requires Plain(o.text)
    ensures Closing(o.square) !in o.text
  {
  }

  /** The written list and the shortened list, taken apart at the head. */
  lemma HeadOfTheList(overrides: seq<Override>, square: bool)
    requires overrides != []
    ensures var o, w := overrides[0], Without(overrides[1..], square);
      && AllWritten(overrides) == Written(o) + AllWritten(overrides[1..])
      && AllWritten(Without(overrides, square))
         == if o.square == square then AllWritten(overrides[1..]) else Written(o) + AllWritten(w)
  {
    hide Written;
    var o, w := overrides[0], Without(overrides[1..], square);
    assert ([o] + w)[1..] == w;
  }

  lemma {:induction false} FirstOverrideIsRemoved(a: string, overrides: seq<Override>, square: bool)
    requires Opening(square) !in a && forall o | o in overrides :: Plain(o.text)
    ensures Removed(a + AllWritten(overrides), Opening(square), Closing(square))
         == a + AllWritten(Without(overrides, square))
    decreases |overrides|
  {
    if overrides == [] {
      assert a + "" == a;
    } else {
      hide AllWritten, Without, Removed, Written;
      var o, rest := overrides[0], AllWritten(overrides[1..]);
      HeadOfTheList(overrides, square);
      Regroup(a, Written(o), rest);
      if o.square == square {
        TextDoesNotClose(o);
        WrittenPairIsRemoved(a, o, rest);
      } else {
        OtherKindDoesNotOpen(a, o, square);
        FirstOverrideIsRemoved(a + Written(o), overrides[1..], square);
        Regroup(a, Written(o), AllWritten(Without(overrides[1..], square)));
      }
    }
  }

  lemma WrittenPairIsRemoved(a: string, o: Override, rest: string)
    requires Opening(o.square) !in a && Closing(o.square) !in o.text
    ensures Removed(a + Written(o) + rest, Opening(o.square), Closing(o.square)) == a + rest
  {
    hide Removed;
    FirstPairIsRemoved(a, o.text, rest, Opening(o.square), Closing(o.square));
  }

  lemma OneRound(base: string, overrides: seq<Override>)
    requires Plain(base) && forall o | o in overrides :: Plain(o.text)
    ensures Cleaned(base + AllWritten(overrides)) == base + AllWritten(Without(Without(overrides, true), false))
  {
    hide Removed, AllWritten, Without;
    FirstOverrideIsRemoved(base, overrides, true);
    FirstOverrideIsRemoved(base, Without(overrides, true), false);
  }

  /** An alias followed by any list of overrides is cleaned to the alias. */
  lemma {:induction false} OverridesAreStripped(base: string, overrides: seq<Override>)
    requires Plain(base) && forall o | o in overrides :: Plain(o.text)
    ensures Stripped(base + AllWritten(overrides)) == base
    decreases |overrides|
  {
    hide Removed;
    OneRound(base, overrides);
    var s := base + AllWritten(overrides);
    if overrides == [] {
      assert s == base;
    } else {
      assert Stripped(s) == Stripped(Cleaned(s));
      OverridesAreStripped(base, Without(Without(overrides, true), false));
    }
  }
}
