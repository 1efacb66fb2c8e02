/** Text values as the database and the Go code see them.

    Text is ASCII: one character is one byte.  Ordering is the byte-wise order
    that Go's `<` on strings and SQLite's BINARY collation share. */
module Text {

  /** Strict byte-wise order. */
  predicate Before(a: string, b: string) {
    if b == "" then false
    else if a == "" then true
    else a[0] < b[0] || (a[0] == b[0] && Before(a[1..], b[1..]))
  }

  lemma {:induction false} BeforeTransitive(a: string, b: string, c: string)
    requires Before(a, b) && Before(b, c)
    ensures Before(a, c)
  {
    if a == "" {
    } else if a[0] == b[0] == c[0] {
      BeforeTransitive(a[1..], b[1..], c[1..]);
    }
  }

  lemma {:induction false} BeforeAsymmetric(a: string, b: string)
    requires Before(a, b)
    ensures !Before(b, a) && a != b
  {
    if a == "" {
    } else if a[0] == b[0] {
      BeforeAsymmetric(a[1..], b[1..]);
    }
  }

  lemma {:induction false} BeforeTotal(a: string, b: string)
    ensures a == b || Before(a, b) || Before(b, a)
  {
    if a == "" || b == "" {
    } else if a[0] == b[0] {
      BeforeTotal(a[1..], b[1..]);
      assert a == [a[0]] + a[1..] && b == [b[0]] + b[1..];
    }
  }

  lemma {:induction false} BeforeBehindAPrefix(p: string, a: string, b: string)
    ensures Before(p + a, p + b) <==> Before(a, b)
  {
    if p == "" {
      assert p + a == a && p + b == b;
    } else {
      BeforeBehindAPrefix(p[1..], a, b);
      assert (p + a)[1..] == p[1..] + a && (p + b)[1..] == p[1..] + b;
    }
  }

  /** The order, read off the characters: a text comes before another if it is the
      beginning of it, or has the smaller character where they first differ. */
  lemma {:induction false} BeforeAtTheFirstDifference(a: string, b: string)
    ensures Before(a, b) <==>
      exists k | 0 <= k <= |a| && k < |b| :: a[..k] == b[..k] && (k == |a| || a[k] < b[k])
  {
    if Before(a, b) {
      var k := FirstDifference(a, b);
      assert a[..k] == b[..k];
    }
    if exists k | 0 <= k <= |a| && k < |b| :: a[..k] == b[..k] && (k == |a| || a[k] < b[k]) {
      var k :| 0 <= k <= |a| && k < |b| && a[..k] == b[..k] && (k == |a| || a[k] < b[k]);
      BeforeBehindAPrefix(a[..k], a[k..], b[k..]);
      assert a == a[..k] + a[k..] && b == a[..k] + b[k..];
    }
  }

  lemma {:induction false} FirstDifference(a: string, b: string) returns (k: nat)
    requires Before(a, b)
    ensures k <= |a| && k < |b| && a[..k] == b[..k] && (k == |a| || a[k] < b[k])
  {
    if a == "" || a[0] < b[0] {
      k := 0;
    } else {
      k := FirstDifference(a[1..], b[1..]);
      k := k + 1;
      assert a[..k] == [a[0]] + a[1..][..k - 1] && b[..k] == [b[0]] + b[1..][..k - 1];
    }
  }

  /** SQL `MIN(a, b)` and `MAX(a, b)` on text. */
  function Earlier(a: string, b: string): string { if Before(b, a) then b else a }
  function Later(a: string, b: string): string { if Before(a, b) then b else a }

  predicate IsFirst(s: string, all: set<string>) {
    s in all && forall x | x in all :: !Before(x, s)
  }

  predicate IsLast(s: string, all: set<string>) {
    s in all && forall x | x in all :: !Before(s, x)
  }

  lemma {:induction false} FirstExists(all: set<string>)
    requires all != {}
    ensures exists s :: IsFirst(s, all)
  {
    var x :| x in all;
    var rest := all - {x};
    if rest == {} {
      BeforeIrreflexive(x);
      assert all == {x};
      assert IsFirst(x, all);
    } else {
      FirstExists(rest);
      var s :| IsFirst(s, rest);
      FirstWithOneMore(s, rest, x);
      assert all == rest + {x};
    }
  }

  lemma {:induction false} LastExists(all: set<string>)
    requires all != {}
    ensures exists s :: IsLast(s, all)
  {
    var x :| x in all;
    var rest := all - {x};
    if rest == {} {
      BeforeIrreflexive(x);
      assert all == {x};
      assert IsLast(x, all);
    } else {
      LastExists(rest);
      var s :| IsLast(s, rest);
      LastWithOneMore(s, rest, x);
      assert all == rest + {x};
    }
  }

  lemma BeforeIrreflexive(a: string)
    ensures !Before(a, a)
  {
    if Before(a, a) { BeforeAsymmetric(a, a); }
  }

  lemma FirstWithOneMore(s: string, all: set<string>, x: string)
    requires IsFirst(s, all)
    ensures IsFirst(Earlier(s, x), all + {x})
  {
    BeforeIrreflexive(x);
    forall y | y in all + {x} ensures !Before(y, Earlier(s, x)) {
      if Before(x, s) && y in all && Before(y, x) { BeforeTransitive(y, x, s); }
    }
  }

  lemma LastWithOneMore(s: string, all: set<string>, x: string)
    requires IsLast(s, all)
    ensures IsLast(Later(s, x), all + {x})
  {
    BeforeIrreflexive(x);
    forall y | y in all + {x} ensures !Before(Later(s, x), y) {
      if Before(s, x) && y in all && Before(x, y) { BeforeTransitive(s, x, y); }
    }
  }

  lemma FirstUnique(all: set<string>)
    ensures forall a, b | IsFirst(a, all) && IsFirst(b, all) :: a == b
    ensures forall a, b | IsLast(a, all) && IsLast(b, all) :: a == b
  {
    forall a, b | IsFirst(a, all) && IsFirst(b, all) ensures a == b { BeforeTotal(a, b); }
    forall a, b | IsLast(a, all) && IsLast(b, all) ensures a == b { BeforeTotal(a, b); }
  }

  /** SQL `MIN(column)` over a group; the empty text stands for NULL. */
  function First(all: set<string>): (s: string)
    ensures all != {} ==> IsFirst(s, all)
  {
    if all == {} then "" else
      FirstExists(all); FirstUnique(all);
      var s :| s in all && IsFirst(s, all); s
  }

  /** SQL `MAX(column)` over a group; the empty text stands for NULL. */
  function Last(all: set<string>): (s: string)
    ensures all != {} ==> IsLast(s, all)
  {
    if all == {} then "" else
      LastExists(all); FirstUnique(all);
      var s :| s in all && IsLast(s, all); s
  }

  /** Adding one member moves an edge exactly as the upsert's MIN and MAX do. */
  lemma EdgesWithOneMore(all: set<string>, x: string)
    requires all != {}
    ensures First(all + {x}) == Earlier(First(all), x)
    ensures Last(all + {x}) == Later(Last(all), x)
  {
    FirstWithOneMore(First(all), all, x);
    LastWithOneMore(Last(all), all, x);
    FirstUnique(all + {x});
    assert all + {x} != {};
  }

  lemma EdgesOfOne(x: string)
    ensures First({x}) == x && Last({x}) == x
  {
    assert First({x}) in {x} && Last({x}) in {x};
  }

  // ── blanks and case ──────────────────────────────────────────────────────

  predicate IsBlank(c: char) {
    c == ' ' || c == '\t' || c == '\n' || c == '\r' || c == '\U{0B}' || c == '\U{0C}'
  }

  function TrimLeft(s: string): string {
    if s != "" && IsBlank(s[0]) then TrimLeft(s[1..]) else s
  }

  function TrimRight(s: string): string {
    if s != "" && IsBlank(s[|s| - 1]) then TrimRight(s[..|s| - 1]) else s
  }

  /** `strings.TrimSpace` on ASCII text. */
  function Trim(s: string): string { TrimRight(TrimLeft(s)) }

  /** The six blanks of ASCII, by code. */
  lemma BlankCodes(c: char)
    ensures IsBlank(c) <==> c as int in {9, 10, 11, 12, 13, 32}
  {
  }

  predicate AllBlank(s: string) { forall c | c in s :: IsBlank(c) }

  lemma {:induction false} LeftPart(s: string) returns (l: nat)
    ensures l <= |s| && TrimLeft(s) == s[l..] && AllBlank(s[..l]) && (l < |s| ==> !IsBlank(s[l]))
  {
    if s != "" && IsBlank(s[0]) {
      l := LeftPart(s[1..]);
      l := l + 1;
      assert s[..l] == [s[0]] + s[1..][..l - 1];
    } else {
      l := 0;
    }
  }

  lemma {:induction false} RightPart(s: string) returns (r: nat)
    ensures r <= |s| && TrimRight(s) == s[..r] && AllBlank(s[r..]) && (0 < r ==> !IsBlank(s[r - 1]))
  {
    if s != "" && IsBlank(s[|s| - 1]) {
      r := RightPart(s[..|s| - 1]);
      assert s[r..] == s[..|s| - 1][r..] + [s[|s| - 1]];
    } else {
      r := |s|;
    }
  }

  /** Trimming cuts a text at its first and last character that is no blank. */
  lemma TrimIsTheMiddle(s: string) returns (l: nat, r: nat)
    ensures l <= r <= |s| && Trim(s) == s[l..r] && AllBlank(s[..l]) && AllBlank(s[r..])
    ensures l < r ==> !IsBlank(s[l]) && !IsBlank(s[r - 1])
  {
    l := LeftPart(s);
    var n := RightPart(s[l..]);
    r := l + n;
    assert s[l..][..n] == s[l..r] && s[l..][n..] == s[r..];
  }

  function LowerChar(c: char): char {
    if 'A' <= c <= 'Z' then c - 'A' + 'a' else c
  }

  function UpperChar(c: char): char {
    if 'a' <= c <= 'z' then c - 'a' + 'A' else c
  }

  function Lower(s: string): string { seq(|s|, i requires 0 <= i < |s| => LowerChar(s[i])) }
  function Upper(s: string): string { seq(|s|, i requires 0 <= i < |s| => UpperChar(s[i])) }

  /** `strings.EqualFold` on ASCII text. */
  predicate EqualFold(a: string, b: string) { Lower(a) == Lower(b) }

  /** The 26 letters change case and nothing else does. */
  lemma OnlyLettersHaveCase(c: char)
    ensures UpperChar(c) as int == c as int - (if 'a' <= c <= 'z' then 32 else 0)
    ensures LowerChar(c) as int == c as int + (if 'A' <= c <= 'Z' then 32 else 0)
  {
  }

  /** `strings.Contains`, and SQL `LIKE '%part%'` on lower-case text. */
  predicate Contains(s: string, part: string) {
    part <= s || (s != "" && Contains(s[1..], part))
  }

  lemma {:induction false} ContainedLetters(s: string, part: string, c: char)
    requires c in part && c !in s
    ensures !Contains(s, part)
  {
    if s != "" { ContainedLetters(s[1..], part, c); }
  }

  predicate Around(s: string, a: string, part: string, b: string) { s == a + part + b }

  /** A text contains another if it has it somewhere as a stretch. */
  lemma {:induction false} ContainsMeansAStretch(s: string, part: string)
    ensures Contains(s, part) <==> exists a, b :: Around(s, a, part, b)
  {
    if part <= s {
      assert Around(s, "", part, s[|part|..]);
    } else if s == "" {
      assert forall a, b :: Around(s, a, part, b) ==> part <= s;
    } else {
      ContainsMeansAStretch(s[1..], part);
      if Contains(s[1..], part) {
        var a, b :| Around(s[1..], a, part, b);
        assert s == [s[0]] + s[1..];
        assert Around(s, [s[0]] + a, part, b);
      }
      if exists a, b :: Around(s, a, part, b) {
        var a, b :| Around(s, a, part, b);
        assert "" + part + b == part + b;
        if a != "" { assert Around(s[1..], a[1..], part, b); }
      }
    }
  }

  // ── digits ───────────────────────────────────────────────────────────────

  predicate IsDigit(c: char) { '0' <= c <= '9' }

  predicate AllDigits(s: string) { forall c | c in s :: IsDigit(c) }

  function Value(s: string): int
    requires AllDigits(s)
  {
    if s == "" then 0 else 10 * Value(s[..|s| - 1]) + (s[|s| - 1] as int - '0' as int)
  }

  lemma {:induction false} BeforeByTheLast(a: string, b: string, c: char, d: char)
    requires |a| == |b|
    ensures Before(a + [c], b + [d]) <==> Before(a, b) || (a == b && c < d)
  {
    if a == "" {
      assert a + [c] == [c] && b + [d] == [d];
    } else {
      BeforeByTheLast(a[1..], b[1..], c, d);
      assert (a + [c])[1..] == a[1..] + [c] && (b + [d])[1..] == b[1..] + [d];
      assert a == [a[0]] + a[1..] && b == [b[0]] + b[1..];
    }
  }

  /** Digit texts of one length, such as dates and times, are ordered as the numbers
      they write. */
  lemma {:induction false} DigitsAreInNumericOrder(a: string, b: string)
    requires |a| == |b| && AllDigits(a) && AllDigits(b)
    ensures Before(a, b) <==> Value(a) < Value(b)
    ensures a == b <==> Value(a) == Value(b)
  {
    if a == "" {
    } else {
      var n := |a| - 1;
      DigitsAreInNumericOrder(a[..n], b[..n]);
      BeforeByTheLast(a[..n], b[..n], a[n], b[n]);
      assert a == a[..n] + [a[n]] && b == b[..n] + [b[n]];
      assert IsDigit(a[n]) && IsDigit(b[n]);
      assert Value(a) == 10 * Value(a[..n]) + (a[n] as int - '0' as int);
      assert Value(b) == 10 * Value(b[..n]) + (b[n] as int - '0' as int);
    }
  }
}
