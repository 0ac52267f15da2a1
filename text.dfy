/** String helpers shared by the scheduler and the retention program:
    decimal conversion (Python's `str(int)`, `int(str)`, strftime's
    zero-padded fields), `str.split` on separator characters, `str.join`,
    and the position-based view of a token that the schedule regexps use. */
module Text {

  /** An ASCII digit (the model's reading of `\d` and `[0-9]`). */
  predicate IsDigit(c: char) {
    '0' <= c <= '9'
  }

  predicate AllDigits(s: string) {
    forall i :: 0 <= i < |s| ==> IsDigit(s[i])
  }

  function DigitValue(c: char): nat
    requires IsDigit(c)
  {
    c as int - '0' as int
  }

  function DigitChar(d: nat): (c: char)
    requires d < 10
    ensures IsDigit(c) && DigitValue(c) == d
  {
    ('0' as int + d) as char
  }

  lemma DigitCharValue(c: char)
    requires IsDigit(c)
    ensures DigitChar(DigitValue(c)) == c
  {
  }

  /** Python's `str(n)` for a non-negative integer: no leading zero. */
  function NatToString(n: nat): (s: string)
    ensures |s| >= 1 && AllDigits(s)
    ensures (s[0] == '0') == (n == 0)
    ensures n < 10 <==> |s| == 1
    decreases n
  {
    if n < 10 then [DigitChar(n)] else NatToString(n / 10) + [DigitChar(n % 10)]
  }

  /** Python's `int(s)` for a string of ASCII digits (leading zeros allowed). */
  function ParseNat(s: string): nat
    requires AllDigits(s)
  {
    if s == [] then 0 else 10 * ParseNat(s[..|s| - 1]) + DigitValue(s[|s| - 1])
  }

  lemma {:induction false} ParseNatToString(n: nat)
    ensures ParseNat(NatToString(n)) == n
    decreases n
  {
    if n >= 10 {
      var s := NatToString(n);
      assert s[..|s| - 1] == NatToString(n / 10);
      ParseNatToString(n / 10);
    }
  }

  lemma NatToStringInjective(m: nat, n: nat)
    ensures NatToString(m) == NatToString(n) ==> m == n
  {
    ParseNatToString(m);
    ParseNatToString(n);
  }

  predicate AllZeros(z: string) {
    forall i :: 0 <= i < |z| ==> z[i] == '0'
  }

  lemma {:induction false} ParseNatZeros(z: string)
    requires AllZeros(z)
    ensures AllDigits(z) && ParseNat(z) == 0
    decreases |z|
  {
    if z != [] {
      ParseNatZeros(z[..|z| - 1]);
    }
  }

  /** Leading zeros do not change the value `int()` reads. */
  lemma {:induction false} ParseNatLeadingZeros(z: string, s: string)
    requires AllZeros(z) && AllDigits(s)
    ensures AllDigits(z + s) && ParseNat(z + s) == ParseNat(s)
    decreases |s|
  {
    if s == [] {
      assert z + s == z;
      ParseNatZeros(z);
    } else {
      var t := z + s;
      assert t[..|t| - 1] == z + s[..|s| - 1];
      ParseNatLeadingZeros(z, s[..|s| - 1]);
    }
  }

  /** Python's `str(i)` for any integer. */
  function IntToString(i: int): (s: string)
    ensures |s| >= 1
  {
    if i < 0 then "-" + NatToString(-i) else NatToString(i)
  }

  predicate IsIntString(s: string) {
    (|s| >= 2 && s[0] == '-' && AllDigits(s[1..])) || (|s| >= 1 && AllDigits(s))
  }

  /** Python's `int(s)` for an optionally negative decimal string. */
  function ParseInt(s: string): int
    requires IsIntString(s)
  {
    if s[0] == '-' then 0 - ParseNat(s[1..]) as int else ParseNat(s)
  }

  lemma IntToStringRoundTrip(i: int)
    ensures IsIntString(IntToString(i)) && ParseInt(IntToString(i)) == i
  {
    var s := IntToString(i);
    if i < 0 {
      assert s[1..] == NatToString(-i);
      ParseNatToString(-i);
      assert ParseInt(s) == 0 - ParseNat(s[1..]) as int;
    } else {
      assert IsDigit(s[0]);
      ParseNatToString(i);
    }
  }

  /** strftime's two-digit zero-padded field (`%m`, `%d`, `%H`, `%M`). */
  function Pad2(n: nat): (s: string)
    requires n < 100
    ensures |s| == 2 && AllDigits(s)
  {
    [DigitChar(n / 10), DigitChar(n % 10)]
  }

  lemma Pad2Value(n: nat)
    requires n < 100
    ensures ParseNat(Pad2(n)) == n
  {
    var s := Pad2(n);
    assert s[..1][..0] == [];
    assert s[..1] == [DigitChar(n / 10)];
    assert ParseNat(s[..1]) == n / 10;
    assert ParseNat(s) == 10 * (n / 10) + n % 10;
  }

  lemma Pad2Injective(m: nat, n: nat)
    requires m < 100 && n < 100
    ensures Pad2(m) == Pad2(n) ==> m == n
  {
    if Pad2(m) == Pad2(n) {
      assert DigitValue(Pad2(m)[0]) == m / 10 && DigitValue(Pad2(m)[1]) == m % 10;
    }
  }

  predicate NoneIn(s: string, sep: set<char>) {
    forall i :: 0 <= i < |s| ==> s[i] !in sep
  }

  /** Python's `s.split(c)`, generalised to a set of separator characters:
      every separator ends a part, so empty parts are kept. */
  function Split(s: string, sep: set<char>): (parts: seq<string>)
    ensures |parts| >= 1
    ensures forall k :: 0 <= k < |parts| ==> NoneIn(parts[k], sep)
    decreases |s|
  {
    if s == [] then [""]
    else if s[0] in sep then [""] + Split(s[1..], sep)
    else
      var rest := Split(s[1..], sep);
      [[s[0]] + rest[0]] + rest[1..]
  }

  /** Python's `c.join(parts)`. */
  function Join(parts: seq<string>, c: char): string
    requires |parts| >= 1
    decreases |parts|
  {
    if |parts| == 1 then parts[0] else parts[0] + [c] + Join(parts[1..], c)
  }

  lemma {:induction false} JoinSplit(s: string, c: char)
    ensures Join(Split(s, {c}), c) == s
    decreases |s|
  {
    if s != [] {
      JoinSplit(s[1..], c);
      if s[0] != c {
        var rest := Split(s[1..], {c});
        if |rest| > 1 {
          assert ([[s[0]] + rest[0]] + rest[1..])[1..] == rest[1..];
        }
      } else {
        assert ([""] + Split(s[1..], {c}))[1..] == Split(s[1..], {c});
      }
    }
  }

  lemma {:induction false} JoinAppend(a: seq<string>, b: seq<string>, c: char)
    requires |a| >= 1 && |b| >= 1
    ensures Join(a + b, c) == Join(a, c) + [c] + Join(b, c)
    decreases |a|
  {
    if |a| > 1 {
      assert (a + b)[1..] == a[1..] + b;
      JoinAppend(a[1..], b, c);
    }
  }

  lemma {:induction false} SplitSepFree(a: string, x: string, sep: set<char>)
    requires NoneIn(a, sep)
    ensures Split(a + x, sep) == [a + Split(x, sep)[0]] + Split(x, sep)[1..]
    decreases |a|
  {
    if a != [] {
      assert (a + x)[1..] == a[1..] + x;
      SplitSepFree(a[1..], x, sep);
      assert [a[0]] + (a[1..] + Split(x, sep)[0]) == a + Split(x, sep)[0];
    } else {
      assert a + x == x;
      var parts := Split(x, sep);
      assert parts == [parts[0]] + parts[1..];
      assert a + parts[0] == parts[0];
    }
  }

  /** Splitting a joined sequence of separator-free parts gives the parts back. */
  lemma {:induction false} SplitJoin(parts: seq<string>, c: char, sep: set<char>)
    requires |parts| >= 1 && c in sep
    requires forall k :: 0 <= k < |parts| ==> NoneIn(parts[k], sep)
    ensures Split(Join(parts, c), sep) == parts
    decreases |parts|
  {
    if |parts| == 1 {
      SplitSepFree(parts[0], "", sep);
      assert parts[0] + "" == parts[0];
    } else {
      SplitJoin(parts[1..], c, sep);
      var x := [c] + Join(parts[1..], c);
      assert parts[0] + [c] + Join(parts[1..], c) == parts[0] + x;
      SplitSepFree(parts[0], x, sep);
      assert x[1..] == Join(parts[1..], c);
      assert Split(x, sep) == [""] + parts[1..];
      assert parts[0] + "" == parts[0];
    }
  }

  lemma Join2(a: string, b: string, c: char)
    ensures Join([a, b], c) == a + [c] + b
  {
    assert [a, b][1..] == [b];
  }

  lemma Join3(a: string, b: string, d: string, c: char)
    ensures Join([a, b, d], c) == a + [c] + b + [c] + d
  {
    assert [a, b, d][1..] == [b, d];
    Join2(b, d, c);
  }

  /** A string that splits into one part has no separator. */
  lemma SplitSingle(s: string, c: char)
    ensures |Split(s, {c})| == 1 ==> NoneIn(s, {c})
  {
    JoinSplit(s, c);
    var parts := Split(s, {c});
    if |parts| == 1 {
      assert Join(parts, c) == parts[0];
    }
  }

  lemma SplitNoSep(s: string, sep: set<char>)
    requires NoneIn(s, sep)
    ensures Split(s, sep) == [s]
  {
    SplitSepFree(s, "", sep);
    assert s + "" == s;
  }

  /** Splitting at a separator splits the parts on either side. */
  lemma {:induction false} SplitConcat(a: string, c: char, b: string, sep: set<char>)
    requires c in sep
    ensures Split(a + [c] + b, sep) == Split(a, sep) + Split(b, sep)
    decreases |a|
  {
    var x := a + [c] + b;
    if a == [] {
      assert x == [c] + b;
      assert x[0] == c && x[1..] == b;
      assert Split(x, sep) == [""] + Split(b, sep);
    } else {
      assert x[0] == a[0];
      assert x[1..] == a[1..] + [c] + b;
      SplitConcat(a[1..], c, b, sep);
      var r := Split(a[1..], sep);
      var rb := Split(b, sep);
      if a[0] in sep {
        ConsEmptyAssoc(r, rb);
      } else {
        MergeHeadAssoc(a[0], r, rb);
      }
    }
  }

  lemma ConsEmptyAssoc(r: seq<string>, rb: seq<string>)
    ensures [""] + (r + rb) == ([""] + r) + rb
  {
  }

  /** Gluing a character to the first part commutes with appending parts. */
  lemma MergeHeadAssoc(ch: char, r: seq<string>, rb: seq<string>)
    requires |r| >= 1
    ensures [[ch] + (r + rb)[0]] + (r + rb)[1..] == ([[ch] + r[0]] + r[1..]) + rb
  {
    assert (r + rb)[0] == r[0];
    assert (r + rb)[1..] == r[1..] + rb;
  }

  /** `s[p..q]` is a whole part of `s` between separators, the way a regexp
      `(^|[sep])(...)([sep]|$)` sees it. */
  predicate TokenAt(s: string, sep: set<char>, p: int, q: int) {
    && 0 <= p <= q <= |s|
    && (p == 0 || s[p - 1] in sep)
    && (q == |s| || s[q] in sep)
    && NoneIn(s[p..q], sep)
  }

  lemma {:induction false} TokenAtInSplit(s: string, sep: set<char>, p: int, q: int)
    requires TokenAt(s, sep, p, q)
    ensures p == 0 ==> Split(s, sep)[0] == s[p..q]
    ensures p > 0 ==> s[p..q] in Split(s, sep)[1..]
    decreases |s|, 1
  {
    if s == [] {
    } else if s[0] in sep {
      TokenAtInSplitSep(s, sep, p, q);
    } else {
      TokenAtInSplitPart(s, sep, p, q);
    }
  }

  lemma {:induction false} TokenAtInSplitSep(s: string, sep: set<char>, p: int, q: int)
    requires TokenAt(s, sep, p, q) && s != [] && s[0] in sep
    ensures p == 0 ==> Split(s, sep)[0] == s[p..q]
    ensures p > 0 ==> s[p..q] in Split(s, sep)[1..]
    decreases |s|, 0
  {
    var s' := s[1..];
    var rest := Split(s', sep);
    assert Split(s, sep) == [""] + rest;
    if p == 0 {
      NoneInSlice(s, sep, p, q);
      assert q == 0;
    } else {
      SliceShift(s, p - 1, q - 1);
      assert p - 1 == 0 || s'[p - 2] == s[p - 1];
      assert q - 1 == |s'| || s'[q - 1] == s[q];
      assert TokenAt(s', sep, p - 1, q - 1);
      TokenAtInSplit(s', sep, p - 1, q - 1);
      assert Split(s, sep)[1..] == rest;
      if p - 1 > 0 {
        var k :| 0 <= k < |rest[1..]| && rest[1..][k] == s[p..q];
        assert rest[k + 1] == s[p..q];
      }
    }
  }

  lemma {:induction false} TokenAtInSplitPart(s: string, sep: set<char>, p: int, q: int)
    requires TokenAt(s, sep, p, q) && s != [] && s[0] !in sep
    ensures p == 0 ==> Split(s, sep)[0] == s[p..q]
    ensures p > 0 ==> s[p..q] in Split(s, sep)[1..]
    decreases |s|, 0
  {
    var s' := s[1..];
    var rest := Split(s', sep);
    assert Split(s, sep) == [[s[0]] + rest[0]] + rest[1..];
    if p == 0 {
      TokenAtTailFirst(s, sep, q);
      TokenAtInSplit(s', sep, 0, q - 1);
    } else {
      assert p >= 2;
      TokenAtTailLater(s, sep, p, q);
      TokenAtInSplit(s', sep, p - 1, q - 1);
      assert Split(s, sep)[1..] == rest[1..];
    }
  }

  /** A first part that is not empty, seen from the second character. */
  lemma TokenAtTailFirst(s: string, sep: set<char>, q: int)
    requires TokenAt(s, sep, 0, q) && q > 0
    ensures TokenAt(s[1..], sep, 0, q - 1) && [s[0]] + s[1..][0..q - 1] == s[0..q]
  {
    var s' := s[1..];
    SliceShift(s, 0, q - 1);
    assert q - 1 == |s'| || s'[q - 1] == s[q];
    NoneInSlice(s, sep, 0, q);
    var w := s'[0..q - 1];
    assert NoneIn(w, sep) by {
      forall i | 0 <= i < |w|
        ensures w[i] !in sep
      {
        assert w[i] == s[i + 1];
      }
    }
    assert [s[0]] + s[1..q] == s[0..q];
  }

  /** A later part, seen from the second character. */
  lemma TokenAtTailLater(s: string, sep: set<char>, p: int, q: int)
    requires TokenAt(s, sep, p, q) && p >= 2
    ensures TokenAt(s[1..], sep, p - 1, q - 1) && s[1..][p - 1..q - 1] == s[p..q]
  {
    var s' := s[1..];
    SliceShift(s, p - 1, q - 1);
    assert s'[p - 2] == s[p - 1];
    assert q - 1 == |s'| || s'[q - 1] == s[q];
  }

  lemma {:induction false} SplitTokenAt(s: string, sep: set<char>, i: nat) returns (p: nat, q: nat)
    requires i < |Split(s, sep)|
    ensures TokenAt(s, sep, p, q) && s[p..q] == Split(s, sep)[i]
    ensures (i == 0) == (p == 0)
    decreases |s|
  {
    if s == [] {
      p, q := 0, 0;
    } else if s[0] in sep {
      if i == 0 {
        p, q := 0, 0;
      } else {
        var p', q' := SplitTokenAt(s[1..], sep, i - 1);
        p, q := p' + 1, q' + 1;
        SliceShift(s, p', q');
      }
    } else {
      var rest := Split(s[1..], sep);
      if i == 0 {
        var p', q' := SplitTokenAt(s[1..], sep, 0);
        p, q := 0, q' + 1;
        assert s[p..q] == [s[0]] + s[1..][p'..q'];
        assert NoneIn(s[p..q], sep) by {
          assert NoneIn(Split(s, sep)[0], sep);
        }
      } else {
        var p', q' := SplitTokenAt(s[1..], sep, i);
        p, q := p' + 1, q' + 1;
        SliceShift(s, p', q');
        assert Split(s, sep)[i] == rest[i];
      }
    }
  }

  lemma SliceShift(s: string, p: nat, q: nat)
    requires |s| >= 1 && p <= q <= |s| - 1
    ensures s[p + 1..q + 1] == s[1..][p..q]
  {
    forall i | 0 <= i < q - p
      ensures s[p + 1..q + 1][i] == s[1..][p..q][i]
    {
      assert s[p + 1..q + 1][i] == s[p + 1 + i];
      assert s[1..][p..q][i] == s[1..][p + i] == s[p + 1 + i];
    }
  }

  lemma NoneInSlice(s: string, sep: set<char>, p: int, q: int)
    requires 0 <= p <= q <= |s| && NoneIn(s[p..q], sep)
    ensures forall i :: p <= i < q ==> s[i] !in sep
  {
    forall i | p <= i < q
      ensures s[i] !in sep
    {
      assert s[p..q][i - p] == s[i];
    }
  }

  /** The part-wise view and the positional view of a token coincide. */
  lemma TokenInSplitIff(s: string, sep: set<char>, t: string)
    ensures t in Split(s, sep) <==> exists p, q :: TokenAt(s, sep, p, q) && s[p..q] == t
  {
    if t in Split(s, sep) {
      var i :| 0 <= i < |Split(s, sep)| && Split(s, sep)[i] == t;
      var p, q := SplitTokenAt(s, sep, i);
    }
    if exists p, q :: TokenAt(s, sep, p, q) && s[p..q] == t {
      var p, q :| TokenAt(s, sep, p, q) && s[p..q] == t;
      TokenAtInSplit(s, sep, p, q);
    }
  }

  /** `re.sub("[cs]", "", s)`: drop every character of `cs`. */
  function RemoveChars(s: string, cs: set<char>): string
  {
    if s == [] then [] else (if s[0] in cs then [] else [s[0]]) + RemoveChars(s[1..], cs)
  }

  /** Nothing of `cs` is left, nothing is added, and every other character
      is kept in its place: reading `s` left to right, each character not in
      `cs` is appended to the result and each one in `cs` is skipped. */
  lemma {:induction false} RemoveCharsFree(s: string, cs: set<char>)
    ensures NoneIn(RemoveChars(s, cs), cs) && |RemoveChars(s, cs)| <= |s|
    ensures RemoveChars([], cs) == []
    ensures forall i :: 0 <= i < |s| ==>
      RemoveChars(s[..i+1], cs) == RemoveChars(s[..i], cs) + (if s[i] in cs then [] else [s[i]])
    decreases |s|
  {
    if s != [] {
      RemoveCharsFree(s[1..], cs);
    }
    forall i | 0 <= i < |s|
      ensures RemoveChars(s[..i+1], cs) == RemoveChars(s[..i], cs) + (if s[i] in cs then [] else [s[i]])
    {
      assert s[..i+1] == s[..i] + [s[i]];
      RemoveCharsAppend(s[..i], [s[i]], cs);
      assert [s[i]][1..] == [];
    }
  }

  lemma {:induction false} RemoveCharsAppend(a: string, b: string, cs: set<char>)
    ensures RemoveChars(a + b, cs) == RemoveChars(a, cs) + RemoveChars(b, cs)
    decreases |a|
  {
    if a != [] {
      assert (a + b)[1..] == a[1..] + b;
      RemoveCharsAppend(a[1..], b, cs);
    } else {
      assert a + b == b;
    }
  }

  lemma {:induction false} RemoveCharsNone(s: string, cs: set<char>)
    requires NoneIn(s, cs)
    ensures RemoveChars(s, cs) == s
    decreases |s|
  {
    if s != [] {
      RemoveCharsNone(s[1..], cs);
    }
  }
}
