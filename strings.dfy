/**
 The string operations the business-card classifier relies on: prefix and
 substring tests, the all-digits test, character removal, lower-casing and
 joining with a single space. Python's `str` methods of the same purpose are
 modelled over ASCII: digits are '0'..'9' and case mapping touches only
 'A'..'Z'.
 */
module Strings {

  predicate IsDigit(c: char) {
    '0' <= c <= '9'
  }

  predicate IsUpper(c: char) {
    'A' <= c <= 'Z'
  }

  predicate IsLower(c: char) {
    'a' <= c <= 'z'
  }

  /** An ASCII letter, the character class `[A-Za-z]`. */
  predicate IsLetter(c: char) {
    IsUpper(c) || IsLower(c)
  }

  /** `s.startswith(p)` */
  predicate StartsWith(s: string, p: string) {
    |p| <= |s| && s[..|p|] == p
  }

  /** `sub in s`, searched from the front one position at a time. */
  predicate Contains(s: string, sub: string)
    decreases |s|
  {
    StartsWith(s, sub) || (|s| > 0 && Contains(s[1..], sub))
  }

  /** `sub in s` in its plain meaning: `sub` occurs at some position of `s`. */
  ghost predicate OccursAt(s: string, sub: string, i: int) {
    0 <= i && i + |sub| <= |s| && s[i..i + |sub|] == sub
  }

  lemma {:induction false} ContainsIffOccurs(s: string, sub: string)
    ensures Contains(s, sub) <==> exists i :: OccursAt(s, sub, i)
    decreases |s|
  {
    if StartsWith(s, sub) {
      assert OccursAt(s, sub, 0);
    }
    if |s| > 0 {
      ContainsIffOccurs(s[1..], sub);
      if Contains(s[1..], sub) {
        var i :| OccursAt(s[1..], sub, i);
        assert s[i + 1..i + 1 + |sub|] == s[1..][i..i + |sub|];
        assert OccursAt(s, sub, i + 1);
      }
      if i :| OccursAt(s, sub, i) {
        if i > 0 {
          assert s[1..][i - 1..i - 1 + |sub|] == s[i..i + |sub|];
          assert OccursAt(s[1..], sub, i - 1);
        } else {
          assert s[..|sub|] == s[i..i + |sub|];
        }
      }
    }
  }

  /** `s.isdigit()`: non-empty and every character a digit. */
  predicate IsDigits(s: string) {
    |s| > 0 && forall i :: 0 <= i < |s| ==> IsDigit(s[i])
  }

  /**
   `s` with every character in `cs` removed and everything else kept in order:
   `s.replace("-", "")` for `cs == {'-'}`, `re.sub(r'[,;]', '', s)` for
   `cs == {',', ';'}`.
   */
  function Without(s: string, cs: set<char>): (r: string)
    ensures |r| <= |s|
  {
    if s == [] then []
    else (if s[0] in cs then [] else [s[0]]) + Without(s[1..], cs)
  }

  /** What survives the removal comes from `s` and lies outside `cs`. */
  lemma {:induction false} WithoutChars(s: string, cs: set<char>)
    ensures forall c :: c in Without(s, cs) ==> c in s && c !in cs
    decreases |s|
  {
    if s != [] {
      WithoutChars(s[1..], cs);
      assert forall c :: c in s[1..] ==> c in s;
    }
  }

  /** Removal works piece by piece: it keeps the relative order of what survives. */
  lemma {:induction false} WithoutAppend(a: string, b: string, cs: set<char>)
    ensures Without(a + b, cs) == Without(a, cs) + Without(b, cs)
    decreases |a|
  {
    if a != [] {
      assert (a + b)[1..] == a[1..] + b;
      WithoutAppend(a[1..], b, cs);
    } else {
      assert a + b == b;
    }
  }

  /** A character of `cs` between two runs is dropped and the runs are kept. */
  lemma WithoutSkips(a: string, x: char, b: string, cs: set<char>)
    requires x in cs
    ensures Without(a + [x] + b, cs) == Without(a, cs) + Without(b, cs)
  {
    assert a + [x] + b == a + ([x] + b);
    WithoutAppend(a, [x] + b, cs);
    assert ([x] + b)[1..] == b;
  }

  /** Every character outside `cs` survives as often as it occurs. */
  lemma {:induction false} WithoutKeepsOthers(s: string, cs: set<char>)
    ensures forall c :: c !in cs ==> multiset(Without(s, cs))[c] == multiset(s)[c]
    decreases |s|
  {
    if s != [] {
      WithoutKeepsOthers(s[1..], cs);
      assert s == [s[0]] + s[1..];
    }
  }

  /** Removal changes nothing exactly when there is nothing to remove. */
  lemma {:induction false} WithoutIsIdentity(s: string, cs: set<char>)
    ensures Without(s, cs) == s <==> forall c :: c in s ==> c !in cs
    decreases |s|
  {
    if s != [] {
      WithoutIsIdentity(s[1..], cs);
      assert s == [s[0]] + s[1..];
      if s[0] in cs {
        assert |Without(s, cs)| < |s|;
      }
    }
  }

  function LowerChar(c: char): (r: char)
    ensures !IsUpper(r)
    ensures IsUpper(c) ==> IsLower(r) && r as int - 'a' as int == c as int - 'A' as int
    ensures !IsUpper(c) ==> r == c
  {
    if IsUpper(c) then (c as int - 'A' as int + 'a' as int) as char else c
  }

  /** `s.lower()` over ASCII: the upper-case letters become lower-case. */
  function Lower(s: string): (r: string)
    ensures |r| == |s|
    ensures forall i :: 0 <= i < |r| ==> !IsUpper(r[i])
    ensures forall i :: 0 <= i < |s| && !IsUpper(s[i]) ==> r[i] == s[i]
    ensures forall i :: 0 <= i < |s| && IsUpper(s[i]) ==>
              IsLower(r[i]) && r[i] as int - 'a' as int == s[i] as int - 'A' as int
  {
    seq(|s|, i requires 0 <= i < |s| => LowerChar(s[i]))
  }

  /** `" ".join(parts)` */
  function Join(parts: seq<string>): (r: string)
    ensures |parts| == 1 ==> r == parts[0]
    ensures parts == [] ==> r == ""
  {
    if |parts| == 0 then ""
    else if |parts| == 1 then parts[0]
    else Join(parts[..|parts| - 1]) + " " + parts[|parts| - 1]
  }

  /** Joining two non-empty runs puts exactly one separator between them. */
  lemma {:induction false} JoinAppend(a: seq<string>, b: seq<string>)
    requires a != [] && b != []
    ensures Join(a + b) == Join(a) + " " + Join(b)
    decreases |b|
  {
    if |b| == 1 {
      assert (a + b)[..|a + b| - 1] == a;
    } else {
      var b' := b[..|b| - 1];
      assert (a + b)[..|a + b| - 1] == a + b';
      JoinAppend(a, b');
    }
  }

  /** The joined string is the parts' lengths plus one separator between each pair. */
  function TotalLength(parts: seq<string>): nat {
    if parts == [] then 0 else TotalLength(parts[..|parts| - 1]) + |parts[|parts| - 1]|
  }

  lemma {:induction false} JoinLength(parts: seq<string>)
    requires parts != []
    ensures |Join(parts)| == TotalLength(parts) + |parts| - 1
  {
    if |parts| > 1 {
      JoinLength(parts[..|parts| - 1]);
    } else {
      assert parts[..0] == [];
    }
  }

  /** Every character of the joined string is a separator or comes from a part. */
  lemma {:induction false} JoinChars(parts: seq<string>, c: char)
    requires c in Join(parts)
    ensures c == ' ' || exists k :: 0 <= k < |parts| && c in parts[k]
  {
    if |parts| > 1 {
      var init := parts[..|parts| - 1];
      if c in Join(init) {
        JoinChars(init, c);
        if c != ' ' {
          var k :| 0 <= k < |init| && c in init[k];
          assert parts[k] == init[k];
        }
      }
    }
  }

  /**
   Removing the non-digit `x` leaves a digit string exactly when `s` holds at
   least one character other than `x` and every such character is a digit.
   */
  lemma DigitsWithout(s: string, x: char)
    requires !IsDigit(x)
    ensures IsDigits(Without(s, {x})) <==>
              (exists c :: c in s && c != x) && (forall c :: c in s ==> c == x || IsDigit(c))
  {
    var r := Without(s, {x});
    WithoutKeepsOthers(s, {x});
    WithoutChars(s, {x});
    if IsDigits(r) {
      assert r[0] in r;
      forall c | c in s && c != x ensures IsDigit(c) {
        assert multiset(r)[c] == multiset(s)[c] > 0;
        var i :| 0 <= i < |r| && r[i] == c;
      }
    }
    if (exists c :: c in s && c != x) && (forall c :: c in s ==> c == x || IsDigit(c)) {
      var c :| c in s && c != x;
      assert multiset(r)[c] == multiset(s)[c] > 0;
      assert c in r;
      forall i | 0 <= i < |r| ensures IsDigit(r[i]) {
        assert r[i] in r;
      }
    }
  }

  lemma OccursContains(s: string, sub: string, i: int)
    requires OccursAt(s, sub, i)
    ensures Contains(s, sub)
  {
    ContainsIffOccurs(s, sub);
  }

  /** A string cannot contain `sub` when it lacks one of `sub`'s characters. */
  lemma MissingCharNotContained(s: string, sub: string, k: int)
    requires 0 <= k < |sub| && sub[k] !in s
    ensures !Contains(s, sub)
  {
    ContainsIffOccurs(s, sub);
    forall i | 0 <= i && i + |sub| <= |s| ensures !OccursAt(s, sub, i) {
      assert s[i + k] in s;
      assert s[i..i + |sub|][k] == s[i + k];
    }
  }

  /**
   When no character of `sub` occurs in `b`, an occurrence of `sub` in `a + b`
   lies wholly inside `a`.
   */
  lemma ContainedInPrefix(a: string, b: string, sub: string)
    requires |sub| > 0 && forall c :: c in sub ==> c !in b
    ensures Contains(a + b, sub) ==> Contains(a, sub)
  {
    ContainsIffOccurs(a + b, sub);
    ContainsIffOccurs(a, sub);
    forall i | OccursAt(a + b, sub, i) ensures OccursAt(a, sub, i) {
      var last := i + |sub| - 1;
      assert (a + b)[last] == sub[|sub| - 1];
      assert sub[|sub| - 1] in sub;
      assert last < |a|;
      assert a[i..i + |sub|] == (a + b)[i..i + |sub|];
    }
  }

  /** A string contains one of its own length only when the two are equal. */
  lemma ContainsSameLength(s: string, sub: string)
    requires |s| == |sub|
    ensures Contains(s, sub) <==> s == sub
  {
    ContainsIffOccurs(s, sub);
    if s == sub {
      assert OccursAt(s, sub, 0);
    }
    forall i | OccursAt(s, sub, i) ensures s == sub {
      assert i == 0 && s[0..|s|] == s;
    }
  }
}
