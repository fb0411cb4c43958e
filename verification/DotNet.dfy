/**
 * The .NET character and string primitives the resolver relies on. Character classes are
 * restricted to ASCII (char.IsDigit, regex \d and \w, ToLowerInvariant) and to Latin-1
 * (char.IsWhiteSpace, hence Trim and string.IsNullOrWhiteSpace).
 */
module DotNet {
  import opened Wrappers

  /** The exceptions the modelled controller code can throw. */
  datatype Fault = FormatException | NullReferenceException

  /** char.IsDigit and regex \d */
  predicate IsDigit(c: char) {
    '0' <= c <= '9'
  }

  /** regex \w */
  predicate IsWordChar(c: char) {
    IsDigit(c) || 'a' <= c <= 'z' || 'A' <= c <= 'Z' || c == '_'
  }

  /** char.IsWhiteSpace */
  predicate IsWhiteSpace(c: char) {
    c == ' ' || '\t' <= c <= '\r' || c == '\U{85}' || c == '\U{A0}'
  }

  predicate AllDigits(s: string) {
    forall i | 0 <= i < |s| :: IsDigit(s[i])
  }

  predicate AllWhiteSpace(s: string) {
    forall i | 0 <= i < |s| :: IsWhiteSpace(s[i])
  }

  /** string.IsNullOrWhiteSpace, with None for null */
  predicate IsNullOrWhiteSpace(s: Option<string>) {
    s.None? || AllWhiteSpace(s.value)
  }

  /** A string is blank exactly when it trims to nothing. */
  lemma BlankIffTrimsToEmpty(s: string)
    ensures IsNullOrWhiteSpace(Some(s)) <==> Trim(s) == []
  {
  }

  /** The decimal digits of s, in order, with every other character dropped. */
  function Digits(s: string): (r: string)
    ensures AllDigits(r) && |r| <= |s|
    ensures AllDigits(s) ==> r == s
  {
    if s == [] then []
    else (if IsDigit(s[0]) then [s[0]] else []) + Digits(s[1..])
  }

  /** Every digit of s survives, as many times as it occurs in s. */
  lemma {:induction false} DigitsKeepsEveryDigit(s: string)
    ensures forall c | IsDigit(c) :: multiset(Digits(s))[c] == multiset(s)[c]
  {
    if s != [] {
      DigitsKeepsEveryDigit(s[1..]);
      assert s == [s[0]] + s[1..];
    }
  }

  lemma {:induction false} DigitsOfConcat(a: string, b: string)
    ensures Digits(a + b) == Digits(a) + Digits(b)
  {
    if a == [] {
      assert a + b == b;
    } else {
      assert (a + b)[1..] == a[1..] + b;
      DigitsOfConcat(a[1..], b);
    }
  }

  function ToLowerChar(c: char): char {
    if 'A' <= c <= 'Z' then (c as int + 32) as char else c
  }

  /** s with each ASCII capital letter replaced by its small letter; other characters kept. */
  function ToLowerInvariant(s: string): (r: string)
    ensures |r| == |s|
    ensures forall i | 0 <= i < |r| :: !('A' <= r[i] <= 'Z') && (r[i] == s[i] || 'A' <= s[i] <= 'Z')
    ensures forall i | 0 <= i < |r| :: r[i] != s[i] ==> r[i] as int - s[i] as int == 'a' as int - 'A' as int
  {
    seq(|s|, i requires 0 <= i < |s| => ToLowerChar(s[i]))
  }

  /** s.TrimStart(): the suffix left after dropping leading white space */
  function TrimStart(s: string): (r: string)
    ensures |r| <= |s| && r == s[|s| - |r|..]
    ensures AllWhiteSpace(s[..|s| - |r|])
    ensures r == [] || !IsWhiteSpace(r[0])
  {
    if s != [] && IsWhiteSpace(s[0]) then
      var r := TrimStart(s[1..]);
      assert s[..|s| - |r|] == [s[0]] + s[1..][..|s| - 1 - |r|];
      r
    else s
  }

  /** s.TrimEnd(): the prefix left after dropping trailing white space */
  function TrimEnd(s: string): (r: string)
    ensures |r| <= |s| && r == s[..|r|]
    ensures AllWhiteSpace(s[|r|..])
    ensures r == [] || !IsWhiteSpace(r[|r| - 1])
  {
    if s != [] && IsWhiteSpace(s[|s| - 1]) then
      var r := TrimEnd(s[..|s| - 1]);
      assert s[|r|..] == s[..|s| - 1][|r|..] + [s[|s| - 1]];
      r
    else s
  }

  /** s without leading and trailing white space */
  function Trim(s: string): (r: string)
    ensures r == [] || (!IsWhiteSpace(r[0]) && !IsWhiteSpace(r[|r| - 1]))
  {
    TrimEnd(TrimStart(s))
  }

  lemma {:induction false} TrimStartKeepsDigits(s: string)
    ensures Digits(TrimStart(s)) == Digits(s)
  {
    if s != [] && IsWhiteSpace(s[0]) {
      TrimStartKeepsDigits(s[1..]);
    }
  }

  lemma {:induction false} TrimEndKeepsDigits(s: string)
    ensures Digits(TrimEnd(s)) == Digits(s)
  {
    if s != [] && IsWhiteSpace(s[|s| - 1]) {
      var init := s[..|s| - 1];
      TrimEndKeepsDigits(init);
      assert s == init + [s[|s| - 1]];
      DigitsOfConcat(init, [s[|s| - 1]]);
      assert Digits([s[|s| - 1]]) == [];
    }
  }

  /** Trimming never removes a digit. */
  lemma TrimKeepsDigits(s: string)
    ensures Digits(Trim(s)) == Digits(s)
  {
    TrimStartKeepsDigits(s);
    TrimEndKeepsDigits(TrimStart(s));
  }

  /** p occurs in s at offset i (ordinal comparison) */
  predicate OccursAt(s: string, p: string, i: nat) {
    i + |p| <= |s| && s[i..i + |p|] == p
  }

  predicate IsFirstOccurrence(s: string, p: string, i: nat) {
    OccursAt(s, p, i) && forall j | 0 <= j < i :: !OccursAt(s, p, j)
  }

  /** s.IndexOf(p, from), with None for -1 */
  function IndexOf(s: string, p: string, from: nat): (r: Option<nat>)
    decreases |s| - from
    ensures r.Some? ==> from <= r.value && OccursAt(s, p, r.value)
    ensures forall j | from <= j && (r.None? || j < r.value) :: !OccursAt(s, p, j)
  {
    if from + |p| > |s| then None
    else if OccursAt(s, p, from) then Some(from)
    else IndexOf(s, p, from + 1)
  }

  /** s.Contains(p): p occurs somewhere in s */
  predicate Contains(s: string, p: string) {
    IndexOf(s, p, 0).Some?
  }

  lemma ContainsIffOccurs(s: string, p: string)
    ensures Contains(s, p) <==> exists i: nat :: OccursAt(s, p, i)
  {
  }
}
