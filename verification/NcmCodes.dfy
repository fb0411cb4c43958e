/**
 * Code extraction and normalisation of the NCM controller (Controllers/NcmController.cs):
 * ExtrairCodigoNcm pulls the first code out of the oracle's free text, NormalizarNcm turns
 * any spelling of eight digits into the display form DDDD.DD.DD.
 */
module NcmCodes {
  import opened Wrappers
  import opened DotNet

  /** What ExtrairCodigoNcm answers when the text holds no code. */
  const Sentinel: string := "0000.00.00"

  /** The display form DDDD.DD.DD: ten characters, dots at offsets 4 and 7, digits elsewhere. */
  predicate IsCanonical(s: string) {
    && |s| == 10
    && s[4] == '.' && s[7] == '.'
    && AllDigits(s[..4]) && AllDigits(s[5..7]) && AllDigits(s[8..])
  }

  /** The digits of a canonical code are the code without its two dots. */
  lemma CanonicalDigits(s: string)
    requires IsCanonical(s)
    ensures Digits(s) == s[..4] + s[5..7] + s[8..]
  {
    assert s == s[..4] + (s[4..5] + (s[5..7] + (s[7..8] + s[8..])));
    DigitsOfConcat(s[7..8], s[8..]);
    DigitsOfConcat(s[5..7], s[7..8] + s[8..]);
    DigitsOfConcat(s[4..5], s[5..7] + (s[7..8] + s[8..]));
    DigitsOfConcat(s[..4], s[4..5] + (s[5..7] + (s[7..8] + s[8..])));
  }

  /** A canonical code is determined by its digits. */
  lemma CanonicalFromDigits(a: string, b: string)
    requires IsCanonical(a) && IsCanonical(b) && Digits(a) == Digits(b)
    ensures a == b
  {
    CanonicalDigits(a);
    CanonicalDigits(b);
    var da, db := Digits(a), Digits(b);
    assert a[..4] == da[..4] && b[..4] == db[..4];
    assert a[5..7] == da[4..6] && b[5..7] == db[4..6];
    assert a[8..] == da[6..] && b[8..] == db[6..];
    forall i | 0 <= i < 10
      ensures a[i] == b[i]
    {
      if i < 4 {
        assert a[i] == a[..4][i] && b[i] == b[..4][i];
      } else if 5 <= i < 7 {
        assert a[i] == a[5..7][i - 5] && b[i] == b[5..7][i - 5];
      } else if 8 <= i {
        assert a[i] == a[8..][i - 8] && b[i] == b[8..][i - 8];
      }
    }
  }

  /** The eight characters of d regrouped four, two and two, with a dot between the groups. */
  function Dotted(d: string): (r: string)
    requires |d| == 8
    ensures AllDigits(d) ==> IsCanonical(r) && Digits(r) == d
  {
    var r := d[..4] + "." + d[4..6] + "." + d[6..];
    assert r[..4] == d[..4] && r[5..7] == d[4..6] && r[8..] == d[6..];
    if AllDigits(d) then
      assert AllDigits(d[..4]) && AllDigits(d[4..6]) && AllDigits(d[6..]);
      CanonicalDigits(r);
      assert d == d[..4] + d[4..6] + d[6..];
      r
    else r
  }

  /**
   * NormalizarNcm: keeps the digits; exactly eight of them are printed as DDDD.DD.DD, any
   * other count throws FormatException.
   */
  function NormalizarNcm(ncm: string): (r: Result<string, Fault>)
    ensures r.Success? <==> |Digits(ncm)| == 8
    ensures r.Failure? ==> r.error == FormatException
    ensures r.Success? ==> IsCanonical(r.value) && Digits(r.value) == Digits(ncm)
  {
    var ncmLimpo := Digits(ncm);
    if |ncmLimpo| == 8 then Success(Dotted(ncmLimpo))
    else Failure(FormatException)
  }

  /** A code already in display form is its own normal form. */
  lemma CanonicalIsNormal(s: string)
    requires IsCanonical(s)
    ensures NormalizarNcm(s) == Success(s)
  {
    CanonicalDigits(s);
    CanonicalFromDigits(NormalizarNcm(s).value, s);
  }

  /** Normalising twice is normalising once. */
  lemma NormalizarNcmIdempotent(ncm: string)
    requires NormalizarNcm(ncm).Success?
    ensures NormalizarNcm(NormalizarNcm(ncm).value) == NormalizarNcm(ncm)
  {
    CanonicalIsNormal(NormalizarNcm(ncm).value);
  }

  /** Two spellings with the same digits normalise alike; the punctuation never matters. */
  lemma NormalizarNcmDependsOnDigitsOnly(a: string, b: string)
    requires Digits(a) == Digits(b)
    ensures NormalizarNcm(a) == NormalizarNcm(b)
  {
    if NormalizarNcm(a).Success? {
      CanonicalFromDigits(NormalizarNcm(a).value, NormalizarNcm(b).value);
    }
  }

  /** Eight bare digits are dotted after the fourth and sixth. */
  lemma NormalizarNcmBareExample()
    ensures NormalizarNcm("12345678") == Success("1234.56.78")
  {
    var d := "12345678";
    assert AllDigits(d);
    assert d[..4] == "1234" && d[4..6] == "56" && d[6..] == "78";
    assert Dotted(d) == "1234.56.78";
  }

  lemma NormalizarNcmDottedExample()
    ensures NormalizarNcm("1234.56.78") == Success("1234.56.78")
  {
    CanonicalIsNormal("1234.56.78");
  }

  /** Seven digits are one too few. */
  lemma NormalizarNcmShortExample()
    ensures NormalizarNcm("1234567") == Failure(FormatException)
  {
  }

  /** regex \b: the characters on the two sides of offset i differ in being word characters */
  predicate WordBoundary(s: string, i: nat)
    requires i <= |s|
  {
    (0 < i && IsWordChar(s[i - 1])) != (i < |s| && IsWordChar(s[i]))
  }

  /** The first alternative \b\d{8}\b matches at offset i. */
  predicate PlainCodeAt(s: string, i: nat) {
    i + 8 <= |s| && WordBoundary(s, i) && AllDigits(s[i..i + 8]) && WordBoundary(s, i + 8)
  }

  /** The second alternative \b\d{4}\.\d{2}\.\d{2}\b matches at offset i. */
  predicate DottedCodeAt(s: string, i: nat) {
    i + 10 <= |s| && WordBoundary(s, i) && IsCanonical(s[i..i + 10]) && WordBoundary(s, i + 10)
  }

  predicate CodeAt(s: string, i: nat) {
    PlainCodeAt(s, i) || DottedCodeAt(s, i)
  }

  /** The two alternatives never match at the same offset: the fifth character is a digit in one, a dot in the other. */
  lemma AlternativesExclusive(s: string, i: nat)
    ensures !(PlainCodeAt(s, i) && DottedCodeAt(s, i))
  {
    if PlainCodeAt(s, i) && i + 10 <= |s| {
      assert s[i..i + 8][4] == s[i + 4] == s[i..i + 10][4];
    }
  }

  lemma CodeStartsWithDigit(s: string, i: nat)
    ensures CodeAt(s, i) ==> i < |s| && IsDigit(s[i])
  {
    if PlainCodeAt(s, i) {
      assert s[i..i + 8][0] == s[i];
    } else if DottedCodeAt(s, i) {
      assert s[i..i + 10][..4][0] == s[i];
    }
  }

  /** i is where Regex.Match reports its match: the leftmost offset where either alternative matches */
  predicate IsFirstCode(s: string, i: nat) {
    i <= |s| && CodeAt(s, i) && forall j | 0 <= j < i :: !CodeAt(s, j)
  }

  /** match.Value for a match at offset i (the two alternatives never match at the same offset) */
  function MatchValue(s: string, i: nat): (v: string)
    requires CodeAt(s, i)
    ensures '.' !in v <==> PlainCodeAt(s, i)
    ensures PlainCodeAt(s, i) ==> |v| == 8 && AllDigits(v)
    ensures !PlainCodeAt(s, i) ==> IsCanonical(v)
    ensures (|v| == 8 || |v| == 10) && i + |v| <= |s| && v == s[i..i + |v|]
  {
    if PlainCodeAt(s, i) then
      var v := s[i..i + 8];
      assert forall k | 0 <= k < |v| :: v[k] != '.';
      v
    else
      var v := s[i..i + 10];
      assert v[4] == '.';
      v
  }

  /** The code ExtrairCodigoNcm returns for a match at offset i: dotted if bare, verbatim otherwise. */
  function MatchedCode(s: string, i: nat): (r: string)
    requires CodeAt(s, i)
    ensures IsCanonical(r)
    ensures Digits(r) == Digits(MatchValue(s, i))
    ensures '.' in MatchValue(s, i) ==> r == MatchValue(s, i)
  {
    var ncmEncontrado := MatchValue(s, i);
    if '.' !in ncmEncontrado then Dotted(ncmEncontrado) else ncmEncontrado
  }

  lemma FirstCodeIsUnique(s: string, i: nat)
    requires IsFirstCode(s, i)
    ensures forall j: nat | IsFirstCode(s, j) :: j == i
  {
    forall j: nat | IsFirstCode(s, j)
      ensures j == i
    {
      assert j < i ==> !CodeAt(s, j);
      assert i < j ==> !CodeAt(s, i);
    }
  }

  /** The regex scan from offset `from` on; None when no offset from there on matches. */
  function FirstCodeFrom(s: string, from: nat): (r: Option<nat>)
    requires from <= |s|
    decreases |s| - from
    ensures r.Some? ==> from <= r.value <= |s| && CodeAt(s, r.value)
    ensures forall j | from <= j <= |s| && (r.None? || j < r.value) :: !CodeAt(s, j)
  {
    if CodeAt(s, from) then Some(from)
    else if from == |s| then None
    else FirstCodeFrom(s, from + 1)
  }

  /**
   * ExtrairCodigoNcm: the first NCM code in the text, in display form; the sentinel when the
   * text is null, blank or holds no code.
   */
  function ExtrairCodigoNcm(ncmResposta: Option<string>): (r: string)
    ensures IsCanonical(r)
    ensures IsNullOrWhiteSpace(ncmResposta) ==> r == Sentinel
    ensures ncmResposta.Some? && (forall j | 0 <= j <= |ncmResposta.value| :: !CodeAt(ncmResposta.value, j)) ==>
              r == Sentinel
    ensures forall i | ncmResposta.Some? && IsFirstCode(ncmResposta.value, i) ::
              r == MatchedCode(ncmResposta.value, i)
  {
    if IsNullOrWhiteSpace(ncmResposta) then
      assert forall i: nat | ncmResposta.Some? :: !CodeAt(ncmResposta.value, i) by {
        forall i: nat | ncmResposta.Some?
          ensures !CodeAt(ncmResposta.value, i)
        {
          CodeStartsWithDigit(ncmResposta.value, i);
        }
      }
      Sentinel
    else
      match FirstCodeFrom(ncmResposta.value, 0)
      case Some(i) =>
        FirstCodeIsUnique(ncmResposta.value, i);
        MatchedCode(ncmResposta.value, i)
      case None => Sentinel
  }

  /** What ExtrairCodigoNcm returns is never rejected by NormalizarNcm, and is left as it is. */
  lemma ExtractedCodeIsNormal(ncmResposta: Option<string>)
    ensures NormalizarNcm(ExtrairCodigoNcm(ncmResposta)) == Success(ExtrairCodigoNcm(ncmResposta))
  {
    CanonicalIsNormal(ExtrairCodigoNcm(ncmResposta));
  }

  /**
   * A run of more than eight digits holds no code: \b cannot fire inside the run, and its
   * first eight digits are followed by a ninth.
   */
  lemma {:induction false} LongDigitRunHasNoCode(s: string, a: nat, b: nat)
    requires a + 8 < b <= |s| && AllDigits(s[a..b])
    ensures forall i | a <= i < b :: !CodeAt(s, i)
  {
    forall i | a <= i < b
      ensures !CodeAt(s, i)
    {
      assert IsDigit(s[a..b][i - a]);
      if i == a {
        assert IsDigit(s[a..b][7]) && IsDigit(s[a..b][8]) && IsDigit(s[a..b][4]);
      } else {
        assert IsDigit(s[a..b][i - 1 - a]);
      }
    }
  }

  lemma ExtrairCodigoNcmExamples()
    ensures ExtrairCodigoNcm(None) == Sentinel
    ensures ExtrairCodigoNcm(Some("   ")) == Sentinel
  {
  }
}
