/**
 * The resolver of the NCM controller (Controllers/NcmController.cs): ValidarNcm checks an
 * extracted code against the reference table and falls back to description matching, and the
 * tail of the consultation action turns the oracle's answer into a validated code, the
 * subcategory text it passes as description, and the "approximate" message.
 */
module NcmController {
  import opened Wrappers
  import opened DotNet
  import opened NcmCodes
  import opened NcmTableLoader

  /** What ValidarNcm answers when neither the code nor the description finds an entry. */
  const InvalidCode: string := "Código NCM inválido ou obsoleto."

  /** The similarity threshold ValidarNcm passes to SugerirNcmPorDescricao. */
  const DescriptionThreshold: int := 85

  /**
   * ValidarNcm: trims and normalises the suggested code (a null code throws on Trim, a code
   * without exactly eight digits throws FormatException), returns it if the table holds it
   * (ContainsKey on a null table throws), otherwise the code suggested from the description
   * at threshold 85, otherwise InvalidCode.
   */
  function ValidarNcm(ncmTable: Option<Table>, ncmSugerido: Option<string>, descricaoProduto: Option<string>,
                      ratio: Similarity): (r: Result<string, Fault>)
    ensures r.Failure? <==> ncmSugerido.None? || |Digits(ncmSugerido.value)| != 8 || ncmTable.None?
    ensures r.Failure? ==>
              (r.error == FormatException <==> ncmSugerido.Some? && |Digits(ncmSugerido.value)| != 8)
    ensures r.Success? ==> r.value == InvalidCode || r.value in ncmTable.value.descriptions
  {
    if ncmSugerido.None? then Failure(NullReferenceException)
    else
      var trimmed := Trim(ncmSugerido.value);
      TrimKeepsDigits(ncmSugerido.value);
      match NormalizarNcm(trimmed)
      case Failure(e) => Failure(e)
      case Success(normalized) =>
        if ncmTable.None? then Failure(NullReferenceException)
        else if normalized in ncmTable.value.descriptions then Success(normalized)
        else
          var ncmSugeridoPorDescricao := SugerirNcmPorDescricao(ncmTable, descricaoProduto, DescriptionThreshold, ratio);
          if ncmSugeridoPorDescricao.Some? && ncmSugeridoPorDescricao.value != "" then
            Success(ncmSugeridoPorDescricao.value)
          else Success(InvalidCode)
  }

  /** A code whose normal form is in the table is returned as such, whatever the description. */
  lemma ExactHitWins(t: Table, ncmSugerido: string, descricaoProduto: Option<string>, ratio: Similarity)
    requires NormalizarNcm(ncmSugerido).Success? && NormalizarNcm(ncmSugerido).value in t.descriptions
    ensures ValidarNcm(Some(t), Some(ncmSugerido), descricaoProduto, ratio) == NormalizarNcm(ncmSugerido)
  {
    TrimKeepsDigits(ncmSugerido);
    NormalizarNcmDependsOnDigitsOnly(ncmSugerido, Trim(ncmSugerido));
  }

  /**
   * On a miss, the result is a ten-character table code scoring best against the description
   * at threshold 85, or InvalidCode exactly when no such code reaches 85 (always when the
   * description is null or blank); never the code that missed.
   */
  lemma ValidarNcmOnMiss(t: Table, ncmSugerido: string, descricaoProduto: Option<string>, ratio: Similarity)
    requires NormalizarNcm(ncmSugerido).Success? && NormalizarNcm(ncmSugerido).value !in t.descriptions
    ensures var r := ValidarNcm(Some(t), Some(ncmSugerido), descricaoProduto, ratio);
            && r.Success? && r.value != NormalizarNcm(ncmSugerido).value
            && (IsNullOrWhiteSpace(descricaoProduto) ==> r.value == InvalidCode)
            && (r.value != InvalidCode ==> r.value in t.descriptions && |r.value| == SuggestionCodeLength)
            && (!IsNullOrWhiteSpace(descricaoProduto) ==>
                  var query := NormalizedQuery(descricaoProduto.value);
                  && (r.value == InvalidCode <==>
                        forall k | k in t.descriptions && |k| == SuggestionCodeLength ::
                          Score(t, query, ratio, k) < DescriptionThreshold)
                  && (r.value != InvalidCode ==>
                        forall k | k in t.descriptions && |k| == SuggestionCodeLength ::
                          Score(t, query, ratio, k) <= Score(t, query, ratio, r.value)))
  {
    TrimKeepsDigits(ncmSugerido);
    NormalizarNcmDependsOnDigitsOnly(ncmSugerido, Trim(ncmSugerido));
    assert |InvalidCode| == 32;
    if !IsNullOrWhiteSpace(descricaoProduto) {
      SuggestionIsBest(t, descricaoProduto.value, DescriptionThreshold, ratio);
    }
  }

  /**
   * On a miss, the resolver answers exactly what SugerirNcmPorDescricao suggests at threshold
   * 85, so ties go to the code enumerated first; InvalidCode when nothing is suggested.
   */
  lemma ValidarNcmReturnsSuggestion(t: Table, ncmSugerido: string, descricaoProduto: Option<string>,
                                    ratio: Similarity)
    requires NormalizarNcm(ncmSugerido).Success? && NormalizarNcm(ncmSugerido).value !in t.descriptions
    ensures var s := SugerirNcmPorDescricao(Some(t), descricaoProduto, DescriptionThreshold, ratio);
            ValidarNcm(Some(t), Some(ncmSugerido), descricaoProduto, ratio) ==
              Success(if s.Some? then s.value else InvalidCode)
  {
    TrimKeepsDigits(ncmSugerido);
    NormalizarNcmDependsOnDigitsOnly(ncmSugerido, Trim(ncmSugerido));
  }

  /**
   * For a code already in display form, as the extractor produces, validation throws only
   * for a null table, and leaves the code unchanged exactly when the table holds it.
   */
  lemma ValidationKeepsExactly(ncmTable: Option<Table>, codigo: string, descricaoProduto: Option<string>,
                               ratio: Similarity)
    requires IsCanonical(codigo)
    ensures var r := ValidarNcm(ncmTable, Some(codigo), descricaoProduto, ratio);
            && (r.Failure? <==> ncmTable.None?)
            && (r.Failure? ==> r.error == NullReferenceException)
            && (r.Success? ==> (r.value == codigo <==> codigo in ncmTable.value.descriptions))
  {
    CanonicalIsNormal(codigo);
    if ncmTable.Some? {
      if codigo in ncmTable.value.descriptions {
        ExactHitWins(ncmTable.value, codigo, descricaoProduto, ratio);
      } else {
        ValidarNcmOnMiss(ncmTable.value, codigo, descricaoProduto, ratio);
      }
    }
  }

  /** The phrase after which the oracle states the product's subcategory. */
  const SubcategoryKey: string := "A subcategoria do produto é "

  /**
   * Lines 88-94 with the phrase `chave`: what follows its first occurrence in `entrada`,
   * trimmed, or null when it does not occur.
   */
  function TextAfter(entrada: string, chave: string): (r: Option<string>)
    ensures r.None? <==> forall i: nat :: !OccursAt(entrada, chave, i)
    ensures forall i: nat | IsFirstOccurrence(entrada, chave, i) :: r == Some(Trim(entrada[i + |chave|..]))
  {
    if Contains(entrada, chave) then
      var i := IndexOf(entrada, chave, 0).value;
      assert forall j: nat | IsFirstOccurrence(entrada, chave, j) :: j == i by {
        forall j: nat | IsFirstOccurrence(entrada, chave, j)
          ensures j == i
        {
          assert j < i ==> !OccursAt(entrada, chave, j);
          assert i < j ==> !OccursAt(entrada, chave, i);
        }
      }
      var inicio := i + |chave|;
      Some(Trim(entrada[inicio..]))
    else None
  }

  const Approximated: string := "Sim, a classificação foi aproximada pois o código original não é mais válido."
  const Precise: string := "Não, a classificação é precisa."

  /** The message for a validated code against the extracted one: approximate when they differ. */
  function Aproximado(ncmValidofinal: string, ncmCodigo1: string): (m: string)
    ensures m == Precise <==> ncmValidofinal == ncmCodigo1
    ensures m == Approximated <==> ncmValidofinal != ncmCodigo1
  {
    assert |Precise| == 31;
    if ncmValidofinal != ncmCodigo1 then Approximated else Precise
  }

  /** The code the action answers with and its "aproximado" message. */
  datatype Classification = Classification(ncmCodigo: string, aproximado: string)

  /**
   * The tail of the consultation action for an oracle answer: the extracted code, validated
   * with the subcategory text as description, flagged approximate when validation changed it.
   * A null answer throws at the phrase search; a null table throws inside ValidarNcm.
   */
  function ClassificarResposta(ncmTable: Option<Table>, ncmResposta: Option<string>, ratio: Similarity)
    : (r: Result<Classification, Fault>)
    ensures r.Failure? <==> ncmResposta.None? || ncmTable.None?
    ensures r.Failure? ==> r.error == NullReferenceException
    ensures r.Success? ==>
              (r.value.aproximado == Precise <==> ExtrairCodigoNcm(ncmResposta) in ncmTable.value.descriptions)
    ensures r.Success? ==> r.value.aproximado == Precise || r.value.aproximado == Approximated
    ensures r.Success? && r.value.aproximado == Precise ==> r.value.ncmCodigo == ExtrairCodigoNcm(ncmResposta)
    ensures r.Success? && r.value.aproximado == Approximated ==>
              r.value.ncmCodigo == InvalidCode || r.value.ncmCodigo in ncmTable.value.descriptions
  {
    var ncmCodigoFinal := ExtrairCodigoNcm(ncmResposta);
    if ncmResposta.None? then Failure(NullReferenceException)
    else
      var resultado := TextAfter(ncmResposta.value, SubcategoryKey);
      ValidationKeepsExactly(ncmTable, ncmCodigoFinal, resultado, ratio);
      match ValidarNcm(ncmTable, Some(ncmCodigoFinal), resultado, ratio)
      case Failure(e) => Failure(e)
      case Success(ncmValidofinal) =>
        Success(Classification(ncmValidofinal, Aproximado(ncmValidofinal, ncmCodigoFinal)))
  }

  /**
   * When the extracted code is not in the table, the answer is the code suggested for the
   * subcategory text of the oracle's answer at threshold 85, or InvalidCode, and is flagged
   * approximate.
   */
  lemma ClassificarRespostaOnMiss(t: Table, ncmResposta: string, ratio: Similarity)
    requires ExtrairCodigoNcm(Some(ncmResposta)) !in t.descriptions
    ensures var s := SugerirNcmPorDescricao(Some(t), TextAfter(ncmResposta, SubcategoryKey), DescriptionThreshold, ratio);
            var r := ClassificarResposta(Some(t), Some(ncmResposta), ratio);
            && r.Success?
            && r.value.ncmCodigo == (if s.Some? then s.value else InvalidCode)
            && r.value.aproximado == Approximated
  {
    var c := ExtrairCodigoNcm(Some(ncmResposta));
    CanonicalIsNormal(c);
    ValidarNcmReturnsSuggestion(t, c, TextAfter(ncmResposta, SubcategoryKey), ratio);
  }
}
