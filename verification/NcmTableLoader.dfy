/**
 * The reference table (Utils/NcmTableLoader.cs): loading the in-force entries of the NCM
 * corpus into a code-to-description table, and suggesting a code from a product description
 * by similarity ranking over that table.
 */
module NcmTableLoader {
  import opened Wrappers
  import opened DotNet
  import opened Ranking

  /** The Data_Fim of an entry that is still in force. */
  const InForceEndDate: string := "31/12/9999"

  /** Only codes of this many characters (DDDD.DD.DD) take part in description matching. */
  const SuggestionCodeLength: nat := 10

  /** One element of the corpus' Nomenclaturas list (the act fields play no part). */
  datatype NcmEntry = NcmEntry(codigo: string, descricao: string, dataInicio: string, dataFim: string)

  /**
   * A dictionary from code to description, with the order in which enumerating it yields the
   * codes: insertion order for the one ToDictionary builds, bucket order for the concurrent
   * copy the loader keeps.
   */
  datatype NcmTable = NcmTable(descriptions: map<string, string>, keys: seq<string>)

  predicate Distinct(ks: seq<string>) {
    forall i, j | 0 <= i < j < |ks| :: ks[i] != ks[j]
  }

  /** A table enumerates each of its codes exactly once. */
  type Table = t: NcmTable | Distinct(t.keys) && (forall k :: k in t.descriptions <==> k in t.keys)
    witness NcmTable(map[], [])

  /** The corpus file as LoadNcmTable finds it. */
  datatype CorpusFile =
    | FileMissing                                           // File.Exists is false
    | Unreadable                                            // File.ReadAllText throws
    | Malformed                                             // JsonSerializer.Deserialize throws
    | Parsed(nomenclaturas: Option<seq<NcmEntry>>)          // None: the root or its list is null

  /** How LoadNcmTable returns when it does not throw. */
  datatype LoadStatus = FileNotFound | NoRecords | NoValidRecords | Loaded(count: nat)

  /** What LoadNcmTable rethrows. */
  datatype LoadError = IOException | JsonException | ArgumentException(duplicateKey: string)

  function Codes(es: seq<NcmEntry>): (r: seq<string>)
    ensures |r| == |es| && forall i | 0 <= i < |es| :: r[i] == es[i].codigo
  {
    seq(|es|, i requires 0 <= i < |es| => es[i].codigo)
  }

  /** The entries still in force (end date InForceEndDate), in corpus order. */
  function Vigentes(es: seq<NcmEntry>): (r: seq<NcmEntry>)
    ensures forall e | e in r :: e in es && e.dataFim == InForceEndDate
    ensures forall e | e in es && e.dataFim == InForceEndDate :: e in r
  {
    if es == [] then []
    else (if es[0].dataFim == InForceEndDate then [es[0]] else []) + Vigentes(es[1..])
  }

  /** Filtering a concatenation filters each part, so order and repeats are kept. */
  lemma {:induction false} VigentesConcat(a: seq<NcmEntry>, b: seq<NcmEntry>)
    ensures Vigentes(a + b) == Vigentes(a) + Vigentes(b)
  {
    if a == [] {
      assert a + b == b;
    } else {
      assert (a + b)[1..] == a[1..] + b;
      VigentesConcat(a[1..], b);
    }
  }

  /** No two in-force entries, at any two positions of the corpus, share a code. */
  predicate InForceCodesDistinct(es: seq<NcmEntry>) {
    forall i, j | 0 <= i < j < |es| && es[i].dataFim == InForceEndDate && es[j].dataFim == InForceEndDate ::
      es[i].codigo != es[j].codigo
  }

  /** Some in-force entry of es has code c. */
  predicate HasInForceCode(es: seq<NcmEntry>, c: string) {
    exists j | 0 <= j < |es| :: es[j].dataFim == InForceEndDate && es[j].codigo == c
  }

  lemma VigentesCodesMembership(es: seq<NcmEntry>, c: string)
    ensures c in Codes(Vigentes(es)) <==> HasInForceCode(es, c)
  {
    var vs := Vigentes(es);
    if c in Codes(vs) {
      var k :| 0 <= k < |vs| && vs[k].codigo == c;
      assert vs[k] in vs;
    }
    if HasInForceCode(es, c) {
      var j :| 0 <= j < |es| && es[j].dataFim == InForceEndDate && es[j].codigo == c;
      assert es[j] in es;
      var k :| 0 <= k < |vs| && vs[k] == es[j];
      assert Codes(vs)[k] == c;
    }
  }

  /** The pairwise condition splits into the first entry against the rest, and the rest. */
  lemma InForceCodesDistinctCons(es: seq<NcmEntry>)
    requires es != []
    ensures InForceCodesDistinct(es) <==>
              InForceCodesDistinct(es[1..]) &&
              (es[0].dataFim == InForceEndDate ==> !HasInForceCode(es[1..], es[0].codigo))
  {
    var rest := es[1..];
    assert forall j | 1 <= j < |es| :: es[j] == rest[j - 1];
    if InForceCodesDistinct(es) {
      forall i, j | 0 <= i < j < |rest| && rest[i].dataFim == InForceEndDate && rest[j].dataFim == InForceEndDate
        ensures rest[i].codigo != rest[j].codigo
      {
        assert es[i + 1] == rest[i] && es[j + 1] == rest[j];
      }
    }
  }

  lemma CodesCons(e: NcmEntry, es: seq<NcmEntry>)
    ensures Codes([e] + es) == [e.codigo] + Codes(es)
  {
    var l, r := Codes([e] + es), [e.codigo] + Codes(es);
    assert |l| == |r|;
    forall i | 0 <= i < |l| ensures l[i] == r[i] {
      if i > 0 {
        assert ([e] + es)[i] == es[i - 1];
      }
    }
  }

  lemma DistinctCons(c: string, cs: seq<string>)
    ensures Distinct([c] + cs) <==> c !in cs && Distinct(cs)
  {
    var ks := [c] + cs;
    assert forall j | 1 <= j < |ks| :: ks[j] == cs[j - 1];
    if Distinct(ks) {
      forall i, j | 0 <= i < j < |cs| ensures cs[i] != cs[j] {
        assert ks[i + 1] != ks[j + 1];
      }
      forall j | 0 <= j < |cs| ensures cs[j] != c {
        assert ks[0] != ks[j + 1];
      }
    }
  }

  /** The in-force codes are duplicate-free exactly when no two in-force positions share a code. */
  lemma {:induction false} VigentesCodesDistinct(es: seq<NcmEntry>)
    ensures Distinct(Codes(Vigentes(es))) <==> InForceCodesDistinct(es)
  {
    if es != [] {
      var rest := es[1..];
      VigentesCodesDistinct(rest);
      InForceCodesDistinctCons(es);
      if es[0].dataFim == InForceEndDate {
        assert Vigentes(es) == [es[0]] + Vigentes(rest);
        CodesCons(es[0], Vigentes(rest));
        DistinctCons(es[0].codigo, Codes(Vigentes(rest)));
        VigentesCodesMembership(rest, es[0].codigo);
      } else {
        assert Vigentes(es) == Vigentes(rest);
      }
    }
  }

  /** Dictionary.Add of one entry whose code is not yet present. */
  function Add(t: Table, e: NcmEntry): (r: Table)
    requires e.codigo !in t.descriptions
    ensures |r.keys| == |t.keys| + 1 && r.keys[|t.keys|] == e.codigo
    ensures e.codigo in r.descriptions && r.descriptions[e.codigo] == e.descricao
    ensures forall k | k in t.descriptions :: k in r.descriptions && r.descriptions[k] == t.descriptions[k]
  {
    NcmTable(t.descriptions[e.codigo := e.descricao], t.keys + [e.codigo])
  }

  /**
   * Building the code-to-description dictionary, continued from table t: adds
   * the entries in order and throws ArgumentException at the first code already present.
   */
  function AddAll(t: Table, es: seq<NcmEntry>): (r: Result<Table, LoadError>)
    decreases |es|
    ensures r.Failure? ==> r.error.ArgumentException? && r.error.duplicateKey in Codes(es)
  {
    if es == [] then Success(t)
    else if es[0].codigo in t.descriptions then Failure(ArgumentException(es[0].codigo))
    else AddAll(Add(t, es[0]), es[1..])
  }

  /** Adding the entries succeeds exactly when no code repeats, and enumerates them after t's. */
  lemma {:induction false} AddAllKeys(t: Table, es: seq<NcmEntry>)
    decreases |es|
    ensures AddAll(t, es).Success? <==> Distinct(t.keys + Codes(es))
    ensures AddAll(t, es).Success? ==> AddAll(t, es).value.keys == t.keys + Codes(es)
  {
    var ks := t.keys + Codes(es);
    if es == [] {
      assert ks == t.keys;
    } else {
      assert ks[|t.keys|] == es[0].codigo;
      if es[0].codigo in t.descriptions {
        var i :| 0 <= i < |t.keys| && t.keys[i] == es[0].codigo;
        assert ks[i] == ks[|t.keys|];
      } else {
        var t' := Add(t, es[0]);
        assert t'.keys + Codes(es[1..]) == ks;
        AddAllKeys(t', es[1..]);
      }
    }
  }

  /** Each added entry's code maps to its description, and t's own entries are kept. */
  lemma {:induction false} AddAllDescriptions(t: Table, es: seq<NcmEntry>)
    requires AddAll(t, es).Success?
    decreases |es|
    ensures forall k | k in t.descriptions ::
              k in AddAll(t, es).value.descriptions && AddAll(t, es).value.descriptions[k] == t.descriptions[k]
    ensures forall e | e in es ::
              e.codigo in AddAll(t, es).value.descriptions && AddAll(t, es).value.descriptions[e.codigo] == e.descricao
  {
    if es != [] {
      AddAllDescriptions(Add(t, es[0]), es[1..]);
      assert forall e | e in es :: e == es[0] || e in es[1..];
    }
  }

  /**
   * The dictionary LoadNcmTable builds from a non-empty entry list before copying it, or what
   * building it throws.
   */
  function BuildTable(es: seq<NcmEntry>): (r: Result<Table, LoadError>)
    ensures r.Failure? ==> r.error.ArgumentException?
    ensures r.Success? ==> |r.value.keys| == |Vigentes(es)|
  {
    var empty: Table := NcmTable(map[], []);
    AddAllKeys(empty, Vigentes(es));
    AddAll(empty, Vigentes(es))
  }

  /**
   * Building succeeds exactly when no two in-force entries share a code; the intermediate
   * dictionary then lists exactly the in-force codes, in the order they were added.
   */
  lemma BuildTableKeys(es: seq<NcmEntry>)
    ensures BuildTable(es).Success? <==> Distinct(Codes(Vigentes(es)))
    ensures BuildTable(es).Success? ==> BuildTable(es).value.keys == Codes(Vigentes(es))
    ensures BuildTable(es).Failure? ==>
      exists e | e in es :: e.dataFim == InForceEndDate && BuildTable(es).error == ArgumentException(e.codigo)
  {
    var empty: Table := NcmTable(map[], []);
    var vs := Vigentes(es);
    assert empty.keys + Codes(vs) == Codes(vs);
    AddAllKeys(empty, vs);
    var r := BuildTable(es);
    if r.Failure? {
      var i :| 0 <= i < |vs| && vs[i].codigo == r.error.duplicateKey;
      assert vs[i] in vs;
    }
  }

  /**
   * Building throws exactly when two in-force entries, wherever they sit in the corpus, share
   * a code: repeated entries are not merged.
   */
  lemma BuildTableSucceedsIffNoSharedCode(es: seq<NcmEntry>)
    ensures BuildTable(es).Success? <==> InForceCodesDistinct(es)
  {
    BuildTableKeys(es);
    VigentesCodesDistinct(es);
  }

  /** An in-force entry listed twice makes building throw, naming its code. */
  lemma RepeatedEntryThrows(e: NcmEntry)
    requires e.dataFim == InForceEndDate
    ensures BuildTable([e, e]) == Failure(ArgumentException(e.codigo))
  {
    BuildTableSucceedsIffNoSharedCode([e, e]);
    BuildTableKeys([e, e]);
  }

  /** A built table holds precisely the in-force codes. */
  lemma BuildTableDomain(es: seq<NcmEntry>)
    requires BuildTable(es).Success?
    ensures forall k :: k in BuildTable(es).value.descriptions <==>
              exists e | e in es :: e.dataFim == InForceEndDate && e.codigo == k
  {
    var vs := Vigentes(es);
    var t := BuildTable(es).value;
    BuildTableKeys(es);
    forall k | k in t.descriptions
      ensures exists e | e in es :: e.dataFim == InForceEndDate && e.codigo == k
    {
      var i :| 0 <= i < |t.keys| && t.keys[i] == k;
      assert vs[i] in vs && vs[i].codigo == k;
    }
    forall e | e in es && e.dataFim == InForceEndDate
      ensures e.codigo in t.descriptions
    {
      var i :| 0 <= i < |vs| && vs[i] == e;
      assert t.keys[i] == e.codigo;
    }
  }

  /** A built table maps each in-force code to its entry's description. */
  lemma BuildTableDescriptions(es: seq<NcmEntry>)
    requires BuildTable(es).Success?
    ensures forall e | e in es && e.dataFim == InForceEndDate ::
              e.codigo in BuildTable(es).value.descriptions &&
              BuildTable(es).value.descriptions[e.codigo] == e.descricao
  {
    AddAllDescriptions(NcmTable(map[], []), Vigentes(es));
  }

  /**
   * The bucket a code's hash falls in. String hashes are randomised per process, so the model
   * takes the bucket assignment as a parameter: any function of the code will do.
   */
  type Bucket = string -> int

  /** Codes listed by non-decreasing bucket, as enumerating the concurrent dictionary walks them. */
  predicate AscendingBuckets(ks: seq<string>, bucket: Bucket) {
    forall i, j | 0 <= i < j < |ks| :: bucket(ks[i]) <= bucket(ks[j])
  }

  /** Puts k into a list ordered by bucket, before the first code of the same or a later bucket. */
  function InsertByBucket(k: string, ks: seq<string>, bucket: Bucket): (r: seq<string>)
    requires AscendingBuckets(ks, bucket)
    ensures |r| == |ks| + 1
    ensures forall x :: x in r <==> x == k || x in ks
    ensures AscendingBuckets(r, bucket)
  {
    if ks == [] || bucket(k) <= bucket(ks[0]) then [k] + ks
    else
      var rest := InsertByBucket(k, ks[1..], bucket);
      assert ks == [ks[0]] + ks[1..];
      assert forall x | x in rest :: bucket(ks[0]) <= bucket(x) by {
        assert forall x | x in ks[1..] :: x in ks && x != ks[0] ==> bucket(ks[0]) <= bucket(x);
      }
      [ks[0]] + rest
  }

  /** The codes of ks in the order enumeration visits them: grouped and ordered by bucket. */
  function BucketOrder(ks: seq<string>, bucket: Bucket): (r: seq<string>)
    ensures |r| == |ks|
    ensures forall x :: x in r <==> x in ks
    ensures AscendingBuckets(r, bucket)
  {
    if ks == [] then []
    else
      assert ks == [ks[0]] + ks[1..];
      InsertByBucket(ks[0], BucketOrder(ks[1..], bucket), bucket)
  }

  lemma {:induction false} InsertByBucketDistinct(k: string, ks: seq<string>, bucket: Bucket)
    requires AscendingBuckets(ks, bucket) && Distinct(ks) && k !in ks
    ensures Distinct(InsertByBucket(k, ks, bucket))
  {
    if ks != [] && bucket(k) > bucket(ks[0]) {
      assert ks[0] !in ks[1..] by { assert forall j | 1 <= j < |ks| :: ks[j] != ks[0]; }
      InsertByBucketDistinct(k, ks[1..], bucket);
    }
  }

  /** Enumeration visits each code of a duplicate-free list once. */
  lemma {:induction false} BucketOrderDistinct(ks: seq<string>, bucket: Bucket)
    requires Distinct(ks)
    ensures Distinct(BucketOrder(ks, bucket))
  {
    if ks != [] {
      assert ks[0] !in ks[1..] by { assert forall j | 1 <= j < |ks| :: ks[j] != ks[0]; }
      BucketOrderDistinct(ks[1..], bucket);
      InsertByBucketDistinct(ks[0], BucketOrder(ks[1..], bucket), bucket);
    }
  }

  /**
   * The copy of the built dictionary into a concurrent one: the same code-to-description map,
   * enumerated by bucket instead of by insertion.
   */
  function Enumerate(t: Table, bucket: Bucket): (r: Table)
    ensures r.descriptions == t.descriptions
    ensures |r.keys| == |t.keys|
    ensures AscendingBuckets(r.keys, bucket)
  {
    BucketOrderDistinct(t.keys, bucket);
    NcmTable(t.descriptions, BucketOrder(t.keys, bucket))
  }

  /** Two duplicate-free lists of the same codes, both strictly ordered by bucket, are equal. */
  lemma {:induction false} StrictBucketOrderIsUnique(xs: seq<string>, ys: seq<string>, bucket: Bucket)
    requires Distinct(xs) && Distinct(ys) && (forall k :: k in xs <==> k in ys)
    requires forall i, j | 0 <= i < j < |xs| :: bucket(xs[i]) < bucket(xs[j])
    requires AscendingBuckets(ys, bucket)
    ensures xs == ys
  {
    assert xs == [] <==> ys == [] by {
      assert xs != [] ==> xs[0] in xs;
      assert ys != [] ==> ys[0] in ys;
    }
    if xs != [] {
      assert ys[0] in xs by { assert ys[0] in ys; }
      assert xs[0] in ys by { assert xs[0] in xs; }
      var i :| 0 <= i < |xs| && xs[i] == ys[0];
      var j :| 0 <= j < |ys| && ys[j] == xs[0];
      assert i == 0 by {
        assert bucket(xs[0]) == bucket(ys[j]) >= bucket(ys[0]) == bucket(xs[i]);
      }
      forall k ensures k in xs[1..] <==> k in ys[1..] {
        assert k in xs[1..] <==> k in xs && k != xs[0];
        assert k in ys[1..] <==> k in ys && k != ys[0];
      }
      StrictBucketOrderIsUnique(xs[1..], ys[1..], bucket);
      assert xs == [xs[0]] + xs[1..] && ys == [ys[0]] + ys[1..];
    }
  }

  /**
   * Every order of the codes is an enumeration order: buckets that rank the codes as `order`
   * lists them make the table enumerate exactly `order`.
   */
  lemma AnyOrderIsAnEnumeration(t: Table, order: seq<string>, bucket: Bucket)
    requires Distinct(order) && (forall k :: k in order <==> k in t.descriptions)
    requires forall i, j | 0 <= i < j < |order| :: bucket(order[i]) < bucket(order[j])
    ensures Enumerate(t, bucket).keys == order
  {
    StrictBucketOrderIsUnique(order, Enumerate(t, bucket).keys, bucket);
  }

  /** The static class NcmTableLoader; its one piece of state is NcmTable, None while null. */
  class NcmTableStore {
    var ncmTable: Option<Table>

    constructor ()
      ensures ncmTable.None?
    {
      ncmTable := None;
    }

    /**
     * LoadNcmTable: a missing file, or a corpus without entries, leaves the table as it was;
     * otherwise the in-force entries replace it, unless building the dictionary throws. The new
     * table is enumerated in the bucket order `bucket` gives.
     */
    method LoadNcmTable(file: CorpusFile, bucket: Bucket) returns (r: Result<LoadStatus, LoadError>)
      modifies this
      ensures file.FileMissing? ==> r == Success(FileNotFound) && ncmTable == old(ncmTable)
      ensures file.Unreadable? ==> r == Failure(IOException) && ncmTable == old(ncmTable)
      ensures file.Malformed? ==> r == Failure(JsonException) && ncmTable == old(ncmTable)
      ensures file.Parsed? && (file.nomenclaturas.None? || file.nomenclaturas.value == []) ==>
                r == Success(NoRecords) && ncmTable == old(ncmTable)
      ensures file.Parsed? && file.nomenclaturas.Some? && file.nomenclaturas.value != [] ==>
                var built := BuildTable(file.nomenclaturas.value);
                && (built.Failure? ==> r == Failure(built.error) && ncmTable == old(ncmTable))
                && (built.Success? ==> ncmTable == Some(Enumerate(built.value, bucket)))
                && (built.Success? && built.value.keys == [] ==> r == Success(NoValidRecords))
                && (built.Success? && built.value.keys != [] ==> r == Success(Loaded(|built.value.keys|)))
    {
      match file
      case FileMissing =>
        return Success(FileNotFound);
      case Unreadable =>
        return Failure(IOException);
      case Malformed =>
        return Failure(JsonException);
      case Parsed(root) =>
        if root.None? || root.value == [] {
          return Success(NoRecords);
        }
        var built := BuildTable(root.value);
        if built.Failure? {
          return Failure(built.error);
        }
        ncmTable := Some(Enumerate(built.value, bucket));
        if |built.value.keys| == 0 {
          return Success(NoValidRecords);
        }
        return Success(Loaded(|built.value.keys|));
    }
  }

  /** Fuzz.TokenSetRatio(query, description), whose definition is not part of this model. */
  type Similarity = (string, string) -> int

  /** The codes of exactly ten characters, in the table's enumeration order. */
  function SuggestionKeys(ks: seq<string>): (r: seq<string>)
    ensures forall k | k in r :: k in ks && |k| == SuggestionCodeLength
    ensures forall k | k in ks && |k| == SuggestionCodeLength :: k in r
  {
    if ks == [] then []
    else (if |ks[0]| == SuggestionCodeLength then [ks[0]] else []) + SuggestionKeys(ks[1..])
  }

  /** The query as compared: lower-cased, then trimmed. */
  function NormalizedQuery(descricaoProduto: string): (q: string)
    ensures |q| <= |descricaoProduto|
    ensures q == [] || (!IsWhiteSpace(q[0]) && !IsWhiteSpace(q[|q| - 1]))
    ensures forall c | c in q :: !('A' <= c <= 'Z')
  {
    Trim(ToLowerInvariant(descricaoProduto))
  }

  /** The similarity of code k's description, lower-cased, to the query. */
  function Score(t: Table, query: string, ratio: Similarity, k: string): int
    requires k in t.descriptions
  {
    ratio(query, ToLowerInvariant(t.descriptions[k]))
  }

  /** One candidate per code, in the given order: the code, its description and its score. */
  function Candidates(t: Table, ks: seq<string>, query: string, ratio: Similarity): (cs: seq<Candidate>)
    requires forall k | k in ks :: k in t.descriptions
    ensures |cs| == |ks|
    ensures forall i | 0 <= i < |ks| :: cs[i].codigo == ks[i]
  {
    seq(|ks|, i requires 0 <= i < |ks| => Candidate(ks[i], t.descriptions[ks[i]], Score(t, query, ratio, ks[i])))
  }

  /**
   * SugerirNcmPorDescricao: the best-scoring ten-character code whose score reaches the
   * threshold, or None (null). The table is None while NcmTable is null.
   */
  function SugerirNcmPorDescricao(ncmTable: Option<Table>, descricaoProduto: Option<string>,
                                  limiteSimilaridade: int, ratio: Similarity): (r: Option<string>)
    ensures ncmTable.None? || ncmTable.value.keys == [] ==> r.None?
    ensures IsNullOrWhiteSpace(descricaoProduto) ==> r.None?
    ensures r.Some? ==> ncmTable.Some? && descricaoProduto.Some?
    ensures r.Some? ==> r.value in ncmTable.value.descriptions && |r.value| == SuggestionCodeLength
    ensures r.Some? ==>
              Score(ncmTable.value, NormalizedQuery(descricaoProduto.value), ratio, r.value) >= limiteSimilaridade
  {
    if ncmTable.None? || |ncmTable.value.keys| == 0 then None
    else if IsNullOrWhiteSpace(descricaoProduto) then None
    else
      var t := ncmTable.value;
      var ncmFiltrado := SuggestionKeys(t.keys);
      if |ncmFiltrado| == 0 then None
      else
        var query := NormalizedQuery(descricaoProduto.value);
        var candidates := Candidates(t, ncmFiltrado, query, ratio);
        var resultadoSimilares := OrderByDescending(candidates);
        var acima := Where(resultadoSimilares, limiteSimilaridade);
        if |acima| == 0 then None
        else
          assert acima[0] in resultadoSimilares;
          assert acima[0] in multiset(candidates);
          var i :| 0 <= i < |candidates| && candidates[i] == acima[0];
          assert ncmFiltrado[i] in ncmFiltrado;
          Some(acima[0].codigo)
  }

  /** The candidates SugerirNcmPorDescricao ranks, in the table's enumeration order. */
  function RankedCandidates(t: Table, descricaoProduto: string, ratio: Similarity): seq<Candidate> {
    Candidates(t, SuggestionKeys(t.keys), NormalizedQuery(descricaoProduto), ratio)
  }

  /** Filtering a concatenation filters each part. */
  lemma {:induction false} SuggestionKeysConcat(x: seq<string>, y: seq<string>)
    ensures SuggestionKeys(x + y) == SuggestionKeys(x) + SuggestionKeys(y)
  {
    if x == [] {
      assert x + y == y;
    } else {
      assert (x + y)[1..] == x[1..] + y;
      SuggestionKeysConcat(x[1..], y);
    }
  }

  /**
   * Filtering keeps the order of distinct codes: a ten-character code enumerated before the
   * code at position i of the filtered list sits before position i there too.
   */
  lemma EarlierKeyStaysEarlier(ks: seq<string>, a: nat, b: nat, i: nat) returns (j: nat)
    requires Distinct(ks) && a < b < |ks| && |ks[a]| == SuggestionCodeLength
    requires i < |SuggestionKeys(ks)| && SuggestionKeys(ks)[i] == ks[b]
    ensures j < i && SuggestionKeys(ks)[j] == ks[a]
  {
    var before := SuggestionKeys(ks[..b]);
    var whole := SuggestionKeys(ks);
    assert whole == before + SuggestionKeys(ks[b..]) by {
      assert ks == ks[..b] + ks[b..];
      SuggestionKeysConcat(ks[..b], ks[b..]);
    }
    assert ks[a] in before by {
      assert ks[a] == ks[..b][a];
    }
    j :| 0 <= j < |before| && before[j] == ks[a];
    assert forall m | 0 <= m < |before| :: whole[m] == before[m] && before[m] != ks[b] by {
      assert ks[b] !in ks[..b];
    }
  }

  /**
   * The suggestion is the earliest best-scoring candidate when its score reaches the threshold,
   * and null otherwise: the sort and the Where add nothing beyond that.
   */
  lemma SuggestionIsFirstBest(t: Table, descricaoProduto: string, limiteSimilaridade: int, ratio: Similarity)
    requires !IsNullOrWhiteSpace(Some(descricaoProduto))
    ensures var cs := RankedCandidates(t, descricaoProduto, ratio);
            SugerirNcmPorDescricao(Some(t), Some(descricaoProduto), limiteSimilaridade, ratio) ==
              if |cs| == 0 || cs[FirstBest(cs)].similaridade < limiteSimilaridade then None
              else Some(cs[FirstBest(cs)].codigo)
  {
    var cs := RankedCandidates(t, descricaoProduto, ratio);
    if |cs| > 0 {
      OrderByDescendingHead(cs);
      FirstPassing(OrderByDescending(cs), limiteSimilaridade);
    }
  }

  /** The earliest best candidate is a ten-character table code scoring at least as well as any. */
  lemma FirstBestCandidateIsBest(t: Table, descricaoProduto: string, ratio: Similarity)
    ensures var cs := RankedCandidates(t, descricaoProduto, ratio);
            var query := NormalizedQuery(descricaoProduto);
            && (forall k | k in t.descriptions && |k| == SuggestionCodeLength ::
                  |cs| > 0 && Score(t, query, ratio, k) <= cs[FirstBest(cs)].similaridade)
            && (|cs| > 0 ==>
                  var best := cs[FirstBest(cs)];
                  best.codigo in t.descriptions && |best.codigo| == SuggestionCodeLength &&
                  best.similaridade == Score(t, query, ratio, best.codigo))
  {
    var ks := SuggestionKeys(t.keys);
    var cs := RankedCandidates(t, descricaoProduto, ratio);
    var query := NormalizedQuery(descricaoProduto);
    forall k | k in t.descriptions && |k| == SuggestionCodeLength
      ensures |cs| > 0 && Score(t, query, ratio, k) <= cs[FirstBest(cs)].similaridade
    {
      assert k in ks;
      var j :| 0 <= j < |ks| && ks[j] == k;
      assert cs[j].similaridade == Score(t, query, ratio, k);
    }
    if |cs| > 0 {
      var i := FirstBest(cs);
      assert ks[i] in ks;
    }
  }

  /**
   * With a table and a usable description, the suggestion is null exactly when no
   * ten-character code reaches the threshold, and otherwise scores at least as well as
   * every ten-character code.
   */
  lemma SuggestionIsBest(t: Table, descricaoProduto: string, limiteSimilaridade: int, ratio: Similarity)
    requires !IsNullOrWhiteSpace(Some(descricaoProduto))
    ensures var r := SugerirNcmPorDescricao(Some(t), Some(descricaoProduto), limiteSimilaridade, ratio);
            var query := NormalizedQuery(descricaoProduto);
            && (r.None? <==> forall k | k in t.descriptions && |k| == SuggestionCodeLength ::
                                Score(t, query, ratio, k) < limiteSimilaridade)
            && (r.Some? ==> forall k | k in t.descriptions && |k| == SuggestionCodeLength ::
                                Score(t, query, ratio, k) <= Score(t, query, ratio, r.value))
  {
    SuggestionIsFirstBest(t, descricaoProduto, limiteSimilaridade, ratio);
    FirstBestCandidateIsBest(t, descricaoProduto, ratio);
  }

  /** Among codes tied for the best score, the one the table enumerates first wins. */
  lemma SuggestionTieBreak(t: Table, descricaoProduto: string, limiteSimilaridade: int, ratio: Similarity)
    requires !IsNullOrWhiteSpace(Some(descricaoProduto))
    ensures var r := SugerirNcmPorDescricao(Some(t), Some(descricaoProduto), limiteSimilaridade, ratio);
            var query := NormalizedQuery(descricaoProduto);
            r.Some? ==>
              forall a, b | 0 <= a < b < |t.keys| && t.keys[b] == r.value && |t.keys[a]| == SuggestionCodeLength ::
                Score(t, query, ratio, t.keys[a]) < Score(t, query, ratio, r.value)
  {
    var ks := SuggestionKeys(t.keys);
    var cs := RankedCandidates(t, descricaoProduto, ratio);
    var query := NormalizedQuery(descricaoProduto);
    var r := SugerirNcmPorDescricao(Some(t), Some(descricaoProduto), limiteSimilaridade, ratio);
    SuggestionIsFirstBest(t, descricaoProduto, limiteSimilaridade, ratio);
    if r.Some? {
      var i := FirstBest(cs);
      assert r.value == ks[i];
      forall a, b | 0 <= a < b < |t.keys| && t.keys[b] == r.value && |t.keys[a]| == SuggestionCodeLength
        ensures Score(t, query, ratio, t.keys[a]) < Score(t, query, ratio, r.value)
      {
        var j := EarlierKeyStaysEarlier(t.keys, a, b, i);
        assert cs[j].similaridade < cs[i].similaridade;
      }
    }
  }

  /** Lowering the threshold never changes a suggestion that was already made. */
  lemma LowerThresholdKeepsSuggestion(ncmTable: Option<Table>, descricaoProduto: Option<string>,
                                      low: int, high: int, ratio: Similarity)
    requires low <= high
    ensures SugerirNcmPorDescricao(ncmTable, descricaoProduto, high, ratio).Some? ==>
              SugerirNcmPorDescricao(ncmTable, descricaoProduto, low, ratio) ==
              SugerirNcmPorDescricao(ncmTable, descricaoProduto, high, ratio)
  {
    if ncmTable.Some? && !IsNullOrWhiteSpace(descricaoProduto) {
      SuggestionIsFirstBest(ncmTable.value, descricaoProduto.value, low, ratio);
      SuggestionIsFirstBest(ncmTable.value, descricaoProduto.value, high, ratio);
    }
  }

  /**
   * Only the lower-cased, trimmed query matters: descriptions differing in letter case or in
   * surrounding blanks get the same suggestion.
   */
  lemma SuggestionDependsOnNormalizedQuery(t: Table, a: string, b: string, limiteSimilaridade: int,
                                           ratio: Similarity)
    requires !IsNullOrWhiteSpace(Some(a)) && !IsNullOrWhiteSpace(Some(b))
    requires NormalizedQuery(a) == NormalizedQuery(b)
    ensures SugerirNcmPorDescricao(Some(t), Some(a), limiteSimilaridade, ratio) ==
            SugerirNcmPorDescricao(Some(t), Some(b), limiteSimilaridade, ratio)
  {
    SuggestionIsFirstBest(t, a, limiteSimilaridade, ratio);
    SuggestionIsFirstBest(t, b, limiteSimilaridade, ratio);
  }
}
