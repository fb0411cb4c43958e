/**
 * The LINQ pipeline at the heart of SugerirNcmPorDescricao (Utils/NcmTableLoader.cs):
 * OrderByDescending on the similarity score, which is a stable sort, then Where on the
 * threshold, then the first element.
 */
module Ranking {

  /** One row of the Select: a table entry and its similarity to the query. */
  datatype Candidate = Candidate(codigo: string, descricao: string, similaridade: int)

  ghost predicate SortedDescending(cs: seq<Candidate>) {
    forall i, j | 0 <= i < j < |cs| :: cs[i].similaridade >= cs[j].similaridade
  }

  /**
   * Inserts c into a list sorted by descending score, ahead of every element whose score does
   * not exceed c's: c came before all of them in the input, which keeps the sort stable.
   */
  function InsertDescending(c: Candidate, sorted: seq<Candidate>): (r: seq<Candidate>)
    ensures multiset(r) == multiset(sorted) + multiset{c}
    ensures |r| == |sorted| + 1
    ensures r[0] == c || (|sorted| > 0 && r[0] == sorted[0])
  {
    if sorted == [] || c.similaridade >= sorted[0].similaridade then
      [c] + sorted
    else
      assert sorted == [sorted[0]] + sorted[1..];
      [sorted[0]] + InsertDescending(c, sorted[1..])
  }

  lemma {:induction false} InsertKeepsSorted(c: Candidate, sorted: seq<Candidate>)
    requires SortedDescending(sorted)
    ensures SortedDescending(InsertDescending(c, sorted))
  {
    if sorted != [] && c.similaridade < sorted[0].similaridade {
      var rest := InsertDescending(c, sorted[1..]);
      InsertKeepsSorted(c, sorted[1..]);
      assert rest[0].similaridade <= sorted[0].similaridade;
      assert forall k | 0 <= k < |rest| :: rest[k].similaridade <= rest[0].similaridade;
    }
  }

  /**
   * The candidates by decreasing score, candidates of equal score keeping their order: a
   * stable sort, here insertion sort.
   */
  function OrderByDescending(cs: seq<Candidate>): (r: seq<Candidate>)
    ensures multiset(r) == multiset(cs)
    ensures SortedDescending(r)
  {
    if cs == [] then []
    else
      assert cs == [cs[0]] + cs[1..];
      InsertKeepsSorted(cs[0], OrderByDescending(cs[1..]));
      InsertDescending(cs[0], OrderByDescending(cs[1..]))
  }

  /**
   * The index of the earliest candidate with the highest score: the reference that the sort's
   * first element is compared with.
   */
  function FirstBest(cs: seq<Candidate>): (i: nat)
    requires |cs| > 0
    ensures i < |cs|
    ensures forall j | 0 <= j < |cs| :: cs[j].similaridade <= cs[i].similaridade
    ensures forall j | 0 <= j < i :: cs[j].similaridade < cs[i].similaridade
  {
    if |cs| == 1 then 0
    else
      var k := 1 + FirstBest(cs[1..]);
      if cs[0].similaridade >= cs[k].similaridade then 0 else k
  }

  /** The sort puts first the earliest of the best-scoring candidates. */
  lemma {:induction false} OrderByDescendingHead(cs: seq<Candidate>)
    requires |cs| > 0
    ensures |OrderByDescending(cs)| == |cs|
    ensures OrderByDescending(cs)[0] == cs[FirstBest(cs)]
  {
    assert |multiset(OrderByDescending(cs))| == |multiset(cs)|;
    if |cs| > 1 {
      OrderByDescendingHead(cs[1..]);
    }
  }

  /** The candidates scoring at least `limite`, in their order. */
  function Where(cs: seq<Candidate>, limite: int): (r: seq<Candidate>)
    ensures forall c | c in r :: c in cs && c.similaridade >= limite
    ensures forall c | c in cs && c.similaridade >= limite :: c in r
    ensures |cs| > 0 && cs[0].similaridade >= limite ==> |r| > 0 && r[0] == cs[0]
    ensures (forall k | 0 <= k < |cs| :: cs[k].similaridade < limite) ==> r == []
  {
    if cs == [] then []
    else (if cs[0].similaridade >= limite then [cs[0]] else []) + Where(cs[1..], limite)
  }

  /** On a sorted list, something passes the threshold exactly when the first element does. */
  lemma FirstPassing(sorted: seq<Candidate>, limite: int)
    requires SortedDescending(sorted) && |sorted| > 0
    ensures |Where(sorted, limite)| > 0 <==> sorted[0].similaridade >= limite
  {
    var r := Where(sorted, limite);
    if sorted[0].similaridade < limite {
      assert forall k | 0 <= k < |sorted| :: sorted[k].similaridade < limite;
    }
  }
}
