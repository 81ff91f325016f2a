/**
 * The TF-IDF ranker with an optional static document score: `Reset` starts
 * a document, each `Update` adds one query term's contribution, and
 * `Evaluate` combines the accumulated score with the document's static
 * quality score.
 *
 * The corpus, the inverted index and `log10` are outside this model: they
 * are the constructor's parameters. `log10` is any function on reals; no
 * numeric property of it is assumed.
 */
module BetterRanker {
  import opened Wrappers
  import opened Postings

  /** What a call to `update` ends in: success, or the error it raises. */
  datatype UpdateOutcome =
    | Updated
    | AssertionFailed   // one of the five argument assertions
    | ZeroDivision      // the term has document frequency 0
    | MathDomainError   // log10 of a quotient that is not positive (an empty corpus)

  /** The term-frequency weight of a posting: 1 + log10(tf). */
  function TfScore(log10: real -> real, termFrequency: int): real {
    1.0 + log10(termFrequency as real)
  }

  /** The inverse document frequency: log10(N / df). */
  function IdfScore(log10: real -> real, corpusSize: nat, documentFrequency: nat): real
    requires documentFrequency > 0
  {
    log10(corpusSize as real / documentFrequency as real)
  }

  /** What one successful update adds to the accumulated score. */
  function Contribution(log10: real -> real, multiplicity: int, termFrequency: int,
                        corpusSize: nat, documentFrequency: nat): real
    requires documentFrequency > 0
  {
    (1.0 + log10(multiplicity as real)) * TfScore(log10, termFrequency)
      * IdfScore(log10, corpusSize, documentFrequency)
  }

  /** The arguments pass the five assertions of `update`. */
  predicate ArgumentsValid(term: Option<string>, multiplicity: int, posting: Option<Posting>,
                           current: Option<int>)
  {
    && term.Some?
    && multiplicity > 0
    && posting.Some?
    && posting.value.termFrequency > 0
    && current == Some(posting.value.documentId as int)
  }

  /**
   * The outcome of `update`, checked in the order the source evaluates:
   * the assertions, then the division by the document frequency, then the
   * logarithm of the quotient. The quotient of two naturals with a nonzero
   * divisor is not positive only when the corpus is empty.
   */
  function UpdateResult(term: Option<string>, multiplicity: int, posting: Option<Posting>,
                        current: Option<int>, corpusSize: nat, df: string -> nat): (r: UpdateOutcome)
    ensures r == Updated <==>
              ArgumentsValid(term, multiplicity, posting, current) && df(term.value) > 0 && corpusSize > 0
    ensures r == AssertionFailed <==> !ArgumentsValid(term, multiplicity, posting, current)
    ensures current.None? ==> r == AssertionFailed
  {
    if !ArgumentsValid(term, multiplicity, posting, current) then AssertionFailed
    else if df(term.value) == 0 then ZeroDivision
    else if corpusSize as real / df(term.value) as real <= 0.0 then MathDomainError
    else Updated
  }

  function Sum(xs: seq<real>): real {
    if xs == [] then 0.0 else Sum(xs[..|xs| - 1]) + xs[|xs| - 1]
  }

  class BetterRanker {
    /** The accumulated dynamic score of the current document. */
    var score: real
    /** The current document; none before the first `Reset`. */
    var documentId: Option<int>
    /** The contributions accumulated since the last `Reset`, in order. */
    ghost var contributions: seq<real>

    /** The number of documents in the corpus. */
    const corpusSize: nat
    /** The inverted index's document frequency of a term. */
    const documentFrequency: string -> nat
    /** A document's static quality score field; none when missing or empty. */
    const staticField: (int, string) -> Option<real>
    const log10: real -> real
    const dynamicScoreWeight: real
    const staticScoreWeight: real
    const staticScoreFieldName: string

    /** The score is exactly the sum of the contributions since the last reset. */
    ghost predicate Valid()
      reads this
    {
      && score == Sum(contributions)
      && (documentId.None? ==> contributions == [])
    }

    constructor(corpusSize: nat, documentFrequency: string -> nat,
                staticField: (int, string) -> Option<real>, log10: real -> real)
      ensures Valid()
      ensures score == 0.0 && documentId == None && contributions == []
      ensures this.corpusSize == corpusSize && this.documentFrequency == documentFrequency
      ensures this.staticField == staticField && this.log10 == log10
      ensures dynamicScoreWeight == 1.0 && staticScoreWeight == 1.0
      ensures staticScoreFieldName == "static_quality_score"
    {
      score := 0.0;
      documentId := None;
      contributions := [];
      this.corpusSize := corpusSize;
      this.documentFrequency := documentFrequency;
      this.staticField := staticField;
      this.log10 := log10;
      dynamicScoreWeight := 1.0;
      staticScoreWeight := 1.0;
      staticScoreFieldName := "static_quality_score";
    }

    /** Starts document `d`, discarding everything accumulated before. */
    method Reset(d: int)
      modifies this
      ensures Valid()
      ensures score == 0.0 && documentId == Some(d) && contributions == []
    {
      score := 0.0;
      documentId := Some(d);
      contributions := [];
    }

    /**
     * Adds the contribution of one query term occurring `multiplicity` times
     * in the query, given its posting in the current document. On any error
     * the state is left as it was.
     */
    method Update(term: Option<string>, multiplicity: int, posting: Option<Posting>)
      returns (outcome: UpdateOutcome)
      requires Valid()
      modifies this
      ensures Valid()
      ensures outcome == UpdateResult(term, multiplicity, posting, old(documentId),
                                      corpusSize, documentFrequency)
      ensures documentId == old(documentId)
      ensures outcome != Updated ==> score == old(score) && contributions == old(contributions)
      ensures outcome == Updated ==>
                score == old(score) + Contribution(log10, multiplicity, posting.value.termFrequency,
                                                   corpusSize, documentFrequency(term.value))
                && contributions == old(contributions)
                     + [Contribution(log10, multiplicity, posting.value.termFrequency,
                                     corpusSize, documentFrequency(term.value))]
    {
      outcome := UpdateResult(term, multiplicity, posting, documentId, corpusSize, documentFrequency);
      if outcome == Updated {
        var c := Contribution(log10, multiplicity, posting.value.termFrequency,
                              corpusSize, documentFrequency(term.value));
        score := score + c;
        contributions := contributions + [c];
        assert contributions[..|contributions| - 1] == old(contributions);
      }
    }

    /**
     * The weighted sum of the dynamic score and the static score, which is
     * 0.0 when the document's field is missing or empty. Reads the state
     * and changes nothing. There is no value before the first `Reset`.
     */
    function Evaluate(): (r: Option<real>)
      reads this
      ensures r.Some? <==> documentId.Some?
      ensures r.Some? ==>
                r.value == dynamicScoreWeight * score
                  + staticScoreWeight * staticField(documentId.value, staticScoreFieldName).GetOr(0.0)
    {
      if documentId.None? then None
      else
        var staticQualityScore := staticField(documentId.value, staticScoreFieldName).GetOr(0.0);
        Some(dynamicScoreWeight * score + staticScoreWeight * staticQualityScore)
    }
  }

  /**
   * A full protocol run: a fresh ranker, a reset, then two successful updates.
   * The score is the sum of the two contributions and evaluation adds the
   * static score with weight 1.
   */
  method ProtocolExample(corpusSize: nat, df: string -> nat, staticField: (int, string) -> Option<real>,
                         log10: real -> real, d: nat, t1: string, t2: string, tf1: int, tf2: int)
      returns (value: Option<real>)
    requires corpusSize > 0 && df(t1) > 0 && df(t2) > 0 && tf1 > 0 && tf2 > 0
    ensures value == Some(Contribution(log10, 1, tf1, corpusSize, df(t1))
                          + Contribution(log10, 2, tf2, corpusSize, df(t2))
                          + staticField(d, "static_quality_score").GetOr(0.0))
  {
    var ranker := new BetterRanker(corpusSize, df, staticField, log10);
    var early := ranker.Update(Some(t1), 1, Some(Posting(d, tf1)));
    assert early == AssertionFailed;
    ranker.Reset(d);
    var o1 := ranker.Update(Some(t1), 1, Some(Posting(d, tf1)));
    var o2 := ranker.Update(Some(t2), 2, Some(Posting(d, tf2)));
    assert o1 == Updated && o2 == Updated;
    value := ranker.Evaluate();
  }
}
