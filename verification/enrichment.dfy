/**
 * The two per-headline enrichment columns: a signed sentiment score and a
 * topic category. The two transformer pipelines are parameters: each call
 * either returns the pipeline's answer or raises, and nothing else about the
 * models is assumed.
 */
module Enrichment {
  import opened Wrappers

  /** One entry of the sentiment pipeline's answer list: a label and its confidence. */
  datatype Prediction = Prediction(labelName: string, score: real)

  /** What calling the sentiment pipeline on a text gives: its answer list, or an exception. */
  datatype SentimentOutcome = Predictions(predictions: seq<Prediction>) | SentimentRaised

  /** What calling the zero-shot pipeline gives: its labels, highest score first, or an exception. */
  datatype ZeroShotOutcome = RankedLabels(labels: seq<string>) | ZeroShotRaised

  type SentimentAnalyzer = string -> SentimentOutcome

  /** Called with a text and the candidate labels, in single-label mode. */
  type ZeroShotClassifier = (string, seq<string>) -> ZeroShotOutcome

  /** The eight categories, in the order they are offered to the classifier. */
  const TargetCategories: seq<string> :=
    ["Entertainment", "Education", "Politics", "Technology",
     "Socio-Cultural", "Economy", "Sports", "Crime"]

  /** The category of a blank headline and of a failed classification. */
  const DefaultCategory: string := "Socio-Cultural"

  // ---------------------------------------------------------------------------
  // Blank text
  // ---------------------------------------------------------------------------

  /** Python's str.isspace() on one character: the characters str.strip() removes. */
  predicate IsSpace(c: char) {
    var n := c as int;
    (9 <= n <= 13) || (28 <= n <= 32) || n == 0x85 || n == 0xA0 || n == 0x1680
    || (0x2000 <= n <= 0x200A) || n == 0x2028 || n == 0x2029 || n == 0x202F
    || n == 0x205F || n == 0x3000
  }

  /** A missing cell, or text that is empty once whitespace is stripped from both ends. */
  predicate IsBlank(text: Option<string>) {
    text.None? || forall i :: 0 <= i < |text.value| ==> IsSpace(text.value[i])
  }

  // ---------------------------------------------------------------------------
  // Sentiment
  // ---------------------------------------------------------------------------

  /** ASCII lower-casing, which is all of str.lower() that matters for the label words below. */
  function LowerAscii(s: string): (r: string)
    ensures |r| == |s|
  {
    seq(|s|, i requires 0 <= i < |s| => if 'A' <= s[i] <= 'Z' then (s[i] as int + 32) as char else s[i])
  }

  predicate IsPositiveLabel(name: string) {
    name == "LABEL_2" || LowerAscii(name) == "positive"
  }

  predicate IsNegativeLabel(name: string) {
    name == "LABEL_0" || LowerAscii(name) == "negative"
  }

  /** The pipeline answered with at least one prediction (result[0] exists). */
  predicate Answered(outcome: SentimentOutcome) {
    outcome.Predictions? && |outcome.predictions| > 0
  }

  /** The confidence of the top prediction, whenever there is one, lies in [0, 1]. */
  predicate TopConfidenceInUnitRange(outcome: SentimentOutcome) {
    Answered(outcome) ==> 0.0 <= outcome.predictions[0].score <= 1.0
  }

  /**
   * get_sentiment_score: neutral 0.0 for blank text (the analyzer is not
   * consulted) and for any failure of the call; otherwise the top prediction's
   * confidence, signed by its label.
   */
  function SentimentScore(text: Option<string>, analyzer: SentimentAnalyzer): (r: real)
    ensures IsBlank(text) ==> r == 0.0
    ensures !IsBlank(text) && !Answered(analyzer(text.value)) ==> r == 0.0
    ensures !IsBlank(text) && Answered(analyzer(text.value)) ==>
              var top := analyzer(text.value).predictions[0];
              (IsPositiveLabel(top.labelName) ==> r == top.score)
              && (IsNegativeLabel(top.labelName) ==> r == -top.score)
              && (!IsPositiveLabel(top.labelName) && !IsNegativeLabel(top.labelName) ==> r == 0.0)
    ensures (text.Some? ==> TopConfidenceInUnitRange(analyzer(text.value))) ==> -1.0 <= r <= 1.0
  {
    if IsBlank(text) then 0.0
    else
      match analyzer(text.value)
      case SentimentRaised => 0.0
      case Predictions(ps) =>
        if |ps| == 0 then 0.0
        else if IsPositiveLabel(ps[0].labelName) then ps[0].score
        else if IsNegativeLabel(ps[0].labelName) then -ps[0].score
        else 0.0
  }

  /**
   * No label is both positive and negative, so the order in which the two
   * tests are made never matters.
   */
  lemma LabelsDisjoint(name: string)
    ensures !(IsPositiveLabel(name) && IsNegativeLabel(name))
  {
    var low := LowerAscii(name);
    if name == "LABEL_2" || name == "LABEL_0" {
      assert low[0] == 'l';
    } else {
      assert low == "positive" ==> low[0] == 'p';
      assert low == "negative" ==> low[0] == 'n';
    }
  }

  /** Every answer of the analyzer has its top confidence in [0, 1]. */
  ghost predicate ConfidencesInUnitRange(analyzer: SentimentAnalyzer) {
    forall t :: TopConfidenceInUnitRange(analyzer(t))
  }

  // ---------------------------------------------------------------------------
  // Category
  // ---------------------------------------------------------------------------

  /** The classifier's top label, whenever there is one, is one of the candidates it was offered. */
  predicate TopLabelIsCandidate(outcome: ZeroShotOutcome, candidates: seq<string>) {
    outcome.RankedLabels? && |outcome.labels| > 0 ==> outcome.labels[0] in candidates
  }

  /**
   * classify_headline_category: the default category for blank text (the
   * classifier is not consulted) and for any failure of the call; otherwise
   * the highest-scoring label, whatever it is.
   */
  function Category(text: Option<string>, classifier: ZeroShotClassifier): (r: string)
    ensures IsBlank(text) ==> r == DefaultCategory
    ensures !IsBlank(text) ==>
              var outcome := classifier(text.value, TargetCategories);
              if outcome.RankedLabels? && |outcome.labels| > 0 then r == outcome.labels[0]
              else r == DefaultCategory
    ensures (text.Some? ==> TopLabelIsCandidate(classifier(text.value, TargetCategories), TargetCategories))
            ==> r in TargetCategories
  {
    if IsBlank(text) then DefaultCategory
    else
      match classifier(text.value, TargetCategories)
      case ZeroShotRaised => DefaultCategory
      case RankedLabels(labels) => if |labels| == 0 then DefaultCategory else labels[0]
  }

  /** The classifier never ranks first a label it was not offered. */
  ghost predicate AnswersFromCandidates(classifier: ZeroShotClassifier) {
    forall t :: TopLabelIsCandidate(classifier(t, TargetCategories), TargetCategories)
  }
}
