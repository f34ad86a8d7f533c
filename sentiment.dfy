/**
 * Sentiment logging in the message handler: a plain-text message (not a
 * command) gets a label from its score, and a strongly negative score
 * triggers a check-in reply. The score itself comes from a sentiment
 * library and is an input here.
 */
module SentimentLabel {
  import opened Common

  datatype Label = Positive | Negative | Neutral

  /** Scores at or below this get the check-in reply. */
  const DistressThreshold: int := -3

  /** The label stored with a message's score. */
  function LabelOf(score: int): (l: Label)
    ensures l == Positive <==> score > 0
    ensures l == Negative <==> score < 0
    ensures l == Neutral <==> score == 0
  {
    if score > 0 then Positive else if score < 0 then Negative else Neutral
  }

  /** What the sentiment step does: the label it records (`sentiment`) and whether it sends the check-in. */
  datatype Effect = Effect(sentiment: Label, checkIn: bool)

  /**
   * The sentiment step for a message with text `text` (absent for
   * non-text messages) and library score `score`; `logged` is whether
   * writing the sentiment record succeeded. `None`: the step is skipped.
   */
  function Analyse(text: Option<string>, score: int, logged: bool): (r: Option<Effect>)
    ensures r.Some? <==> text.Some? && text.value != [] && text.value[0] != '/'
    ensures r.Some? ==> r.value.sentiment == LabelOf(score)
    ensures r.Some? ==> (r.value.checkIn <==> logged && score <= DistressThreshold)
    ensures r.Some? && r.value.checkIn ==> r.value.sentiment == Negative
  {
    if text.None? || text.value == [] || text.value[0] == '/' then None
    else Some(Effect(LabelOf(score), logged && score <= DistressThreshold))
  }
}
