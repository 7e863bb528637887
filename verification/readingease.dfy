/**
 * TranslateReadingEase: the description of a Flesch reading-ease score.
 * The score is a real number; the band limits are taken as exact decimals.
 */
module ReadingEase {

  const Sentinel := "SOMETHING WENT WRONG WITH THE SCORING"

  /** A closed interval of scores and its description. */
  datatype Band = Band(low: real, high: real, description: string)

  /** The six bands, in the order the if-chain compares against them. */
  const Bands: seq<Band> := [
    Band(0.0, 30.0, "Best understood by university graduates"),
    Band(30.1, 50.0, "Best understood by university undergraduates"),
    Band(50.1, 59.9, "Best understood by A'Level students"),
    Band(60.0, 70.0, "Easily understood by an average 13 to 15 year old students"),
    Band(70.1, 89.9, "Easily understood by an average 12 year old student"),
    Band(90.0, 100.0, "Easily understood by an average 11 year old student")
  ]

  predicate InBand(score: real, b: Band) {
    b.low <= score && score <= b.high
  }

  /** The if/else chain: the first band holding the score, or the sentinel. */
  function TranslateReadingEase(readingEase: real): (explanation: string)
    ensures forall k :: 0 <= k < |Bands| && InBand(readingEase, Bands[k]) ==> explanation == Bands[k].description
    ensures explanation == Sentinel <==> forall k :: 0 <= k < |Bands| ==> !InBand(readingEase, Bands[k])
  {
    if readingEase >= 0.0 && readingEase <= 30.0 then
      DescriptionIsNotSentinel(0);
      Bands[0].description
    else if readingEase >= 30.1 && readingEase <= 50.0 then
      DescriptionIsNotSentinel(1);
      Bands[1].description
    else if readingEase >= 50.1 && readingEase <= 59.9 then
      DescriptionIsNotSentinel(2);
      Bands[2].description
    else if readingEase >= 60.0 && readingEase <= 70.0 then
      DescriptionIsNotSentinel(3);
      Bands[3].description
    else if readingEase >= 70.1 && readingEase <= 89.9 then
      DescriptionIsNotSentinel(4);
      Bands[4].description
    else if readingEase >= 90.0 && readingEase <= 100.0 then
      DescriptionIsNotSentinel(5);
      Bands[5].description
    else
      Sentinel
  }

  /** No band's description is the failure message. */
  lemma DescriptionIsNotSentinel(k: nat)
    requires k < |Bands|
    ensures Bands[k].description != Sentinel
  {
    assert |Sentinel| == 37;
  }

  /** Each band ends below the next one begins, so no score lies in two bands. */
  lemma BandsDisjoint(score: real, j: nat, k: nat)
    requires j < k < |Bands|
    ensures Bands[j].high < Bands[k].low
    ensures !(InBand(score, Bands[j]) && InBand(score, Bands[k]))
  {
  }

  /** The descriptions are pairwise different, so the description determines the band. */
  lemma LabelsDistinct(j: nat, k: nat)
    requires j < k < |Bands|
    ensures Bands[j].description != Bands[k].description
  {
    assert Bands[4].description[33] == '2' && Bands[5].description[33] == '1';
  }

  /** Scores below 0 or above 100 are reported as a scoring failure. */
  lemma OutOfRangeIsSentinel(score: real)
    requires score < 0.0 || score > 100.0
    ensures TranslateReadingEase(score) == Sentinel
  {
  }

  /** So are scores that fall between two bands, such as 30.05. */
  lemma GapIsSentinel()
    ensures TranslateReadingEase(30.05) == Sentinel
    ensures TranslateReadingEase(59.95) == Sentinel
    ensures TranslateReadingEase(89.95) == Sentinel
  {
  }
}
