/** The colour of the similarity badge (`similarity_badge`); the HTML around it is presentation. */
module Badge {
  import Recommend

  const Lavender: string := "#8e44ad"
  const LighterLavender: string := "#9b59b6"
  const Red: string := "#c0392b"

  /** The badge colour for a similarity percentage: one of three bands, each chosen exactly when its bound holds. */
  function BadgeColor(similarity: real): (c: string)
    ensures c == Lavender <==> similarity >= 75.0
    ensures c == LighterLavender <==> 50.0 <= similarity < 75.0
    ensures c == Red <==> similarity < 50.0
  {
    if similarity >= 75.0 then Lavender
    else if similarity >= 50.0 then LighterLavender
    else Red
  }

  /** The same bands read as distances: within 0.25, within 0.5, and beyond. */
  lemma BadgeForDistance(d: real)
    ensures BadgeColor(Recommend.Similarity(d)) == Lavender <==> d <= 0.25
    ensures BadgeColor(Recommend.Similarity(d)) == LighterLavender <==> 0.25 < d <= 0.5
    ensures BadgeColor(Recommend.Similarity(d)) == Red <==> d > 0.5
  {
  }

}
