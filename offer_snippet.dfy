/**
 * The value a finding is reported as: the promo code or link that matched,
 * and the excerpt of the description around it. Equality is field-wise.
 */
module OfferSnippet {

  datatype Offer = Offer(promoCode: string, snippet: string)

  /** The same offers occur in both lists, in any order and multiplicity. */
  ghost predicate SameElements(xs: seq<Offer>, ys: seq<Offer>) {
    forall o :: o in xs <==> o in ys
  }

  /** No offer occurs twice. */
  predicate NoDuplicates(xs: seq<Offer>) {
    forall i, j :: 0 <= i < j < |xs| ==> xs[i] != xs[j]
  }
}
