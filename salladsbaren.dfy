/**
  The session of the salad bar: the selection of the last search, the confirmed extras
  and the chosen salad, and the three handlers that change or read them.
 */
module Salladsbaren {
  import opened Wrappers
  import opened Menu
  import opened Matching
  import opened Receipts

  /** What a checkbox filter over the ingredient table can produce. */
  ghost predicate DrawnFrom(s: seq<string>, t: PriceTable) {
    NoDuplicates(s) && forall e | e in s :: e in t.prices
  }

  class SalladsbarApp {
    const ingredienser: PriceTable
    const sallader: seq<Salad>
    var valdaIngredienser: seq<string>
    var extraIngredienser: seq<string>
    var valdSallad: Option<string>

    ghost predicate Valid()
      reads this
    {
      && WellFormedTable(ingredienser)
      && DistinctNames(sallader)
      && DrawnFrom(valdaIngredienser, ingredienser)
      && DrawnFrom(extraIngredienser, ingredienser)
      && (valdSallad.Some? ==> FindSalad(sallader, valdSallad.value).Some?)
    }

    constructor (ingredienser: PriceTable, sallader: seq<Salad>)
      requires WellFormedTable(ingredienser) && DistinctNames(sallader)
      ensures Valid()
      ensures this.ingredienser == ingredienser && this.sallader == sallader
      ensures valdaIngredienser == [] && extraIngredienser == [] && valdSallad == None
    {
      this.ingredienser := ingredienser;
      this.sallader := sallader;
      valdaIngredienser := [];
      extraIngredienser := [];
      valdSallad := None;
    }

    /**
      The search handler. The selection is replaced by the checked ingredients; an empty
      one is reported and changes nothing else. Otherwise the best match is looked up and,
      when there is one, becomes the chosen salad; when there is none, the chosen salad
      stays what it was. The extras are never touched.
     */
    method SokSallad(boxes: map<string, bool>) returns (outcome: SearchOutcome)
      requires Valid() && Covers(ingredienser.keys, boxes)
      modifies this
      ensures Valid()
      ensures valdaIngredienser == Checked(ingredienser.keys, boxes)
      ensures extraIngredienser == old(extraIngredienser)
      ensures outcome == Recommend(sallader, valdaIngredienser)
      ensures valdSallad == if outcome.Recommended? then Some(outcome.name) else old(valdSallad)
    {
      valdaIngredienser := Checked(ingredienser.keys, boxes);
      CheckedNoDuplicates(ingredienser.keys, boxes);
      if valdaIngredienser == [] {
        return NoSelection;
      }
      var sel := Elems(valdaIngredienser);
      var bestMatch := FindBestMatch(sallader, sel);
      if bestMatch.Some? && sallader[bestMatch.value].name != "" {
        var s := sallader[bestMatch.value];
        var saknade := Missing(s, sel);
        valdSallad := Some(s.name);
        outcome := Recommended(s.name, s.price, saknade);
      } else {
        outcome := NoMatch;
      }
    }

    /** The extras dialog's confirm handler: the extras become the checked ingredients. */
    method BekraftaExtra(boxes: map<string, bool>)
      requires Valid() && Covers(ingredienser.keys, boxes)
      modifies this
      ensures Valid()
      ensures extraIngredienser == Checked(ingredienser.keys, boxes)
      ensures valdaIngredienser == old(valdaIngredienser) && valdSallad == old(valdSallad)
    {
      extraIngredienser := Checked(ingredienser.keys, boxes);
      CheckedNoDuplicates(ingredienser.keys, boxes);
    }

    /**
      The receipt handler: refuses when no salad is chosen, otherwise builds the record of
      the chosen salad, its price, the extras and the total, and seals it with the digest.
      The session itself is not changed.
     */
    method SkrivKvitto(digest: KvittoData -> string) returns (kvitto: Option<Kvitto>)
      requires Valid()
      ensures kvitto == MakeKvitto(sallader, ingredienser.prices, valdSallad, extraIngredienser, digest)
      ensures kvitto.None? <==> valdSallad.None? || valdSallad.value == ""
      ensures kvitto.Some? ==> Intact(kvitto.value, digest) && kvitto.value.extraIngredienser == extraIngredienser
    {
      if valdSallad.None? || valdSallad.value == "" {
        return None;
      }
      var s := sallader[FindSalad(sallader, valdSallad.value).value];
      var totalpris := s.price + SumPrices(extraIngredienser, ingredienser.prices);
      var data := KvittoData(valdSallad.value, s.price, extraIngredienser, totalpris);
      kvitto := Some(Seal(data, digest));
    }
  }

  /**
    A receipt written right after a successful search names the recommended salad and its
    price, whatever extras were confirmed.
   */
  lemma ReceiptAfterRecommendation(c: seq<Salad>, prices: map<string, int>, valda: seq<string>,
                                   extras: seq<string>, digest: KvittoData -> string)
    requires DistinctNames(c) && AllPriced(extras, prices)
    requires Recommend(c, valda).Recommended?
    ensures var o := Recommend(c, valda);
      && o.name != ""
      && FindSalad(c, o.name).Some?
      && MakeKvitto(c, prices, Some(o.name), extras, digest)
         == Some(Seal(KvittoData(o.name, o.price, extras, Total(o.price, extras, prices)), digest))
  {
    RecommendSound(c, valda);
    var k :| RecommendsAt(c, valda, k, Recommend(c, valda));
    FindSaladOfDistinct(c, k);
  }
}
