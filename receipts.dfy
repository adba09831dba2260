/**
  The total price and the receipt record: the chosen salad's base price plus the prices
  of the extras, and a record of four fields sealed with a digest taken over those four
  fields before the digest itself is added.
 */
module Receipts {
  import opened Wrappers
  import opened Menu

  predicate AllPriced(extras: seq<string>, prices: map<string, int>) {
    forall e | e in extras :: e in prices
  }

  /** The sum of the prices of the extras, each occurrence counted. */
  function SumPrices(extras: seq<string>, prices: map<string, int>): int
    requires AllPriced(extras, prices)
  {
    if extras == [] then 0 else prices[extras[0]] + SumPrices(extras[1..], prices)
  }

  lemma {:induction false} SumPricesAppend(a: seq<string>, b: seq<string>, prices: map<string, int>)
    requires AllPriced(a, prices) && AllPriced(b, prices)
    ensures AllPriced(a + b, prices)
    ensures SumPrices(a + b, prices) == SumPrices(a, prices) + SumPrices(b, prices)
  {
    if a == [] {
      assert a + b == b;
    } else {
      assert (a + b)[0] == a[0];
      assert (a + b)[1..] == a[1..] + b;
      SumPricesAppend(a[1..], b, prices);
    }
  }

  /** Taking one extra out of the list takes its price out of the sum. */
  lemma SumPricesRemove(b: seq<string>, i: nat, prices: map<string, int>)
    requires AllPriced(b, prices) && i < |b|
    ensures AllPriced(b[..i] + b[i + 1..], prices)
    ensures multiset(b[..i] + b[i + 1..]) == multiset(b) - multiset{b[i]}
    ensures SumPrices(b, prices) == prices[b[i]] + SumPrices(b[..i] + b[i + 1..], prices)
  {
    var left, right := b[..i], b[i + 1..];
    assert b == left + [b[i]] + right;
    assert multiset(b) == multiset(left) + multiset{b[i]} + multiset(right);
    SumPricesAppend(left, [b[i]], prices);
    SumPricesAppend(left + [b[i]], right, prices);
    SumPricesAppend(left, right, prices);
    assert SumPrices([b[i]], prices) == prices[b[i]];
  }

  /** The sum does not depend on the order of the extras. */
  lemma {:induction false} SumPricesPermutation(a: seq<string>, b: seq<string>, prices: map<string, int>)
    requires AllPriced(a, prices) && AllPriced(b, prices)
    requires multiset(a) == multiset(b)
    ensures SumPrices(a, prices) == SumPrices(b, prices)
    decreases |a|
  {
    if a == [] {
      assert |b| == |multiset(b)| == 0;
    } else {
      var x := a[0];
      assert x in multiset(b);
      var i :| 0 <= i < |b| && b[i] == x;
      SumPricesRemove(b, i, prices);
      assert a == [x] + a[1..];
      assert multiset(a[1..]) == multiset(a) - multiset{x};
      SumPricesPermutation(a[1..], b[..i] + b[i + 1..], prices);
    }
  }

  /** The price the receipt states: the base price plus every extra's price. */
  function Total(base: int, extras: seq<string>, prices: map<string, int>): int
    requires AllPriced(extras, prices)
  {
    base + SumPrices(extras, prices)
  }

  /** Reordering the extras leaves the total unchanged. */
  lemma TotalOrderIndependent(base: int, a: seq<string>, b: seq<string>, prices: map<string, int>)
    requires AllPriced(a, prices) && AllPriced(b, prices)
    requires multiset(a) == multiset(b)
    ensures Total(base, a, prices) == Total(base, b, prices)
  {
    SumPricesPermutation(a, b, prices);
  }

  /** With no extras the total is the base price, and each further extra adds its own price. */
  lemma TotalAddsEachExtra(base: int, extras: seq<string>, e: string, prices: map<string, int>)
    requires AllPriced(extras, prices) && e in prices
    ensures Total(base, [], prices) == base
    ensures AllPriced(extras + [e], prices)
    ensures Total(base, extras + [e], prices) == Total(base, extras, prices) + prices[e]
  {
    SumPricesAppend(extras, [e], prices);
    assert SumPrices([e], prices) == prices[e];
  }

  /** The four fields the digest is taken over. */
  datatype KvittoData = KvittoData(sallad: string, pris: int, extraIngredienser: seq<string>, totalpris: int)

  /** The receipt as written: the four fields and the digest. */
  datatype Kvitto = Kvitto(sallad: string, pris: int, extraIngredienser: seq<string>, totalpris: int, hash: string)

  /** The receipt without its digest. */
  function Fields(k: Kvitto): KvittoData {
    KvittoData(k.sallad, k.pris, k.extraIngredienser, k.totalpris)
  }

  /** Adds the digest of the four fields to them. */
  function Seal(d: KvittoData, digest: KvittoData -> string): (k: Kvitto)
    ensures Fields(k) == d
    ensures k.hash == digest(d)
  {
    Kvitto(d.sallad, d.pris, d.extraIngredienser, d.totalpris, digest(d))
  }

  /** Recomputing the digest over the stored fields gives the stored digest. */
  predicate Intact(k: Kvitto, digest: KvittoData -> string) {
    k.hash == digest(Fields(k))
  }

  /** A sealed receipt is intact, and changing any of its four fields is seen whenever the digest tells the two field sets apart. */
  lemma SealIntact(d: KvittoData, e: KvittoData, digest: KvittoData -> string)
    requires digest(d) != digest(e)
    ensures Intact(Seal(d, digest), digest)
    ensures !Intact(Kvitto(e.sallad, e.pris, e.extraIngredienser, e.totalpris, Seal(d, digest).hash), digest)
  {
  }

  /**
    The receipt for the chosen salad and extras, or none when no salad is chosen; the test
    is a truthiness test, so an empty name counts as none chosen.
   */
  function MakeKvitto(c: seq<Salad>, prices: map<string, int>, vald: Option<string>,
                      extras: seq<string>, digest: KvittoData -> string): (r: Option<Kvitto>)
    requires vald.Some? && vald.value != "" ==> FindSalad(c, vald.value).Some?
    requires AllPriced(extras, prices)
    ensures r.None? <==> vald.None? || vald.value == ""
    ensures r.Some? ==>
      var s := c[FindSalad(c, vald.value).value];
      && r.value.sallad == vald.value && s.name == vald.value
      && r.value.pris == s.price
      && r.value.extraIngredienser == extras
      && r.value.totalpris == s.price + SumPrices(extras, prices)
      && Intact(r.value, digest)
  {
    if vald.None? || vald.value == "" then None
    else
      var s := c[FindSalad(c, vald.value).value];
      Some(Seal(KvittoData(vald.value, s.price, extras, Total(s.price, extras, prices)), digest))
  }
}
