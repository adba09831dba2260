/**
  The two tables the application loads at start-up, and the two ways it reads them:
  the checkbox filters that turn a row of checkboxes into a list of ingredient names,
  and the lookup of a salad by its name.
 */
module Menu {
  import opened Wrappers

  /** One entry of the salad catalog: its key, its base price and the set of its ingredients. */
  datatype Salad = Salad(name: string, price: int, ingredients: set<string>)

  /** The ingredient table: its keys in insertion order, and the price of each key. */
  datatype PriceTable = PriceTable(keys: seq<string>, prices: map<string, int>)

  predicate NoDuplicates<T(==)>(s: seq<T>) {
    forall i, j | 0 <= i < j < |s| :: s[i] != s[j]
  }

  /** A dictionary has each key once, and the key order lists exactly the priced keys. */
  predicate WellFormedTable(t: PriceTable) {
    NoDuplicates(t.keys) && Elems(t.keys) == t.prices.Keys
  }

  /** The catalog is a dictionary keyed by salad name. */
  predicate DistinctNames(c: seq<Salad>) {
    forall i, j | 0 <= i < j < |c| :: c[i].name != c[j].name
  }

  /** The set of the names in a list (`set(...)` in the source). */
  function Elems(s: seq<string>): set<string> {
    set x | x in s
  }

  /** Every key has a checkbox: the checkbox dictionaries are built from the table's keys. */
  predicate Covers(keys: seq<string>, boxes: map<string, bool>) {
    forall k | k in keys :: k in boxes
  }

  /** The keys whose checkbox is set, in key order. */
  function Checked(keys: seq<string>, boxes: map<string, bool>): (r: seq<string>)
    requires Covers(keys, boxes)
    ensures |r| <= |keys|
    ensures forall x :: x in r <==> x in keys && boxes[x]
  {
    if keys == [] then []
    else (if boxes[keys[0]] then [keys[0]] else []) + Checked(keys[1..], boxes)
  }

  /** Filtering keeps the order of the keys: filtering a concatenation concatenates the filtered parts. */
  lemma {:induction false} CheckedAppend(a: seq<string>, b: seq<string>, boxes: map<string, bool>)
    requires Covers(a, boxes) && Covers(b, boxes)
    ensures Covers(a + b, boxes)
    ensures Checked(a + b, boxes) == Checked(a, boxes) + Checked(b, boxes)
  {
    if a != [] {
      assert (a + b)[0] == a[0];
      assert (a + b)[1..] == a[1..] + b;
      CheckedAppend(a[1..], b, boxes);
    } else {
      assert a + b == b;
    }
  }

  /** Filtering a list of distinct keys gives a list of distinct keys. */
  lemma {:induction false} CheckedNoDuplicates(keys: seq<string>, boxes: map<string, bool>)
    requires Covers(keys, boxes) && NoDuplicates(keys)
    ensures NoDuplicates(Checked(keys, boxes))
  {
    if keys != [] {
      var rest := Checked(keys[1..], boxes);
      CheckedNoDuplicates(keys[1..], boxes);
      assert keys[0] !in keys[1..] by {
        forall j | 0 <= j < |keys[1..]| ensures keys[1..][j] != keys[0] {
          assert keys[1..][j] == keys[j + 1];
        }
      }
      assert keys[0] !in rest;
    }
  }

  /** The position of the catalog entry with the given key, the first one if several had it. */
  function FindSalad(c: seq<Salad>, name: string): (r: Option<nat>)
    ensures r.Some? ==> r.value < |c| && c[r.value].name == name
    ensures r.Some? ==> forall j | 0 <= j < r.value :: c[j].name != name
    ensures r.None? <==> forall j | 0 <= j < |c| :: c[j].name != name
  {
    if c == [] then None
    else if c[0].name == name then Some(0)
    else
      match FindSalad(c[1..], name)
      case None => None
      case Some(k) => Some(k + 1)
  }

  /** With distinct keys, looking up an entry's own key finds that entry. */
  lemma FindSaladOfDistinct(c: seq<Salad>, k: nat)
    requires DistinctNames(c) && k < |c|
    ensures FindSalad(c, c[k].name) == Some(k)
  {
  }
}
