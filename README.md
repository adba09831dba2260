# Salladsbaren — a verified model of the salad search, the session and the receipt

Salladsbaren is a small desktop application. The user ticks ingredients. The
application recommends the salad from its catalog whose ingredients overlap the
selection most, and lists the ingredients that salad needs beyond the selection.
The user may then tick extra ingredients. Finally a receipt is written: the
chosen salad, its price, the extras and the total, sealed with a digest of
those four fields.

This project models the logic inside the GUI handlers of `salladsbaren.py`,
with the widgets taken out:

- `menu.dfy` (module `Menu`): the ingredient table (keys in insertion order
  and a price per key), the salad catalog (a sequence of name, base price and
  ingredient set, in insertion order), the checkbox filter that turns a map
  from ingredient to checkbox state into the list of checked ingredients, and
  the lookup of a salad by name.
- `matching.dfy` (module `Matching`): the overlap count, the scan that keeps
  the first salad whose overlap is strictly larger than the best so far
  (starting from 0), the missing set, and the outcome of a search
  (`NoSelection`, `NoMatch`, `Recommended(name, price, missing)`), which stands
  for the text the search writes into its result label.
- `receipts.dfy` (module `Receipts`): the sum of the extras' prices, the
  total, and the receipt record with its digest.
- `salladsbaren.dfy` (module `Salladsbaren`): the class `SalladsbarApp`. It
  holds the three session fields `valdaIngredienser`, `extraIngredienser` and
  `valdSallad`, and the handlers `SokSallad`, `BekraftaExtra` and
  `SkrivKvitto`. The two tables are constant fields given to the constructor.
- `wrappers.dfy` (module `Wrappers`): an `Option` type for the source's `None`.

The search loop is the method `Matching.FindBestMatch`. It is proved against
the function `Matching.BestIn`, the best-so-far position after a prefix of the
catalog. The lemmas then show that this position is the declarative best match
(`Matching.IsBestMatch`):

- its overlap is positive;
- no salad overlaps more;
- every earlier salad overlaps strictly less.

There is no such position exactly when no salad overlaps the selection.

The test after the loop is a truthiness test on the salad's name. So a best
salad whose name is the empty string is reported as no match, and the model
keeps that. The receipt handler's test on the chosen salad is a truthiness test
too, and the model keeps that as well.

Ties go to the first salad in catalog order. So a selection equal to some
salad's ingredient set does not always get that salad with nothing missing. An
earlier salad that has the same ingredients and more wins the tie.
`Matching.ExactSelectionCanLoseTie` proves this on a two-salad catalog.

## Model

| member | source | states |
|---|---|---|
| `Menu.Checked` | salladsbaren.py:56 | the filtered list holds exactly the table keys whose checkbox is set, and is no longer than the key list |
| `Menu.CheckedAppend` | salladsbaren.py:56 | the filter keeps key order: filtering a concatenation gives the concatenation of the filtered parts |
| `Menu.CheckedNoDuplicates` | salladsbaren.py:93 | filtering distinct keys (dictionary keys) gives a list without duplicates, for the selection and for the extras alike |
| `Menu.FindSalad` | salladsbaren.py:101 | looking a salad up by name gives an entry with that name and no earlier one has it; it fails exactly when no entry has the name |
| `Menu.FindSaladOfDistinct` | salladsbaren.py:71 | with distinct catalog keys, looking up a salad's own name finds that salad |
| `Matching.OverlapBounds` | salladsbaren.py:65 | the overlap count is at most the salad's ingredient count and the selection's size, and is 0 exactly when the two sets are disjoint |
| `Matching.BestIn` | salladsbaren.py:62-68 | the best-so-far position after n salads lies among those n salads |
| `Matching.BestMatch` | salladsbaren.py:62-70 | the position the whole scan ends with is the best match, and there is none exactly when no salad overlaps the selection |
| `Matching.BestInCorrect` | salladsbaren.py:62-68 | after any prefix the best-so-far salad has positive overlap, maximal over the prefix, strictly larger than every earlier salad's; there is none exactly when every overlap in the prefix is 0 |
| `Matching.BestAmongUnique` | salladsbaren.py:66-68 | at most one position is the first maximal positive overlap |
| `Matching.BestMatchIff` | salladsbaren.py:62-70 | the scan returns k if and only if k is the best match, and returns nothing if and only if no salad overlaps |
| `Matching.FindBestMatch` | salladsbaren.py:62-68 | the search loop returns the scan's position, which is the best match, and nothing exactly when no salad overlaps |
| `Matching.Missing` | salladsbaren.py:71 | the missing set is a subset of the salad's ingredients, disjoint from the selection, completes the covered part to the whole ingredient set, and is empty exactly when the selection covers the salad |
| `Matching.Recommend` | salladsbaren.py:58-60 | the search reports "select an ingredient" exactly when the selection is empty |
| `Matching.RecommendSound` | salladsbaren.py:62-73 | a recommended salad is a best match, with its catalog price and its missing set |
| `Matching.RecommendComplete` | salladsbaren.py:70-73 | the best match of a non-empty selection is recommended with its price and missing set, unless its name is empty, when no match is reported |
| `Matching.RecommendNoMatch` | salladsbaren.py:63-77 | a selection overlapping no salad gets no recommendation; with no empty salad name, no recommendation happens exactly then |
| `Matching.ExactSelectionCanLoseTie` | salladsbaren.py:64-71 | a selection equal to the second salad's ingredients gets the first salad, which ties on overlap, with a non-empty missing set |
| `Receipts.SumPricesAppend` | salladsbaren.py:101 | the price sum of a concatenation is the sum of the two parts' sums |
| `Receipts.SumPricesRemove` | salladsbaren.py:101 | taking one extra out of the list takes its price out of the sum |
| `Receipts.SumPricesPermutation` | salladsbaren.py:101 | two lists of extras with the same multiset have the same price sum |
| `Receipts.TotalOrderIndependent` | salladsbaren.py:101 | the total does not depend on the order of the extras |
| `Receipts.TotalAddsEachExtra` | salladsbaren.py:101 | with no extras the total is the base price, and appending an extra adds exactly its price |
| `Receipts.Seal` | salladsbaren.py:103-113 | the sealed receipt carries the four given fields unchanged, and its hash is the digest of exactly those four fields |
| `Receipts.SealIntact` | salladsbaren.py:110-113 | a sealed receipt passes re-verification, and putting other field values beside its hash fails it whenever the digest tells the field sets apart |
| `Receipts.MakeKvitto` | salladsbaren.py:96-113 | no receipt exactly when no salad is chosen (or its name is empty); otherwise it names the chosen salad, its catalog price, the extras, base price plus the extras' prices as total, and an intact hash |
| `Salladsbaren.SalladsbarApp.constructor` | salladsbaren.py:30-32 | a new session has an empty selection, no extras and no chosen salad |
| `Salladsbaren.SalladsbarApp.SokSallad` | salladsbaren.py:55-77 | the selection becomes the checked ingredients; the outcome is the search's; the chosen salad becomes the recommended one and is left as it was on an empty selection or no match; the extras are untouched; the session invariant is kept |
| `Salladsbaren.SalladsbarApp.BekraftaExtra` | salladsbaren.py:92-94 | the extras become the checked ingredients; the selection and the chosen salad are untouched; the session invariant is kept |
| `Salladsbaren.SalladsbarApp.SkrivKvitto` | salladsbaren.py:96-113 | the handler produces exactly the receipt record of the chosen salad and the confirmed extras, refusing when no salad is chosen; the session is not changed |
| `Salladsbaren.ReceiptAfterRecommendation` | salladsbaren.py:97-107 | a receipt built right after a successful search names the recommended salad and its price, with base price plus the extras' prices as total |

The session invariant `SalladsbarApp.Valid` says:

- the ingredient table has distinct keys and prices exactly those keys;
- the catalog has distinct names;
- the selection and the extras each hold distinct table keys;
- a chosen salad is in the catalog.

## Left out

- The tkinter window, labels, checkbuttons, buttons, the extras `Toplevel` and
  the message boxes. The checkbox states are an input map from ingredient to
  `bool`. The result label's text is the `SearchOutcome` value. The receipt
  handler's error box is its `None` result.
- Enabling the extras and receipt buttons after a successful search is widget
  state. It is not modelled; the receipt handler's own check on the chosen
  salad is.
- `lagg_till_extra` only builds the extras window. Closing that window without
  confirming leaves the extras unchanged, which is the same as not calling
  `BekraftaExtra`.
- `load_data`: file reading, JSON parsing and `exit()` on failure. The two
  tables are constructor parameters. Their being dictionaries is stated as
  `WellFormedTable` and `DistinctNames`.
- JSON serialisation (`json.dumps` with `indent=4`) and SHA-256 are foreign
  library calls. Together they are the `digest` parameter, a function from the
  four receipt fields to a string.
- Writing the receipt file, `os.chmod` and its warning print are file-system
  effects and are not modelled.
- Prices are integers. The JSON files could hold decimal numbers, and floating
  point is not modelled.
- A salad's ingredient list is modelled as the set the source makes of it. The
  order in which the missing ingredients are joined into the label is not
  modelled.
- The search loop remembers the position of the best salad rather than its
  name. Catalog names are distinct, so the two identify the same entry.
- A `KeyError` for an extra missing from the price table cannot happen, since
  extras are drawn from the table's keys. `MakeKvitto` requires every extra to
  be priced, and the session invariant provides that.
- `Matching.BestIn`: its contract only bounds the position. What the position
  means is stated by `BestInCorrect` and `BestMatchIff`.
- `Matching.Recommend`: its contract only covers the empty-selection case. The
  other cases are stated by `RecommendSound`, `RecommendComplete` and
  `RecommendNoMatch`.
