# Product bundling and duplicate removal, modelled in Dafny

The modelled code comes from a customer-analytics repository. Its shared helper module `src/functions.py` does three things:

- **`duplicate_rows`** cleans a transaction table. It counts the rows that repeat an earlier row, drops them keeping each first occurrence, and counts again. It returns the two counts and the cleaned table.
- **`antecedents_list`** reads a table of association rules whose antecedents are single items. It returns those items, one per rule.
- **`propose_bundles`** recommends items for a customer's cart. Its first loop walks the rule table in order. For every rule whose antecedents are all in the cart, it appends the consequents that are not already in the cart. Its second loop removes repeats and keeps first-seen order.

The model has three modules, one per concern:

- `SeqDedup` (`dedup.dfy`) models order-preserving duplicate removal. Both halves of the code use it: the second loop of `propose_bundles`, and pandas' `drop_duplicates` with its default `keep='first'`. `Dedup` is the specification function. The lemmas prove:
  - what it keeps;
  - that it keeps first-seen order;
  - that it is monotone under extension of its input;
  - that it is idempotent.
- `DataCleaning` (`data_cleaning.dfy`) models `duplicate_rows` with pure functions over a table, which is a sequence of rows compared by equality. pandas' `duplicated()` is "equal to some earlier row". `drop_duplicates()` keeps the rows that are not duplicated. A lemma proves this is the same sequence as `Dedup`.
- `ProductBundling` (`product_bundling.dfy`) models the rule table and the two functions that loop over it, `propose_bundles` and `antecedents_list`:
  - A rule is a value with an antecedent set and a consequent list.
  - Both functions are methods with `for` loops. `ProposeBundles` is proved against specification functions: `RawBundle` is the list after the first loop, and `Proposal` is the deduplicated result. `AntecedentsList` states its result directly in its contract: one item per rule, or the first failing rule.
  - The lemmas characterise which items are proposed. They also prove that rule order decides rank, that non-firing rules are irrelevant, and that nothing is truncated.

## Model

| member | source | states |
|---|---|---|
| SeqDedup.Dedup | src/functions.py:55-57 | Definition of the dedup loop, one item at a time: the output grows by the next item exactly when that item is not already in it |
| SeqDedup.DedupItems | src/functions.py:55-57 | The dedup loop's output contains exactly the items of its input, none of them twice, and is no longer than the input |
| SeqDedup.DedupFirstSeenOrder | src/functions.py:55-57 | Output items appear in the order of their first occurrence in the input |
| SeqDedup.DedupPrefixFirst | src/functions.py:55-57 | An item already seen in a prefix of the input is output before any item that first occurs after that prefix |
| SeqDedup.DedupMonotone | src/functions.py:55-57 | Deduplicating a prefix of the input gives a prefix of the deduplicated whole: later input never reorders or removes earlier output |
| SeqDedup.DedupOfDistinct | src/functions.py:55-57 | An input with no repeats comes back unchanged |
| SeqDedup.DedupIdempotent | src/functions.py:55-57 | Deduplicating twice equals deduplicating once |
| DataCleaning.IsDuplicated | src/functions.py:12 | Definition of `duplicated()` with keep='first': row `i` is flagged when it equals some earlier row |
| DataCleaning.DuplicateCount | src/functions.py:12-14 | Definition of `duplicated().sum()`: the number of flagged rows |
| DataCleaning.DropDuplicates | src/functions.py:13 | Definition of `drop_duplicates()`: the rows that are not flagged, in their original order |
| DataCleaning.DuplicateRows | src/functions.py:4-15 | The returned table equals the first-seen dedup of the input and holds every input row exactly once. The count after cleaning is 0, and the count before is the number of rows removed |
| DataCleaning.DropDuplicatesIsDedup | src/functions.py:13 | Keeping the rows not equal to any earlier row gives the same table as the "append unless already present" loop |
| DataCleaning.CountPlusKept | src/functions.py:12-13 | Duplicated rows plus kept rows add up to all rows |
| DataCleaning.DistinctHasNoDuplicates | src/functions.py:12-14 | The duplicate count is zero if and only if no row repeats another |
| DataCleaning.DuplicateRowsIdempotent | src/functions.py:4-15 | Cleaning an already cleaned table finds zero duplicates and returns it unchanged |
| DataCleaning.ThreeRowScenario | src/functions.py:4-15 | Rows A, A, B give one duplicate before cleaning, none after, and the table A, B |
| ProductBundling.Fires | src/functions.py:51-52 | Definition of the guard `antecedents.issubset(customer_cart)` |
| ProductBundling.Difference | src/functions.py:54 | Definition of `consequents.difference(customer_cart)`, taken in the consequent list's order |
| ProductBundling.Contribution | src/functions.py:51-54 | Definition of what one rule appends to `bundle`: the difference when the rule fires, nothing otherwise |
| ProductBundling.RawBundle | src/functions.py:48-54 | Definition of `bundle` after the first loop: the contributions of the rules, in rule order |
| ProductBundling.Proposal | src/functions.py:49-58 | Definition of the returned `bundle_set`: the dedup of the raw bundle |
| ProductBundling.FiringRules | src/functions.py:50-52 | The rules whose guard holds, in their order. Every kept rule fires and comes from the table, and every firing rule of the table is kept |
| ProductBundling.AntecedentsList | src/functions.py:20-31 | When every rule has exactly one antecedent, returns one item per rule, and that item is the rule's whole antecedent set. Otherwise it reports the first rule whose set is empty or has several items, which is where the unpacking raises |
| ProductBundling.DifferenceItems | src/functions.py:53-54 | The set difference of the consequents and the cart holds exactly the consequents that are not in the cart |
| ProductBundling.DifferenceDisjoint | src/functions.py:54 | Consequents of which none is in the cart all survive the difference, in list order |
| ProductBundling.RawBundleItems | src/functions.py:50-54 | After the first loop, an item is in the raw bundle if and only if it is not in the cart and is a consequent of some rule whose antecedents are all in the cart |
| ProductBundling.ProposalItems | src/functions.py:48-58 | The proposal has no repeats, has no item of the cart, and holds exactly the consequents of firing rules that the cart lacks (both directions) |
| ProductBundling.ProposeBundles | src/functions.py:34-58 | The two loops return the proposal specification: duplicate-free, disjoint from the cart, exactly the missing consequents of firing rules, first-seen order. `n` has no effect |
| ProductBundling.RawBundlePrefix | src/functions.py:50-54 | The first loop extends the bundle rule by rule: the bundle of the first `i` rules is a prefix of the bundle of all rules |
| ProductBundling.NonFiringRulesIgnored | src/functions.py:51-52 | Removing the rules whose antecedents are not all in the cart changes neither the raw bundle nor the proposal |
| ProductBundling.EarlierRuleFirst | src/functions.py:50-57 | An item produced by the first `i` rules is ranked before any item produced only by later rules |
| ProductBundling.MoreRulesExtendProposal | src/functions.py:50-57 | Appending rules to the table never reorders or removes earlier proposals; it only adds items at the end |
| ProductBundling.ProposalNotTruncated | src/functions.py:34-58 | The proposal is exactly as long as the number of distinct raw candidates, whatever `n` is |
| ProductBundling.SingleRuleProposesAll | src/functions.py:34-58 | One firing rule whose distinct consequents are all new to the cart proposes exactly those items, as many as there are (more than the default `n = 3` included) |
| ProductBundling.BreadScenario | src/functions.py:34-58 | Cart {bread} with rules bread ⇒ butter and bread ⇒ {jam, butter} proposes butter and then jam; butter keeps the rank of the first rule |
| ProductBundling.BreadScenarioOtherOrder | src/functions.py:34-58 | The same cart and rules, with the second consequent set iterated the other way round, give the same proposal |
| ProductBundling.UnmatchedScenario | src/functions.py:34-58 | A rule whose antecedent is not in the cart proposes nothing |

## Left out

- `src/dependencies.py` is not part of this model. It only imports libraries and sets plotting defaults.
- Frequent-itemset mining and rule generation (`fpgrowth`, `association_rules`) are not modelled. They come from an external library, so the rule table is an input.
- Support, confidence and lift are not modelled. They are floating-point columns that the modelled functions never read.
- The modelled code raises no `InvalidRuleError` or `InvalidCartError`, and the model raises none either. A malformed rule or cart is excluded by the types (sets of items).
- pandas mechanics are abstracted away: `iterrows`, column selection, and the index labels that `drop_duplicates` keeps. A table is a sequence of rows compared by whole-row equality, and a rule table is a sequence of `Rule` values.
- ProposeBundles: within one rule, items are appended in the consequent list's order. The list stands for an order in which the items missing from the cart come in the order Python iterates `consequents.difference(customer_cart)`. Python does not promise that this order matches the iteration order of `consequents`, or any fixed order, so the model does not derive the order within a rule from Python. The membership lemmas (`DifferenceItems`, `RawBundleItems`, `ProposalItems`, `SingleRuleProposesAll`) and the order-across-rules lemmas (`EarlierRuleFirst`, `RawBundlePrefix`, `MoreRulesExtendProposal`) do not depend on the order within a rule. `ProposeBundles`'s equality `bundleSet == Proposal(...)` does depend on it, and holds for that reading. `BreadScenario` and `BreadScenarioOtherOrder` show a case where both orders of a rule's consequents give the same proposal. A consequent list may contain repeats, which a Python set cannot; the model allows it and every lemma still holds.
- DifferenceDisjoint: its "in order" conclusion is about the consequent list. It carries over to the source only under the reading above, where the list order is Python's iteration order of the difference.
- ProposeBundles: `n` is accepted and ignored, as in the code. It is documented as "number of products proposed" but never read, so the result is never truncated. `ProposalNotTruncated` and `SingleRuleProposesAll` state this behaviour as written.
- AntecedentsList: the `ValueError` from `i, = item` is modelled as the `NotSingleton` outcome carrying the failing rule's position. The exception's message is not modelled.

