/**
 * Product bundling from association rules. A rule says "customers whose
 * basket holds the antecedents also buy the consequents"; the rules come
 * from an external frequent-itemset miner and are taken here as input.
 */
module ProductBundling {
  import opened SeqDedup

  /**
   * One row of the rules table: antecedents => consequents. The consequent
   * set is given as a list, read as an order in which the items that are
   * not in the cart come in the order Python iterates
   * `consequents.difference(customer_cart)`, a new set whose iteration
   * order Python does not tie to that of `consequents`. Contracts that
   * compare the order of two items of one rule hold for that reading only.
   */
  datatype Rule<T(==)> = Rule(antecedents: set<T>, consequents: seq<T>)

  /** A rule fires for a cart when all its antecedents are in the cart. */
  predicate Fires<T(==)>(rule: Rule<T>, cart: set<T>) {
    rule.antecedents <= cart
  }

  /** `consequents.difference(customer_cart)`, iterated in the consequents' order. */
  function Difference<T(==)>(items: seq<T>, cart: set<T>): seq<T>
  {
    if items == [] then []
    else (if items[0] in cart then [] else [items[0]]) + Difference(items[1..], cart)
  }

  /** The difference holds exactly the listed items that are not in the cart. */
  lemma {:induction false} DifferenceItems<T>(items: seq<T>, cart: set<T>)
    ensures forall x :: x in Difference(items, cart) ==> x in items && x !in cart
    ensures forall x :: x in items && x !in cart ==> x in Difference(items, cart)
  {
    if items != [] {
      DifferenceItems(items[1..], cart);
      assert items == [items[0]] + items[1..];
    }
  }

  /** Items none of which is in the cart all survive the difference, in order. */
  lemma {:induction false} DifferenceDisjoint<T>(items: seq<T>, cart: set<T>)
    requires forall k :: 0 <= k < |items| ==> items[k] !in cart
    ensures Difference(items, cart) == items
  {
    if items != [] {
      DifferenceDisjoint(items[1..], cart);
      assert items == [items[0]] + items[1..];
    }
  }

  /** What one rule adds to the raw `bundle` list. */
  function Contribution<T(==)>(rule: Rule<T>, cart: set<T>): seq<T>
  {
    if Fires(rule, cart) then Difference(rule.consequents, cart) else []
  }

  /** The raw `bundle` list after the first loop over the rules. */
  function RawBundle<T(==)>(rules: seq<Rule<T>>, cart: set<T>): seq<T>
  {
    if rules == [] then []
    else RawBundle(rules[..|rules| - 1], cart) + Contribution(rules[|rules| - 1], cart)
  }

  /**
   * An item is in the raw bundle exactly when it is not in the cart and is
   * a consequent of some rule that fires.
   */
  lemma {:induction false} RawBundleItems<T>(rules: seq<Rule<T>>, cart: set<T>)
    ensures forall x :: x in RawBundle(rules, cart) ==>
      x !in cart && exists k :: 0 <= k < |rules| && Fires(rules[k], cart) && x in rules[k].consequents
    ensures forall k, x :: 0 <= k < |rules| && Fires(rules[k], cart) && x in rules[k].consequents && x !in cart ==>
      x in RawBundle(rules, cart)
  {
    if rules != [] {
      var front, last := rules[..|rules| - 1], rules[|rules| - 1];
      RawBundleItems(front, cart);
      DifferenceItems(last.consequents, cart);
      var raw, early, added := RawBundle(rules, cart), RawBundle(front, cart), Contribution(last, cart);
      assert raw == early + added;
      assert forall k :: 0 <= k < |front| ==> front[k] == rules[k];
      forall x | x in raw
        ensures x !in cart && exists k :: 0 <= k < |rules| && Fires(rules[k], cart) && x in rules[k].consequents
      {
        if x in early {
          var k :| 0 <= k < |front| && Fires(front[k], cart) && x in front[k].consequents;
          assert rules[k] == front[k];
        } else {
          assert x in added && rules[|rules| - 1] == last;
        }
      }
      forall k, x | 0 <= k < |rules| && Fires(rules[k], cart) && x in rules[k].consequents && x !in cart
        ensures x in raw
      {
        if k < |front| {
          assert front[k] == rules[k] && x in early;
        } else {
          assert x in added;
        }
      }
    }
  }

  /** The proposal `propose_bundles` returns: the raw bundle without repeats. */
  function Proposal<T(==)>(cart: set<T>, rules: seq<Rule<T>>): seq<T>
  {
    Dedup(RawBundle(rules, cart))
  }

  /**
   * The proposal holds no item twice, no item of the cart, and exactly the
   * items that some firing rule recommends and the cart lacks.
   */
  lemma ProposalItems<T>(cart: set<T>, rules: seq<Rule<T>>)
    ensures Distinct(Proposal(cart, rules))
    ensures forall x :: x in Proposal(cart, rules) ==>
      x !in cart && exists k :: 0 <= k < |rules| && Fires(rules[k], cart) && x in rules[k].consequents
    ensures forall k, x :: 0 <= k < |rules| && Fires(rules[k], cart) && x in rules[k].consequents && x !in cart ==>
      x in Proposal(cart, rules)
  {
    RawBundleItems(rules, cart);
    DedupItems(RawBundle(rules, cart));
  }

  /** One more turn of the first loop: the next rule's contribution is appended. */
  lemma RawBundleStep<T>(rules: seq<Rule<T>>, i: nat, cart: set<T>)
    requires i < |rules|
    ensures RawBundle(rules[..i + 1], cart) == RawBundle(rules[..i], cart) + Contribution(rules[i], cart)
  {
    assert rules[..i + 1][..i] == rules[..i];
  }

  /**
   * `propose_bundles`: the first loop collects, rule by rule, the
   * consequents of the firing rules that are not in the cart; the second
   * removes repeats keeping first-seen order. `n` is accepted and never
   * read: the result is not truncated.
   */
  method ProposeBundles<T(==)>(customerCart: set<T>, rules: seq<Rule<T>>, n: int := 3)
    returns (bundleSet: seq<T>)
    ensures bundleSet == Proposal(customerCart, rules)
    ensures Distinct(bundleSet)
    ensures forall x :: x in bundleSet ==>
      x !in customerCart && exists k :: 0 <= k < |rules| && Fires(rules[k], customerCart) && x in rules[k].consequents
    ensures forall k, x ::
      0 <= k < |rules| && Fires(rules[k], customerCart) && x in rules[k].consequents && x !in customerCart ==>
      x in bundleSet
  {
    var bundle: seq<T> := [];
    bundleSet := [];
    for i := 0 to |rules|
      invariant bundle == RawBundle(rules[..i], customerCart)
    {
      RawBundleStep(rules, i, customerCart);
      var antecedents := rules[i].antecedents;
      if antecedents <= customerCart {
        var consequents := rules[i].consequents;
        bundle := bundle + Difference(consequents, customerCart);
      }
    }
    assert rules[..|rules|] == rules;
    assert bundle == RawBundle(rules, customerCart);
    for j := 0 to |bundle|
      invariant bundleSet == Dedup(bundle[..j])
    {
      DedupStep(bundle, j);
      var item := bundle[j];
      if item !in bundleSet {
        bundleSet := bundleSet + [item];
      }
    }
    assert bundle[..|bundle|] == bundle;
    assert bundleSet == Proposal(customerCart, rules);
    ProposalItems(customerCart, rules);
  }

  /**
   * What `antecedents_list` yields: the list, or the `ValueError` raised by
   * the unpacking `i, = item` at the first rule whose antecedent set does
   * not hold exactly one item.
   */
  datatype Antecedents<T> = Listed(anteList: seq<T>) | NotSingleton(index: nat)

  /** Every rule has a single antecedent. */
  predicate SingleAntecedents<T(==)>(rules: seq<Rule<T>>) {
    forall k :: 0 <= k < |rules| ==> |rules[k].antecedents| == 1
  }

  /**
   * `antecedents_list`: the sole item of each rule's antecedent set, rule
   * by rule, or the position of the first rule whose set is empty or has
   * several items.
   */
  method AntecedentsList<T(==)>(rules: seq<Rule<T>>) returns (r: Antecedents<T>)
    ensures r.Listed? <==> SingleAntecedents(rules)
    ensures r.Listed? ==> |r.anteList| == |rules|
    ensures r.Listed? ==> forall k :: 0 <= k < |rules| ==> rules[k].antecedents == {r.anteList[k]}
    ensures r.NotSingleton? ==> r.index < |rules| && |rules[r.index].antecedents| != 1
    ensures r.NotSingleton? ==> SingleAntecedents(rules[..r.index])
  {
    var anteList: seq<T> := [];
    for k := 0 to |rules|
      invariant |anteList| == k
      invariant forall m :: 0 <= m < k ==> rules[m].antecedents == {anteList[m]}
    {
      var item := rules[k].antecedents;
      if |item| != 1 {
        assert forall m :: 0 <= m < k ==> rules[..k][m] == rules[m];
        return NotSingleton(k);
      }
      var i :| i in item;
      assert |item - {i}| == 0;
      anteList := anteList + [i];
    }
    return Listed(anteList);
  }

  /** The rules of `rules` that fire for `cart`, in their order. */
  function FiringRules<T(==)>(rules: seq<Rule<T>>, cart: set<T>): (fired: seq<Rule<T>>)
    ensures forall k :: 0 <= k < |fired| ==> Fires(fired[k], cart) && fired[k] in rules
    ensures forall k :: 0 <= k < |rules| && Fires(rules[k], cart) ==> rules[k] in fired
  {
    if rules == [] then []
    else
      var front, last := rules[..|rules| - 1], rules[|rules| - 1];
      assert forall k :: 0 <= k < |front| ==> front[k] == rules[k];
      FiringRules(front, cart) + (if Fires(last, cart) then [last] else [])
  }

  /**
   * The first loop processes the rule table in order: the raw bundle of
   * the first `i` rules is a prefix of the raw bundle of all of them.
   */
  lemma {:induction false} RawBundlePrefix<T>(rules: seq<Rule<T>>, i: nat, cart: set<T>)
    requires i <= |rules|
    ensures RawBundle(rules[..i], cart) <= RawBundle(rules, cart)
    decreases |rules|
  {
    if i < |rules| {
      var front := rules[..|rules| - 1];
      assert front[..i] == rules[..i];
      RawBundlePrefix(front, i, cart);
    } else {
      assert rules[..i] == rules;
    }
  }

  /** Rules whose antecedents are not all in the cart contribute nothing: dropping them changes nothing. */
  lemma {:induction false} NonFiringRulesIgnored<T>(cart: set<T>, rules: seq<Rule<T>>)
    ensures RawBundle(FiringRules(rules, cart), cart) == RawBundle(rules, cart)
    ensures Proposal(cart, FiringRules(rules, cart)) == Proposal(cart, rules)
  {
    if rules != [] {
      var front, last := rules[..|rules| - 1], rules[|rules| - 1];
      NonFiringRulesIgnored(cart, front);
      var fired := FiringRules(front, cart);
      assert RawBundle(rules, cart) == RawBundle(front, cart) + Contribution(last, cart);
      if Fires(last, cart) {
        assert FiringRules(rules, cart) == fired + [last];
        assert RawBundle(fired + [last], cart) == RawBundle(fired, cart) + Contribution(last, cart) by {
          assert (fired + [last])[..|fired|] == fired;
        }
      } else {
        assert FiringRules(rules, cart) == fired;
        assert Contribution(last, cart) == [];
      }
    }
  }

  /**
   * First-seen order across rules: an item produced by the first `i` rules
   * comes before an item that only later rules produce.
   */
  lemma EarlierRuleFirst<T>(cart: set<T>, rules: seq<Rule<T>>, i: nat, p: nat, q: nat)
    requires i <= |rules|
    requires p < |Proposal(cart, rules)| && q < |Proposal(cart, rules)|
    requires Proposal(cart, rules)[p] in RawBundle(rules[..i], cart)
    requires Proposal(cart, rules)[q] !in RawBundle(rules[..i], cart)
    ensures p < q
  {
    RawBundlePrefix(rules, i, cart);
    DedupPrefixFirst(RawBundle(rules[..i], cart), RawBundle(rules, cart), p, q);
  }

  /** Adding rules at the end of the table never reorders or removes earlier proposals. */
  lemma MoreRulesExtendProposal<T>(cart: set<T>, rules: seq<Rule<T>>, more: seq<Rule<T>>)
    ensures Proposal(cart, rules) <= Proposal(cart, rules + more)
  {
    var all := rules + more;
    assert RawBundle(rules, cart) <= RawBundle(all, cart) by {
      assert all[..|rules|] == rules;
      RawBundlePrefix(all, |rules|, cart);
    }
    DedupMonotone(RawBundle(rules, cart), RawBundle(all, cart));
  }

  /** Nothing is cut off: the proposal is as long as the number of distinct raw items, whatever `n` is. */
  lemma ProposalNotTruncated<T>(cart: set<T>, rules: seq<Rule<T>>)
    ensures |Proposal(cart, rules)| == |(set x | x in RawBundle(rules, cart))|
  {
    var raw := RawBundle(rules, cart);
    var d := Proposal(cart, rules);
    DedupItems(raw);
    DistinctCardinality(d);
    assert (set x | x in d) == (set x | x in raw);
  }

  /** Item identifiers for the worked scenarios below. */
  datatype Grocery = Bread | Butter | Jam | X | Y | Z

  /** The raw bundle of the bread example, before duplicates are removed. */
  lemma BreadRawBundle()
    ensures RawBundle([Rule({Bread}, [Butter]), Rule({Bread}, [Jam, Butter])], {Bread}) == [Butter, Jam, Butter]
  {
    var cart, r1, r2 := {Bread}, Rule({Bread}, [Butter]), Rule({Bread}, [Jam, Butter]);
    assert [r1, r2][..1] == [r1] && [r1][..0] == [];
    assert [Jam, Butter][1..] == [Butter] && [Butter][1..] == [];
  }

  /**
   * Cart {bread}; rules bread => {butter} and bread => {jam, butter}: the
   * proposal is [butter, jam], butter keeping the rank of the first rule.
   */
  lemma BreadScenario()
    ensures Proposal({Bread}, [Rule({Bread}, [Butter]), Rule({Bread}, [Jam, Butter])]) == [Butter, Jam]
  {
    BreadRawBundle();
    var raw := [Butter, Jam, Butter];
    assert Dedup([Butter, Jam]) == [Butter, Jam] by {
      assert [Butter, Jam][..1] == [Butter] && [Butter][..0] == [];
    }
    assert Dedup(raw) == [Butter, Jam] by {
      assert raw[..2] == [Butter, Jam];
    }
  }

  /** The same cart and rules with the second set iterated the other way round: the same proposal. */
  lemma BreadScenarioOtherOrder()
    ensures Proposal({Bread}, [Rule({Bread}, [Butter]), Rule({Bread}, [Butter, Jam])]) == [Butter, Jam]
  {
    var cart, r1, r2 := {Bread}, Rule({Bread}, [Butter]), Rule({Bread}, [Butter, Jam]);
    assert RawBundle([r1], cart) == [Butter] by {
      assert [r1][..0] == [] && [Butter][1..] == [];
    }
    assert Contribution(r2, cart) == [Butter, Jam] by {
      assert [Butter, Jam][1..] == [Jam] && [Jam][1..] == [];
    }
    var raw := [Butter, Butter, Jam];
    assert RawBundle([r1, r2], cart) == raw by {
      assert [r1, r2][..1] == [r1];
    }
    assert Dedup(raw) == [Butter, Jam] by {
      assert raw[..2] == [Butter, Butter] && raw[..2][..1] == [Butter] && [Butter][..0] == [];
    }
    assert Proposal(cart, [r1, r2]) == Dedup(raw);
  }

  /** Cart {x}; one rule y => {z}: its antecedent is not in the cart, so nothing is proposed. */
  lemma UnmatchedScenario()
    ensures Proposal({X}, [Rule({Y}, [Z])]) == []
  {
  }

  /**
   * A single firing rule whose consequents are all new to the cart yields
   * every one of them, however many: the default `n = 3` does not cap the
   * proposal. Only membership and length are stated, not the order within
   * the rule.
   */
  lemma SingleRuleProposesAll<T>(cart: set<T>, rule: Rule<T>)
    requires Fires(rule, cart) && Distinct(rule.consequents)
    requires forall k :: 0 <= k < |rule.consequents| ==> rule.consequents[k] !in cart
    ensures |Proposal(cart, [rule])| == |rule.consequents|
    ensures forall x :: x in Proposal(cart, [rule]) ==> x in rule.consequents
    ensures forall x :: x in rule.consequents ==> x in Proposal(cart, [rule])
  {
    assert RawBundle([rule], cart) == rule.consequents by {
      assert [rule][..0] == [];
      DifferenceDisjoint(rule.consequents, cart);
    }
    DedupOfDistinct(rule.consequents);
  }
}
