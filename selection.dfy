/** Selection by key as Rust's `Iterator::max_by_key` does it: a left fold
    that keeps the running best unless the next element's key is strictly
    greater, so among equal maxima the LAST one wins. */
module Selection {
  import opened Game
  import opened Recipes

  /** Index of the last maximum of a non-empty sequence of keys. */
  function LastMaxIndex(keys: seq<int>): (i: nat)
    requires |keys| > 0
    ensures i < |keys|
    ensures forall j :: 0 <= j < |keys| ==> keys[j] <= keys[i]
    ensures forall j :: i < j < |keys| ==> keys[j] < keys[i]
    decreases |keys|
  {
    if |keys| == 1 then 0
    else
      var k := LastMaxIndex(keys[..|keys| - 1]);
      if keys[k] > keys[|keys| - 1] then k else |keys| - 1
  }

  /** `get_best_potion`: the potion with the highest price, the last one
      among equally priced best potions, or None for an empty list. */
  function BestPotion(potions: seq<Potion>): (r: Option<Potion>)
    ensures r.None? <==> potions == []
    ensures r.Some? ==> r.value in potions
    ensures r.Some? ==> forall p :: p in potions ==> p.price <= r.value.price
    ensures r.Some? ==> exists i :: 0 <= i < |potions| && potions[i] == r.value
                          && forall j :: i < j < |potions| ==> potions[j].price < r.value.price
  {
    if potions == [] then None
    else
      var prices := seq(|potions|, j requires 0 <= j < |potions| => potions[j].price);
      var i := LastMaxIndex(prices);
      assert forall j :: 0 <= j < |potions| ==> prices[j] == potions[j].price;
      Some(potions[i])
  }

  /** The scores of the candidate spells against a missing vector. */
  function Scores(spells: seq<Spell>, missing: Tiers): (keys: seq<int>)
    ensures |keys| == |spells|
    ensures forall j :: 0 <= j < |spells| ==> keys[j] == Usefulness(spells[j], missing)
  {
    seq(|spells|, j requires 0 <= j < |spells| => Usefulness(spells[j], missing))
  }

  /** The spell `max_by_key(add_useful_ingredient)` picks: the last of the
      most useful candidates. */
  function PickSpell(spells: seq<Spell>, missing: Tiers): (i: nat)
    requires |spells| > 0
    ensures i < |spells|
    ensures forall j :: 0 <= j < |spells| ==> Usefulness(spells[j], missing) <= Usefulness(spells[i], missing)
    ensures forall j :: i < j < |spells| ==> Usefulness(spells[j], missing) < Usefulness(spells[i], missing)
  {
    LastMaxIndex(Scores(spells, missing))
  }

  /** When no candidate scores, every spell ties at zero and the pick is
      the last spell of the list. */
  lemma NoScorePicksLast(spells: seq<Spell>, missing: Tiers)
    requires |spells| > 0
    requires forall t: Tier :: missing.At(t) <= 0
    ensures PickSpell(spells, missing) == |spells| - 1
  {
    var i := PickSpell(spells, missing);
    if i < |spells| - 1 {
      NothingMissingScoresZero(spells[i], missing);
      NothingMissingScoresZero(spells[|spells| - 1], missing);
      assert false;
    }
  }

  /** Equal prices: the later potion is chosen. */
  lemma TiedPotionsPickLast(a: Potion, b: Potion)
    requires a.price == b.price
    ensures BestPotion([a, b]) == Some(b)
  {
  }
}
