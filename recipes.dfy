/** The per-recipe tests and scores of the kernel: `Potion::brewable`,
    `Spell::enough_ingredient`, `Spell::add_useful_ingredient`, and the
    missing-ingredient vector built before each bridging step. */
module Recipes {
  import opened Game

  function Abs(x: int): (r: int)
    ensures r >= 0 && (r == x || r == -x)
  {
    if x < 0 then -x else x
  }

  /** A potion is brewable when, on every tier, the absolute value of its
      delta is strictly below the inventory. This is the test as the source
      writes it, not "inventory plus delta is non-negative". */
  function Brewable(p: Potion, player: Player): (b: bool)
    ensures b <==> forall t: Tier :: Abs(p.delta.At(t)) < player.inventory.At(t)
  {
    assert p.delta.At(0) == p.delta.t0 && player.inventory.At(0) == player.inventory.t0;
    assert p.delta.At(1) == p.delta.t1 && player.inventory.At(1) == player.inventory.t1;
    assert p.delta.At(2) == p.delta.t2 && player.inventory.At(2) == player.inventory.t2;
    assert p.delta.At(3) == p.delta.t3 && player.inventory.At(3) == player.inventory.t3;
    Abs(p.delta.t0) < player.inventory.t0
    && Abs(p.delta.t1) < player.inventory.t1
    && Abs(p.delta.t2) < player.inventory.t2
    && Abs(p.delta.t3) < player.inventory.t3
  }

  /** A tier with no stock blocks every potion, whatever it needs. */
  lemma EmptyTierBlocksBrewing(p: Potion, player: Player, t: Tier)
    requires player.inventory.At(t) <= 0
    ensures !Brewable(p, player)
  {
  }

  /** When the strict test passes, brewing leaves at least one unit of
      every tier: the test is strictly stronger than covering the cost. */
  lemma BrewableLeavesSurplus(p: Potion, player: Player)
    requires Brewable(p, player)
    ensures forall t: Tier :: player.inventory.At(t) + p.delta.At(t) > 0
  {
  }

  /** An inventory that exactly covers a potion's cost does not pass, even
      with stock on every other tier. */
  lemma ExactCoverIsNotBrewable()
    ensures !Brewable(Potion(0, Tiers(-3, 0, 0, 0), 10), Player(Tiers(3, 1, 1, 1)))
    ensures Brewable(Potion(0, Tiers(-2, 0, 0, 0), 10), Player(Tiers(3, 1, 1, 1)))
  {
  }

  /** A spell is affordable when on every tier its delta is at most the
      inventory or is positive. */
  function Affordable(s: Spell, player: Player): (b: bool)
    ensures b <==> forall t: Tier :: s.delta.At(t) <= player.inventory.At(t) || s.delta.At(t) > 0
  {
    assert s.delta.At(0) == s.delta.t0 && player.inventory.At(0) == player.inventory.t0;
    assert s.delta.At(1) == s.delta.t1 && player.inventory.At(1) == player.inventory.t1;
    assert s.delta.At(2) == s.delta.t2 && player.inventory.At(2) == player.inventory.t2;
    assert s.delta.At(3) == s.delta.t3 && player.inventory.At(3) == player.inventory.t3;
    (s.delta.t0 <= player.inventory.t0 || s.delta.t0 > 0)
    && (s.delta.t1 <= player.inventory.t1 || s.delta.t1 > 0)
    && (s.delta.t2 <= player.inventory.t2 || s.delta.t2 > 0)
    && (s.delta.t3 <= player.inventory.t3 || s.delta.t3 > 0)
  }

  /** A tier where the spell produces never blocks it: affordability is
      decided by the other three tiers alone. */
  lemma ProducingTierNeverBlocks(s: Spell, player: Player, t: Tier)
    requires s.delta.At(t) > 0
    ensures Affordable(s, player) <==>
      forall u: Tier :: u != t ==> s.delta.At(u) <= player.inventory.At(u) || s.delta.At(u) > 0
  {
  }

  /** Because a consumed tier is compared as a negative number against the
      stock, every spell is affordable once no tier of the inventory is
      negative. */
  lemma NonNegativeInventoryAffordsEverySpell(s: Spell, player: Player)
    requires forall t: Tier :: player.inventory.At(t) >= 0
    ensures Affordable(s, player)
  {
  }

  /** A spell that would overdraw a tier is still affordable. */
  lemma OverdrawingSpellIsAffordable()
    ensures Affordable(Spell(0, Tiers(-2, 0, 0, 0), 1), Player(Tiers(0, 0, 0, 0)))
    ensures !(forall t: Tier :: Tiers(0, 0, 0, 0).At(t) + Tiers(-2, 0, 0, 0).At(t) >= 0)
  {
    assert Tiers(0, 0, 0, 0).At(0) + Tiers(-2, 0, 0, 0).At(0) < 0;
  }

  /** What one tier adds to a spell's usefulness. */
  function Gain(missing: int, delta: int): int
  {
    if missing > 0 && delta > 0 then delta else 0
  }

  /** The gains of tiers 0 to n - 1. */
  function UsefulUpTo(s: Spell, missing: Tiers, n: nat): int
    requires n <= 4
  {
    if n == 0 then 0 else UsefulUpTo(s, missing, n - 1) + Gain(missing.At(n - 1), s.delta.At(n - 1))
  }

  /** Usefulness of a spell against a missing vector: the sum, over the
      tiers where both the missing count and the spell's delta are positive,
      of the spell's delta. */
  function Usefulness(s: Spell, missing: Tiers): int
  {
    UsefulUpTo(s, missing, 4)
  }

  /** A tier that is missing and produced by the spell. */
  ghost predicate Helps(s: Spell, missing: Tiers, t: Tier)
  {
    missing.At(t) > 0 && s.delta.At(t) > 0
  }

  lemma {:induction false} UsefulUpToBounds(s: Spell, missing: Tiers, n: nat)
    requires n <= 4
    ensures UsefulUpTo(s, missing, n) >= 0
    ensures UsefulUpTo(s, missing, n) == 0 <==> forall t: Tier :: t < n ==> !Helps(s, missing, t)
    ensures forall t: Tier :: t < n ==> UsefulUpTo(s, missing, n) >= Gain(missing.At(t), s.delta.At(t))
  {
    if n > 0 {
      UsefulUpToBounds(s, missing, n - 1);
      var last: Tier := n - 1;
      if Helps(s, missing, last) {
        assert UsefulUpTo(s, missing, n) >= s.delta.At(last) > 0;
      }
    }
  }

  /** Usefulness is never negative; it is zero exactly when no tier is both
      missing and produced by the spell; and it is at least the delta of
      every tier the spell helps with. */
  lemma UsefulnessBounds(s: Spell, missing: Tiers)
    ensures Usefulness(s, missing) >= 0
    ensures Usefulness(s, missing) == 0 <==> forall t: Tier :: !Helps(s, missing, t)
    ensures forall t: Tier :: Helps(s, missing, t) ==> Usefulness(s, missing) >= s.delta.At(t)
  {
    UsefulUpToBounds(s, missing, 4);
  }

  /** Nothing positive in the missing vector: every spell scores zero. */
  lemma NothingMissingScoresZero(s: Spell, missing: Tiers)
    requires forall t: Tier :: missing.At(t) <= 0
    ensures Usefulness(s, missing) == 0
  {
    UsefulnessBounds(s, missing);
  }

  /** A spell that produces nothing scores zero. */
  lemma NothingProducedScoresZero(s: Spell, missing: Tiers)
    requires forall t: Tier :: s.delta.At(t) <= 0
    ensures Usefulness(s, missing) == 0
  {
    UsefulnessBounds(s, missing);
  }

  /** `add_useful_ingredient` as the source writes it: a local accumulator
      and one guarded addition per tier. */
  method AddUsefulIngredient(s: Spell, missing: Tiers) returns (added: int)
    ensures added == Usefulness(s, missing)
    ensures added >= 0
  {
    added := 0;
    if missing.t0 > 0 && s.delta.t0 > 0 { added := added + s.delta.t0; }
    assert added == UsefulUpTo(s, missing, 1);
    if missing.t1 > 0 && s.delta.t1 > 0 { added := added + s.delta.t1; }
    assert added == UsefulUpTo(s, missing, 2);
    if missing.t2 > 0 && s.delta.t2 > 0 { added := added + s.delta.t2; }
    assert added == UsefulUpTo(s, missing, 3);
    if missing.t3 > 0 && s.delta.t3 > 0 { added := added + s.delta.t3; }
    UsefulnessBounds(s, missing);
  }

  /** The missing-ingredients vector as the source builds it: the recipe's
      delta minus the inventory, tier by tier, with no clipping at zero. */
  function Missing(delta: Tiers, player: Player): (m: Tiers)
    ensures forall t: Tier :: m.At(t) == delta.At(t) - player.inventory.At(t)
  {
    Tiers(delta.t0 - player.inventory.t0, delta.t1 - player.inventory.t1,
          delta.t2 - player.inventory.t2, delta.t3 - player.inventory.t3)
  }

  /** With a non-negative inventory, a tier can be missing only where the
      recipe itself produces: a recipe that only consumes leaves nothing
      missing, so every spell scores zero against it. */
  lemma ConsumingRecipeLeavesNothingMissing(delta: Tiers, player: Player, s: Spell)
    requires forall t: Tier :: player.inventory.At(t) >= 0
    ensures forall t: Tier :: Missing(delta, player).At(t) > 0 ==> delta.At(t) > 0
    ensures (forall t: Tier :: delta.At(t) <= 0) ==> Usefulness(s, Missing(delta, player)) == 0
  {
    var m := Missing(delta, player);
    if forall t: Tier :: delta.At(t) <= 0 {
      forall t: Tier ensures m.At(t) <= 0 {
        assert player.inventory.At(t) >= 0;
      }
      NothingMissingScoresZero(s, m);
    }
  }
}
