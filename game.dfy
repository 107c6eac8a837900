/** The entities the decision kernel works on, as the game state feed
    describes them after parsing. Integers are unbounded here; the source
    uses 32-bit signed integers throughout. */
module Game {

  datatype Option<T> = None | Some(value: T)

  /** An ingredient tier, 0 to 3. */
  type Tier = t: nat | t < 4

  /** A four-tier ingredient vector: a recipe's signed delta, an inventory,
      or the kernel's "missing ingredients" vector. */
  datatype Tiers = Tiers(t0: int, t1: int, t2: int, t3: int)
  {
    /** The component of one tier. */
    function At(t: Tier): int
    {
      if t == 0 then t0 else if t == 1 then t1 else if t == 2 then t2 else t3
    }
  }

  /** The acting party. Its score is parsed but never read by the kernel. */
  datatype Player = Player(inventory: Tiers)

  /** A BREW order: the deltas it consumes and the rupees it pays. */
  datatype Potion = Potion(id: int, delta: Tiers, price: int)

  /** A CAST spell of the acting party. `castable` is the feed's 0/1 flag,
      kept as an integer because the kernel only tests it against 0. */
  datatype Spell = Spell(id: int, delta: Tiers, castable: int)

  /** One parsed line of the recipe/spell section of a turn's input. */
  datatype Record = Record(id: int, kind: string, delta: Tiers, price: int,
                           tomeIndex: int, taxCount: int, castable: int, repeatable: int)

  /** The action written for the turn. */
  datatype Action = Brew(potion: int) | Cast(spell: int) | Rest | Wait
}
