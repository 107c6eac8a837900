# FallChallenge2020 agent: decision kernel in Dafny

This project models the per-turn decision kernel of a Rust bot for a
turn-based potion-brewing game, and proves properties of the model. Each turn
the bot splits the parsed records into potions (BREW orders) and its own spells
(CAST). It takes the highest-priced potion. If that potion passes the brew test,
the action is `BREW <id>`. If not, the bot builds a "missing ingredients" vector:
the potion's delta minus the inventory. It then runs a bridging search over the
spells: pick the spell most useful against the missing vector; stop with it if
it is affordable and castable; otherwise make that spell's own delta minus the
inventory the new missing vector, drop every spell with its id, and repeat.
When the search runs out of candidates, the action is `WAIT`.

Files (one module each):

- `game.dfy` (`Game`): ingredient vectors with four tiers, the player, potions, spells, parsed records and actions.
- `recipes.dfy` (`Recipes`): the brew test, the affordability test, the usefulness score (a function and the accumulator method) and the missing vector.
- `selection.dfy` (`Selection`): Rust's `max_by_key`, which keeps the last of several equal maxima. It is used to pick the best potion and each round's spell.
- `subsequences.dfy` (`Subsequences`): order-preserving subsequences. The search proves that the candidate list it shrinks is a subsequence of the original.
- `bridge.dfy` (`Bridge`): the bridging search. `SearchRound` is one loop iteration and `BridgeSearch` the whole search. `GetBestSpell` is the loop itself, proved equal to `BridgeSearch`.
- `decision.dfy` (`Decision`): the catalog split and the action decision, with two concrete scenarios.

## What the kernel's tests actually compute

The model follows the code as written. In several places the code computes
something other than what the game's rules would suggest; each of these is
stated below and proved as a lemma.

- Brew test: the game lets a potion be brewed when the stock holds at least
  `|delta|` of each tier, that is `inventory + delta >= 0`. The code instead
  requires `|delta| < inventory`, strictly, on every tier. So a tier with no
  stock blocks every potion, even a potion that needs nothing of that tier
  (`EmptyTierBlocksBrewing`). A stock of [3,1,1,1] does not brew a potion
  costing [-3,0,0,0], although it brews one costing [-2,0,0,0]
  (`ExactCoverIsNotBrewable`, `ExactCoverScenario`). When the test passes,
  every tier keeps at least one unit after brewing (`BrewableLeavesSurplus`).
- Affordability: the game needs at least `|delta|` in stock for each tier a
  spell consumes. The code tests `delta <= inventory || delta > 0`; for a
  consumed tier this compares a negative number with the stock. So when no
  tier of the stock is negative, every spell passes
  (`NonNegativeInventoryAffordsEverySpell`), even one that would take the
  stock below zero (`OverdrawingSpellIsAffordable`).
- Missing vector: the shortfall of a tier would be
  `max(0, -(inventory + delta))`. The code computes `delta - inventory`
  without clipping. When no tier of the stock is negative, a tier of this
  vector is positive only where the recipe produces that tier. So for a
  potion that only consumes, nothing in the vector is positive, every spell
  scores zero, and the search picks the last spell
  (`ConsumingRecipeLeavesNothingMissing`, `NoScorePicksLast`,
  `LastSpellCastWhenUnbrewable`).
- Ties: `max_by_key` keeps the last of several equal maxima, for potions and
  for spells alike.
- No bridging spell: the code answers `WAIT`, even when the turn has spells.
  The code's `REST` branch can never be taken, because the search returns only
  castable spells (`RestIsUnreachable`).
- Search success: the code stops as soon as the pick is affordable and
  castable. It does not also ask that the pick scores above zero.
- Line 207 of the source reads `spell.id` inside `retain` while the vector is
  borrowed. The model copies the id first and then filters, as clearly intended.

## Model

| member | source | states |
|---|---|---|
| `Recipes.Brewable` | src/main.rs:26-34 | brewable iff, on each of the four tiers, the absolute delta is strictly below the inventory |
| `Recipes.EmptyTierBlocksBrewing` | src/main.rs:26-34 | a tier with inventory 0 (or less) makes every potion unbrewable |
| `Recipes.BrewableLeavesSurplus` | src/main.rs:26-34 | a brewable potion leaves at least one unit of every tier, which is strictly more than covering its cost |
| `Recipes.ExactCoverIsNotBrewable` | src/main.rs:26-34 | stock [3,1,1,1] does not brew a potion costing [-3,0,0,0], where only tier 0's exact cover fails the strict test; the same stock brews one costing [-2,0,0,0] |
| `Recipes.Affordable` | src/main.rs:51-56 | affordable iff, on every tier, the delta is at most the inventory or is positive |
| `Recipes.ProducingTierNeverBlocks` | src/main.rs:51-56 | on a tier where the spell produces, affordability depends only on the other three tiers: it holds iff each of them is covered or produced |
| `Recipes.NonNegativeInventoryAffordsEverySpell` | src/main.rs:51-56 | with no negative tier in stock, every spell is affordable |
| `Recipes.OverdrawingSpellIsAffordable` | src/main.rs:51-56 | a spell consuming 2 of tier 0 counts as affordable with an empty stock, although casting it would take a tier below zero |
| `Recipes.UsefulUpToBounds` | src/main.rs:58-65 | the partial usefulness sum over the first n tiers is non-negative, is zero iff no tier among them is both missing and produced, and bounds each tier's gain |
| `Recipes.UsefulnessBounds` | src/main.rs:58-65 | usefulness is at least 0; it is 0 iff no tier has both a positive missing count and a positive delta; it is at least the delta of each tier that helps |
| `Recipes.NothingMissingScoresZero` | src/main.rs:58-65 | with no positive missing count, every spell scores 0 |
| `Recipes.NothingProducedScoresZero` | src/main.rs:58-65 | a spell with no positive delta scores 0 |
| `Recipes.AddUsefulIngredient` | src/main.rs:58-65 | the accumulator method returns `Usefulness`, the score the search ranks spells by: the sum of the spell's positive deltas over the tiers with a positive missing count; it is non-negative |
| `Recipes.Missing` | src/main.rs:168-173 | the missing vector is, on each tier, the delta minus the inventory, not clipped |
| `Recipes.ConsumingRecipeLeavesNothingMissing` | src/main.rs:201-206 | with non-negative stock, a tier is missing only where the recipe produces; so against a purely consuming recipe every spell scores 0 |
| `Selection.LastMaxIndex` | src/main.rs:192 | max_by_key returns an index whose key is at least every key and strictly above every later key (the last maximum) |
| `Selection.BestPotion` | src/main.rs:191-194 | None iff the list is empty; otherwise a member whose price is at least every price, and no later potion has that price |
| `Selection.TiedPotionsPickLast` | src/main.rs:191-194 | of two equally priced potions, the second is chosen |
| `Selection.PickSpell` | src/main.rs:199 | the picked spell has the highest usefulness, and every later spell scores strictly less |
| `Selection.NoScorePicksLast` | src/main.rs:199 | when nothing is missing, the pick is the last spell |
| `Bridge.RemoveId` | src/main.rs:207 | retain drops exactly the spells with the given id; the rest keep their order and multiplicities; the list shrinks iff some spell had that id |
| `Bridge.SearchRound` | src/main.rs:199-209 | a round stops with the pick iff the pick is affordable and castable. Otherwise the next missing vector is the pick's delta minus the stock on every tier, and the candidates are the old ones without the pick's id: strictly fewer, and never empty when the loop goes on. The round ends the search with nothing iff the pick is rejected and retain empties the list, which happens only when every candidate had the pick's id |
| `Bridge.BridgeSearch` | src/main.rs:196-212 | a found spell is in the original list, is castable and is affordable; None iff no candidate is left; the final list is a subsequence of the original |
| `Bridge.SearchRounds` | src/main.rs:198-210 | the loop runs at least once and at most the initial number of spells |
| `Bridge.GetBestSpell` | src/main.rs:196-212 | the loop over a shrinking candidate list computes the search's outcome, with the same guarantees, within the bound on the number of rounds |
| `Decision.SplitCatalog` | src/main.rs:105-129 | a potion is in the catalog iff a BREW record yields it, and a spell iff a CAST record yields it; other records are dropped |
| `Decision.SplitCatalogAppend` | src/main.rs:105-129 | splitting two runs of records concatenates their catalogs, so input order is kept |
| `Decision.SplitSingleRecord` | src/main.rs:105-129 | one BREW record yields its potion, one CAST record its spell, anything else nothing |
| `Decision.Decide` | src/main.rs:162-180 | BREW iff the best potion is brewable, with that potion's id. CAST iff the best potion is not brewable and the search returns a spell; the id is that spell's id, and it names a castable, affordable spell of the catalog. WAIT iff the best potion is not brewable and the search leaves no candidate |
| `Decision.RestIsUnreachable` | src/main.rs:177-180 | the decision is never REST |
| `Decision.LastSpellCastWhenUnbrewable` | src/main.rs:162-180 | with no negative stock and consuming potions, an unbrewable best potion leads to casting the last spell when it is castable |
| `Decision.CastScenario` | src/main.rs:162-180 | inventory [0,0,0,0], potion [-2,0,0,0], one castable spell [2,0,0,0]: CAST that spell |
| `Decision.ExactCoverScenario` | src/main.rs:162-180 | stock [3,1,1,1], potion [-3,0,0,0], one uncastable spell: WAIT, not BREW |

## Left out

- Reading the feed, tokenising and parsing integers, printing the action, and the endless per-turn loop (src/main.rs:80-104, 131-145, 183-188). These are I/O. The catalog split works on records that are already parsed, and the decision returns an `Action` value.
- The opponent's state and the player's score (src/main.rs:146-160, 138). They are parsed but never read by the decision.
- The spell fields `price`, `tome_index`, `tax_count` and `repeatable`. They are carried but never read; `Record` keeps them and `Spell` drops them.
- The `no_negative!` macro (src/main.rs:10-14). It is defined but never used.
- 32-bit integers: deltas, inventories, sums and differences are unbounded `int`. The model does not capture i32 overflow or the `abs(i32::MIN)` panic.
- The panics of `unwrap` on an empty potion list (line 163) and on an empty spell list when the search starts (line 199). These are preconditions instead: `Decidable` for `Decide`, and a non-empty list for the search.
- The debug writes to stderr (lines 128, 167).
- GetBestSpell: the mutable `Vec` becomes a local sequence that the method reassigns, and the method returns what is left of it. The method does not model Rust's sharing of the vector with the caller, or the in-place compaction `retain` performs. The `&mut Player` becomes a plain value, since the source never writes it.
