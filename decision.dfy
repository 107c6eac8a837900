/** One turn of the agent: split the parsed records into the potion and
    spell catalogs, then choose BREW, CAST, REST or WAIT. */
module Decision {
  import opened Game
  import opened Recipes
  import opened Selection
  import opened Bridge

  /** The typed catalogs built from a turn's records. */
  datatype Catalog = Catalog(potions: seq<Potion>, spells: seq<Spell>)

  function AsPotion(r: Record): Potion
  {
    Potion(r.id, r.delta, r.price)
  }

  function AsSpell(r: Record): Spell
  {
    Spell(r.id, r.delta, r.castable)
  }

  /** The records read so far, pushed one by one: a BREW record onto the
      potions, a CAST record onto the spells, any other kind (LEARN,
      OPPONENT_CAST, ...) dropped. */
  function SplitCatalog(records: seq<Record>): (c: Catalog)
    ensures |c.potions| + |c.spells| <= |records|
    ensures forall p :: p in c.potions <==> exists r :: r in records && r.kind == "BREW" && AsPotion(r) == p
    ensures forall s :: s in c.spells <==> exists r :: r in records && r.kind == "CAST" && AsSpell(r) == s
    decreases |records|
  {
    if records == [] then Catalog([], [])
    else
      var last := records[|records| - 1];
      var init := records[..|records| - 1];
      assert records == init + [last];
      var c := SplitCatalog(init);
      match last.kind
      case "BREW" => Catalog(c.potions + [AsPotion(last)], c.spells)
      case "CAST" => Catalog(c.potions, c.spells + [AsSpell(last)])
      case _ => c
  }

  /** Splitting distributes over concatenation: the catalogs of two runs of
      records are the catalogs of each, in input order. */
  lemma {:induction false} SplitCatalogAppend(a: seq<Record>, b: seq<Record>)
    ensures SplitCatalog(a + b).potions == SplitCatalog(a).potions + SplitCatalog(b).potions
    ensures SplitCatalog(a + b).spells == SplitCatalog(a).spells + SplitCatalog(b).spells
    decreases |b|
  {
    if b == [] {
      assert a + b == a;
    } else {
      var init := b[..|b| - 1];
      SplitCatalogAppend(a, init);
      assert (a + b)[..|a + b| - 1] == a + init;
      assert (a + b)[|a + b| - 1] == b[|b| - 1];
    }
  }

  /** A single record: a BREW record yields exactly its potion, a CAST
      record exactly its spell, anything else nothing. */
  lemma SplitSingleRecord(r: Record)
    ensures SplitCatalog([r]).potions == if r.kind == "BREW" then [AsPotion(r)] else []
    ensures SplitCatalog([r]).spells == if r.kind == "CAST" then [AsSpell(r)] else []
  {
  }

  /** Whether the turn can be decided without a panic of the source: the
      potion list is non-empty (`get_best_potion(..).unwrap()`), and when
      the best potion is not brewable, the spell list too
      (`max_by_key(..).unwrap()` on the first search round). */
  predicate Decidable(potions: seq<Potion>, spells: seq<Spell>, player: Player)
  {
    potions != [] && (Brewable(BestPotion(potions).value, player) || spells != [])
  }

  /** The action of the turn: BREW the best potion when it is brewable;
      otherwise search for a bridging spell against the best potion's
      missing vector, and CAST it if the search finds one (REST if it were
      not castable), WAIT if the search runs out of candidates. */
  function Decide(potions: seq<Potion>, spells: seq<Spell>, player: Player): (a: Action)
    requires Decidable(potions, spells, player)
    ensures a.Brew? <==> Brewable(BestPotion(potions).value, player)
    ensures a.Brew? ==> a.potion == BestPotion(potions).value.id
    ensures a.Cast? ==> exists s :: s in spells && s.id == a.spell && s.castable != 0 && Affordable(s, player)
    ensures a.Cast? <==> !Brewable(BestPotion(potions).value, player)
                         && BridgeSearch(spells, player, Missing(BestPotion(potions).value.delta, player)).best.Some?
    ensures a.Cast? ==> a.spell == BridgeSearch(spells, player, Missing(BestPotion(potions).value.delta, player)).best.value.id
    ensures a.Wait? <==> !Brewable(BestPotion(potions).value, player)
                         && BridgeSearch(spells, player, Missing(BestPotion(potions).value.delta, player)).remaining == []
  {
    var potion := BestPotion(potions).value;
    if Brewable(potion, player) then Brew(potion.id)
    else
      match BridgeSearch(spells, player, Missing(potion.delta, player)).best
      case Some(s) => if s.castable != 0 then Cast(s.id) else Rest
      case None => Wait
  }

  /** REST is never chosen: a spell the search returns is always castable. */
  lemma RestIsUnreachable(potions: seq<Potion>, spells: seq<Spell>, player: Player)
    requires Decidable(potions, spells, player)
    ensures Decide(potions, spells, player) != Rest
  {
  }

  /** With nothing negative in stock and only consuming potions, no spell
      scores, so the search's first pick is the last spell of the catalog;
      every spell is affordable, so the turn casts that spell when it is
      castable. */
  lemma LastSpellCastWhenUnbrewable(potions: seq<Potion>, spells: seq<Spell>, player: Player)
    requires Decidable(potions, spells, player)
    requires forall t: Tier :: player.inventory.At(t) >= 0
    requires forall p, t: Tier :: p in potions ==> p.delta.At(t) <= 0
    requires !Brewable(BestPotion(potions).value, player)
    requires spells[|spells| - 1].castable != 0
    ensures Decide(potions, spells, player) == Cast(spells[|spells| - 1].id)
  {
    var potion := BestPotion(potions).value;
    var m := Missing(potion.delta, player);
    forall t: Tier ensures m.At(t) <= 0 {
      assert potion.delta.At(t) <= 0;
    }
    NoScorePicksLast(spells, m);
    NonNegativeInventoryAffordsEverySpell(spells[|spells| - 1], player);
  }

  /** One potion needing two tier-0 ingredients, an empty inventory and one
      castable spell producing two of them: the turn casts the spell. */
  lemma CastScenario()
    ensures Decide([Potion(44, Tiers(-2, 0, 0, 0), 10)], [Spell(78, Tiers(2, 0, 0, 0), 1)],
                   Player(Tiers(0, 0, 0, 0))) == Cast(78)
  {
    var potions := [Potion(44, Tiers(-2, 0, 0, 0), 10)];
    var spells := [Spell(78, Tiers(2, 0, 0, 0), 1)];
    var player := Player(Tiers(0, 0, 0, 0));
    LastSpellCastWhenUnbrewable(potions, spells, player);
  }

  /** An inventory that exactly covers the only potion on tier 0 and holds
      one of each other tier, and no castable spell: the source does not
      brew, and waits once the search has dropped every candidate. */
  lemma ExactCoverScenario()
    ensures Decide([Potion(1, Tiers(-3, 0, 0, 0), 10)], [Spell(2, Tiers(2, 0, 0, 0), 0)],
                   Player(Tiers(3, 1, 1, 1))) == Wait
  {
    var potions := [Potion(1, Tiers(-3, 0, 0, 0), 10)];
    var spells := [Spell(2, Tiers(2, 0, 0, 0), 0)];
    var player := Player(Tiers(3, 1, 1, 1));
    assert BestPotion(potions) == Some(potions[0]);
    ExactCoverIsNotBrewable();
    var m := Missing(potions[0].delta, player);
    assert PickSpell(spells, m) == 0;
    var r := SearchRound(spells, player, m);
    assert !r.Found?;
    assert !r.Continue?;
  }
}
