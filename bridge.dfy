/** The bridging search `get_best_spell`: repeatedly pick the most useful
    candidate against the current missing vector; stop with it when it is
    affordable and castable; otherwise take its own delta minus the
    inventory as the next missing vector, drop every candidate with its id,
    and stop with nothing once no candidate is left. */
module Bridge {
  import opened Game
  import opened Recipes
  import opened Selection
  import opened Subsequences

  /** `spells.retain(|s| s.id != id)`: the list without the spells carrying
      `id`, the others kept in order and with their multiplicities. */
  function RemoveId(spells: seq<Spell>, id: int): (r: seq<Spell>)
    ensures IsSubsequence(r, spells)
    ensures forall x :: multiset(r)[x] == if x.id == id then 0 else multiset(spells)[x]
    ensures |r| < |spells| <==> exists x :: x in spells && x.id == id
    decreases |spells|
  {
    if spells == [] then []
    else
      var rest := RemoveId(spells[1..], id);
      assert spells == [spells[0]] + spells[1..];
      SubsequenceLength(rest, spells[1..]);
      if spells[0].id == id then
        rest
      else
        assert ([spells[0]] + rest)[1..] == rest;
        assert (exists x :: x in spells && x.id == id) ==> exists x :: x in spells[1..] && x.id == id;
        [spells[0]] + rest
  }

  /** Where one turn of the search loop leaves it. */
  datatype Round = Found(spell: Spell) | Continue(spells: seq<Spell>, missing: Tiers) | Exhausted

  /** One iteration of the loop of `get_best_spell`. */
  function SearchRound(spells: seq<Spell>, player: Player, missing: Tiers): (r: Round)
    requires |spells| > 0
    ensures var s := spells[PickSpell(spells, missing)];
      && (r.Found? <==> Affordable(s, player) && s.castable != 0)
      && (r.Found? ==> r.spell == s)
      && (r.Continue? ==> |r.spells| < |spells| && r.spells == RemoveId(spells, s.id)
                          && forall t: Tier :: r.missing.At(t) == s.delta.At(t) - player.inventory.At(t))
      && (r.Continue? ==> r.spells != [])
      && (r.Exhausted? <==> !(Affordable(s, player) && s.castable != 0) && RemoveId(spells, s.id) == [])
      && (r.Exhausted? ==> forall x :: x in spells ==> x.id == s.id)
  {
    var s := spells[PickSpell(spells, missing)];
    if Affordable(s, player) && s.castable != 0 then Found(s)
    else
      var rest := RemoveId(spells, s.id);
      if rest == [] then
        assert forall x :: x in spells ==> x.id == s.id by {
          forall x | x in spells ensures x.id == s.id {
            assert multiset(rest)[x] == 0;
          }
        }
        Exhausted
      else Continue(rest, Missing(s.delta, player))
  }

  /** The search's verdict and the candidate list it leaves behind (the
      source shrinks the caller's vector in place). */
  datatype Outcome = Outcome(best: Option<Spell>, remaining: seq<Spell>)

  /** The whole search: iterate rounds until one finds a spell or the
      candidates run out. */
  function BridgeSearch(spells: seq<Spell>, player: Player, missing: Tiers): (r: Outcome)
    requires |spells| > 0
    ensures r.best.Some? ==> r.best.value in spells && r.best.value.castable != 0 && Affordable(r.best.value, player)
    ensures r.best.Some? ==> r.best.value in r.remaining
    ensures r.best.None? <==> r.remaining == []
    ensures IsSubsequence(r.remaining, spells)
    decreases |spells|
  {
    match SearchRound(spells, player, missing)
    case Found(s) =>
      SubsequenceReflexive(spells);
      Outcome(Some(s), spells)
    case Exhausted =>
      Outcome(None, [])
    case Continue(rest, next) =>
      var r := BridgeSearch(rest, player, next);
      SubsequenceTransitive(r.remaining, rest, spells);
      if r.best.Some? then SubsequenceMember(r.best.value, rest, spells); r
      else r
  }

  /** The number of loop iterations the search runs. */
  function SearchRounds(spells: seq<Spell>, player: Player, missing: Tiers): (n: nat)
    requires |spells| > 0
    ensures 1 <= n <= |spells|
    decreases |spells|
  {
    match SearchRound(spells, player, missing)
    case Continue(rest, next) => 1 + SearchRounds(rest, player, next)
    case _ => 1
  }

  /** `get_best_spell`. `spells` is the caller's vector, which the source
      shrinks in place; `remaining` is what is left of it. The source takes
      the player by mutable reference but never changes it. */
  method GetBestSpell(spells: seq<Spell>, player: Player, missing: Tiers)
    returns (best: Option<Spell>, remaining: seq<Spell>, ghost rounds: nat)
    requires |spells| > 0
    ensures Outcome(best, remaining) == BridgeSearch(spells, player, missing)
    ensures best.Some? ==> best.value in spells && best.value.castable != 0 && Affordable(best.value, player)
    ensures best.None? <==> remaining == []
    ensures IsSubsequence(remaining, spells)
    ensures rounds == SearchRounds(spells, player, missing) && rounds <= |spells|
  {
    var candidates := spells;
    var missingNow := missing;
    rounds := 0;
    SubsequenceReflexive(spells);
    while true
      invariant |candidates| > 0
      invariant IsSubsequence(candidates, spells)
      invariant BridgeSearch(candidates, player, missingNow) == BridgeSearch(spells, player, missing)
      invariant rounds + SearchRounds(candidates, player, missingNow) == SearchRounds(spells, player, missing)
      decreases |candidates|
    {
      rounds := rounds + 1;
      var spell := candidates[PickSpell(candidates, missingNow)];
      if Affordable(spell, player) && spell.castable != 0 {
        best, remaining := Some(spell), candidates;
        return;
      }
      missingNow := Missing(spell.delta, player);
      var id := spell.id;
      var rest := RemoveId(candidates, id);
      SubsequenceTransitive(rest, candidates, spells);
      candidates := rest;
      if candidates == [] {
        best, remaining := None, [];
        return;
      }
    }
  }
}
