/**
 * The opponent registry (js/animals.js): the eight animal profiles and the engine each one plays
 * with, the lookup with its fallback to the fox, the listing in declaration order, and the
 * choice of engine in `createAI`. Names, emoji, colours and messages are presentation data and
 * are not part of this model.
 */
module Animals {
  import opened Wrappers

  /**
   * The fields of a profile that decide how it plays. `depth` is present only on the
   * alpha-beta profiles and `iterations` only on the Monte Carlo ones, as in the table.
   */
  datatype Profile = Profile(id: string, algorithm: string, depth: Option<nat>, iterations: Option<nat>)

  /**
   * What `createAI` constructs: `new AlphaBetaAI(depth)` or `new MCTS(iterations)`, with the
   * profile's field passed on as it is (None where the source would pass `undefined`).
   */
  datatype Engine = AlphaBetaEngine(depth: Option<nat>) | MctsEngine(iterations: Option<nat>)

  /** The keys of `ANIMALS` in declaration order. */
  const Keys: seq<string> := ["snail", "turtle", "rabbit", "cat", "fox", "wolf", "owl", "dragon"]

  /** `ANIMALS`: four Monte Carlo profiles by iteration budget, four alpha-beta profiles by depth. */
  const Registry: map<string, Profile> := map[
    "snail" := Profile("snail", "mcts", None, Some(50)),
    "turtle" := Profile("turtle", "mcts", None, Some(100)),
    "rabbit" := Profile("rabbit", "mcts", None, Some(200)),
    "cat" := Profile("cat", "mcts", None, Some(500)),
    "fox" := Profile("fox", "alphabeta", Some(4), None),
    "wolf" := Profile("wolf", "alphabeta", Some(6), None),
    "owl" := Profile("owl", "alphabeta", Some(8), None),
    "dragon" := Profile("dragon", "alphabeta", Some(10), None)
  ]

  /** The registry holds exactly the listed keys, each once, and every profile is filed under its own id. */
  lemma RegistryWellFormed()
    ensures forall k :: k in Registry <==> k in Keys
    ensures forall i, j :: 0 <= i < j < |Keys| ==> Keys[i] != Keys[j]
    ensures forall k :: k in Registry ==> Registry[k].id == k
  {
  }

  /** `getAnimal`: the registered profile, and the fox for any id that is not registered. */
  function GetAnimal(id: string): (p: Profile)
    ensures id in Registry ==> p.id == id
    ensures id !in Registry ==> p.id == "fox"
    ensures p.id in Registry && Registry[p.id] == p
  {
    if id in Registry then Registry[id] else Registry["fox"]
  }

  /** `getAllAnimals`: the profiles in declaration order, snail to dragon. */
  function GetAllAnimals(): (r: seq<Profile>)
    ensures |r| == |Keys|
    ensures forall i :: 0 <= i < |r| ==> r[i].id == Keys[i] && r[i] == GetAnimal(Keys[i])
  {
    seq(|Keys|, i requires 0 <= i < |Keys| => Registry[Keys[i]])
  }

  /** Every profile appears in the listing, exactly once. */
  lemma AllAnimalsComplete()
    ensures forall k :: k in Registry ==> exists i :: 0 <= i < |GetAllAnimals()| && GetAllAnimals()[i] == Registry[k]
    ensures forall i, j :: 0 <= i < j < |GetAllAnimals()| ==> GetAllAnimals()[i] != GetAllAnimals()[j]
  {
    var all := GetAllAnimals();
    RegistryWellFormed();
    forall k | k in Registry
      ensures exists i :: 0 <= i < |all| && all[i] == Registry[k]
    {
      var i :| 0 <= i < |Keys| && Keys[i] == k;
      assert all[i] == Registry[k];
    }
    forall i, j | 0 <= i < j < |all|
      ensures all[i] != all[j]
    {
      assert all[i].id == Keys[i] && all[j].id == Keys[j];
    }
  }

  /** `createAI`: an alpha-beta engine exactly for the alpha-beta profiles, a Monte Carlo one otherwise. */
  function CreateAI(id: string): (e: Engine)
    ensures e.AlphaBetaEngine? <==> GetAnimal(id).algorithm == "alphabeta"
    ensures e.AlphaBetaEngine? ==> e.depth == GetAnimal(id).depth
    ensures e.MctsEngine? ==> e.iterations == GetAnimal(id).iterations
  {
    var animal := GetAnimal(id);
    if animal.algorithm == "alphabeta" then AlphaBetaEngine(animal.depth) else MctsEngine(animal.iterations)
  }

  /** An unknown id plays as the fox: alpha-beta to depth 4. */
  lemma UnknownIsFox(id: string)
    requires id !in Registry
    ensures CreateAI(id) == AlphaBetaEngine(Some(4))
  {
  }

  /** Every engine `createAI` builds gets a parameter: no registered profile lacks the field its algorithm reads. */
  lemma EnginesConfigured(id: string)
    ensures CreateAI(id).AlphaBetaEngine? ==> CreateAI(id).depth.Some?
    ensures CreateAI(id).MctsEngine? ==> CreateAI(id).iterations.Some?
  {
  }

  /**
   * In declaration order the four Monte Carlo profiles come first with strictly growing
   * iteration budgets, then the four alpha-beta profiles with strictly growing depths.
   */
  lemma StrengthOrder()
    ensures forall i :: 0 <= i < 4 ==> CreateAI(Keys[i]).MctsEngine? && CreateAI(Keys[i]).iterations.Some?
    ensures forall i :: 4 <= i < 8 ==> CreateAI(Keys[i]).AlphaBetaEngine? && CreateAI(Keys[i]).depth.Some?
    ensures forall i, j :: 0 <= i < j < 4 ==> CreateAI(Keys[i]).iterations.value < CreateAI(Keys[j]).iterations.value
    ensures forall i, j :: 4 <= i < j < 8 ==> CreateAI(Keys[i]).depth.value < CreateAI(Keys[j]).depth.value
  {
  }

  /** The engines of the eight profiles: 50, 100, 200 and 500 playouts, then depth 4, 6, 8 and 10. */
  lemma EngineTable()
    ensures CreateAI("snail") == MctsEngine(Some(50)) && CreateAI("turtle") == MctsEngine(Some(100))
    ensures CreateAI("rabbit") == MctsEngine(Some(200)) && CreateAI("cat") == MctsEngine(Some(500))
    ensures CreateAI("fox") == AlphaBetaEngine(Some(4)) && CreateAI("wolf") == AlphaBetaEngine(Some(6))
    ensures CreateAI("owl") == AlphaBetaEngine(Some(8)) && CreateAI("dragon") == AlphaBetaEngine(Some(10))
  {
  }
}
