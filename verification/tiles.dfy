/**
 * Tile-type codes and the placement instructions a section emits.
 * A cell of a section holds one byte; codes 1..10 name the prefab that
 * CreateTile instantiates, every other code places nothing.
 */
module Tiles {
  import opened Wrappers

  /** A C# `byte`. */
  type Byte = x: int | 0 <= x < 256

  /** A tile position. The section computes every coordinate as an integer;
      the engine's Vector3 stores it as a float, which this model does not:
      coordinates are kept as exact integers. */
  datatype Position = Position(x: int, y: int, z: int)

  /** One visited cell: the code found in the grid and where it goes. */
  datatype Emission = Emission(code: Byte, at: Position)

  /** The codes for which CreateTile instantiates an object. */
  predicate Spawnable(code: Byte) {
    1 <= code <= 10
  }

  /** The resource path CreateTile loads for a code, or None when its switch
      has no case for it (code 0 and codes above 10). */
  function PrefabPath(code: Byte): (r: Option<string>)
    ensures r.Some? <==> Spawnable(code)
    ensures r.Some? ==> |r.value| > 8 && r.value[..8] == "Objects/"
  {
    match code
    case 1 => Some("Objects/Wall")
    case 2 => Some("Objects/Resistance")
    case 3 => Some("Objects/Coil")
    case 4 => Some("Objects/Battery")
    case 5 => Some("Objects/BrokenCircuitry")
    case 6 => Some("Objects/PositronSpawner")
    case 7 => Some("Objects/BeamTrigger")
    case 8 => Some("Objects/LED")
    case 9 => Some("Objects/Shield")
    case 10 => Some("Objects/GhostTrigger")
    case _ => None
  }

  /** The emissions that lead to an instantiated tile, in emission order. */
  function Spawns(es: seq<Emission>): seq<Emission>
  {
    if es == [] then []
    else
      var last := es[|es| - 1];
      Spawns(es[..|es| - 1]) + (if Spawnable(last.code) then [last] else [])
  }

  /** Spawns keeps exactly the emissions whose code is 1..10: nothing else
      gets through, and none of them is lost. */
  lemma {:induction false} SpawnsExactly(es: seq<Emission>)
    ensures |Spawns(es)| <= |es|
    ensures forall e | e in Spawns(es) :: e in es && Spawnable(e.code)
    ensures forall e | e in es && Spawnable(e.code) :: e in Spawns(es)
  {
    if es != [] {
      SpawnsExactly(es[..|es| - 1]);
      assert es == es[..|es| - 1] + [es[|es| - 1]];
    }
  }
}
