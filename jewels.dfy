/**
 * Jewels, the jewel catalogue and the factory that creates jewels
 * (game/models/jewel.py, game/models/jewel_factory.py).
 *
 * Only the logical part of a jewel is modelled: its type, its point value,
 * its cell, its selection highlight and an abstract "animation in flight"
 * flag. Screen coordinates, scale, alpha, rotation and the per-colour
 * animation timings are rendering state driven by the wall clock.
 */
module Jewels {
  import opened Wrappers

  /** One entry of the jewel catalogue (jewels.xml): id, colour name, points. */
  datatype JewelConfig = JewelConfig(id: int, color: string, points: int)

  /** A jewel on (or just removed from) the board. */
  datatype Jewel = Jewel(kind: int, points: int, x: int, y: int, selected: bool, animating: bool)

  /** Jewel.__init__: an idle, unselected jewel of the given kind at cell (x, y). */
  function NewJewel(kind: int, x: int, y: int, config: JewelConfig): Jewel
  {
    Jewel(kind, config.points, x, y, false, false)
  }

  /** Jewel.move_to: the logical cell becomes (x, y) and a move animation starts. */
  function MoveTo(j: Jewel, x: int, y: int): Jewel
  {
    j.(x := x, y := y, animating := true)
  }

  /** Jewel.start_destroy_animation: a destroy animation starts. */
  function StartDestroy(j: Jewel): Jewel
  {
    j.(animating := true)
  }

  /** The errors the factory raises (both are ValueError in the source). */
  datatype FactoryError =
    | InvalidType(kind: int)  // create_jewel with a type outside the catalogue
    | EmptyRange              // randint(0, -1) on an empty catalogue

  /** JewelFactory: the catalogue; jewel types are the indices 0 .. TypeCount() - 1. */
  datatype JewelFactory = JewelFactory(configs: seq<JewelConfig>) {

    /** type_count, the number of catalogue entries. */
    function TypeCount(): nat
    {
      |configs|
    }

    /** create_jewel: a jewel of the requested type at (x, y), or InvalidType. */
    function CreateJewel(kind: int, x: int, y: int): (r: Result<Jewel, FactoryError>)
      ensures r.Failure? <==> !(0 <= kind < TypeCount())
      ensures r.Failure? ==> r.error == InvalidType(kind)
      ensures r.Success? ==>
        && r.value.kind == kind && r.value.x == x && r.value.y == y
        && r.value.points == configs[kind].points
        && !r.value.selected && !r.value.animating
    {
      if !(0 <= kind < TypeCount()) then Failure(InvalidType(kind))
      else Success(NewJewel(kind, x, y, configs[kind]))
    }
  }

  /**
   * create_random_jewel: randint(0, type_count - 1) picks the type, then
   * create_jewel builds the jewel. The random pick is a nondeterministic
   * choice; on an empty catalogue randint raises.
   */
  method CreateRandomJewel(f: JewelFactory, x: int, y: int) returns (r: Result<Jewel, FactoryError>)
    ensures f.TypeCount() == 0 <==> r.Failure?
    ensures r.Success? ==>
      && 0 <= r.value.kind < f.TypeCount()
      && r.value == NewJewel(r.value.kind, x, y, f.configs[r.value.kind])
  {
    if f.TypeCount() == 0 {
      return Failure(EmptyRange);
    }
    var kind :| 0 <= kind <= f.TypeCount() - 1;
    r := f.CreateJewel(kind, x, y);
  }
}
