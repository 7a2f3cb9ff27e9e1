/** Shared vocabulary of the entity-component world that the overlay's two
    systems run in: entity handles and an optional value. */
module Ecs {

  /** An entity handle. The world hands out each handle to one entity only. */
  type Entity = nat

  /** The result of a lookup that may find nothing. */
  datatype Option<+T> = None | Some(value: T)

  /** No entity occurs twice in `es`: the shape of every query result. */
  predicate Distinct(es: seq<Entity>) {
    forall i, j :: 0 <= i < j < |es| ==> es[i] != es[j]
  }
}
