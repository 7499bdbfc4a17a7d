/** How a controller's steps can go wrong.

    A run is a sequence of points at which the outside world decides what happens.  The
    process may die there, an operation may report an error, or it goes on; a death or an
    error may come before or after the effect of that point became durable. */
module Faults {

  /** The result of a step.  `Failed` is an error the caller sees; after `Died` nobody is left
      to see anything. */
  datatype Step = Done | Failed | Died {
    predicate IsFailure() {
      !Done?
    }

    function PropagateFailure(): Step {
      this
    }
  }

  /** What the world does at one point of a run.
      `landed`: the effect of the point is durable all the same.
      `poisoned`: a failed journal append could not be taken back. */
  datatype Fate =
    | Go
    | Err(landed: bool, poisoned: bool)
    | Die(landed: bool)

  /** What a run is made of: a process that acts until it dies, and the proofs it has passed. */
  datatype Process = Process(alive: bool, proofs: nat)

  const BORN := Process(true, 0)

  /** A step moves its process on: it is dead exactly when it has died in this step, and a step that
      is done has passed at least `n` proofs. */
  predicate MovesOn(before: Process, after: Process, step: Step, n: nat) {
    && (after.alive <==> !step.Died?)
    && after.proofs >= before.proofs + if step.Done? then n else 0
  }

  /** A run with no fates left goes through uninterrupted. */
  type Fates = seq<Fate>

  function Next(fates: Fates): Fate {
    if fates == [] then Go else fates[0]
  }

  /** Whether the effect of a point is durable afterwards. */
  predicate Lands(fate: Fate) {
    match fate
    case Go => true
    case Err(landed, _) => landed
    case Die(landed) => landed
  }

  /** What the process sees of a point that changes nothing but the world. */
  function Seen(fate: Fate): Step {
    match fate
    case Go => Done
    case Err(_, _) => Failed
    case Die(_) => Died
  }

  function Rest(fates: Fates): Fates {
    if fates == [] then [] else fates[1..]
  }

  // ----------------------------------------------------------- the points of a run

  /** What happens at the `k`-th point from here. */
  function At(fates: Fates, k: nat): Fate {
    if k < |fates| then fates[k] else Go
  }

  /** What is left after `k` points. */
  function Drop(fates: Fates, k: nat): Fates {
    if k < |fates| then fates[k..] else []
  }

  /** The next `n` points go through. */
  predicate Calm(fates: Fates, n: nat) {
    forall k :: 0 <= k < n ==> At(fates, k).Go?
  }

  lemma DropStep(fates: Fates, k: nat)
    ensures Next(Drop(fates, k)) == At(fates, k) && Rest(Drop(fates, k)) == Drop(fates, k + 1)
    ensures Drop(fates, 0) == fates
  {
  }

  lemma DropAt(fates: Fates, n: nat, k: nat)
    ensures At(Drop(fates, n), k) == At(fates, n + k)
  {
  }
}
