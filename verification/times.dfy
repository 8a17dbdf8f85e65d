/** Optional event times, shared by both simulation engines and both dataset builders.

  An event time is Python's `None` or an `int` step index. The engines test a time
  with Python truthiness (`if participant.death_time:`), the dataset builders with
  pandas' presence test (`pd.notna`); the two agree only on times that are at least 1.
 */
module Times {

  /** A possibly missing value: Python's `None`, or a missing cell of a table. */
  datatype Option<+T> = None | Some(value: T)

  /** One cell of pandas' `combine_first`: a present value wins over the fallback. */
  function OrElse<T>(a: Option<T>, b: Option<T>): Option<T>
  {
    if a.Some? then a else b
  }

  /** Python truthiness of an optional step index: `None` and `0` are both false. */
  predicate Truthy(o: Option<nat>)
  {
    o.Some? && o.value != 0
  }

  /** The time is missing or lies in `lo..hi`. */
  predicate Within(o: Option<nat>, lo: int, hi: int)
  {
    o.Some? ==> lo <= o.value <= hi
  }

  /** When both times are present, `a` is strictly earlier than `b`. */
  predicate Before(a: Option<nat>, b: Option<nat>)
  {
    a.Some? && b.Some? ==> a.value < b.value
  }

  function Max(a: int, b: int): int
  {
    if a < b then b else a
  }

  /** Truthiness of a stamped time is presence: every time the engines write is a
      step index, and step indices start at 1. */
  lemma TruthyIsPresence(o: Option<nat>, hi: int)
    requires Within(o, 1, hi)
    ensures Truthy(o) <==> o.Some?
  {
  }

  /** The loop of `check_complete`: it answers false at the first participant whose
      death time is falsy, and true when it runs off the end. */
  function EveryoneDied(deaths: seq<Option<nat>>): (r: bool)
    ensures r <==> forall i :: 0 <= i < |deaths| ==> Truthy(deaths[i])
  {
    if |deaths| == 0 then true
    else if !Truthy(deaths[0]) then false
    else EveryoneDied(deaths[1..])
  }
}
