/** Runs of one client alone, which takes steps and may crash and start the same call again. */
module SoloRuns {

  /** A step sees the clock and whatever else of the outside it reads. */
  datatype SoloEvent<T> = Tick(now: int, input: T) | Restart

  /** The clock readings of a run never go back before `clock`. */
  predicate Monotone<T>(events: seq<SoloEvent<T>>, clock: int)
    decreases |events|
  {
    events == [] || (if events[0].Tick? then events[0].now >= clock && Monotone(events[1..], events[0].now)
                     else Monotone(events[1..], clock))
  }

  function FinalClock<T>(events: seq<SoloEvent<T>>, clock: int): int
    decreases |events|
  {
    if events == [] then clock else FinalClock(events[1..], if events[0].Tick? then events[0].now else clock)
  }
}
