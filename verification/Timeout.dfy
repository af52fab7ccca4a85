/** The command timeout counter that the timer interrupt counts down behind the engines' backs (V2Protocol.c). */
module Timeout {

  const COMMAND_TIMEOUT_TICKS: nat := 100

  /** The counter is only ever loaded with this value, and counted down. */
  type Ticks = n: nat | n <= COMMAND_TIMEOUT_TICKS

  /** What is settled about the time from one re-arming of the counter to the next: the ticks the interrupt will have
      taken at the first looks at the counter. */
  type Episode = seq<nat>

  function Current(planned: seq<Episode>): Episode {
    if planned == [] then [] else planned[0]
  }

  function After(planned: seq<Episode>, n: nat): seq<Episode> {
    if n <= |planned| then planned[n..] else []
  }

  /** Episode `k` of the coming ones. */
  function EpisodeAt(planned: seq<Episode>, k: nat): Episode {
    Current(After(planned, k))
  }

  lemma AfterNext(planned: seq<Episode>, n: nat)
    ensures After(After(planned, n), 1) == After(planned, n + 1)
  {
  }

  /** Episodes in which the counter is found run out, and in which it stands still for two looks. */
  predicate RunsOut(e: Episode) {
    e != [] && e[0] >= COMMAND_TIMEOUT_TICKS
  }

  predicate StandsStill(e: Episode) {
    |e| >= 2 && e[0] == e[1] == 0
  }

  /** At how many looks from now the counter will be found standing still. */
  function Calm(e: Episode): nat {
    if e != [] && e[0] == 0 then 1 + Calm(e[1..]) else 0
  }

  lemma CalmBound(e: Episode)
    ensures Calm(e) <= |e|
  {
  }

  class Timer {
    /** TimeoutTicksRemaining. */
    var ticks: Ticks

    /** What is settled about the coming episodes; beyond that the interrupt may take any number of ticks. */
    var planned: seq<Episode>

    /** How long it can then still stay away; it always comes eventually. */
    var quiet: nat

    constructor (plan: seq<Episode>)
      ensures ticks == COMMAND_TIMEOUT_TICKS && planned == plan && quiet == 0
    {
      ticks, planned, quiet := COMMAND_TIMEOUT_TICKS, plan, 0;
    }

    function UntilTick(): nat
      reads this
    {
      |Current(planned)| + quiet
    }

    function Rest(): nat
      reads this
    {
      Calm(Current(planned))
    }

    /** The interrupt may have come any number of times; if it has not, it is nearer. */
    method Elapse()
      modifies this
      ensures ticks <= old(ticks)
      ensures old(ticks) > 0 && ticks == old(ticks) ==> UntilTick() < old(UntilTick())
      ensures After(planned, 1) == old(After(planned, 1)) && |planned| == old(|planned|)
      ensures old(Current(planned)) != [] ==>
                && Current(planned) == old(Current(planned))[1..]
                && ticks == if old(Current(planned))[0] < old(ticks) then old(ticks) - old(Current(planned))[0] else 0
      ensures old(Rest()) > 0 ==> ticks == old(ticks) && Rest() == old(Rest()) - 1
    {
      var now := Current(planned);
      if now != [] {
        ticks := if now[0] < ticks then ticks - now[0] else 0;
        planned := [now[1..]] + planned[1..];
      } else if ticks > 0 {
        var away: bool := *;
        if quiet > 0 && away {
          quiet := quiet - 1;
        } else {
          var count: nat :| 1 <= count <= ticks;
          ticks := ticks - count;
          quiet := *;
        }
      }
    }

    method Rearm()
      modifies this
      ensures ticks == COMMAND_TIMEOUT_TICKS && planned == old(After(planned, 1))
    {
      ticks := COMMAND_TIMEOUT_TICKS;
      planned := After(planned, 1);
    }
  }
}
