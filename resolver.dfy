/** The matchup resolver: the winner of a matchup by adjusted strike output,
    or the failure the lookup or the accuracy cell raises. */
module Resolver {
  import opened Stats

  /** MissingStatistic: the fighter has no record, so the "SLpM" lookup
      fails. MalformedPercentage: the fighter's accuracy cell is not a
      number. Each names the fighter concerned. */
  datatype Error = MissingStatistic(name: string) | MalformedPercentage(name: string)

  datatype Result<T> = Ok(value: T) | Err(error: Error)

  /** The fighter has a record whose accuracy reads as a number. */
  predicate Scorable(stats: map<string, Record>, fighter: string)
  {
    fighter in stats && stats[fighter].strAcc.Percent?
  }

  /** Significant strikes landed per minute times accuracy as a ratio. */
  function Adjusted(r: Record): real
    requires r.strAcc.Percent?
  {
    r.slpm * (r.strAcc.value / 100.0)
  }

  /** The winner of fighter1 against fighter2. The failures come in the
      order the lookups happen: fighter1's record, fighter2's record,
      fighter1's accuracy, fighter2's accuracy. */
  function Resolve(stats: map<string, Record>, fighter1: string, fighter2: string): (r: Result<string>)
    ensures r.Ok? <==> Scorable(stats, fighter1) && Scorable(stats, fighter2)
    ensures r.Ok? ==> r.value == fighter1 || r.value == fighter2
    ensures r.Ok? && Adjusted(stats[fighter1]) > Adjusted(stats[fighter2]) ==> r.value == fighter1
    ensures r.Ok? && Adjusted(stats[fighter1]) <= Adjusted(stats[fighter2]) ==> r.value == fighter2
    ensures fighter1 !in stats ==> r == Err(MissingStatistic(fighter1))
    ensures fighter1 in stats && fighter2 !in stats ==> r == Err(MissingStatistic(fighter2))
    ensures fighter1 in stats && fighter2 in stats && !Scorable(stats, fighter1) ==> r == Err(MalformedPercentage(fighter1))
    ensures Scorable(stats, fighter1) && fighter2 in stats && !Scorable(stats, fighter2) ==> r == Err(MalformedPercentage(fighter2))
  {
    if fighter1 !in stats then Err(MissingStatistic(fighter1))
    else if fighter2 !in stats then Err(MissingStatistic(fighter2))
    else if stats[fighter1].strAcc.Unparseable? then Err(MalformedPercentage(fighter1))
    else if stats[fighter2].strAcc.Unparseable? then Err(MalformedPercentage(fighter2))
    else if Adjusted(stats[fighter1]) > Adjusted(stats[fighter2]) then Ok(fighter1)
    else Ok(fighter2)
  }

  /** Swapping the two sides changes nothing unless the adjusted outputs
      tie; a tie goes to whoever is second. */
  lemma ResolveSwapped(stats: map<string, Record>, fighter1: string, fighter2: string)
    requires Scorable(stats, fighter1) && Scorable(stats, fighter2)
    ensures Adjusted(stats[fighter1]) != Adjusted(stats[fighter2]) ==> Resolve(stats, fighter1, fighter2) == Resolve(stats, fighter2, fighter1)
    ensures Adjusted(stats[fighter1]) == Adjusted(stats[fighter2]) ==>
              Resolve(stats, fighter1, fighter2) == Ok(fighter2) && Resolve(stats, fighter2, fighter1) == Ok(fighter1)
  {
  }

  /** 5.0 strikes a minute at 50% (2.5) loses to 3.0 at 90% (2.7). */
  lemma ResolveExample()
    ensures Resolve(map["A" := Record(5.0, Percent(50.0)), "B" := Record(3.0, Percent(90.0))], "A", "B") == Ok("B")
  {
  }
}
