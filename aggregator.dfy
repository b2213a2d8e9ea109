/** The aggregator: resolves every matchup of every enumerated outcome and
    lists each winner the first time it is seen; and the prediction run
    that ties pairing, lookup, enumeration and aggregation together. */
module Aggregator {
  import opened Bracket
  import opened Stats
  import opened Enumerator
  import opened Resolver

  /** The matchups an outcome decides, in order, without the winner labels. */
  function Matchups(o: Outcome): seq<Pair>
  {
    seq(|o|, k requires 0 <= k < |o| => (o[k].0, o[k].1))
  }

  /** Every matchup of every outcome, in the order the aggregator visits them. */
  function Traversal(outcomes: seq<Outcome>): seq<Pair>
  {
    if outcomes == [] then []
    else Traversal(outcomes[..|outcomes| - 1]) + Matchups(outcomes[|outcomes| - 1])
  }

  /** The winner list after visiting `ps` in order: each matchup is
      resolved and its winner appended unless already listed; the first
      failure ends the run. */
  function Gather(stats: map<string, Record>, ps: seq<Pair>): Result<seq<string>>
  {
    if ps == [] then Ok([])
    else
      match Gather(stats, ps[..|ps| - 1])
      case Err(e) => Err(e)
      case Ok(w) =>
        match Resolve(stats, ps[|ps| - 1].0, ps[|ps| - 1].1)
        case Err(e) => Err(e)
        case Ok(x) => Ok(if x in w then w else w + [x])
  }

  predicate NoDuplicates(xs: seq<string>)
  {
    forall i, j :: 0 <= i < j < |xs| ==> xs[i] != xs[j]
  }

  /** The position where `x` first occurs in `xs`. */
  function FirstIndex(xs: seq<string>, x: string): (k: nat)
    requires x in xs
    ensures k < |xs| && xs[k] == x && forall j :: 0 <= j < k ==> xs[j] != x
  {
    if xs[0] == x then 0 else 1 + FirstIndex(xs[1..], x)
  }

  /** `xs` without repeats, each value kept where it first occurs. */
  function Dedup(xs: seq<string>): (r: seq<string>)
    ensures NoDuplicates(r)
    ensures forall x :: x in r <==> x in xs
    ensures |r| <= |xs|
  {
    if xs == [] then []
    else
      var r := Dedup(xs[..|xs| - 1]);
      if xs[|xs| - 1] in r then r else r + [xs[|xs| - 1]]
  }

  /** The resolved winner of each matchup of the bracket, in bracket order;
      the first matchup that fails decides the failure. */
  function ResolveAll(stats: map<string, Record>, ps: seq<Pair>): (r: Result<seq<string>>)
    ensures r.Ok? <==> forall j :: 0 <= j < |ps| ==> Resolve(stats, ps[j].0, ps[j].1).Ok?
    ensures r.Ok? ==> |r.value| == |ps| && forall j :: 0 <= j < |ps| ==> Resolve(stats, ps[j].0, ps[j].1) == Ok(r.value[j])
  {
    if ps == [] then Ok([])
    else
      match ResolveAll(stats, ps[..|ps| - 1])
      case Err(e) => Err(e)
      case Ok(w) =>
        match Resolve(stats, ps[|ps| - 1].0, ps[|ps| - 1].1)
        case Err(e) => Err(e)
        case Ok(x) => Ok(w + [x])
  }

  /** The reported winners of a bracket: the first-seen deduplication of
      the per-matchup winners. */
  function Winners(stats: map<string, Record>, ps: seq<Pair>): Result<seq<string>>
  {
    match ResolveAll(stats, ps)
    case Err(e) => Err(e)
    case Ok(ws) => Ok(Dedup(ws))
  }

  /** Drives the nested loops over outcomes and their entries; a failed
      resolution ends the run with that failure. */
  method Aggregate(stats: map<string, Record>, outcomes: seq<Outcome>) returns (r: Result<seq<string>>)
    ensures r == Gather(stats, Traversal(outcomes))
  {
    var winners: seq<string> := [];
    for i := 0 to |outcomes|
      invariant Gather(stats, Traversal(outcomes[..i])) == Ok(winners)
    {
      var outcome := outcomes[i];
      ghost var before := Traversal(outcomes[..i]);
      assert before + Matchups(outcome[..0]) == before;
      for j := 0 to |outcome|
        invariant Gather(stats, before + Matchups(outcome[..j])) == Ok(winners)
      {
        var (fighter1, fighter2, _) := outcome[j];
        MatchupsSnoc(outcome, j);
        GatherSnoc(stats, before + Matchups(outcome[..j]), (fighter1, fighter2));
        assert before + Matchups(outcome[..j + 1]) == before + Matchups(outcome[..j]) + [(fighter1, fighter2)];
        var res := Resolve(stats, fighter1, fighter2);
        if res.Err? {
          r := Err(res.error);
          VisitedPrefix(outcomes, i, j);
          GatherErrPrefix(stats, Traversal(outcomes), |before + Matchups(outcome[..j + 1])|);
          return;
        }
        var winner := res.value;
        if winner !in winners {
          winners := winners + [winner];
        }
      }
      assert outcome[..|outcome|] == outcome;
      TraversalSnoc(outcomes, i);
    }
    assert outcomes[..|outcomes|] == outcomes;
    r := Ok(winners);
  }

  lemma GatherSnoc(stats: map<string, Record>, ps: seq<Pair>, p: Pair)
    ensures Gather(stats, ps + [p]) == match Gather(stats, ps)
      case Err(e) => Err(e)
      case Ok(w) => (match Resolve(stats, p.0, p.1)
        case Err(e) => Err(e)
        case Ok(x) => Ok(if x in w then w else w + [x]))
  {
    assert (ps + [p])[..|ps|] == ps;
  }

  lemma MatchupsSnoc(o: Outcome, j: nat)
    requires j < |o|
    ensures Matchups(o[..j + 1]) == Matchups(o[..j]) + [(o[j].0, o[j].1)]
  {
  }

  lemma TraversalSnoc(outcomes: seq<Outcome>, i: nat)
    requires i < |outcomes|
    ensures Traversal(outcomes[..i + 1]) == Traversal(outcomes[..i]) + Matchups(outcomes[i])
  {
    assert outcomes[..i + 1][..i] == outcomes[..i];
  }

  /** The matchups visited up to and including entry j of outcome i are a
      prefix of the whole traversal. */
  lemma VisitedPrefix(outcomes: seq<Outcome>, i: nat, j: nat)
    requires i < |outcomes| && j < |outcomes[i]|
    ensures var v := Traversal(outcomes[..i]) + Matchups(outcomes[i][..j + 1]);
            |v| <= |Traversal(outcomes)| && v == Traversal(outcomes)[..|v|]
  {
    TraversalSnoc(outcomes, i);
    TraversalPrefix(outcomes, i + 1);
    assert Matchups(outcomes[i][..j + 1]) == Matchups(outcomes[i])[..j + 1];
  }

  lemma {:induction false} TraversalPrefix(outcomes: seq<Outcome>, i: nat)
    requires i <= |outcomes|
    ensures var t := Traversal(outcomes[..i]);
            |t| <= |Traversal(outcomes)| && t == Traversal(outcomes)[..|t|]
  {
    if i < |outcomes| {
      var init := outcomes[..|outcomes| - 1];
      assert init[..i] == outcomes[..i];
      TraversalPrefix(init, i);
    } else {
      assert outcomes[..i] == outcomes;
    }
  }

  /** A failure ends the run: visiting more matchups does not change it. */
  lemma {:induction false} GatherErrPrefix(stats: map<string, Record>, ps: seq<Pair>, n: nat)
    requires n <= |ps| && Gather(stats, ps[..n]).Err?
    ensures Gather(stats, ps) == Gather(stats, ps[..n])
  {
    if n == |ps| {
      assert ps[..n] == ps;
    } else {
      var init := ps[..|ps| - 1];
      assert init[..n] == ps[..n];
      GatherErrPrefix(stats, init, n);
    }
  }

  /** After a successful run every visited matchup resolved to a listed
      winner. */
  lemma {:induction false} GatherCovers(stats: map<string, Record>, ps: seq<Pair>)
    requires Gather(stats, ps).Ok?
    ensures forall j :: 0 <= j < |ps| ==>
              Resolve(stats, ps[j].0, ps[j].1).Ok? && Resolve(stats, ps[j].0, ps[j].1).value in Gather(stats, ps).value
  {
    if ps != [] {
      var init := ps[..|ps| - 1];
      GatherCovers(stats, init);
      forall j | 0 <= j < |init| ensures ps[j] == init[j] { }
    }
  }

  /** Matchups whose winners are all listed already leave the list as it is. */
  lemma {:induction false} GatherAbsorbs(stats: map<string, Record>, xs: seq<Pair>, ys: seq<Pair>, w: seq<string>)
    requires Gather(stats, xs) == Ok(w)
    requires forall j :: 0 <= j < |ys| ==> Resolve(stats, ys[j].0, ys[j].1).Ok? && Resolve(stats, ys[j].0, ys[j].1).value in w
    ensures Gather(stats, xs + ys) == Ok(w)
  {
    if ys == [] {
      assert xs + ys == xs;
    } else {
      var init := ys[..|ys| - 1];
      GatherAbsorbs(stats, xs, init, w);
      assert (xs + ys)[..|xs + ys| - 1] == xs + init;
    }
  }

  /** Visiting the same bracket once or many times gives the same result. */
  lemma {:induction false} GatherRepeated(stats: map<string, Record>, outcomes: seq<Outcome>, ps: seq<Pair>)
    requires |outcomes| >= 1
    requires forall i :: 0 <= i < |outcomes| ==> Matchups(outcomes[i]) == ps
    ensures Gather(stats, Traversal(outcomes)) == Gather(stats, ps)
  {
    var init := outcomes[..|outcomes| - 1];
    assert Traversal(outcomes) == Traversal(init) + ps;
    if |outcomes| == 1 {
      assert Traversal(init) == [];
      assert Traversal(outcomes) == ps;
    } else {
      GatherRepeated(stats, init, ps);
      match Gather(stats, ps)
      case Err(_) =>
        assert (Traversal(init) + ps)[..|Traversal(init)|] == Traversal(init);
        GatherErrPrefix(stats, Traversal(init) + ps, |Traversal(init)|);
      case Ok(w) =>
        GatherCovers(stats, ps);
        GatherAbsorbs(stats, Traversal(init), ps, w);
    }
  }

  /** The step-by-step run and the reference agree: the winner list is the
      first-seen deduplication of the per-matchup winners. */
  lemma {:induction false} GatherIsWinners(stats: map<string, Record>, ps: seq<Pair>)
    ensures Gather(stats, ps) == Winners(stats, ps)
  {
    if ps != [] {
      var init := ps[..|ps| - 1];
      GatherIsWinners(stats, init);
      match ResolveAll(stats, init)
      case Err(_) =>
      case Ok(ws) =>
        match Resolve(stats, ps[|ps| - 1].0, ps[|ps| - 1].1)
        case Err(_) =>
        case Ok(x) =>
          assert (ws + [x])[..|ws|] == ws;
    }
  }

  /** The winners of a whole run over every outcome of a bracket are the
      winners of the bracket visited once: the enumerator's labels and the
      number of outcomes do not matter. */
  lemma AggregateOverAllOutcomes(stats: map<string, Record>, fighters: seq<string>, ps: seq<Pair>)
    ensures Gather(stats, Traversal(Outcomes(fighters, ps, 0, []))) == Winners(stats, ps)
  {
    var outcomes := Outcomes(fighters, ps, 0, []);
    forall i | 0 <= i < |outcomes| ensures Matchups(outcomes[i]) == ps {
      OutcomeAt(fighters, ps, 0, [], i);
      assert ps[0..] == ps;
      assert Matchups(outcomes[i]) == ps;
    }
    GatherRepeated(stats, outcomes, ps);
    GatherIsWinners(stats, ps);
  }

  /** What the deduplication keeps: no repeats, exactly the values of the
      input, each value placed by where it first occurs. */
  lemma {:induction false} DedupFirstSeen(xs: seq<string>)
    ensures forall i, j :: 0 <= i < j < |Dedup(xs)| ==> FirstIndex(xs, Dedup(xs)[i]) < FirstIndex(xs, Dedup(xs)[j])
  {
    if xs != [] {
      var init := xs[..|xs| - 1];
      var r0 := Dedup(init);
      DedupFirstSeen(init);
      forall x | x in init ensures FirstIndex(xs, x) == FirstIndex(init, x) {
        var k := FirstIndex(init, x);
        assert xs[k] == x;
        var m := FirstIndex(xs, x);
        assert m <= k;
        assert init[m] == xs[m];
      }
      if xs[|xs| - 1] !in r0 {
        var last := xs[|xs| - 1];
        assert last !in init;
        assert FirstIndex(xs, last) == |xs| - 1;
        var r := r0 + [last];
        assert r == Dedup(xs);
        forall i, j | 0 <= i < j < |r| ensures FirstIndex(xs, r[i]) < FirstIndex(xs, r[j]) {
          assert r[i] == r0[i] && r[i] in init;
          assert FirstIndex(xs, r[i]) == FirstIndex(init, r[i]) < |init|;
          if j < |r0| {
            assert r[j] == r0[j] && r[j] in init;
            assert FirstIndex(xs, r[j]) == FirstIndex(init, r[j]);
            assert FirstIndex(init, r0[i]) < FirstIndex(init, r0[j]);
          } else {
            assert r[j] == last;
          }
        }
      }
    }
  }

  /** Without repeats, the deduplication is the identity. */
  lemma {:induction false} DedupNoDuplicates(xs: seq<string>)
    requires NoDuplicates(xs)
    ensures Dedup(xs) == xs
  {
    if xs != [] {
      var init := xs[..|xs| - 1];
      DedupNoDuplicates(init);
      assert xs[|xs| - 1] !in init;
      assert init + [xs[|xs| - 1]] == xs;
    }
  }

  /** The reported winner list has no repeats, at most one name per
      matchup, names exactly the matchups' winners, and lists them in the
      order their first matchup comes in the bracket. */
  lemma WinnerList(stats: map<string, Record>, ps: seq<Pair>)
    requires Winners(stats, ps).Ok?
    ensures var w := Winners(stats, ps).value;
            var ws := ResolveAll(stats, ps).value;
            && NoDuplicates(w)
            && |w| <= |ps|
            && (forall x :: x in w <==> x in ws)
            && (forall i, j :: 0 <= i < j < |w| ==> FirstIndex(ws, w[i]) < FirstIndex(ws, w[j]))
  {
  }

  /** When no fighter is in two matchups, the list holds one winner per
      matchup, in bracket order. */
  lemma OneWinnerPerMatchup(stats: map<string, Record>, roster: seq<string>)
    requires NoDuplicates(roster)
    requires ResolveAll(stats, Pairs(roster)).Ok?
    ensures Winners(stats, Pairs(roster)) == ResolveAll(stats, Pairs(roster))
  {
    var ps := Pairs(roster);
    var ws := ResolveAll(stats, ps).value;
    forall a, b | 0 <= a < b < |ws| ensures ws[a] != ws[b] {
      assert ws[a] == roster[2 * a] || ws[a] == roster[2 * a + 1];
      assert ws[b] == roster[2 * b] || ws[b] == roster[2 * b + 1];
    }
    DedupNoDuplicates(ws);
  }

  /** A failure is the one of the first matchup in bracket order that fails. */
  lemma {:induction false} FirstFailureReported(stats: map<string, Record>, ps: seq<Pair>, j: nat)
    requires j < |ps| && Resolve(stats, ps[j].0, ps[j].1).Err?
    requires forall k :: 0 <= k < j ==> Resolve(stats, ps[k].0, ps[k].1).Ok?
    ensures Winners(stats, ps) == Err(Resolve(stats, ps[j].0, ps[j].1).error)
  {
    var init := ps[..|ps| - 1];
    if j < |ps| - 1 {
      assert init[j] == ps[j];
      forall k | 0 <= k < j ensures init[k] == ps[k] { }
      FirstFailureReported(stats, init, j);
    } else {
      forall k | 0 <= k < |init| ensures init[k] == ps[k] { }
    }
  }

  /** One prediction run over the statistics table: the number of outcomes
      (reported before any resolving) and the winner list or the failure
      that ends the run. */
  method Predict(rows: seq<Row>) returns (total: nat, winners: Result<seq<string>>)
    ensures total == Pow2(|rows| / 2)
    ensures winners == Winners(StatsMap(rows), Pairs(Roster(rows)))
  {
    var roster := Roster(rows);
    var ps := Pairs(roster);
    var stats := BuildStats(rows);
    var outcomes := Outcomes(roster, ps, 0, []);
    total := |outcomes|;
    winners := Aggregate(stats, outcomes);
    AggregateOverAllOutcomes(stats, roster, ps);
  }
}
