/** The outcome enumerator: every way of giving each matchup of the bracket
    one of its two fighters as winner, depth first, fighter1 first. */
module Enumerator {
  import opened Bracket

  function Pow2(n: nat): (r: nat)
    ensures r >= 1
  {
    if n == 0 then 1 else 2 * Pow2(n - 1)
  }

  /** The pool handed to the next level: every fighter except `winner`. */
  function Without(pool: seq<string>, winner: string): (r: seq<string>)
    ensures forall x :: x in r <==> x in pool && x != winner
  {
    if pool == [] then []
    else (if pool[0] == winner then [] else [pool[0]]) + Without(pool[1..], winner)
  }

  /** All outcomes that extend `current`, once the first `depth` matchups
      are decided. The winner of the next matchup is fighter1 in the first
      half of the result and fighter2 in the second. */
  function Outcomes(fighters: seq<string>, matchups: seq<Pair>, depth: nat, current: Outcome): (r: seq<Outcome>)
    requires depth <= |matchups|
    ensures |r| == Pow2(|matchups| - depth)
    decreases |matchups| - depth
  {
    if depth == |matchups| then [current]
    else
      var (fighter1, fighter2) := matchups[depth];
      Outcomes(Without(fighters, fighter1), matchups, depth + 1, current + [(fighter1, fighter2, fighter1)])
      + Outcomes(Without(fighters, fighter2), matchups, depth + 1, current + [(fighter1, fighter2, fighter2)])
  }

  /** The entry that decides matchup `p` for fighter2 when `second` holds,
      and for fighter1 otherwise. */
  function Pick(p: Pair, second: bool): Entry
  {
    (p.0, p.1, if second then p.1 else p.0)
  }

  /** The outcome that decides matchup k by choice k. */
  function Decide(matchups: seq<Pair>, choices: seq<bool>): Outcome
    requires |choices| == |matchups|
  {
    seq(|matchups|, k requires 0 <= k < |matchups| => Pick(matchups[k], choices[k]))
  }

  /** The `width` binary digits of `i`, most significant first; true is 1. */
  function Binary(i: nat, width: nat): (bits: seq<bool>)
    requires i < Pow2(width)
    ensures |bits| == width
  {
    if width == 0 then []
    else if i < Pow2(width - 1) then [false] + Binary(i, width - 1)
    else [true] + Binary(i - Pow2(width - 1), width - 1)
  }

  /** The number that binary digits denote, most significant first. */
  function Value(bits: seq<bool>): nat
  {
    if bits == [] then 0 else (if bits[0] then Pow2(|bits| - 1) else 0) + Value(bits[1..])
  }

  /** `a` comes strictly before `b` in lexicographic order, false before true. */
  predicate LexLess(a: seq<bool>, b: seq<bool>)
  {
    |a| > 0 && |b| > 0 && ((!a[0] && b[0]) || (a[0] == b[0] && LexLess(a[1..], b[1..])))
  }

  lemma {:induction false} ValueBound(bits: seq<bool>)
    ensures Value(bits) < Pow2(|bits|)
  {
    if bits != [] {
      ValueBound(bits[1..]);
    }
  }

  /** Binary and Value are inverse: the digits of i denote i. */
  lemma {:induction false} ValueOfBinary(i: nat, width: nat)
    requires i < Pow2(width)
    ensures Value(Binary(i, width)) == i
  {
    if width > 0 {
      var h := Pow2(width - 1);
      var bits := Binary(i, width);
      if i < h {
        assert bits[1..] == Binary(i, width - 1);
        ValueOfBinary(i, width - 1);
      } else {
        assert bits[1..] == Binary(i - h, width - 1);
        ValueOfBinary(i - h, width - 1);
      }
    }
  }

  /** Binary and Value are inverse: every digit string is the digits of
      the number it denotes. */
  lemma {:induction false} BinaryOfValue(bits: seq<bool>)
    ensures Value(bits) < Pow2(|bits|) && Binary(Value(bits), |bits|) == bits
  {
    ValueBound(bits);
    if bits != [] {
      var rest := bits[1..];
      BinaryOfValue(rest);
      if bits[0] {
        assert Binary(Value(bits), |bits|) == [true] + Binary(Value(rest), |rest|);
      } else {
        assert Binary(Value(bits), |bits|) == [false] + Binary(Value(rest), |rest|);
      }
      assert bits == [bits[0]] + rest;
    }
  }

  /** The digits of 0 are all false. */
  lemma {:induction false} BinaryOfZero(width: nat)
    ensures Binary(0, width) == seq(width, _ => false)
  {
    if width > 0 {
      BinaryOfZero(width - 1);
      assert Binary(0, width) == [false] + Binary(0, width - 1);
    }
  }

  /** The digits of the largest number of the width are all true. */
  lemma {:induction false} BinaryOfMax(width: nat)
    ensures Binary(Pow2(width) - 1, width) == seq(width, _ => true)
  {
    if width > 0 {
      BinaryOfMax(width - 1);
      assert Binary(Pow2(width) - 1, width) == [true] + Binary(Pow2(width - 1) - 1, width - 1);
    }
  }

  /** Counting up visits digit strings in increasing lexicographic order. */
  lemma {:induction false} BinaryIncreases(i: nat, j: nat, width: nat)
    requires i < j < Pow2(width)
    ensures LexLess(Binary(i, width), Binary(j, width))
  {
    var h := Pow2(width - 1);
    var a, b := Binary(i, width), Binary(j, width);
    if j < h {
      BinaryIncreases(i, j, width - 1);
      assert a[1..] == Binary(i, width - 1) && b[1..] == Binary(j, width - 1);
    } else if h <= i {
      BinaryIncreases(i - h, j - h, width - 1);
      assert a[1..] == Binary(i - h, width - 1) && b[1..] == Binary(j - h, width - 1);
    }
  }

  /** Deciding one more matchup in front of the rest. */
  lemma ExtendDecide(current: Outcome, matchups: seq<Pair>, depth: nat, c: bool, choices: seq<bool>)
    requires depth < |matchups| && |choices| == |matchups| - depth - 1
    ensures (current + [Pick(matchups[depth], c)]) + Decide(matchups[depth + 1..], choices)
            == current + Decide(matchups[depth..], [c] + choices)
  {
    var rest := matchups[depth..];
    assert rest[1..] == matchups[depth + 1..];
    assert Decide(rest, [c] + choices) == [Pick(rest[0], c)] + Decide(rest[1..], choices);
  }

  /** The first half of the outcomes gives the next matchup to fighter1,
      the second half to fighter2. */
  lemma OutcomesHalves(fighters: seq<string>, matchups: seq<Pair>, depth: nat, current: Outcome, i: nat)
    requires depth < |matchups| && i < Pow2(|matchups| - depth)
    ensures var p := matchups[depth];
            var h := Pow2(|matchups| - depth - 1);
            Outcomes(fighters, matchups, depth, current)[i]
            == if i < h then Outcomes(Without(fighters, p.0), matchups, depth + 1, current + [Pick(p, false)])[i]
               else Outcomes(Without(fighters, p.1), matchups, depth + 1, current + [Pick(p, true)])[i - h]
  {
  }

  /** Outcome i extends `current` by deciding the remaining matchups by the
      binary digits of i: the enumeration counts in binary, with the
      earliest matchup as the most significant digit and fighter2 as 1. */
  lemma {:induction false} OutcomeAt(fighters: seq<string>, matchups: seq<Pair>, depth: nat, current: Outcome, i: nat)
    requires depth <= |matchups| && i < Pow2(|matchups| - depth)
    ensures Outcomes(fighters, matchups, depth, current)[i]
            == current + Decide(matchups[depth..], Binary(i, |matchups| - depth))
    decreases |matchups| - depth
  {
    var n := |matchups| - depth;
    if n == 0 {
      assert Decide(matchups[depth..], Binary(i, n)) == [];
    } else {
      var p := matchups[depth];
      var h := Pow2(n - 1);
      OutcomesHalves(fighters, matchups, depth, current, i);
      if i < h {
        var bits := Binary(i, n - 1);
        assert Binary(i, n) == [false] + bits;
        OutcomeAt(Without(fighters, p.0), matchups, depth + 1, current + [Pick(p, false)], i);
        ExtendDecide(current, matchups, depth, false, bits);
      } else {
        var bits := Binary(i - h, n - 1);
        assert Binary(i, n) == [true] + bits;
        OutcomeAt(Without(fighters, p.1), matchups, depth + 1, current + [Pick(p, true)], i - h);
        ExtendDecide(current, matchups, depth, true, bits);
      }
    }
  }

  /** Every outcome has one entry per matchup after the kept prefix
      `current`, and each such entry names its matchup's two fighters and
      one of them as winner: entry |current| + t decides matchup depth + t. */
  lemma OutcomeShape(fighters: seq<string>, matchups: seq<Pair>, depth: nat, current: Outcome, i: nat)
    requires depth <= |matchups| && i < |Outcomes(fighters, matchups, depth, current)|
    ensures var o := Outcomes(fighters, matchups, depth, current)[i];
            && |o| == |current| + |matchups| - depth
            && o[..|current|] == current
            && forall k :: |current| <= k < |o| ==>
                 var p := matchups[depth + k - |current|];
                 o[k].0 == p.0 && o[k].1 == p.1 && (o[k].2 == p.0 || o[k].2 == p.1)
  {
    OutcomeAt(fighters, matchups, depth, current, i);
  }

  /** Every way of deciding the remaining matchups is enumerated, at the
      position whose binary digits are the choices. */
  lemma EveryChoiceEnumerated(fighters: seq<string>, matchups: seq<Pair>, depth: nat, current: Outcome, choices: seq<bool>)
    requires depth <= |matchups| && |choices| == |matchups| - depth
    ensures var r := Outcomes(fighters, matchups, depth, current);
            Value(choices) < |r| && r[Value(choices)] == current + Decide(matchups[depth..], choices)
  {
    BinaryOfValue(choices);
    OutcomeAt(fighters, matchups, depth, current, Value(choices));
  }

  /** Outcomes come out in lexicographic order of their choices. */
  lemma OutcomesInOrder(fighters: seq<string>, matchups: seq<Pair>, depth: nat, current: Outcome, i: nat, j: nat)
    requires depth <= |matchups| && i < j < |Outcomes(fighters, matchups, depth, current)|
    ensures var r := Outcomes(fighters, matchups, depth, current);
            var n := |matchups| - depth;
            && r[i] == current + Decide(matchups[depth..], Binary(i, n))
            && r[j] == current + Decide(matchups[depth..], Binary(j, n))
            && LexLess(Binary(i, n), Binary(j, n))
  {
    OutcomeAt(fighters, matchups, depth, current, i);
    OutcomeAt(fighters, matchups, depth, current, j);
    BinaryIncreases(i, j, |matchups| - depth);
  }

  /** The first outcome gives every remaining matchup to fighter1. */
  lemma FirstOutcome(fighters: seq<string>, matchups: seq<Pair>, depth: nat, current: Outcome)
    requires depth <= |matchups|
    ensures Outcomes(fighters, matchups, depth, current)[0]
            == current + Decide(matchups[depth..], seq(|matchups| - depth, _ => false))
  {
    OutcomeAt(fighters, matchups, depth, current, 0);
    BinaryOfZero(|matchups| - depth);
  }

  /** The last outcome gives every remaining matchup to fighter2. */
  lemma LastOutcome(fighters: seq<string>, matchups: seq<Pair>, depth: nat, current: Outcome)
    requires depth <= |matchups|
    ensures var r := Outcomes(fighters, matchups, depth, current);
            r[|r| - 1] == current + Decide(matchups[depth..], seq(|matchups| - depth, _ => true))
  {
    OutcomeAt(fighters, matchups, depth, current, Pow2(|matchups| - depth) - 1);
    BinaryOfMax(|matchups| - depth);
  }

  /** Once every matchup is decided, the one outcome is `current`; so an
      empty bracket yields the single empty outcome. */
  lemma BaseCase(fighters: seq<string>, matchups: seq<Pair>, current: Outcome)
    ensures Outcomes(fighters, matchups, |matchups|, current) == [current]
    ensures Outcomes(fighters, [], 0, []) == [[]]
  {
  }

  /** The pool of fighters is handed down but never consulted: any two pools
      give the same outcomes. */
  lemma {:induction false} PoolIrrelevant(pool1: seq<string>, pool2: seq<string>, matchups: seq<Pair>, depth: nat, current: Outcome)
    requires depth <= |matchups|
    ensures Outcomes(pool1, matchups, depth, current) == Outcomes(pool2, matchups, depth, current)
    decreases |matchups| - depth
  {
    if depth < |matchups| {
      var (fighter1, fighter2) := matchups[depth];
      PoolIrrelevant(Without(pool1, fighter1), Without(pool2, fighter1), matchups, depth + 1, current + [(fighter1, fighter2, fighter1)]);
      PoolIrrelevant(Without(pool1, fighter2), Without(pool2, fighter2), matchups, depth + 1, current + [(fighter1, fighter2, fighter2)]);
    }
  }
}
