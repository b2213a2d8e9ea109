/** The statistics table: one row per scraped fighter, and the name-keyed
    lookup built from it. */
module Stats {

  /** The "Str. Acc." cell once read as a number: the percentage it states
      (for "45.5%" that is 45.5), or a cell that does not read as one. */
  datatype Accuracy = Percent(value: real) | Unparseable

  /** One row of the table: the fighter's name, significant strikes landed
      per minute, and striking accuracy. */
  datatype Row = Row(name: string, slpm: real, strAcc: Accuracy)

  /** What the lookup keeps for a fighter. */
  datatype Record = Record(slpm: real, strAcc: Accuracy)

  /** The "Name" column, in table order. */
  function Roster(rows: seq<Row>): seq<string>
  {
    seq(|rows|, i requires 0 <= i < |rows| => rows[i].name)
  }

  function RecordOf(row: Row): Record
  {
    Record(row.slpm, row.strAcc)
  }

  /** Row i is the last row of the table with its name. */
  ghost predicate LastWithName(rows: seq<Row>, i: nat)
    requires i < |rows|
  {
    forall j :: i < j < |rows| ==> rows[j].name != rows[i].name
  }

  /** The lookup after storing the rows in table order. */
  function StatsMap(rows: seq<Row>): map<string, Record>
  {
    if rows == [] then map[]
    else
      var last := rows[|rows| - 1];
      StatsMap(rows[..|rows| - 1])[last.name := RecordOf(last)]
  }

  /** The lookup has exactly one key per name of the table. */
  lemma {:induction false} StatsMapKeys(rows: seq<Row>)
    ensures StatsMap(rows).Keys == set i | 0 <= i < |rows| :: rows[i].name
  {
    if rows != [] {
      var init := rows[..|rows| - 1];
      StatsMapKeys(init);
      var before := set i | 0 <= i < |init| :: init[i].name;
      var after := set i | 0 <= i < |rows| :: rows[i].name;
      assert after == before + {rows[|rows| - 1].name} by {
        forall x | x in after ensures x in before + {rows[|rows| - 1].name} {
          var i :| 0 <= i < |rows| && rows[i].name == x;
          if i < |init| { assert init[i].name == x; }
        }
        forall x | x in before ensures x in after {
          var i :| 0 <= i < |init| && init[i].name == x;
          assert rows[i].name == x;
        }
      }
    }
  }

  /** A repeated name keeps the record of its last row: the row stored last
      overwrites the earlier ones. */
  lemma {:induction false} StatsMapLastWins(rows: seq<Row>, i: nat)
    requires i < |rows| && LastWithName(rows, i)
    ensures rows[i].name in StatsMap(rows) && StatsMap(rows)[rows[i].name] == RecordOf(rows[i])
  {
    var init := rows[..|rows| - 1];
    if i < |rows| - 1 {
      assert rows[|rows| - 1].name != rows[i].name;
      assert LastWithName(init, i) by {
        forall j | i < j < |init| ensures init[j].name != init[i].name {
          assert init[j] == rows[j];
        }
      }
      StatsMapLastWins(init, i);
    }
  }

  /** Builds the lookup by storing each row under its name, in table order. */
  method BuildStats(rows: seq<Row>) returns (m: map<string, Record>)
    ensures m == StatsMap(rows)
  {
    m := map[];
    for i := 0 to |rows|
      invariant m == StatsMap(rows[..i])
    {
      assert rows[..i + 1][..i] == rows[..i];
      m := m[rows[i].name := RecordOf(rows[i])];
    }
    assert rows[..|rows|] == rows;
  }
}
