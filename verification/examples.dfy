/** The worked example of the leaderboard: two sessions of user A and one of user B. */
module Examples {
  import opened Wrappers
  import opened Seqs
  import opened Text
  import opened Duration
  import opened Records
  import opened Grouping
  import opened Sorting
  import opened Leaderboard

  const first: Record := Record(Some("A"), Some("30 min"), Some(1))
  const second: Record := Record(Some("A"), Some("45 min"), Some(2))
  const third: Record := Record(Some("B"), Some("10 min"), Some(0))

  const readings: seq<Reading> := [Reading("A", 30, 1), Reading("A", 45, 2), Reading("B", 10, 0)]

  lemma MapThree<A, B>(a: A, b: A, c: A, f: A -> B)
    ensures Map([a, b, c], f) == [f(a), f(b), f(c)]
  {
  }

  lemma ParseThirty()
    ensures ParseMinutes("30 min") == 30
  {
    assert NatToString(30) == "30" by {
      assert NatToString(3) == "3";
    }
    assert "30 min" == [] + IntToString(30) + " min";
    ParseMinutesReadsInt([], 30, " min");
  }

  lemma ParseTen()
    ensures ParseMinutes("10 min") == 10
  {
    assert NatToString(10) == "10" by {
      assert NatToString(1) == "1";
    }
    assert "10 min" == [] + IntToString(10) + " min";
    ParseMinutesReadsInt([], 10, " min");
  }

  lemma FormatTen()
    ensures FormatMinutes(10) == "10 min"
  {
    assert NatToString(10) == "10" by {
      assert NatToString(1) == "1";
    }
  }

  lemma ReadFirst()
    ensures Read(first) == readings[0]
  {
    ParseThirty();
  }

  lemma ReadSecond()
    ensures Read(second) == readings[1]
  {
    ParseNumberExample();
  }

  lemma ReadThird()
    ensures Read(third) == readings[2]
  {
    ParseTen();
  }

  /** Each stored document reads as its user, parsed minutes and task count. */
  lemma ReadExample()
    ensures ReadAll([first, second, third]) == readings
  {
    MapThree(first, second, third, Read);
    ReadFirst();
    ReadSecond();
    ReadThird();
  }

  lemma GroupFirstTwo()
    ensures Group(readings[..2]) == [Stat("A", 75, 3)]
  {
    var one := readings[..1];
    assert one[..0] == [];
    assert Group(one) == [Stat("A", 30, 1)];
    assert readings[..2][..1] == one;
  }

  lemma AccumulateNewUser()
    ensures Accumulate([Stat("A", 75, 3)], Reading("B", 10, 0)) == [Stat("A", 75, 3), Stat("B", 10, 0)]
  {
    assert Keys([Stat("A", 75, 3)]) == ["A"];
    assert "B" != "A";
  }

  /** A's two sessions merge into one entry; B starts a second one. */
  lemma GroupExample()
    ensures Group(readings) == [Stat("A", 75, 3), Stat("B", 10, 0)]
  {
    GroupFirstTwo();
    AccumulateNewUser();
    assert readings[..|readings| - 1] == readings[..2];
    assert Group(readings) == Accumulate(Group(readings[..2]), readings[2]);
  }

  /** Already in descending order, the entries stay as they are. */
  lemma SortExample(a: Entry, b: Entry)
    requires a.mins >= b.mins
    ensures Sort([a, b], Mins) == [a, b]
  {
    assert [a, b][1..] == [b];
    assert [b][1..] == [];
  }

  lemma EntryOfA()
    ensures ToEntry(Stat("A", 75, 3)) == Entry("A", "1h 15m", 75, 3)
  {
    FormatHourExample();
  }

  lemma EntryOfB()
    ensures ToEntry(Stat("B", 10, 0)) == Entry("B", "10 min", 10, 0)
  {
    FormatTen();
  }

  lemma EntriesExample()
    ensures Entries([Stat("A", 75, 3), Stat("B", 10, 0)])
         == [Entry("A", "1h 15m", 75, 3), Entry("B", "10 min", 10, 0)]
  {
    EntriesOfTwo(Stat("A", 75, 3), Stat("B", 10, 0));
    EntryOfA();
    EntryOfB();
  }

  lemma EntriesOfTwo(a: Stat, b: Stat)
    ensures Entries([a, b]) == [ToEntry(a), ToEntry(b)]
  {
  }

  lemma AggregateExample()
    ensures Aggregate(readings) == [Entry("A", "1h 15m", 75, 3), Entry("B", "10 min", 10, 0)]
  {
    GroupExample();
    EntriesExample();
    SortExample(Entry("A", "1h 15m", 75, 3), Entry("B", "10 min", 10, 0));
  }

  /** The leaderboard for the example: A with 75 minutes and 3 tasks shown as "1h 15m",
      then B with 10 minutes and no tasks shown as "10 min". */
  lemma GetDataExample()
    ensures GetData(Some([first, second, third]))
         == [Entry("A", "1h 15m", 75, 3), Entry("B", "10 min", 10, 0)]
  {
    ReadExample();
    AggregateExample();
  }
}
