/** The board `get_data` returns (main.py:15-68): one entry per user with its formatted time,
    sorted by total minutes from high to low. */
module Leaderboard {
  import opened Wrappers
  import opened Seqs
  import opened Duration
  import opened Records
  import opened Grouping
  import opened Sorting

  /** One row of the board, the dictionary built at main.py:56-61. */
  datatype Entry = Entry(name: string, time: string, mins: int, tasks: int)

  function Mins(e: Entry): int {
    e.mins
  }

  function Tasks(e: Entry): int {
    e.tasks
  }

  function Name(e: Entry): string {
    e.name
  }

  /** main.py:48-61: an entry keeps its user's totals and shows the minutes as the display
      text, which reads back as the total. */
  function ToEntry(s: Stat): (e: Entry)
    ensures e.name == s.name && e.mins == s.minutes && e.tasks == s.tasks
    ensures e.time == FormatMinutes(s.minutes)
    ensures ReadDisplay(e.time) == Some(if s.minutes >= 0 then s.minutes else s.minutes % 60)
  {
    FormatReadBack(s.minutes);
    Entry(s.name, FormatMinutes(s.minutes), s.minutes, s.tasks)
  }

  /** `final_list` before sorting: one entry per value of `user_stats`, in the same order and
      with the same totals, each row built as `ToEntry` builds it. */
  function Entries(g: seq<Stat>): (es: seq<Entry>)
    ensures |es| == |g|
    ensures forall i :: 0 <= i < |g| ==> es[i] == ToEntry(g[i])
    ensures BoardNames(es) == Keys(g)
    ensures forall i :: 0 <= i < |g| ==> es[i].mins == g[i].minutes && es[i].tasks == g[i].tasks
  {
    var es := seq(|g|, i requires 0 <= i < |g| => ToEntry(g[i]));
    assert BoardNames(es) == Keys(g);
    es
  }

  function BoardNames(board: seq<Entry>): seq<string> {
    seq(|board|, i requires 0 <= i < |board| => board[i].name)
  }

  /** The three steps of main.py:21-64 on the readings of the snapshot: group by user, build
      the entries, sort them by minutes from high to low. */
  function Aggregate(ds: seq<Reading>): (board: seq<Entry>)
    ensures |board| <= |ds|
    ensures |board| == 0 <==> |ds| == 0
    ensures Descending(board, Mins)
  {
    Sort(Entries(Group(ds)), Mins)
  }

  /** main.py:17-18 and 21-64: a missing or empty snapshot gives an empty board; otherwise
      each stored document is read and the readings are aggregated. */
  function GetData(snapshot: Option<seq<Record>>): (board: seq<Entry>)
    ensures board == [] <==> snapshot.None? || snapshot.value == []
    ensures snapshot.Some? ==> |board| <= |snapshot.value|
  {
    match snapshot
    case None => []
    case Some(rs) => if rs == [] then [] else Aggregate(ReadAll(rs))
  }

  /** The names of a rearranged board are the names of the original. */
  lemma PermutedNames(a: seq<Entry>, b: seq<Entry>, n: string)
    requires multiset(a) == multiset(b)
    requires n in BoardNames(a)
    ensures n in BoardNames(b)
  {
    var i :| 0 <= i < |a| && BoardNames(a)[i] == n;
    assert a[i] in multiset(b);
    var k :| 0 <= k < |b| && b[k] == a[i];
    assert BoardNames(b)[k] == n;
  }

  /** Building the entries keeps one entry per distinct user. */
  lemma EntriesDistinct(g: seq<Stat>)
    requires Distinct(Keys(g))
    ensures DistinctBy(Entries(g), Name)
  {
    var es := Entries(g);
    forall i, j | 0 <= i < j < |es|
      ensures Name(es[i]) != Name(es[j])
    {
      assert Name(es[i]) == Keys(g)[i] && Name(es[j]) == Keys(g)[j];
    }
  }

  lemma DistinctNames(b: seq<Entry>)
    requires DistinctBy(b, Name)
    ensures Distinct(BoardNames(b))
  {
    assert forall i :: 0 <= i < |b| ==> BoardNames(b)[i] == Name(b[i]);
  }

  /** Two boards with the same rows name the same users. */
  lemma SameNames(a: seq<Entry>, b: seq<Entry>)
    requires multiset(a) == multiset(b)
    ensures forall n :: n in BoardNames(a) <==> n in BoardNames(b)
  {
    forall n
      ensures n in BoardNames(a) <==> n in BoardNames(b)
    {
      if n in BoardNames(a) {
        PermutedNames(a, b, n);
      }
      if n in BoardNames(b) {
        PermutedNames(b, a, n);
      }
    }
  }

  /** Exactly the users seen in the readings are on the board, each once. */
  lemma AggregateUsers(ds: seq<Reading>)
    ensures Distinct(BoardNames(Aggregate(ds)))
    ensures forall n :: n in BoardNames(Aggregate(ds)) <==> n in Names(ds)
  {
    var g := Group(ds);
    var es := Entries(g);
    EntriesDistinct(g);
    SortDistinctBy(es, Mins, Name);
    DistinctNames(Aggregate(ds));
    SameNames(Aggregate(ds), es);
  }

  /** Each entry carries its user's summed minutes and tasks, and shows those minutes as
      `FormatMinutes` writes them. */
  lemma AggregateTotals(ds: seq<Reading>)
    ensures forall e :: e in Aggregate(ds) ==>
      e.mins == UserMinutes(ds, e.name) && e.tasks == UserTasks(ds, e.name) && e.time == FormatMinutes(e.mins)
  {
    var g := Group(ds);
    var es := Entries(g);
    var owed := (e: Entry) => e.mins == UserMinutes(ds, e.name) && e.tasks == UserTasks(ds, e.name)
                              && e.time == FormatMinutes(e.mins);
    GroupTotals(ds);
    assert All(es, owed);
    SortAll(es, Mins, owed);
  }

  lemma EntriesSums(g: seq<Stat>)
    ensures SumBy(Entries(g), Mins) == SumBy(g, StatMinutes)
    ensures SumBy(Entries(g), Tasks) == SumBy(g, StatTasks)
  {
    var es := Entries(g);
    assert forall i :: 0 <= i < |es| ==> Mins(es[i]) == StatMinutes(g[i]) && Tasks(es[i]) == StatTasks(g[i]);
    SumByPointwise(es, g, Mins, StatMinutes);
    SumByPointwise(es, g, Tasks, StatTasks);
  }

  /** The board accounts for every minute and every task in the readings. */
  lemma AggregateConserves(ds: seq<Reading>)
    ensures SumBy(Aggregate(ds), Mins) == TotalMinutes(ds)
    ensures SumBy(Aggregate(ds), Tasks) == TotalTasks(ds)
  {
    var es := Entries(Group(ds));
    GroupConserves(ds);
    EntriesSums(Group(ds));
    SortPreservesSum(es, Mins, Mins);
    SortPreservesSum(es, Mins, Tasks);
  }

  /** Python's sort is stable: users with equal minutes stay in the order they were first seen. */
  lemma AggregateTies(ds: seq<Reading>)
    ensures forall i, j :: 0 <= i < j < |Aggregate(ds)| && Aggregate(ds)[i].mins == Aggregate(ds)[j].mins ==>
      FirstSeen(ds, Aggregate(ds)[i].name) < FirstSeen(ds, Aggregate(ds)[j].name)
  {
    var g := Group(ds);
    var es := Entries(g);
    var rank := (e: Entry) => FirstSeen(ds, e.name);
    GroupOrder(ds);
    assert Increasing(es, rank);
    SortRanked(es, Mins, rank);
    var board := Aggregate(ds);
    assert forall i, j :: 0 <= i < j < |board| ==> Before(board[i], board[j], Mins, rank);
  }
}
