/** The first loop of `get_data` (main.py:21-42): per-user running totals, kept in the order in
    which users first appear, as Python's dict keeps insertion order. */
module Grouping {
  import opened Seqs
  import opened Records

  /** One value of `user_stats`: the name and the totals gathered so far. */
  datatype Stat = Stat(name: string, minutes: int, tasks: int)

  function Keys(g: seq<Stat>): seq<string> {
    seq(|g|, i requires 0 <= i < |g| => g[i].name)
  }

  function StatMinutes(s: Stat): int {
    s.minutes
  }

  function StatTasks(s: Stat): int {
    s.tasks
  }

  /** One pass of the loop body: start a zero entry for a new user, then add the record's
      minutes and task count to that user's entry. With distinct keys, as a dictionary has, the
      user's own entry gains the reading and every other entry stays as it was. */
  function Accumulate(g: seq<Stat>, r: Reading): (g': seq<Stat>)
    ensures Keys(g') == if r.name in Keys(g) then Keys(g) else Keys(g) + [r.name]
    ensures Distinct(Keys(g)) ==> forall k :: 0 <= k < |g| ==>
      g'[k] == if g[k].name == r.name then Stat(r.name, g[k].minutes + r.minutes, g[k].tasks + r.tasks) else g[k]
    ensures r.name !in Keys(g) ==> g'[|g|] == Stat(r.name, r.minutes, r.tasks)
  {
    var n := r.name;
    var i := IndexOf(Keys(g), n);
    if i < |g| then
      var g' := g[i := Stat(n, g[i].minutes + r.minutes, g[i].tasks + r.tasks)];
      assert Keys(g') == Keys(g);
      assert Distinct(Keys(g)) ==> forall k :: 0 <= k < |g| && k != i ==> g[k].name != n by {
        if Distinct(Keys(g)) {
          forall k | 0 <= k < |g| && k != i
            ensures g[k].name != n
          {
            assert Keys(g)[k] == g[k].name && Keys(g)[i] == n;
          }
        }
      }
      g'
    else
      var g' := g + [Stat(n, r.minutes, r.tasks)];
      assert Keys(g') == Keys(g) + [n];
      assert forall k :: 0 <= k < |g| ==> g[k].name != n by {
        forall k | 0 <= k < |g|
          ensures g[k].name != n
        {
          assert Keys(g)[k] == g[k].name;
        }
      }
      g'
  }

  /** `user_stats` after the loop has gone through all of `ds`. It holds one entry per user
      that occurs in `ds` and no other. */
  function Group(ds: seq<Reading>): (g: seq<Stat>)
    ensures Distinct(Keys(g))
    ensures forall n :: n in Keys(g) <==> n in Names(ds)
    ensures |g| <= |ds|
    ensures |ds| > 0 ==> |g| > 0
  {
    if |ds| == 0 then []
    else
      var p, x := ds[..|ds| - 1], ds[|ds| - 1];
      var g := Accumulate(Group(p), x);
      assert Names(ds) == Names(p) + [x.name];
      g
  }

  /** Each entry's totals are the sums over exactly that user's readings. */
  lemma {:induction false} GroupTotals(ds: seq<Reading>)
    ensures forall i :: 0 <= i < |Group(ds)| ==>
      Group(ds)[i].minutes == UserMinutes(ds, Group(ds)[i].name)
      && Group(ds)[i].tasks == UserTasks(ds, Group(ds)[i].name)
  {
    if |ds| > 0 {
      var p, x := ds[..|ds| - 1], ds[|ds| - 1];
      var n := x.name;
      var gp := Group(p);
      var g := Group(ds);
      GroupTotals(p);
      forall i | 0 <= i < |g|
        ensures g[i].minutes == UserMinutes(ds, g[i].name) && g[i].tasks == UserTasks(ds, g[i].name)
      {
        UserSumsStep(ds, g[i].name);
        if i < |gp| {
          assert Keys(gp)[i] == gp[i].name;
        }
        if n !in Keys(gp) && i == |gp| {
          ReadingsOfAbsent(p, n);
        }
      }
    }
  }

  /** One pass of the loop adds the reading's minutes and tasks to the sums over all entries. */
  lemma AccumulateSums(g: seq<Stat>, x: Reading)
    ensures SumBy(Accumulate(g, x), StatMinutes) == SumBy(g, StatMinutes) + x.minutes
    ensures SumBy(Accumulate(g, x), StatTasks) == SumBy(g, StatTasks) + x.tasks
  {
    var i := IndexOf(Keys(g), x.name);
    if i < |g| {
      var s := Stat(x.name, g[i].minutes + x.minutes, g[i].tasks + x.tasks);
      SumByUpdate(g, i, s, StatMinutes);
      SumByUpdate(g, i, s, StatTasks);
    } else {
      var s := Stat(x.name, x.minutes, x.tasks);
      SumByAppend(g, s, StatMinutes);
      SumByAppend(g, s, StatTasks);
    }
  }

  /** Every reading's minutes and tasks land in exactly one entry: the totals are conserved. */
  lemma {:induction false} GroupConserves(ds: seq<Reading>)
    ensures SumBy(Group(ds), StatMinutes) == TotalMinutes(ds)
    ensures SumBy(Group(ds), StatTasks) == TotalTasks(ds)
  {
    if |ds| > 0 {
      var p, x := ds[..|ds| - 1], ds[|ds| - 1];
      assert Group(ds) == Accumulate(Group(p), x);
      assert TotalMinutes(ds) == TotalMinutes(p) + x.minutes && TotalTasks(ds) == TotalTasks(p) + x.tasks;
      GroupConserves(p);
      AccumulateSums(Group(p), x);
    }
  }

  /** Entries are in the order their users first appear in `ds`. */
  lemma {:induction false} GroupOrder(ds: seq<Reading>)
    ensures forall i, j :: 0 <= i < j < |Group(ds)| ==>
      FirstSeen(ds, Group(ds)[i].name) < FirstSeen(ds, Group(ds)[j].name)
  {
    if |ds| > 0 {
      var p := ds[..|ds| - 1];
      GroupOrder(p);
      GroupOrderStep(ds, Group(p), Group(ds));
    }
  }

  /** One pass keeps the first-seen order: the known keys stay put and a new one goes last. */
  lemma GroupOrderStep(ds: seq<Reading>, gp: seq<Stat>, g: seq<Stat>)
    requires |ds| > 0
    requires forall i, j :: 0 <= i < j < |gp| ==>
      FirstSeen(ds[..|ds| - 1], gp[i].name) < FirstSeen(ds[..|ds| - 1], gp[j].name)
    requires forall m :: m in Keys(gp) <==> m in Names(ds[..|ds| - 1])
    requires Keys(g) == if ds[|ds| - 1].name in Keys(gp) then Keys(gp) else Keys(gp) + [ds[|ds| - 1].name]
    ensures forall i, j :: 0 <= i < j < |g| ==> FirstSeen(ds, g[i].name) < FirstSeen(ds, g[j].name)
  {
    var p, n := ds[..|ds| - 1], ds[|ds| - 1].name;
    assert Names(ds) == Names(p) + [n];
    forall m | m in Keys(gp)
      ensures FirstSeen(ds, m) == FirstSeen(p, m) < |p|
    {
      IndexOfAppend(Names(p), n, m);
    }
    forall i, j | 0 <= i < j < |g|
      ensures FirstSeen(ds, g[i].name) < FirstSeen(ds, g[j].name)
    {
      assert Keys(g)[i] == g[i].name && Keys(g)[j] == g[j].name;
      assert Keys(gp)[i] == g[i].name && Keys(gp)[i] == gp[i].name;
      if j < |gp| {
        assert Keys(gp)[j] == g[j].name && Keys(gp)[j] == gp[j].name;
      } else {
        IndexOfAppend(Names(p), n, n);
      }
    }
  }
}
