/** The stored session documents `get_data` reads, what the loop takes from each one
    (main.py:23-30), and reference definitions of what each user is owed. */
module Records {
  import opened Wrappers
  import opened Seqs
  import opened Duration

  /** One stored document as the aggregation sees it; a field the document lacks is None.
      The date and the task names are never read and are left out. */
  datatype Record = Record(username: Option<string>, duration: Option<string>, taskCount: Option<int>)

  /** What one pass of the loop takes from a document: `name`, `mins` and `task_count`. */
  datatype Reading = Reading(name: string, minutes: int, tasks: int)

  /** main.py:24-30: the defaults "Unknown", "0 min" and 0 for missing fields, and the duration
      read by `ParseMinutes`. */
  function Read(r: Record): (d: Reading)
    ensures d.name == if r.username.Some? then r.username.value else "Unknown"
    ensures d.minutes == if r.duration.Some? then ParseMinutes(r.duration.value) else 0
    ensures d.tasks == if r.taskCount.Some? then r.taskCount.value else 0
  {
    DefaultDurationIsZero();
    Reading(r.username.GetOr("Unknown"), ParseMinutes(r.duration.GetOr("0 min")), r.taskCount.GetOr(0))
  }

  /** The readings of a snapshot's documents, in the order the snapshot lists them. */
  function ReadAll(rs: seq<Record>): (ds: seq<Reading>)
    ensures |ds| == |rs|
    ensures forall i :: 0 <= i < |rs| ==> ds[i] == Read(rs[i])
  {
    Map(rs, Read)
  }

  function MinutesOf(d: Reading): int {
    d.minutes
  }

  function TasksOf(d: Reading): int {
    d.tasks
  }

  /** The user name of every reading, in input order. */
  function Names(ds: seq<Reading>): (ns: seq<string>)
    ensures |ns| == |ds|
    ensures forall i :: 0 <= i < |ds| ==> ns[i] == ds[i].name
  {
    if |ds| == 0 then [] else Names(ds[..|ds| - 1]) + [ds[|ds| - 1].name]
  }

  /** The readings of user `n`, in input order. */
  function ReadingsOf(ds: seq<Reading>, n: string): (mine: seq<Reading>)
    ensures forall i :: 0 <= i < |mine| ==> mine[i].name == n
  {
    if |ds| == 0 then []
    else
      var last := ds[|ds| - 1];
      ReadingsOf(ds[..|ds| - 1], n) + (if last.name == n then [last] else [])
  }

  function TotalMinutes(ds: seq<Reading>): int {
    SumBy(ds, MinutesOf)
  }

  function TotalTasks(ds: seq<Reading>): int {
    SumBy(ds, TasksOf)
  }

  /** Minutes over the readings of user `n`. */
  function UserMinutes(ds: seq<Reading>, n: string): int {
    TotalMinutes(ReadingsOf(ds, n))
  }

  /** Task counts over the readings of user `n`. */
  function UserTasks(ds: seq<Reading>, n: string): int {
    TotalTasks(ReadingsOf(ds, n))
  }

  /** Index of the first reading of user `n`. */
  function FirstSeen(ds: seq<Reading>, n: string): nat {
    IndexOf(Names(ds), n)
  }

  /** A user absent from `ds` has no readings there. */
  lemma {:induction false} ReadingsOfAbsent(ds: seq<Reading>, n: string)
    requires n !in Names(ds)
    ensures ReadingsOf(ds, n) == []
  {
    if |ds| > 0 {
      var p := ds[..|ds| - 1];
      assert Names(ds) == Names(p) + [ds[|ds| - 1].name];
      ReadingsOfAbsent(p, n);
    }
  }

  /** One more reading adds its minutes and tasks to its own user and to nobody else. */
  lemma UserSumsStep(ds: seq<Reading>, n: string)
    requires |ds| > 0
    ensures UserMinutes(ds, n)
         == UserMinutes(ds[..|ds| - 1], n) + (if ds[|ds| - 1].name == n then ds[|ds| - 1].minutes else 0)
    ensures UserTasks(ds, n)
         == UserTasks(ds[..|ds| - 1], n) + (if ds[|ds| - 1].name == n then ds[|ds| - 1].tasks else 0)
  {
    var p, x := ds[..|ds| - 1], ds[|ds| - 1];
    if x.name == n {
      SumByAppend(ReadingsOf(p, n), x, MinutesOf);
      SumByAppend(ReadingsOf(p, n), x, TasksOf);
    } else {
      assert ReadingsOf(ds, n) == ReadingsOf(p, n);
    }
  }
}
