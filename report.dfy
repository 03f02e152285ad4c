/**
  The counting part of `analyze_tasks`: one row per assignee, in ascending order of
  the name (the order of a pandas group-by), with the number of tasks received and
  completed. The completion rate is the pair (completed, received) rather than a
  float.
*/
module Report {
  import opened Wrappers
  import opened Reconstruct

  /** The columns of the report, also those of the empty report. */
  const Columns: seq<string> := ["assignee", "tasks_received", "tasks_completed", "completion_rate"]

  datatype Row = Row(assignee: string, received: nat, completed: nat)

  datatype Report = Report(columns: seq<string>, rows: seq<Row>)

  /** The completion rate as a fraction: completed over received. */
  function Rate(row: Row): (nat, nat) {
    (row.completed, row.received)
  }

  /** Python's `<` on strings: lexicographic by code point, a proper prefix comes first. */
  predicate Below(a: string, b: string)
    decreases |a|
  {
    if |a| == 0 then |b| > 0
    else if |b| == 0 then false
    else if a[0] == b[0] then Below(a[1..], b[1..])
    else a[0] < b[0]
  }

  lemma {:induction false} BelowIrreflexive(a: string)
    ensures !Below(a, a)
    decreases |a|
  {
    if |a| > 0 {
      BelowIrreflexive(a[1..]);
    }
  }

  lemma {:induction false} BelowTransitive(a: string, b: string, c: string)
    requires Below(a, b) && Below(b, c)
    ensures Below(a, c)
    decreases |a|
  {
    if |a| > 0 && a[0] == b[0] && b[0] == c[0] {
      BelowTransitive(a[1..], b[1..], c[1..]);
    }
  }

  lemma {:induction false} BelowTotal(a: string, b: string)
    requires a != b
    ensures Below(a, b) || Below(b, a)
    decreases |a|
  {
    if |a| > 0 && |b| > 0 && a[0] == b[0] {
      assert a == [a[0]] + a[1..] && b == [b[0]] + b[1..];
      BelowTotal(a[1..], b[1..]);
    }
  }

  /** The rows are in strictly ascending order of assignee, so no name has two rows. */
  predicate Sorted(rows: seq<Row>) {
    forall i, j :: 0 <= i < j < |rows| ==> Below(rows[i].assignee, rows[j].assignee)
  }

  /** Every row's assignee comes after `name`. */
  predicate Above(name: string, rows: seq<Row>) {
    forall k :: 0 <= k < |rows| ==> Below(name, rows[k].assignee)
  }

  /** The number of tasks assigned to `name`. */
  function Received(tasks: seq<Task>, name: string): nat {
    if |tasks| == 0 then 0
    else if tasks[|tasks| - 1].assignee == name then Received(tasks[..|tasks| - 1], name) + 1
    else Received(tasks[..|tasks| - 1], name)
  }

  /** The number of tasks assigned to `name` whose status is COMPLETED. */
  function CompletedCount(tasks: seq<Task>, name: string): nat {
    if |tasks| == 0 then 0
    else if tasks[|tasks| - 1].assignee == name && tasks[|tasks| - 1].status == COMPLETED then
      CompletedCount(tasks[..|tasks| - 1], name) + 1
    else CompletedCount(tasks[..|tasks| - 1], name)
  }

  /** The row of `name`, if there is one. */
  function Lookup(rows: seq<Row>, name: string): Option<Row> {
    if |rows| == 0 then None
    else if rows[0].assignee == name then Some(rows[0])
    else Lookup(rows[1..], name)
  }

  /** A row counted once more: a new row for a name seen the first time. */
  function Bump(row: Option<Row>, name: string, done: bool): Row {
    var add := if done then 1 else 0;
    match row
    case None => Row(name, 1, add)
    case Some(r) => r.(received := r.received + 1, completed := r.completed + add)
  }

  /** Counts one task of `name` into sorted rows, completed or not. */
  function InsertRow(rows: seq<Row>, name: string, done: bool): seq<Row> {
    if |rows| == 0 then [Bump(None, name, done)]
    else if rows[0].assignee == name then [Bump(Some(rows[0]), name, done)] + rows[1..]
    else if Below(name, rows[0].assignee) then [Bump(None, name, done)] + rows
    else [rows[0]] + InsertRow(rows[1..], name, done)
  }

  /** The group-by: counts every task, one after the other. */
  function Tally(tasks: seq<Task>): seq<Row> {
    if |tasks| == 0 then []
    else
      var t := tasks[|tasks| - 1];
      InsertRow(Tally(tasks[..|tasks| - 1]), t.assignee, t.status == COMPLETED)
  }

  /**
    `analyze_tasks`: the empty report for no tasks, and otherwise the rows of the
    group-by on the assignee, with the missing completed counts as 0.
  */
  function AnalyzeTasks(tasks: seq<Task>): (r: Report)
    ensures r.columns == Columns
    ensures Sorted(r.rows)
    ensures forall k :: 0 <= k < |r.rows| ==>
              r.rows[k] == Row(r.rows[k].assignee, Received(tasks, r.rows[k].assignee),
                               CompletedCount(tasks, r.rows[k].assignee))
    ensures forall t :: t in tasks ==> Lookup(r.rows, t.assignee).Some?
    ensures |r.rows| == 0 <==> |tasks| == 0
  {
    if |tasks| == 0 then
      Report(Columns, [])
    else
      var rows := Tally(tasks);
      TallySorted(tasks);
      forall k | 0 <= k < |rows|
        ensures rows[k] == Row(rows[k].assignee, Received(tasks, rows[k].assignee),
                               CompletedCount(tasks, rows[k].assignee))
      {
        LookupSorted(rows, k);
        TallyLookup(tasks, rows[k].assignee);
      }
      forall t | t in tasks ensures Lookup(rows, t.assignee).Some? {
        ReceivedMember(tasks, t);
        TallyLookup(tasks, t.assignee);
      }
      var last := tasks[|tasks| - 1];
      ReceivedMember(tasks, last);
      TallyLookup(tasks, last.assignee);
      Report(Columns, rows)
  }

  lemma {:induction false} LookupSorted(rows: seq<Row>, k: nat)
    requires Sorted(rows) && k < |rows|
    ensures Lookup(rows, rows[k].assignee) == Some(rows[k])
  {
    if k > 0 {
      assert Below(rows[0].assignee, rows[k].assignee);
      BelowIrreflexive(rows[0].assignee);
      assert rows[1..][k - 1] == rows[k];
      LookupSorted(rows[1..], k - 1);
    }
  }

  lemma {:induction false} LookupAbove(name: string, rows: seq<Row>)
    requires Above(name, rows)
    ensures Lookup(rows, name) == None
  {
    if |rows| > 0 {
      BelowIrreflexive(name);
      LookupAbove(name, rows[1..]);
    }
  }

  /** Every row counted in after `low` stays after it. */
  lemma {:induction false} InsertRowAbove(rows: seq<Row>, name: string, done: bool, low: string)
    requires Above(low, rows) && Below(low, name)
    ensures Above(low, InsertRow(rows, name, done))
  {
    if |rows| > 0 && rows[0].assignee != name && !Below(name, rows[0].assignee) {
      InsertRowAbove(rows[1..], name, done, low);
      assert InsertRow(rows, name, done)[1..] == InsertRow(rows[1..], name, done);
    }
  }

  /** Counting a task keeps the rows sorted. */
  lemma {:induction false} InsertRowSorted(rows: seq<Row>, name: string, done: bool)
    requires Sorted(rows)
    ensures Sorted(InsertRow(rows, name, done))
  {
    var r := InsertRow(rows, name, done);
    if |rows| == 0 {
    } else if rows[0].assignee == name {
      assert r[1..] == rows[1..];
    } else if Below(name, rows[0].assignee) {
      forall k | 1 <= k < |r| ensures Below(name, r[k].assignee) {
        if k > 1 {
          BelowTransitive(name, rows[0].assignee, rows[k - 1].assignee);
        }
      }
    } else {
      var h := rows[0];
      var rest := InsertRow(rows[1..], name, done);
      BelowTotal(name, h.assignee);
      InsertRowSorted(rows[1..], name, done);
      InsertRowAbove(rows[1..], name, done, h.assignee);
      assert r == [h] + rest;
      forall i, j | 0 <= i < j < |r| ensures Below(r[i].assignee, r[j].assignee) {
        if i == 0 {
          assert r[j] == rest[j - 1];
        } else {
          assert r[i] == rest[i - 1] && r[j] == rest[j - 1];
        }
      }
    }
  }

  /** Counting a task changes the row of its assignee and no other. */
  lemma {:induction false} InsertRowLookup(rows: seq<Row>, name: string, done: bool, x: string)
    requires Sorted(rows)
    ensures Lookup(InsertRow(rows, name, done), x) ==
            if x == name then Some(Bump(Lookup(rows, x), name, done)) else Lookup(rows, x)
  {
    if |rows| == 0 {
    } else if rows[0].assignee == name {
      assert InsertRow(rows, name, done)[1..] == rows[1..];
    } else if Below(name, rows[0].assignee) {
      if x == name {
        forall k | 0 <= k < |rows| ensures Below(name, rows[k].assignee) {
          if k > 0 {
            BelowTransitive(name, rows[0].assignee, rows[k].assignee);
          }
        }
        LookupAbove(name, rows);
      }
      assert InsertRow(rows, name, done)[1..] == rows;
    } else {
      InsertRowLookup(rows[1..], name, done, x);
      assert InsertRow(rows, name, done)[1..] == InsertRow(rows[1..], name, done);
    }
  }

  lemma {:induction false} TallySorted(tasks: seq<Task>)
    ensures Sorted(Tally(tasks))
  {
    if |tasks| > 0 {
      var t := tasks[|tasks| - 1];
      var rows := Tally(tasks[..|tasks| - 1]);
      TallySorted(tasks[..|tasks| - 1]);
      InsertRowSorted(rows, t.assignee, t.status == COMPLETED);
    }
  }

  /**
    The report row of a name holds exactly its received and completed counts, and
    there is a row exactly for the names that received a task.
  */
  lemma {:induction false} TallyLookup(tasks: seq<Task>, x: string)
    ensures Lookup(Tally(tasks), x) ==
            if Received(tasks, x) == 0 then None
            else Some(Row(x, Received(tasks, x), CompletedCount(tasks, x)))
  {
    if |tasks| > 0 {
      var t := tasks[|tasks| - 1];
      TallyLookup(tasks[..|tasks| - 1], x);
      CompletedAtMostReceived(tasks[..|tasks| - 1], x);
      TallySorted(tasks[..|tasks| - 1]);
      InsertRowLookup(Tally(tasks[..|tasks| - 1]), t.assignee, t.status == COMPLETED, x);
    }
  }

  lemma {:induction false} ReceivedMember(tasks: seq<Task>, t: Task)
    requires t in tasks
    ensures Received(tasks, t.assignee) >= 1
  {
    var prefix := tasks[..|tasks| - 1];
    if tasks[|tasks| - 1] != t {
      assert tasks == prefix + [tasks[|tasks| - 1]];
      ReceivedMember(prefix, t);
    }
  }

  /** No assignee completed more tasks than they received. */
  lemma {:induction false} CompletedAtMostReceived(tasks: seq<Task>, x: string)
    ensures CompletedCount(tasks, x) <= Received(tasks, x)
  {
    if |tasks| > 0 {
      CompletedAtMostReceived(tasks[..|tasks| - 1], x);
    }
  }

  /**
    Every row has received at least one task and completed at most all of them, so its
    completion rate has a non-zero denominator and lies between 0 and 1.
  */
  lemma RowBounds(tasks: seq<Task>, k: nat)
    requires k < |AnalyzeTasks(tasks).rows|
    ensures 1 <= AnalyzeTasks(tasks).rows[k].received
    ensures AnalyzeTasks(tasks).rows[k].completed <= AnalyzeTasks(tasks).rows[k].received
    ensures Rate(AnalyzeTasks(tasks).rows[k]).1 > 0
    ensures Rate(AnalyzeTasks(tasks).rows[k]).0 <= Rate(AnalyzeTasks(tasks).rows[k]).1
  {
    var rows := AnalyzeTasks(tasks).rows;
    var x := rows[k].assignee;
    LookupSorted(rows, k);
    TallyLookup(tasks, x);
    CompletedAtMostReceived(tasks, x);
  }

  /** Every row is the row of some task's assignee. */
  lemma RowIsAssignee(tasks: seq<Task>, k: nat) returns (t: Task)
    requires k < |AnalyzeTasks(tasks).rows|
    ensures t in tasks && t.assignee == AnalyzeTasks(tasks).rows[k].assignee
  {
    var rows := AnalyzeTasks(tasks).rows;
    RowBounds(tasks, k);
    t := ReceivedWitness(tasks, rows[k].assignee);
  }

  lemma {:induction false} ReceivedWitness(tasks: seq<Task>, x: string) returns (t: Task)
    requires Received(tasks, x) > 0
    ensures t in tasks && t.assignee == x
  {
    var prefix := tasks[..|tasks| - 1];
    if tasks[|tasks| - 1].assignee == x {
      t := tasks[|tasks| - 1];
    } else {
      t := ReceivedWitness(prefix, x);
      assert tasks == prefix + [tasks[|tasks| - 1]];
    }
  }

  /** An assignee with no completed task has a completed count of 0, not a missing one. */
  lemma NoCompletedIsZero(tasks: seq<Task>, k: nat)
    requires k < |AnalyzeTasks(tasks).rows|
    requires forall t :: t in tasks && t.assignee == AnalyzeTasks(tasks).rows[k].assignee ==> t.status != COMPLETED
    ensures AnalyzeTasks(tasks).rows[k].completed == 0
  {
    var x := AnalyzeTasks(tasks).rows[k].assignee;
    NoCompletedCount(tasks, x);
  }

  lemma {:induction false} NoCompletedCount(tasks: seq<Task>, x: string)
    requires forall t :: t in tasks && t.assignee == x ==> t.status != COMPLETED
    ensures CompletedCount(tasks, x) == 0
  {
    if |tasks| > 0 {
      var prefix := tasks[..|tasks| - 1];
      assert forall t :: t in prefix ==> t in tasks;
      NoCompletedCount(prefix, x);
    }
  }

  function SumReceived(rows: seq<Row>): nat {
    if |rows| == 0 then 0 else rows[0].received + SumReceived(rows[1..])
  }

  lemma {:induction false} InsertRowSum(rows: seq<Row>, name: string, done: bool)
    ensures SumReceived(InsertRow(rows, name, done)) == SumReceived(rows) + 1
  {
    if |rows| > 0 && rows[0].assignee != name && !Below(name, rows[0].assignee) {
      InsertRowSum(rows[1..], name, done);
      assert InsertRow(rows, name, done)[1..] == InsertRow(rows[1..], name, done);
    } else if |rows| > 0 {
      assert InsertRow(rows, name, done)[1..] == if rows[0].assignee == name then rows[1..] else rows;
    }
  }

  /** Every task is counted in exactly one row: the received counts add up to the number of tasks. */
  lemma {:induction false} TallySum(tasks: seq<Task>)
    ensures SumReceived(Tally(tasks)) == |tasks|
  {
    if |tasks| > 0 {
      var t := tasks[|tasks| - 1];
      TallySum(tasks[..|tasks| - 1]);
      InsertRowSum(Tally(tasks[..|tasks| - 1]), t.assignee, t.status == COMPLETED);
    }
  }

  lemma ReceivedSum(tasks: seq<Task>)
    ensures SumReceived(AnalyzeTasks(tasks).rows) == |tasks|
  {
    TallySum(tasks);
  }
}
