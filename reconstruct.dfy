/**
  `get_tasks`: one pass over the messages of a space that appends a record per
  "Created" notification and collects the ids of the other events in sets, then one
  pass over the records that removes deleted ones, applies reassignments and sets
  the final status.
*/
module Reconstruct {
  import opened Wrappers
  import opened Text
  import opened Events

  /** The two values the `status` field takes. */
  datatype Status = OPEN | COMPLETED

  /** A task record: the dict with keys id, assignee, status, created_time, space_name. */
  datatype Task = Task(id: string, assignee: string, status: Status, createdTime: string, spaceName: string)

  /** The exception raised for a notification whose thread name holds no task id. */
  datatype Error = MalformedThread(threadName: string)

  /** What the first pass leaves behind: the record list and the four sets. */
  datatype Buckets = Buckets(
    tasks: seq<Task>,
    completed: set<string>,
    reopened: set<string>,
    deleted: set<string>,
    reassigned: set<string>)

  // ---------------------------------------------------------------------------
  // The first pass, specified on the messages

  function NewTask(e: Event, spaceName: string): Task {
    Task(e.taskId, e.assignee, OPEN, e.createTime, spaceName)
  }

  predicate IsCreatedNotice(m: Message) {
    Classify(m).Notice? && Classify(m).event.kind == Created
  }

  /** The records appended for the first `n` messages, one per "Created" notification. */
  function CreatedUpTo(ms: seq<Message>, n: nat, spaceName: string): seq<Task>
    requires n <= |ms|
  {
    if n == 0 then []
    else
      CreatedUpTo(ms, n - 1, spaceName)
      + (if IsCreatedNotice(ms[n - 1]) then [NewTask(Classify(ms[n - 1]).event, spaceName)] else [])
  }

  function CreatedTasks(ms: seq<Message>, spaceName: string): seq<Task> {
    CreatedUpTo(ms, |ms|, spaceName)
  }

  /** The ids of the events of kind `kind` among the first `n` messages. */
  function EventIdsUpTo(ms: seq<Message>, n: nat, kind: Kind): set<string>
    requires n <= |ms|
  {
    set i | 0 <= i < n && Classify(ms[i]).Notice? && Classify(ms[i]).event.kind == kind
      :: Classify(ms[i]).event.taskId
  }

  function EventIds(ms: seq<Message>, kind: Kind): set<string> {
    EventIdsUpTo(ms, |ms|, kind)
  }

  /** The reassignment keys among the first `n` messages. */
  function AssignedKeysUpTo(ms: seq<Message>, n: nat): set<string>
    requires n <= |ms|
  {
    set i | 0 <= i < n && Classify(ms[i]).Notice? && Classify(ms[i]).event.kind == Assigned
      :: Key(Classify(ms[i]).event.taskId, Classify(ms[i]).event.assignee)
  }

  function AssignedKeys(ms: seq<Message>): set<string> {
    AssignedKeysUpTo(ms, |ms|)
  }

  // ---------------------------------------------------------------------------
  // The second pass, specified on the records

  /** The names the reassignment keys give to the task `id`. */
  function AssignedNames(reassigned: set<string>, id: string): set<string> {
    set key | key in reassigned && '@' in key && KeyId(key) == id :: KeyName(key)
  }

  /**
    The record `after` is what the loop makes of `before` when it visits it: the status
    becomes COMPLETED if the id was completed, else OPEN if it was re-opened; the
    assignee becomes one of the names reassigned to the id, if there is any; the rest is
    kept.
  */
  predicate Reconciled(before: Task, after: Task, completed: set<string>, reopened: set<string>, reassigned: set<string>) {
    && after.id == before.id
    && after.createdTime == before.createdTime
    && after.spaceName == before.spaceName
    && after.status == (if before.id in completed then COMPLETED
                        else if before.id in reopened then OPEN
                        else before.status)
    && AssigneeFrom(AssignedNames(reassigned, before.id), before.assignee, after.assignee)
  }

  /**
    The indices of the original list that the `for` loop visits from index `v` on:
    removing the current record shifts the next one into its slot, and the loop then
    moves past it.
  */
  ghost function Visits(created: seq<Task>, deleted: set<string>, v: nat): set<nat>
    decreases |created| - v
  {
    if v >= |created| then {}
    else {v} + Visits(created, deleted, v + if created[v].id in deleted then 2 else 1)
  }

  ghost function Visited(created: seq<Task>, deleted: set<string>): set<nat> {
    Visits(created, deleted, 0)
  }

  ghost predicate DistinctTimes(created: seq<Task>) {
    forall a, b :: 0 <= a < b < |created| ==> created[a].createdTime != created[b].createdTime
  }

  ghost predicate Increasing(origin: seq<nat>) {
    forall a, b :: 0 <= a < b < |origin| ==> origin[a] < origin[b]
  }

  /** How a record of the final list relates to the original record it came from. */
  ghost predicate Tracks(created: seq<Task>, visited: set<nat>, completed: set<string>, reopened: set<string>,
                         reassigned: set<string>, t: Task, o: nat)
  {
    o < |created|
    && if o in visited then Reconciled(created[o], t, completed, reopened, reassigned) else t == created[o]
  }

  /**
    What the reconciliation pass produces from the records `created`: a list `tasks`
    whose record `k` comes from `created[origin[k]]`, in the original order; a visited
    record is reconciled and an unvisited one is untouched; whatever is missing had a
    deleted id; and when the records are pairwise distinct (their creation times
    differ) exactly the visited records with deleted ids are missing.
  */
  ghost predicate ReconcileOutcome(created: seq<Task>, completed: set<string>, reopened: set<string>,
                                   deleted: set<string>, reassigned: set<string>, tasks: seq<Task>, origin: seq<nat>)
  {
    && |origin| == |tasks|
    && Increasing(origin)
    && (forall k :: 0 <= k < |tasks| ==>
          Tracks(created, Visited(created, deleted), completed, reopened, reassigned, tasks[k], origin[k]))
    && (forall j :: 0 <= j < |created| && j !in origin ==> created[j].id in deleted)
    && (DistinctTimes(created) ==>
          forall j :: 0 <= j < |created| ==>
            (j in origin <==> !(j in Visited(created, deleted) && created[j].id in deleted)))
  }

  // ---------------------------------------------------------------------------
  // The first pass

  lemma EventIdsStep(ms: seq<Message>, n: nat, kind: Kind)
    requires n < |ms|
    ensures EventIdsUpTo(ms, n + 1, kind)
         == EventIdsUpTo(ms, n, kind)
            + if Classify(ms[n]).Notice? && Classify(ms[n]).event.kind == kind
              then {Classify(ms[n]).event.taskId} else {}
  {
  }

  lemma AssignedKeysStep(ms: seq<Message>, n: nat)
    requires n < |ms|
    ensures AssignedKeysUpTo(ms, n + 1)
         == AssignedKeysUpTo(ms, n)
            + if Classify(ms[n]).Notice? && Classify(ms[n]).event.kind == Assigned
              then {Key(Classify(ms[n]).event.taskId, Classify(ms[n]).event.assignee)} else {}
  {
  }

  /** The first message whose thread name holds no task id is message `i`. */
  predicate FirstMalformed(ms: seq<Message>, i: nat) {
    i < |ms| && Classify(ms[i]).Malformed?
    && forall k :: 0 <= k < i ==> !Classify(ms[k]).Malformed?
  }

  /**
    The loop over the messages of the space. It stops with an error at the first
    notification whose thread name has fewer than four segments; otherwise it returns
    the records of the "Created" notifications in message order and the ids of the
    other events.
  */
  method CollectEvents(messages: seq<Message>, spaceName: string) returns (r: Result<Buckets, Error>)
    ensures r.Failure? <==> exists i :: 0 <= i < |messages| && Classify(messages[i]).Malformed?
    ensures r.Failure? ==>
              exists i: nat :: FirstMalformed(messages, i) && r.error == MalformedThread(messages[i].threadName)
    ensures r.Success? ==>
              r.value == Buckets(CreatedTasks(messages, spaceName),
                                 EventIds(messages, Completed), EventIds(messages, Reopened),
                                 EventIds(messages, Deleted), AssignedKeys(messages))
  {
    var tasks: seq<Task> := [];
    var completed: set<string>, reopened: set<string>, deleted: set<string>, reassigned: set<string>
      := {}, {}, {}, {};
    var n := 0;
    while n < |messages|
      invariant 0 <= n <= |messages|
      invariant forall k :: 0 <= k < n ==> !Classify(messages[k]).Malformed?
      invariant tasks == CreatedUpTo(messages, n, spaceName)
      invariant completed == EventIdsUpTo(messages, n, Completed)
      invariant reopened == EventIdsUpTo(messages, n, Reopened)
      invariant deleted == EventIdsUpTo(messages, n, Deleted)
      invariant reassigned == AssignedKeysUpTo(messages, n)
    {
      var message := messages[n];
      EventIdsStep(messages, n, Completed);
      EventIdsStep(messages, n, Reopened);
      EventIdsStep(messages, n, Deleted);
      AssignedKeysStep(messages, n);
      if Contains(message.text, Marker) {
        var segments := Split(message.threadName, '/');
        if |segments| < 4 {
          assert FirstMalformed(messages, n);
          return Failure(MalformedThread(message.threadName));
        }
        var taskId := segments[3];
        var text := message.text;
        var assignee := if '@' in text then MentionOf(text) else Unassigned;
        if Contains(text, "Created") {
          tasks := tasks + [Task(taskId, assignee, OPEN, message.createTime, spaceName)];
        } else if Contains(text, "Assigned") {
          reassigned := reassigned + {Key(taskId, assignee)};
        } else if Contains(text, "Completed") {
          completed := completed + {taskId};
        } else if Contains(text, "Deleted") {
          deleted := deleted + {taskId};
        } else if Contains(text, "Re-opened") {
          reopened := reopened + {taskId};
        }
      }
      n := n + 1;
    }
    return Success(Buckets(tasks, completed, reopened, deleted, reassigned));
  }

  // ---------------------------------------------------------------------------
  // The second pass

  /** The assignee `a` is `base` when there are no `names`, and one of them otherwise. */
  predicate AssigneeFrom(names: set<string>, base: string, a: string) {
    if names == {} then a == base else a in names
  }

  lemma AssignedNamesStep(done: set<string>, key: string, id: string, base: string, a: string)
    requires '@' in key
    requires AssigneeFrom(AssignedNames(done, id), base, a)
    ensures AssigneeFrom(AssignedNames(done + {key}, id), base, if KeyId(key) == id then KeyName(key) else a)
  {
    if KeyId(key) == id {
      assert KeyName(key) in AssignedNames(done + {key}, id);
    } else {
      assert AssignedNames(done + {key}, id) == AssignedNames(done, id);
    }
  }

  /**
    The inner loop over the reassignment keys, in the set's iteration order, which the
    model leaves open: every key naming the task overwrites its assignee, so the last
    such key wins.
  */
  method ApplyAssignments(task: Task, reassigned: set<string>) returns (t: Task)
    requires forall key :: key in reassigned ==> '@' in key
    ensures t == task.(assignee := t.assignee)
    ensures AssigneeFrom(AssignedNames(reassigned, task.id), task.assignee, t.assignee)
  {
    t := task;
    var remaining := reassigned;
    ghost var done: set<string> := {};
    while remaining != {}
      invariant remaining + done == reassigned
      invariant t == task.(assignee := t.assignee)
      invariant AssigneeFrom(AssignedNames(done, task.id), task.assignee, t.assignee)
      decreases |remaining|
    {
      var key :| key in remaining;
      var newAssignment := Split(key, '@');
      var tid := newAssignment[0];
      var name := newAssignment[1];
      AssignedNamesStep(done, key, task.id, task.assignee, t.assignee);
      if tid == t.id {
        t := t.(assignee := name);
      }
      remaining := remaining - {key};
      done := done + {key};
    }
  }

  /** The first index of a value in a list, as `list.remove` finds it. */
  function FirstIndex<T(==)>(s: seq<T>, x: T): (j: nat)
    requires x in s
    ensures j < |s| && s[j] == x
    ensures forall k :: 0 <= k < j ==> s[k] != x
  {
    if s[0] == x then 0 else FirstIndex(s[1..], x) + 1
  }

  /**
    The shape of the loop's state before it takes index `i` of the (shrinking) list:
    `origin` maps each record to the original one it came from, in order, and the
    records from `i` on are the original ones from `v` on, untouched.
  */
  ghost predicate LoopShape(created: seq<Task>, tasks: seq<Task>, origin: seq<nat>, i: nat, v: nat) {
    && |origin| == |tasks|
    && i <= v
    && |tasks| - i == |created| - v
    && Increasing(origin)
    && forall k :: i <= k < |tasks| ==> origin[k] == v + (k - i) && tasks[k] == created[v + (k - i)]
  }

  /** Every record is its original, reconciled if `seen` holds its original index. */
  ghost predicate LoopTracks(created: seq<Task>, completed: set<string>, reopened: set<string>, reassigned: set<string>,
                             tasks: seq<Task>, origin: seq<nat>, seen: set<nat>)
    requires |origin| == |tasks|
  {
    forall k :: 0 <= k < |tasks| ==> Tracks(created, seen, completed, reopened, reassigned, tasks[k], origin[k])
  }

  /** `seen` are the indices visited before `v`. */
  ghost predicate LoopVisits(created: seq<Task>, deleted: set<string>, v: nat, seen: set<nat>) {
    && (forall j :: j in seen ==> j < v)
    && seen + Visits(created, deleted, v) == Visited(created, deleted)
  }

  /** The original records before `v` that are gone had deleted ids, and with distinct records only visited ones are gone. */
  ghost predicate LoopRemoved(created: seq<Task>, deleted: set<string>, origin: seq<nat>, v: nat, seen: set<nat>) {
    && (forall j :: 0 <= j < v && j < |created| && j !in origin ==> created[j].id in deleted)
    && (DistinctTimes(created) ==>
          forall j :: 0 <= j < v && j < |created| ==> (j in origin <==> !(j in seen && created[j].id in deleted)))
  }

  ghost predicate LoopInv(created: seq<Task>, completed: set<string>, reopened: set<string>,
                          deleted: set<string>, reassigned: set<string>,
                          tasks: seq<Task>, origin: seq<nat>, i: nat, v: nat, seen: set<nat>)
  {
    && LoopShape(created, tasks, origin, i, v)
    && LoopTracks(created, completed, reopened, reassigned, tasks, origin, seen)
    && LoopVisits(created, deleted, v, seen)
    && LoopRemoved(created, deleted, origin, v, seen)
  }

  lemma LoopStart(created: seq<Task>, completed: set<string>, reopened: set<string>,
                  deleted: set<string>, reassigned: set<string>)
    ensures LoopInv(created, completed, reopened, deleted, reassigned, created, seq(|created|, k => k), 0, 0, {})
  {
  }

  /** A visited record whose id is not deleted stays at its index and is reconciled. */
  lemma KeepStep(created: seq<Task>, completed: set<string>, reopened: set<string>,
                 deleted: set<string>, reassigned: set<string>,
                 tasks: seq<Task>, origin: seq<nat>, i: nat, v: nat, seen: set<nat>, t: Task, tasks': seq<Task>)
    requires LoopInv(created, completed, reopened, deleted, reassigned, tasks, origin, i, v, seen)
    requires i < |tasks| && tasks[i].id !in deleted
    requires Reconciled(tasks[i], t, completed, reopened, reassigned)
    requires tasks' == tasks[i := t]
    ensures LoopInv(created, completed, reopened, deleted, reassigned, tasks', origin, i + 1, v + 1, seen + {v})
  {
    KeepShape(created, tasks, origin, i, v, t);
    KeepTracks(created, completed, reopened, reassigned, tasks, origin, i, v, seen, t);
    assert Visits(created, deleted, v) == {v} + Visits(created, deleted, v + 1);
    KeepRemoved(created, deleted, tasks, origin, i, v, seen);
  }

  lemma KeepShape(created: seq<Task>, tasks: seq<Task>, origin: seq<nat>, i: nat, v: nat, t: Task)
    requires LoopShape(created, tasks, origin, i, v) && i < |tasks|
    ensures LoopShape(created, tasks[i := t], origin, i + 1, v + 1)
  {
  }

  lemma KeepTracks(created: seq<Task>, completed: set<string>, reopened: set<string>, reassigned: set<string>,
                   tasks: seq<Task>, origin: seq<nat>, i: nat, v: nat, seen: set<nat>, t: Task)
    requires LoopShape(created, tasks, origin, i, v) && i < |tasks|
    requires LoopTracks(created, completed, reopened, reassigned, tasks, origin, seen)
    requires forall j :: j in seen ==> j < v
    requires Reconciled(tasks[i], t, completed, reopened, reassigned)
    ensures LoopTracks(created, completed, reopened, reassigned, tasks[i := t], origin, seen + {v})
  {
    forall k | 0 <= k < |tasks|
      ensures Tracks(created, seen + {v}, completed, reopened, reassigned, tasks[i := t][k], origin[k])
    {
      if k != i {
        assert Tracks(created, seen, completed, reopened, reassigned, tasks[k], origin[k]);
        assert origin[k] != v by {
          if k > i {
            assert origin[k] == v + (k - i);
          } else {
            assert origin[k] < origin[i];
          }
        }
      }
    }
  }

  lemma KeepRemoved(created: seq<Task>, deleted: set<string>, tasks: seq<Task>, origin: seq<nat>, i: nat, v: nat, seen: set<nat>)
    requires LoopShape(created, tasks, origin, i, v) && i < |tasks|
    requires LoopRemoved(created, deleted, origin, v, seen)
    requires created[v].id !in deleted
    ensures LoopRemoved(created, deleted, origin, v + 1, seen + {v})
  {
    assert origin[i] == v;
  }

  /** A visited record with a deleted id that is the first copy of itself disappears. */
  lemma RemoveCurrentStep(created: seq<Task>, completed: set<string>, reopened: set<string>,
                          deleted: set<string>, reassigned: set<string>,
                          tasks: seq<Task>, origin: seq<nat>, i: nat, v: nat, seen: set<nat>,
                          tasks': seq<Task>, origin': seq<nat>)
    requires LoopInv(created, completed, reopened, deleted, reassigned, tasks, origin, i, v, seen)
    requires i < |tasks| && tasks[i].id in deleted
    requires tasks' == Without(tasks, i) && origin' == Without(origin, i)
    ensures LoopInv(created, completed, reopened, deleted, reassigned, tasks', origin', i + 1, v + 2, seen + {v})
  {
    RemoveCurrentShape(created, tasks, origin, i, v);
    RemoveCurrentTracks(created, completed, reopened, reassigned, tasks, origin, i, v, seen);
    assert Visits(created, deleted, v) == {v} + Visits(created, deleted, v + 2);
    RemoveCurrentRemoved(created, deleted, tasks, origin, i, v, seen);
  }

  lemma RemoveCurrentShape(created: seq<Task>, tasks: seq<Task>, origin: seq<nat>, i: nat, v: nat)
    requires LoopShape(created, tasks, origin, i, v) && i < |tasks|
    ensures LoopShape(created, Without(tasks, i), Without(origin, i), i + 1, v + 2)
  {
  }

  lemma RemoveCurrentTracks(created: seq<Task>, completed: set<string>, reopened: set<string>, reassigned: set<string>,
                            tasks: seq<Task>, origin: seq<nat>, i: nat, v: nat, seen: set<nat>)
    requires LoopShape(created, tasks, origin, i, v) && i < |tasks|
    requires LoopTracks(created, completed, reopened, reassigned, tasks, origin, seen)
    requires forall j :: j in seen ==> j < v
    ensures LoopTracks(created, completed, reopened, reassigned, Without(tasks, i), Without(origin, i), seen + {v})
  {
    var tasks', origin' := Without(tasks, i), Without(origin, i);
    forall k | 0 <= k < |tasks'|
      ensures Tracks(created, seen + {v}, completed, reopened, reassigned, tasks'[k], origin'[k])
    {
      if k < i {
        assert origin[k] < origin[i];
      } else {
        assert origin'[k] == v + (k + 1 - i);
      }
    }
  }

  lemma RemoveCurrentRemoved(created: seq<Task>, deleted: set<string>,
                             tasks: seq<Task>, origin: seq<nat>, i: nat, v: nat, seen: set<nat>)
    requires LoopShape(created, tasks, origin, i, v) && i < |tasks| && tasks[i].id in deleted
    requires forall j :: j in seen ==> j < v
    requires LoopRemoved(created, deleted, origin, v, seen)
    ensures LoopRemoved(created, deleted, Without(origin, i), v + 2, seen + {v})
  {
    var origin' := Without(origin, i);
    var seen' := seen + {v};
    forall j | 0 <= j < v + 2 && j < |created|
      ensures j !in origin' ==> created[j].id in deleted
    {
      if j == v + 1 {
        assert origin'[i] == j;
      } else if j < v {
        WithoutMembership(origin, i, j);
      }
    }
    if DistinctTimes(created) {
      forall j | 0 <= j < v + 2 && j < |created|
        ensures j in origin' <==> !(j in seen' && created[j].id in deleted)
      {
        if j == v + 1 {
          assert origin'[i] == j;
        } else if j == v {
          assert forall k :: 0 <= k < |origin'| ==> origin'[k] != v;
        } else {
          WithoutMembership(origin, i, j);
        }
      }
    }
  }

  /**
    A visited record with a deleted id that has an equal copy at an earlier index `j`:
    `list.remove` takes the copy, and the visited record, now one place earlier, is
    reconciled.
  */
  lemma RemoveEarlierStep(created: seq<Task>, completed: set<string>, reopened: set<string>,
                          deleted: set<string>, reassigned: set<string>,
                          tasks: seq<Task>, origin: seq<nat>, i: nat, v: nat, seen: set<nat>, j: nat, t: Task,
                          tasks': seq<Task>, origin': seq<nat>)
    requires LoopInv(created, completed, reopened, deleted, reassigned, tasks, origin, i, v, seen)
    requires j < i < |tasks| && tasks[i].id in deleted && tasks[j] == tasks[i]
    requires Reconciled(tasks[i], t, completed, reopened, reassigned)
    requires tasks' == Without(tasks, j)[i - 1 := t] && origin' == Without(origin, j)
    ensures LoopInv(created, completed, reopened, deleted, reassigned, tasks', origin', i + 1, v + 2, seen + {v})
  {
    RemoveEarlierShape(created, tasks, origin, i, v, j, t);
    RemoveEarlierTracks(created, completed, reopened, reassigned, tasks, origin, i, v, seen, j, t);
    assert Visits(created, deleted, v) == {v} + Visits(created, deleted, v + 2);
    RemoveEarlierRemoved(created, completed, reopened, deleted, reassigned, tasks, origin, i, v, seen, j);
  }

  lemma RemoveEarlierShape(created: seq<Task>, tasks: seq<Task>, origin: seq<nat>, i: nat, v: nat, j: nat, t: Task)
    requires LoopShape(created, tasks, origin, i, v) && j < i < |tasks|
    ensures LoopShape(created, Without(tasks, j)[i - 1 := t], Without(origin, j), i + 1, v + 2)
  {
  }

  lemma RemoveEarlierTracks(created: seq<Task>, completed: set<string>, reopened: set<string>, reassigned: set<string>,
                            tasks: seq<Task>, origin: seq<nat>, i: nat, v: nat, seen: set<nat>, j: nat, t: Task)
    requires LoopShape(created, tasks, origin, i, v) && j < i < |tasks|
    requires LoopTracks(created, completed, reopened, reassigned, tasks, origin, seen)
    requires forall x :: x in seen ==> x < v
    requires Reconciled(tasks[i], t, completed, reopened, reassigned)
    ensures LoopTracks(created, completed, reopened, reassigned, Without(tasks, j)[i - 1 := t], Without(origin, j), seen + {v})
  {
    var tasks', origin' := Without(tasks, j)[i - 1 := t], Without(origin, j);
    forall k | 0 <= k < |tasks'|
      ensures Tracks(created, seen + {v}, completed, reopened, reassigned, tasks'[k], origin'[k])
    {
      if k < j {
        assert origin[k] < origin[i];
      } else if k < i - 1 {
        assert origin[k + 1] < origin[i];
      } else if k == i - 1 {
        assert origin'[k] == v;
      } else {
        assert origin'[k] == v + (k + 1 - i);
      }
    }
  }

  lemma RemoveEarlierRemoved(created: seq<Task>, completed: set<string>, reopened: set<string>,
                             deleted: set<string>, reassigned: set<string>,
                             tasks: seq<Task>, origin: seq<nat>, i: nat, v: nat, seen: set<nat>, j: nat)
    requires LoopShape(created, tasks, origin, i, v) && j < i < |tasks|
    requires LoopTracks(created, completed, reopened, reassigned, tasks, origin, seen)
    requires tasks[i].id in deleted && tasks[j] == tasks[i]
    requires LoopRemoved(created, deleted, origin, v, seen)
    ensures LoopRemoved(created, deleted, Without(origin, j), v + 2, seen + {v})
  {
    var origin' := Without(origin, j);
    assert Tracks(created, seen, completed, reopened, reassigned, tasks[j], origin[j]);
    assert created[origin[j]].id == tasks[i].id;
    forall x | 0 <= x < v + 2 && x < |created|
      ensures x !in origin' ==> created[x].id in deleted
    {
      if x == v {
        assert origin'[i - 1] == x;
      } else if x == v + 1 {
        assert origin'[i] == x;
      } else if x != origin[j] {
        WithoutMembership(origin, j, x);
      }
    }
    assert origin[j] < v && created[origin[j]].createdTime == created[v].createdTime;
    assert !DistinctTimes(created);
  }

  /** One iteration of the loop over the records, in its three cases. */
  lemma Step(created: seq<Task>, completed: set<string>, reopened: set<string>,
             deleted: set<string>, reassigned: set<string>,
             tasks0: seq<Task>, origin0: seq<nat>, i: nat, v: nat, seen: set<nat>, j: nat, t: Task,
             tasks: seq<Task>, origin: seq<nat>, v': nat)
    requires LoopInv(created, completed, reopened, deleted, reassigned, tasks0, origin0, i, v, seen)
    requires i < |tasks0|
    requires Reconciled(tasks0[i], t, completed, reopened, reassigned)
    requires tasks0[i].id !in deleted ==> tasks == tasks0[i := t] && origin == origin0 && v' == v + 1
    requires tasks0[i].id in deleted ==>
               && j <= i && tasks0[j] == tasks0[i] && v' == v + 2
               && origin == Without(origin0, j)
               && tasks == if j == i then Without(tasks0, j) else Without(tasks0, j)[i - 1 := t]
    ensures LoopInv(created, completed, reopened, deleted, reassigned, tasks, origin, i + 1, v', seen + {v})
  {
    if tasks0[i].id !in deleted {
      KeepStep(created, completed, reopened, deleted, reassigned, tasks0, origin0, i, v, seen, t, tasks);
    } else if j == i {
      RemoveCurrentStep(created, completed, reopened, deleted, reassigned, tasks0, origin0, i, v, seen, tasks, origin);
    } else {
      RemoveEarlierStep(created, completed, reopened, deleted, reassigned, tasks0, origin0, i, v, seen, j, t, tasks, origin);
    }
  }

  /** The list without its element at index `j`, as `list.remove` leaves it. */
  function Without<T>(s: seq<T>, j: nat): (r: seq<T>)
    requires j < |s|
    ensures |r| == |s| - 1
    ensures forall k :: 0 <= k < |r| ==> r[k] == if k < j then s[k] else s[k + 1]
  {
    s[..j] + s[j + 1..]
  }

  lemma WithoutMembership<T>(s: seq<T>, j: nat, x: T)
    requires j < |s| && s[j] != x
    ensures x in Without(s, j) <==> x in s
  {
    if x in s {
      var k :| 0 <= k < |s| && s[k] == x;
      if k < j {
        assert Without(s, j)[k] == x;
      } else {
        assert Without(s, j)[k - 1] == x;
      }
    }
  }

  lemma LoopEnd(created: seq<Task>, completed: set<string>, reopened: set<string>,
                deleted: set<string>, reassigned: set<string>,
                tasks: seq<Task>, origin: seq<nat>, i: nat, v: nat, seen: set<nat>)
    requires LoopInv(created, completed, reopened, deleted, reassigned, tasks, origin, i, v, seen)
    requires i >= |tasks|
    ensures ReconcileOutcome(created, completed, reopened, deleted, reassigned, tasks, origin)
  {
  }

  /**
    The loop over the records. It iterates by index over the list it shrinks: a record
    whose id was deleted is removed (the first record equal to it, as `list.remove`
    does), and this shifts the next record into the current slot, which the loop then
    leaves behind unvisited. Every visited record gets its reassignments and its final
    status, also when it has just been removed.
  */
  method Reconcile(created: seq<Task>, completed: set<string>, reopened: set<string>,
                   deleted: set<string>, reassigned: set<string>)
    returns (tasks: seq<Task>, ghost origin: seq<nat>)
    requires forall key :: key in reassigned ==> '@' in key
    ensures ReconcileOutcome(created, completed, reopened, deleted, reassigned, tasks, origin)
  {
    tasks := created;
    origin := seq(|created|, k => k);
    var i := 0;
    ghost var v: nat := 0;
    ghost var seen: set<nat> := {};
    LoopStart(created, completed, reopened, deleted, reassigned);
    while i < |tasks|
      invariant LoopInv(created, completed, reopened, deleted, reassigned, tasks, origin, i, v, seen)
      decreases |tasks| - i
    {
      ghost var v0 := v;
      tasks, origin, v := Visit(created, completed, reopened, deleted, reassigned, tasks, origin, i, v, seen);
      seen := seen + {v0};
      i := i + 1;
    }
    LoopEnd(created, completed, reopened, deleted, reassigned, tasks, origin, i, v, seen);
  }

  lemma KeysHaveAt(ms: seq<Message>)
    ensures forall key :: key in AssignedKeys(ms) ==> '@' in key
  {
    forall key | key in AssignedKeys(ms)
      ensures '@' in key
    {
      var i :| 0 <= i < |ms| && Classify(ms[i]).Notice? && Classify(ms[i]).event.kind == Assigned
                && key == Key(Classify(ms[i]).event.taskId, Classify(ms[i]).event.assignee);
      assert key[|Classify(ms[i]).event.taskId|] == '@';
    }
  }

  /**
    One iteration of the loop over the records: the record at `i` is removed if its id
    was deleted (the first equal record, as `list.remove` does), and reassigned and
    given its final status; the visited original index moves on by one, or by two
    after a removal.
  */
  method Visit(created: seq<Task>, completed: set<string>, reopened: set<string>,
               deleted: set<string>, reassigned: set<string>,
               tasks: seq<Task>, ghost origin: seq<nat>, i: nat, ghost v: nat, ghost seen: set<nat>)
    returns (tasks': seq<Task>, ghost origin': seq<nat>, ghost v': nat)
    requires forall key :: key in reassigned ==> '@' in key
    requires LoopInv(created, completed, reopened, deleted, reassigned, tasks, origin, i, v, seen)
    requires i < |tasks|
    ensures LoopInv(created, completed, reopened, deleted, reassigned, tasks', origin', i + 1, v', seen + {v})
    ensures |tasks'| - (i + 1) < |tasks| - i
  {
    var task := tasks[i];
    var taskId := task.id;
    // where `task` sits in the list after the removal; -1 once it is no longer there
    var current := i;
    var j := i;
    tasks' := tasks;
    origin' := origin;
    if taskId in deleted {
      j := FirstIndex(tasks, task);
      tasks' := Without(tasks, j);
      origin' := Without(origin, j);
      current := if j == i then -1 else i - 1;
    }
    var t := ApplyAssignments(task, reassigned);
    if taskId in completed {
      t := t.(status := COMPLETED);
    } else if taskId in reopened {
      t := t.(status := OPEN);
    }
    if current >= 0 {
      tasks' := tasks'[current := t];
    }
    v' := if taskId in deleted then v + 2 else v + 1;
    Step(created, completed, reopened, deleted, reassigned, tasks, origin, i, v, seen, j, t, tasks', origin', v');
  }

  /**
    `get_tasks` on the messages of one space: the exception of the first pass, or the
    records the second pass leaves.
  */
  method GetTasks(messages: seq<Message>, spaceName: string) returns (r: Result<seq<Task>, Error>, ghost origin: seq<nat>)
    ensures r.Failure? <==> exists i :: 0 <= i < |messages| && Classify(messages[i]).Malformed?
    ensures r.Failure? ==>
              exists i: nat :: FirstMalformed(messages, i) && r.error == MalformedThread(messages[i].threadName)
    ensures r.Success? ==>
              ReconcileOutcome(CreatedTasks(messages, spaceName),
                               EventIds(messages, Completed), EventIds(messages, Reopened),
                               EventIds(messages, Deleted), AssignedKeys(messages), r.value, origin)
  {
    var collected := CollectEvents(messages, spaceName);
    if collected.Failure? {
      return Failure(collected.error), [];
    }
    var b := collected.value;
    KeysHaveAt(messages);
    var tasks;
    tasks, origin := Reconcile(b.tasks, b.completed, b.reopened, b.deleted, b.reassigned);
    return Success(tasks), origin;
  }

  // ---------------------------------------------------------------------------
  // Properties of the records the first pass creates

  /**
    The records are those of the "Created" notifications, one each and in message
    order: two notifications for the same task give two records.
  */
  lemma {:induction false} CreatedTasksFromNotices(ms: seq<Message>, n: nat, spaceName: string) returns (idx: seq<nat>)
    requires n <= |ms|
    ensures |idx| == |CreatedUpTo(ms, n, spaceName)|
    ensures forall a, b :: 0 <= a < b < |idx| ==> idx[a] < idx[b]
    ensures forall k :: 0 <= k < |idx| ==>
              idx[k] < n && IsCreatedNotice(ms[idx[k]])
              && CreatedUpTo(ms, n, spaceName)[k] == NewTask(Classify(ms[idx[k]]).event, spaceName)
    ensures forall i :: 0 <= i < n && IsCreatedNotice(ms[i]) ==> i in idx
  {
    if n == 0 {
      idx := [];
    } else {
      var prev := CreatedTasksFromNotices(ms, n - 1, spaceName);
      var before := CreatedUpTo(ms, n - 1, spaceName);
      if IsCreatedNotice(ms[n - 1]) {
        idx := prev + [n - 1];
        assert CreatedUpTo(ms, n, spaceName) == before + [NewTask(Classify(ms[n - 1]).event, spaceName)];
      } else {
        idx := prev;
        assert CreatedUpTo(ms, n, spaceName) == before;
      }
      forall i | 0 <= i < n && IsCreatedNotice(ms[i])
        ensures i in idx
      {
        if i < n - 1 {
          var k :| 0 <= k < |prev| && prev[k] == i;
          assert idx[k] == i;
        } else {
          assert idx[|idx| - 1] == i;
        }
      }
    }
  }

  lemma {:induction false} CreatedTasksOpen(ms: seq<Message>, n: nat, spaceName: string)
    requires n <= |ms|
    ensures forall t :: t in CreatedUpTo(ms, n, spaceName) ==> t.status == OPEN && t.spaceName == spaceName
  {
    if n > 0 {
      CreatedTasksOpen(ms, n - 1, spaceName);
    }
  }

  // ---------------------------------------------------------------------------
  // Which records the loop visits

  function Stride(created: seq<Task>, deleted: set<string>, j: nat): nat
    requires j < |created|
  {
    if created[j].id in deleted then 2 else 1
  }

  lemma {:induction false} VisitsBounds(created: seq<Task>, deleted: set<string>, v: nat)
    ensures forall j :: j in Visits(created, deleted, v) ==> v <= j < |created|
    decreases |created| - v
  {
    if v < |created| {
      VisitsBounds(created, deleted, v + Stride(created, deleted, v));
    }
  }

  lemma {:induction false} VisitsNext(created: seq<Task>, deleted: set<string>, v: nat, j: nat)
    requires j in Visits(created, deleted, v)
    ensures j < |created|
    ensures j + Stride(created, deleted, j) < |created| ==>
              j + Stride(created, deleted, j) in Visits(created, deleted, v)
    decreases |created| - v
  {
    VisitsBounds(created, deleted, v);
    if j != v {
      VisitsNext(created, deleted, v + Stride(created, deleted, v), j);
    }
  }

  lemma {:induction false} VisitsSkip(created: seq<Task>, deleted: set<string>, v: nat, j: nat)
    requires j in Visits(created, deleted, v) && j < |created| && created[j].id in deleted
    ensures j + 1 !in Visits(created, deleted, v)
    decreases |created| - v
  {
    VisitsBounds(created, deleted, v);
    VisitsBounds(created, deleted, v + Stride(created, deleted, v));
    if j != v {
      VisitsSkip(created, deleted, v + Stride(created, deleted, v), j);
    }
  }

  /**
    The loop visits the first record, and it visits a later one exactly when the record
    just before it was not visited or was visited but kept: removing a record makes the
    loop step over the next one.
  */
  lemma {:induction false} VisitedExactly(created: seq<Task>, deleted: set<string>, j: nat)
    requires j < |created|
    ensures j in Visited(created, deleted) <==>
              j == 0 || !(j - 1 in Visited(created, deleted) && created[j - 1].id in deleted)
  {
    if j == 0 {
      assert 0 in Visits(created, deleted, 0);
    } else if j - 1 in Visited(created, deleted) {
      if created[j - 1].id in deleted {
        VisitsSkip(created, deleted, 0, j - 1);
      } else {
        VisitsNext(created, deleted, 0, j - 1);
      }
    } else {
      VisitedExactly(created, deleted, j - 1);
      VisitsNext(created, deleted, 0, j - 2);
    }
  }

  // ---------------------------------------------------------------------------
  // Properties of the outcome

  /**
    With distinct records, a record that survives although its id was deleted is one
    the loop stepped over: the record just before it was visited and removed.
  */
  lemma DeletedSurvivorWasSkipped(created: seq<Task>, completed: set<string>, reopened: set<string>,
                                  deleted: set<string>, reassigned: set<string>, tasks: seq<Task>, origin: seq<nat>, k: nat)
    requires ReconcileOutcome(created, completed, reopened, deleted, reassigned, tasks, origin)
    requires DistinctTimes(created)
    requires k < |tasks| && tasks[k].id in deleted
    ensures 0 < origin[k] && origin[k] - 1 in Visited(created, deleted) && created[origin[k] - 1].id in deleted
  {
    var o := origin[k];
    assert Tracks(created, Visited(created, deleted), completed, reopened, reassigned, tasks[k], o);
    assert created[o].id == tasks[k].id;
    assert o in origin;
    VisitedExactly(created, deleted, o);
  }

  /**
    With distinct records and no two consecutive records whose ids were both deleted,
    no record with a deleted id survives.
  */
  lemma DeletionComplete(created: seq<Task>, completed: set<string>, reopened: set<string>,
                         deleted: set<string>, reassigned: set<string>, tasks: seq<Task>, origin: seq<nat>)
    requires ReconcileOutcome(created, completed, reopened, deleted, reassigned, tasks, origin)
    requires DistinctTimes(created)
    requires forall j :: 0 < j < |created| ==> !(created[j - 1].id in deleted && created[j].id in deleted)
    ensures forall k :: 0 <= k < |tasks| ==> tasks[k].id !in deleted
  {
    forall k | 0 <= k < |tasks|
      ensures tasks[k].id !in deleted
    {
      var o := origin[k];
      assert Tracks(created, Visited(created, deleted), completed, reopened, reassigned, tasks[k], o);
      assert created[o].id == tasks[k].id && o in origin;
      VisitedExactly(created, deleted, o);
      if o > 0 {
        assert !(created[o - 1].id in deleted && created[o].id in deleted);
      }
    }
  }

  lemma {:induction false} IncreasingLength(s: seq<nat>, lo: nat, hi: nat)
    requires Increasing(s) && lo <= hi
    requires forall k :: 0 <= k < |s| ==> lo <= s[k] < hi
    ensures |s| <= hi - lo
  {
    if |s| > 0 {
      assert Increasing(s[1..]);
      assert forall k :: 0 <= k < |s| - 1 ==> s[0] < s[1..][k];
      IncreasingLength(s[1..], s[0] + 1, hi);
    }
  }

  /**
    Two consecutive records whose ids were both deleted: the first is removed and the
    second, shifted into its slot, is left as it was.
  */
  lemma ConsecutiveDeletions(a: Task, b: Task, completed: set<string>, reopened: set<string>,
                             deleted: set<string>, reassigned: set<string>, tasks: seq<Task>, origin: seq<nat>)
    requires a.createdTime != b.createdTime && a.id in deleted && b.id in deleted
    requires ReconcileOutcome([a, b], completed, reopened, deleted, reassigned, tasks, origin)
    ensures tasks == [b]
  {
    var created := [a, b];
    assert Visits(created, deleted, 2) == {};
    assert Visited(created, deleted) == {0};
    assert DistinctTimes(created);
    assert 0 !in origin && 1 in origin;
    IncreasingLength(origin, 1, 2);
    assert origin == [1];
    assert Tracks(created, {0}, completed, reopened, reassigned, tasks[0], 1);
  }

  /**
    The records start OPEN, so a record ends COMPLETED exactly when the loop visited it
    and its id was completed; a completion beats a re-opening.
  */
  lemma StatusOutcome(created: seq<Task>, completed: set<string>, reopened: set<string>,
                      deleted: set<string>, reassigned: set<string>, tasks: seq<Task>, origin: seq<nat>)
    requires ReconcileOutcome(created, completed, reopened, deleted, reassigned, tasks, origin)
    requires forall j :: 0 <= j < |created| ==> created[j].status == OPEN
    ensures forall k :: 0 <= k < |tasks| ==>
              (tasks[k].status == COMPLETED <==> origin[k] in Visited(created, deleted) && tasks[k].id in completed)
  {
    forall k | 0 <= k < |tasks|
      ensures tasks[k].status == COMPLETED <==> origin[k] in Visited(created, deleted) && tasks[k].id in completed
    {
      assert Tracks(created, Visited(created, deleted), completed, reopened, reassigned, tasks[k], origin[k]);
    }
  }

  lemma {:induction false} VisitsAgree(created: seq<Task>, deleted: set<string>, deleted': set<string>, v: nat)
    requires forall j :: 0 <= j < |created| ==> (created[j].id in deleted <==> created[j].id in deleted')
    ensures Visits(created, deleted, v) == Visits(created, deleted', v)
    decreases |created| - v
  {
    if v < |created| {
      VisitsAgree(created, deleted, deleted', v + Stride(created, deleted, v));
    }
  }

  /**
    Only what the events say about the ids of the records matters: events for tasks
    that have no record (created before the date range, say) change nothing.
  */
  lemma EventsForOtherTasksInert(created: seq<Task>, completed: set<string>, reopened: set<string>,
                                 deleted: set<string>, reassigned: set<string>,
                                 completed': set<string>, reopened': set<string>,
                                 deleted': set<string>, reassigned': set<string>,
                                 tasks: seq<Task>, origin: seq<nat>)
    requires forall j :: 0 <= j < |created| ==>
               && (created[j].id in completed <==> created[j].id in completed')
               && (created[j].id in reopened <==> created[j].id in reopened')
               && (created[j].id in deleted <==> created[j].id in deleted')
               && AssignedNames(reassigned, created[j].id) == AssignedNames(reassigned', created[j].id)
    ensures ReconcileOutcome(created, completed, reopened, deleted, reassigned, tasks, origin)
        <==> ReconcileOutcome(created, completed', reopened', deleted', reassigned', tasks, origin)
  {
    VisitsAgree(created, deleted, deleted', 0);
    var vis := Visited(created, deleted);
    forall k | 0 <= k < |tasks| && k < |origin|
      ensures Tracks(created, vis, completed, reopened, reassigned, tasks[k], origin[k])
          <==> Tracks(created, vis, completed', reopened', reassigned', tasks[k], origin[k])
    {
    }
  }

  lemma EventAssigneeHasNoAt(m: Message)
    ensures Classify(m).Notice? ==> '@' !in Classify(m).event.assignee
  {
    TaskAssigneeShape(m.text);
  }

  /**
    When no task id holds an `@`, the names reassigned to a task are exactly the
    assignees of its "Assigned" notifications.
  */
  lemma AssignedNamesOfEvents(ms: seq<Message>, id: string)
    requires forall i :: 0 <= i < |ms| && Classify(ms[i]).Notice? ==> '@' !in Classify(ms[i]).event.taskId
    ensures AssignedNames(AssignedKeys(ms), id)
         == set i | 0 <= i < |ms| && Classify(ms[i]).Notice? && Classify(ms[i]).event.kind == Assigned
                    && Classify(ms[i]).event.taskId == id
              :: Classify(ms[i]).event.assignee
  {
    var names := set i | 0 <= i < |ms| && Classify(ms[i]).Notice? && Classify(ms[i]).event.kind == Assigned
                         && Classify(ms[i]).event.taskId == id
                   :: Classify(ms[i]).event.assignee;
    forall name | name in AssignedNames(AssignedKeys(ms), id)
      ensures name in names
    {
      var key :| key in AssignedKeys(ms) && '@' in key && KeyId(key) == id && KeyName(key) == name;
      var i :| 0 <= i < |ms| && Classify(ms[i]).Notice? && Classify(ms[i]).event.kind == Assigned
                && key == Key(Classify(ms[i]).event.taskId, Classify(ms[i]).event.assignee);
      EventAssigneeHasNoAt(ms[i]);
      KeyRoundTrip(Classify(ms[i]).event.taskId, Classify(ms[i]).event.assignee);
    }
    forall name | name in names
      ensures name in AssignedNames(AssignedKeys(ms), id)
    {
      var i :| 0 <= i < |ms| && Classify(ms[i]).Notice? && Classify(ms[i]).event.kind == Assigned
                && Classify(ms[i]).event.taskId == id && Classify(ms[i]).event.assignee == name;
      EventAssigneeHasNoAt(ms[i]);
      KeyRoundTrip(id, name);
      assert Key(id, name) in AssignedKeys(ms);
    }
  }
}
