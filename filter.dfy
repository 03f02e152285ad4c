/**
  `filter_tasks`: keep the tasks whose normalised assignee is among the normalised
  names of the listed people and whose space is among the listed spaces.
*/
module Filter {
  import opened Names
  import opened Reconstruct

  /** The normalised names of the listed people. */
  function NormalizedPeople(people: seq<string>): set<string> {
    set person | person in people :: NormalizeName(person)
  }

  /** The test a task passes to be kept. */
  predicate Allowed(t: Task, normalizedPeople: set<string>, spaces: set<string>) {
    NormalizeName(t.assignee) in normalizedPeople && t.spaceName in spaces
  }

  /** The tasks among the first `n` that pass `ok`, in their order. */
  function Select(tasks: seq<Task>, n: nat, ok: Task -> bool): seq<Task>
    requires n <= |tasks|
  {
    if n == 0 then []
    else if ok(tasks[n - 1]) then Select(tasks, n - 1, ok) + [tasks[n - 1]]
    else Select(tasks, n - 1, ok)
  }

  function KeptUpTo(tasks: seq<Task>, n: nat, normalizedPeople: set<string>, spaces: set<string>): seq<Task>
    requires n <= |tasks|
  {
    Select(tasks, n, t => Allowed(t, normalizedPeople, spaces))
  }

  function Kept(tasks: seq<Task>, normalizedPeople: set<string>, spaces: set<string>): seq<Task> {
    KeptUpTo(tasks, |tasks|, normalizedPeople, spaces)
  }

  /** The append loop of `filter_tasks`. */
  method FilterTasks(tasks: seq<Task>, people: seq<string>, spaces: seq<string>) returns (filtered: seq<Task>)
    ensures filtered == Kept(tasks, NormalizedPeople(people), set space | space in spaces)
  {
    var normalizedPeople := set person | person in people :: NormalizeName(person);
    var normalizedSpaces := set space | space in spaces;
    filtered := [];
    for i := 0 to |tasks|
      invariant filtered == KeptUpTo(tasks, i, normalizedPeople, normalizedSpaces)
    {
      var task := tasks[i];
      var normalizedAssignee := NormalizeName(task.assignee);
      if normalizedAssignee in normalizedPeople && task.spaceName in normalizedSpaces {
        filtered := filtered + [task];
      }
    }
  }

  /**
    The selected tasks are those that pass, in their original order: `idx` says where
    each came from, and every task that passes is among them.
  */
  lemma {:induction false} SelectIsSubsequence(tasks: seq<Task>, n: nat, ok: Task -> bool) returns (idx: seq<nat>)
    requires n <= |tasks|
    ensures |idx| == |Select(tasks, n, ok)|
    ensures forall a, b :: 0 <= a < b < |idx| ==> idx[a] < idx[b]
    ensures forall k :: 0 <= k < |idx| ==>
              idx[k] < n && Select(tasks, n, ok)[k] == tasks[idx[k]] && ok(tasks[idx[k]])
    ensures forall i :: 0 <= i < n && ok(tasks[i]) ==> i in idx
  {
    if n == 0 {
      idx := [];
    } else {
      var prev := SelectIsSubsequence(tasks, n - 1, ok);
      if ok(tasks[n - 1]) {
        assert Select(tasks, n, ok) == Select(tasks, n - 1, ok) + [tasks[n - 1]];
        idx := prev + [n - 1];
      } else {
        assert Select(tasks, n, ok) == Select(tasks, n - 1, ok);
        idx := prev;
      }
      IndicesExtend(tasks, n, ok, prev, idx);
    }
  }

  /** The indices of the passing tasks before `n - 1`, extended by `n - 1` if that one passes. */
  lemma IndicesExtend(tasks: seq<Task>, n: nat, ok: Task -> bool, prev: seq<nat>, idx: seq<nat>)
    requires 0 < n <= |tasks|
    requires forall i :: 0 <= i < n - 1 && ok(tasks[i]) ==> i in prev
    requires idx == if ok(tasks[n - 1]) then prev + [n - 1] else prev
    ensures forall i :: 0 <= i < n && ok(tasks[i]) ==> i in idx
  {
    forall i | 0 <= i < n && ok(tasks[i])
      ensures i in idx
    {
      if i < n - 1 {
        assert i in prev;
      } else {
        assert idx[|idx| - 1] == i;
      }
    }
  }

  /** A task is selected exactly when it is one of the tasks and passes. */
  lemma {:induction false} SelectMembership(tasks: seq<Task>, n: nat, ok: Task -> bool, t: Task)
    requires n <= |tasks|
    ensures t in Select(tasks, n, ok) <==> t in tasks[..n] && ok(t)
  {
    if n > 0 {
      SelectMembership(tasks, n - 1, ok, t);
      assert tasks[..n] == tasks[..n - 1] + [tasks[n - 1]];
    }
  }

  lemma {:induction false} SelectAllPass(tasks: seq<Task>, n: nat, ok: Task -> bool)
    requires n <= |tasks|
    requires forall k :: 0 <= k < n ==> ok(tasks[k])
    ensures Select(tasks, n, ok) == tasks[..n]
  {
    if n > 0 {
      SelectAllPass(tasks, n - 1, ok);
      assert tasks[..n] == tasks[..n - 1] + [tasks[n - 1]];
    }
  }

  /** Selecting again with the same test changes nothing. */
  lemma SelectIdempotent(tasks: seq<Task>, ok: Task -> bool)
    ensures Select(Select(tasks, |tasks|, ok), |Select(tasks, |tasks|, ok)|, ok) == Select(tasks, |tasks|, ok)
  {
    var once := Select(tasks, |tasks|, ok);
    var idx := SelectIsSubsequence(tasks, |tasks|, ok);
    SelectAllPass(once, |once|, ok);
    assert once[..|once|] == once;
  }

  /** A task is kept exactly when it is one of the input tasks and is allowed. */
  lemma KeptMembership(tasks: seq<Task>, normalizedPeople: set<string>, spaces: set<string>, t: Task)
    ensures t in Kept(tasks, normalizedPeople, spaces) <==> t in tasks && Allowed(t, normalizedPeople, spaces)
  {
    SelectMembership(tasks, |tasks|, u => Allowed(u, normalizedPeople, spaces), t);
    assert tasks[..|tasks|] == tasks;
  }

  /** Filtering twice with the same lists is filtering once. */
  lemma KeptIdempotent(tasks: seq<Task>, normalizedPeople: set<string>, spaces: set<string>)
    ensures Kept(Kept(tasks, normalizedPeople, spaces), normalizedPeople, spaces) == Kept(tasks, normalizedPeople, spaces)
  {
    SelectIdempotent(tasks, t => Allowed(t, normalizedPeople, spaces));
  }

  /**
    Listing a person keeps, among the input tasks in a listed space, the tasks of every
    spelling of the name that normalises the same: differing only in accents, letter
    case or surrounding whitespace.
  */
  lemma ListedSpellingsKept(tasks: seq<Task>, t: Task, person: string, people: seq<string>, spaces: seq<string>)
    requires t in tasks && person in people && t.spaceName in spaces
    requires NormalizeName(t.assignee) == NormalizeName(person)
    ensures t in Kept(tasks, NormalizedPeople(people), set space | space in spaces)
  {
    var listed := set space | space in spaces;
    assert Allowed(t, NormalizedPeople(people), listed);
    KeptMembership(tasks, NormalizedPeople(people), listed, t);
  }
}
