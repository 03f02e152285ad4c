/**
  How one chat message is read as a Tasks notification: the marker that makes it one,
  the kind of lifecycle event, the task id taken from the thread name, the `@` mention,
  and the `task_id + "@" + assignee` key under which reassignments are collected.
*/
module Events {
  import opened Wrappers
  import opened Text

  /**
    A message as the Chat API returns it. A message without `text` is modelled with
    empty text, which both readers of the field treat the same way.
  */
  datatype Message = Message(text: string, createTime: string, threadName: string, senderName: Option<string>)

  datatype Kind = Created | Assigned | Completed | Deleted | Reopened | Unrecognised

  /** An event read from a notification. */
  datatype Event = Event(taskId: string, kind: Kind, assignee: string, createTime: string)

  /**
    The outcome of reading one message: not a notification, a notification whose thread
    name is too short to hold a task id (an `IndexError` in the source), or an event.
  */
  datatype Classified = NotATask | Malformed(threadName: string) | Notice(event: Event)

  /** The phrase the Tasks integration puts in its notifications. */
  const Marker := "via Tasks"

  const Unassigned := "Unassigned"

  predicate IsTaskNotice(m: Message) {
    Contains(m.text, Marker)
  }

  /** The `if`/`elif` chain: the first of the five phrases found decides. */
  function KindOf(text: string): Kind {
    if Contains(text, "Created") then Created
    else if Contains(text, "Assigned") then Assigned
    else if Contains(text, "Completed") then Completed
    else if Contains(text, "Deleted") then Deleted
    else if Contains(text, "Re-opened") then Reopened
    else Unrecognised
  }

  /** The phrases of the chain, in the order the chain tries them, and the kinds they give. */
  const Phrases: seq<string> := ["Created", "Assigned", "Completed", "Deleted", "Re-opened"]
  const Kinds: seq<Kind> := [Created, Assigned, Completed, Deleted, Reopened]

  /**
    A notification has the kind of phrase `i` exactly when it holds that phrase and none
    tried before it; so "Completed" wins over "Re-opened" in a text holding both.
  */
  lemma KindOfFirstMatch(text: string, i: nat)
    requires i < |Phrases|
    ensures KindOf(text) == Kinds[i] <==>
              Contains(text, Phrases[i]) && forall j :: 0 <= j < i ==> !Contains(text, Phrases[j])
  {
    if forall j :: 0 <= j < i ==> !Contains(text, Phrases[j]) {
      EarlierPhrasesAbsent(text, i);
    } else {
      var j :| 0 <= j < i && Contains(text, Phrases[j]);
      FirstPhraseFound(text, j);
    }
  }

  /** When none of the phrases before `i` occurs, the chain reaches phrase `i`. */
  lemma EarlierPhrasesAbsent(text: string, i: nat)
    requires i < |Phrases| && forall j :: 0 <= j < i ==> !Contains(text, Phrases[j])
    ensures KindOf(text) == Kinds[i] <==> Contains(text, Phrases[i])
  {
    if i > 0 { assert !Contains(text, Phrases[0]); }
    if i > 1 { assert !Contains(text, Phrases[1]); }
    if i > 2 { assert !Contains(text, Phrases[2]); }
    if i > 3 { assert !Contains(text, Phrases[3]); }
  }

  /** When phrase `j` occurs, the chain stops at a phrase no later than `j`. */
  lemma FirstPhraseFound(text: string, j: nat)
    requires j < |Phrases| && Contains(text, Phrases[j])
    ensures KindOf(text) != Unrecognised
    ensures forall i :: j < i < |Phrases| ==> KindOf(text) != Kinds[i]
  {
  }

  /** A notification holding none of the phrases has no recognised kind, and only then. */
  lemma KindOfUnrecognised(text: string)
    ensures KindOf(text) == Unrecognised <==> forall j :: 0 <= j < |Phrases| ==> !Contains(text, Phrases[j])
  {
    if forall j :: 0 <= j < |Phrases| ==> !Contains(text, Phrases[j]) {
      assert !Contains(text, Phrases[0]) && !Contains(text, Phrases[1]) && !Contains(text, Phrases[2]);
      assert !Contains(text, Phrases[3]) && !Contains(text, Phrases[4]);
    } else {
      var j :| 0 <= j < |Phrases| && Contains(text, Phrases[j]);
      FirstPhraseFound(text, j);
    }
  }

  /** `thread_name.split("/")[3]`, or nothing when there are fewer than four segments. */
  function ThreadTaskId(threadName: string): Option<string> {
    var segments := Split(threadName, '/');
    if |segments| >= 4 then Some(segments[3]) else None
  }

  /** `text.split("@")[1].split("(")[0].strip()`. */
  function MentionOf(text: string): string
    requires '@' in text
  {
    Strip(Split(Split(text, '@')[1], '(')[0])
  }

  /** The assignee as `get_tasks` reads it: the mention, or "Unassigned" without an `@`. */
  function TaskAssignee(text: string): string {
    if '@' in text then MentionOf(text) else Unassigned
  }

  /** The name `get_people` takes from a mention: it also cuts at the first " to". */
  function PeopleMention(text: string): string
    requires '@' in text
  {
    Strip(BeforeFirst(MentionOf(text), " to"))
  }

  function Classify(m: Message): Classified {
    if !IsTaskNotice(m) then NotATask
    else
      match ThreadTaskId(m.threadName)
      case None => Malformed(m.threadName)
      case Some(id) => Notice(Event(id, KindOf(m.text), TaskAssignee(m.text), m.createTime))
  }

  /** The key of a reassignment: `task_id + "@" + assignee`. */
  function Key(taskId: string, assignee: string): string {
    taskId + "@" + assignee
  }

  /** `key.split("@")[0]`. */
  function KeyId(key: string): string {
    Split(key, '@')[0]
  }

  /** `key.split("@")[1]`. */
  function KeyName(key: string): string
    requires '@' in key
  {
    Split(key, '@')[1]
  }

  /**
    The mention is the text between the first `@` (at `i`) and the next `@` or `(` or
    the end of the text (at `j`), with the surrounding whitespace stripped.
  */
  lemma MentionSpan(text: string) returns (i: nat, j: nat)
    requires '@' in text
    ensures i < j <= |text| && text[i] == '@' && '@' !in text[..i]
    ensures j == |text| || text[j] == '@' || text[j] == '('
    ensures '@' !in text[i + 1..j] && '(' !in text[i + 1..j]
    ensures MentionOf(text) == Strip(text[i + 1..j])
  {
    i := IndexOf(text, '@');
    var rest := text[i + 1..];
    assert Split(text, '@')[1] == Split(rest, '@')[0];
    var n1 := SplitFirstPiece(rest, '@');
    var piece := rest[..n1];
    var n2 := SplitFirstPiece(piece, '(');
    j := i + 1 + n2;
    assert piece[..n2] == text[i + 1..j];
    if n2 < n1 {
      assert text[j] == piece[n2];
    } else if n1 < |rest| {
      assert text[j] == rest[n1];
    }
    assert forall k :: 0 <= k < n2 ==> text[i + 1..j][k] == piece[k];
  }

  /**
    The assignee `get_tasks` records holds neither `@` nor `(`, has no surrounding
    whitespace, and is "Unassigned" exactly when the text has no `@` to read it from.
  */
  lemma TaskAssigneeShape(text: string)
    ensures '@' !in TaskAssignee(text) && '(' !in TaskAssignee(text)
    ensures IsStripped(TaskAssignee(text))
    ensures '@' !in text ==> TaskAssignee(text) == Unassigned
  {
    if '@' in text {
      var i, j := MentionSpan(text);
      ContainedChars(text[i + 1..j], MentionOf(text), '@');
      ContainedChars(text[i + 1..j], MentionOf(text), '(');
    }
  }

  /**
    The name `get_people` records holds no `@`, no `(` and no " to", has no surrounding
    whitespace, and is the `get_tasks` assignee whenever that holds no " to".
  */
  lemma PeopleMentionShape(text: string)
    requires '@' in text
    ensures '@' !in PeopleMention(text) && '(' !in PeopleMention(text)
    ensures !Contains(PeopleMention(text), " to")
    ensures IsStripped(PeopleMention(text))
    ensures !Contains(TaskAssignee(text), " to") ==> PeopleMention(text) == TaskAssignee(text)
  {
    TaskAssigneeShape(text);
    CutAtTo(MentionOf(text));
  }

  /**
    Cutting a name at the first " to" and stripping it keeps out what the name kept
    out, leaves no " to", and changes nothing in a stripped name without " to".
  */
  lemma CutAtTo(a: string)
    requires '@' !in a && '(' !in a
    ensures var p := Strip(BeforeFirst(a, " to"));
      '@' !in p && '(' !in p && !Contains(p, " to") && IsStripped(p)
      && (IsStripped(a) && !Contains(a, " to") ==> p == a)
  {
    var b := BeforeFirst(a, " to");
    var p := Strip(b);
    assert Contains(a, b) by { SliceContained(a, 0, |b|); assert a[0..|b|] == b; }
    ContainedChars(a, b, '@');
    ContainedChars(a, b, '(');
    ContainedChars(b, p, '@');
    ContainedChars(b, p, '(');
    if Contains(p, " to") {
      ContainsTransitive(b, p, " to");
    }
    if IsStripped(a) && !Contains(a, " to") {
      assert !OccursAt(a, " to", |b|);
      assert b == a;
      StripStripped(a);
    }
  }

  /** The key is split back into the id and the name, provided neither holds an `@`. */
  lemma KeyRoundTrip(taskId: string, assignee: string)
    requires '@' !in taskId && '@' !in assignee
    ensures '@' in Key(taskId, assignee)
    ensures Split(Key(taskId, assignee), '@') == [taskId, assignee]
    ensures KeyId(Key(taskId, assignee)) == taskId && KeyName(Key(taskId, assignee)) == assignee
  {
    JoinSplit([taskId, assignee], '@');
    assert Join([taskId, assignee], '@') == Key(taskId, assignee);
  }

  /**
    A task id that itself holds an `@` never matches the id read back from its own key,
    so a reassignment of such a task is never applied.
  */
  lemma KeyIdWithAt(taskId: string, assignee: string)
    requires '@' in taskId
    ensures KeyId(Key(taskId, assignee)) != taskId
  {
    var key := Key(taskId, assignee);
    var n := SplitFirstPiece(key, '@');
    var i := IndexOf(taskId, '@');
    assert key[i] == '@';
    assert forall k :: 0 <= k < n ==> key[..n][k] == key[k];
    assert n <= i;
  }

  /**
    A thread name made of slash-free segments yields its fourth segment, and nothing
    when it has fewer than four.
  */
  lemma ThreadTaskIdOfSegments(segments: seq<string>)
    requires |segments| >= 1
    requires forall k :: 0 <= k < |segments| ==> '/' !in segments[k]
    ensures ThreadTaskId(Join(segments, '/')) == if |segments| >= 4 then Some(segments[3]) else None
  {
    JoinSplit(segments, '/');
  }
}
