/**
  `get_people`: the names of the people seen in the spaces of type SPACE, from the
  senders of the messages and from the "@" mentions in task notifications.
*/
module People {
  import opened Wrappers
  import opened Text
  import opened Events

  /** The only space type `get_people` reads. */
  const SpaceType := "SPACE"

  /** A space as `get_people` uses it: its type and the messages fetched for it. */
  datatype Space = Space(spaceType: Option<string>, messages: seq<Message>)

  /** The sender names of the first `n` messages that have one. */
  function SenderNames(ms: seq<Message>, n: nat): set<string>
    requires n <= |ms|
  {
    set i | 0 <= i < n && ms[i].senderName.Some? :: ms[i].senderName.value
  }

  /** The names mentioned in the task notifications among the first `n` messages, cut at the first " to". */
  function MentionedNames(ms: seq<Message>, n: nat): set<string>
    requires n <= |ms|
  {
    set i | 0 <= i < n && IsTaskNotice(ms[i]) && '@' in ms[i].text :: PeopleMention(ms[i].text)
  }

  /** The name a task notification's text mentions, if it has an "@". */
  function MentionIn(text: string): set<string> {
    if '@' in text then {PeopleMention(text)} else {}
  }

  /** What one message contributes: its sender's name and, for a task notification, the mentioned name. */
  function NamesOf(m: Message): set<string> {
    (if m.senderName.Some? then {m.senderName.value} else {})
    + (if IsTaskNotice(m) then MentionIn(m.text) else {})
  }

  /** The names the first `n` messages contribute, message by message. */
  function NamesUpTo(ms: seq<Message>, n: nat): set<string>
    requires n <= |ms|
  {
    if n == 0 then {} else NamesUpTo(ms, n - 1) + NamesOf(ms[n - 1])
  }

  function NamesIn(ms: seq<Message>): set<string> {
    NamesUpTo(ms, |ms|)
  }

  lemma SenderNamesStep(ms: seq<Message>, n: nat, x: string)
    requires 0 < n <= |ms|
    ensures x in SenderNames(ms, n) <==> x in SenderNames(ms, n - 1) || ms[n - 1].senderName == Some(x)
  {
    if x in SenderNames(ms, n) && ms[n - 1].senderName != Some(x) {
      var i :| 0 <= i < n && ms[i].senderName.Some? && ms[i].senderName.value == x;
      assert i < n - 1;
    }
  }

  lemma MentionedNamesStep(ms: seq<Message>, n: nat, x: string)
    requires 0 < n <= |ms|
    ensures x in MentionedNames(ms, n) <==>
              x in MentionedNames(ms, n - 1) || MentionsAt(ms, n - 1, x)
  {
    if x in MentionedNames(ms, n) {
      var i :| 0 <= i < n && IsTaskNotice(ms[i]) && '@' in ms[i].text && x == PeopleMention(ms[i].text);
      if i < n - 1 {
        assert x in MentionedNames(ms, n - 1);
      }
    }
    if x in MentionedNames(ms, n - 1) {
      var i :| 0 <= i < n - 1 && IsTaskNotice(ms[i]) && '@' in ms[i].text && x == PeopleMention(ms[i].text);
      assert x in MentionedNames(ms, n);
    }
    if MentionsAt(ms, n - 1, x) {
      assert x in MentionedNames(ms, n);
    }
  }

  /** Message `i` is a task notification whose text mentions `x`. */
  predicate MentionsAt(ms: seq<Message>, i: nat, x: string)
    requires i < |ms|
  {
    IsTaskNotice(ms[i]) && '@' in ms[i].text && x == PeopleMention(ms[i].text)
  }

  lemma NamesOfMember(ms: seq<Message>, i: nat, x: string)
    requires i < |ms|
    ensures x in NamesOf(ms[i]) <==> ms[i].senderName == Some(x) || MentionsAt(ms, i, x)
  {
    var m := ms[i];
    var sender := if m.senderName.Some? then {m.senderName.value} else {};
    var mention := if IsTaskNotice(m) then MentionIn(m.text) else {};
    assert x in NamesOf(m) <==> x in sender || x in mention;
    assert x in sender <==> m.senderName == Some(x);
    assert x in mention <==> MentionsAt(ms, i, x);
  }

  /** A name is collected from the first `n` messages exactly when one of them sent it or mentions it. */
  lemma {:induction false} NamesMember(ms: seq<Message>, n: nat, x: string)
    requires n <= |ms|
    ensures x in NamesUpTo(ms, n) <==> x in SenderNames(ms, n) || x in MentionedNames(ms, n)
  {
    if n > 0 {
      NamesMember(ms, n - 1, x);
      SenderNamesStep(ms, n, x);
      MentionedNamesStep(ms, n, x);
      NamesOfMember(ms, n - 1, x);
    }
  }

  /** The names of a space are its senders' names together with the names mentioned in its task notifications. */
  lemma NamesAreSendersAndMentions(ms: seq<Message>, n: nat)
    requires n <= |ms|
    ensures NamesUpTo(ms, n) == SenderNames(ms, n) + MentionedNames(ms, n)
  {
    forall x ensures x in NamesUpTo(ms, n) <==> x in SenderNames(ms, n) + MentionedNames(ms, n) {
      NamesMember(ms, n, x);
    }
  }

  /** The body of the loop over the messages: what one message adds to `people`. */
  method AddNamesOf(people: set<string>, message: Message) returns (result: set<string>)
    ensures result == people + NamesOf(message)
  {
    result := people;
    if message.senderName.Some? {
      result := result + {message.senderName.value};
    }
    if Contains(message.text, Marker) {
      var text := message.text;
      if '@' in text {
        var assignee := Strip(Split(Split(text, '@')[1], '(')[0]);
        assignee := Strip(BeforeFirst(assignee, " to"));
        result := result + {assignee};
      }
    }
  }

  lemma UnionAssociates<T>(a: set<T>, b: set<T>, c: set<T>)
    ensures a + b + c == a + (b + c)
  {
  }

  /** The loop over the messages of one space, adding to `people`. */
  method AddPeopleOf(people: set<string>, messages: seq<Message>) returns (result: set<string>)
    ensures result == people + NamesIn(messages)
  {
    result := people;
    var n := 0;
    while n < |messages|
      invariant 0 <= n <= |messages|
      invariant result == people + NamesUpTo(messages, n)
    {
      result := AddNamesOf(result, messages[n]);
      UnionAssociates(people, NamesUpTo(messages, n), NamesOf(messages[n]));
      n := n + 1;
    }
  }

  /** The names from the spaces of type SPACE among the first `n`. */
  function PeopleUpTo(spaces: seq<Space>, n: nat): set<string>
    requires n <= |spaces|
  {
    if n == 0 then {}
    else if spaces[n - 1].spaceType == Some(SpaceType) then PeopleUpTo(spaces, n - 1) + NamesIn(spaces[n - 1].messages)
    else PeopleUpTo(spaces, n - 1)
  }

  /** The outer loop over the spaces; any space not of type SPACE is skipped. */
  method GetPeople(spaces: seq<Space>) returns (people: set<string>)
    ensures people == PeopleUpTo(spaces, |spaces|)
  {
    people := {};
    var n := 0;
    while n < |spaces|
      invariant 0 <= n <= |spaces|
      invariant people == PeopleUpTo(spaces, n)
    {
      var space := spaces[n];
      if space.spaceType == Some(SpaceType) {
        people := AddPeopleOf(people, space.messages);
      }
      n := n + 1;
    }
  }

  /**
    Every name from a mention has no "@", "(" or " to" and no surrounding whitespace.
  */
  lemma MentionedNamesShape(ms: seq<Message>)
    ensures forall name :: name in MentionedNames(ms, |ms|) ==>
              '@' !in name && '(' !in name && !Contains(name, " to") && IsStripped(name)
  {
    forall name | name in MentionedNames(ms, |ms|)
      ensures '@' !in name && '(' !in name && !Contains(name, " to") && IsStripped(name)
    {
      var i :| 0 <= i < |ms| && IsTaskNotice(ms[i]) && '@' in ms[i].text && name == PeopleMention(ms[i].text);
      PeopleMentionShape(ms[i].text);
    }
  }

  /**
    The assignee `get_tasks` gives a task notification with a mention is one of the
    people, unless it holds " to", which `get_people` cuts off and `get_tasks` keeps.
  */
  lemma AssigneesArePeople(ms: seq<Message>, i: nat)
    requires i < |ms| && Classify(ms[i]).Notice? && '@' in ms[i].text
    requires !Contains(Classify(ms[i]).event.assignee, " to")
    ensures Classify(ms[i]).event.assignee in NamesIn(ms)
  {
    MentionIncluded(ms, i);
    assert Classify(ms[i]).event.assignee == TaskAssignee(ms[i].text);
    PeopleMentionShape(ms[i].text);
  }

  /** The mention `get_people` takes from a task notification is among the names collected. */
  lemma MentionIncluded(ms: seq<Message>, i: nat)
    requires i < |ms| && IsTaskNotice(ms[i]) && '@' in ms[i].text
    ensures PeopleMention(ms[i].text) in NamesIn(ms)
  {
    var text := ms[i].text;
    assert PeopleMention(text) in MentionIn(text);
    assert PeopleMention(text) in NamesOf(ms[i]);
    NamesOfIncluded(ms, |ms|, i);
  }

  lemma {:induction false} NamesOfIncluded(ms: seq<Message>, n: nat, i: nat)
    requires i < n <= |ms|
    ensures NamesOf(ms[i]) <= NamesUpTo(ms, n)
  {
    if i < n - 1 {
      NamesOfIncluded(ms, n - 1, i);
    }
  }
}
