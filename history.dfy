/**
  The messages table and the history query of a private chat: the messages
  between exactly two users, in both directions, joined with the sender's
  username and ordered by timestamp, oldest first.
 */
module History {
  import opened Wrappers
  import opened Presence

  /** A row of `messages`; sentAt is the DEFAULT CURRENT_TIMESTAMP column, in seconds. */
  datatype Message = Message(id: nat, sender: int, receiver: int, body: string, sentAt: int)

  /** One element of the load_messages payload: {"sender", "body"}. */
  datatype HistoryEntry = HistoryEntry(sender: string, body: string)

  /** The WHERE clause: (sender, receiver) is (a, b) or (b, a). */
  predicate InPair(m: Message, a: int, b: int)
    ensures InPair(m, a, b) <==> {m.sender, m.receiver} == {a, b}
  {
    (m.sender == a && m.receiver == b) || (m.sender == b && m.receiver == a)
  }

  /** The username of the row with the given id, if any (the JOIN on users). */
  function LookupUsername(users: seq<UserRow>, id: int): (r: Option<string>)
    ensures r.Some? <==> HasId(users, id)
    ensures r.Some? ==> exists i | 0 <= i < |users| :: users[i].id == id && users[i].username == r.value
    decreases |users|
  {
    if users == [] then None
    else if users[0].id == id then Some(users[0].username)
    else
      var r := LookupUsername(users[1..], id);
      assert forall i | 0 <= i < |users[1..]| :: users[1..][i] == users[i + 1];
      r
  }

  predicate KnownSender(users: seq<UserRow>, m: Message) {
    LookupUsername(users, m.sender).Some?
  }

  /** The username the JOIN pairs with the message: that of a user row with the sender's id. */
  function SenderName(users: seq<UserRow>, m: Message): (name: string)
    requires KnownSender(users, m)
    ensures exists j | 0 <= j < |users| :: users[j].id == m.sender && users[j].username == name
  {
    LookupUsername(users, m.sender).value
  }

  /** The rows the query selects, in table order, before sorting. */
  function PairMessages(users: seq<UserRow>, log: seq<Message>, a: int, b: int): (r: seq<Message>)
    ensures forall m :: m in r <==> m in log && InPair(m, a, b) && KnownSender(users, m)
    ensures |r| <= |log|
    decreases |log|
  {
    if log == [] then []
    else
      var m := log[|log| - 1];
      var rest := PairMessages(users, log[..|log| - 1], a, b);
      assert log == log[..|log| - 1] + [m];
      if InPair(m, a, b) && KnownSender(users, m) then rest + [m] else rest
  }

  predicate SortedByTime(s: seq<Message>) {
    forall i, j | 0 <= i < j < |s| :: s[i].sentAt <= s[j].sentAt
  }

  lemma ConsSorted(x: Message, s: seq<Message>)
    requires SortedByTime(s)
    requires s != [] ==> x.sentAt <= s[0].sentAt
    ensures SortedByTime([x] + s)
  {
    var r := [x] + s;
    forall i, j | 0 <= i < j < |r| ensures r[i].sentAt <= r[j].sentAt {
      if i == 0 && j > 1 {
        assert r[j] == s[j - 1];
      }
    }
  }

  /** Inserts m before the first element that is not earlier than it. */
  function InsertByTime(m: Message, s: seq<Message>): (r: seq<Message>)
    requires SortedByTime(s)
    ensures SortedByTime(r)
    ensures multiset(r) == multiset(s) + multiset{m}
    ensures |r| == |s| + 1 && (r[0] == m || (s != [] && r[0] == s[0]))
    decreases |s|
  {
    if s == [] || m.sentAt <= s[0].sentAt then
      ConsSorted(m, s);
      [m] + s
    else
      var rest := InsertByTime(m, s[1..]);
      assert s == [s[0]] + s[1..];
      ConsSorted(s[0], rest);
      [s[0]] + rest
  }

  /** ORDER BY timestamp ASC; equal timestamps keep table order. */
  function SortByTime(s: seq<Message>): (r: seq<Message>)
    ensures SortedByTime(r)
    ensures multiset(r) == multiset(s)
    decreases |s|
  {
    if s == [] then []
    else
      assert s == [s[0]] + s[1..];
      InsertByTime(s[0], SortByTime(s[1..]))
  }

  /** The messages the history query returns for (a, b). */
  function PairHistory(users: seq<UserRow>, log: seq<Message>, a: int, b: int): (r: seq<Message>)
    ensures SortedByTime(r)
    ensures multiset(r) == multiset(PairMessages(users, log, a, b))
    ensures forall m :: m in r <==> m in log && InPair(m, a, b) && KnownSender(users, m)
    ensures forall i | 0 <= i < |r| :: InPair(r[i], a, b) && KnownSender(users, r[i])
  {
    var r := SortByTime(PairMessages(users, log, a, b));
    assert forall m :: m in r <==> m in multiset(r);
    assert forall i | 0 <= i < |r| :: r[i] in r;
    r
  }

  /** The payload of load_messages: each selected message as its sender's username and body. */
  function Transcript(users: seq<UserRow>, msgs: seq<Message>): (r: seq<HistoryEntry>)
    requires forall i | 0 <= i < |msgs| :: KnownSender(users, msgs[i])
    ensures |r| == |msgs|
    ensures forall i | 0 <= i < |msgs| ::
              && r[i].body == msgs[i].body
              && exists j | 0 <= j < |users| :: users[j].id == msgs[i].sender && users[j].username == r[i].sender
  {
    seq(|msgs|, i requires 0 <= i < |msgs| => HistoryEntry(SenderName(users, msgs[i]), msgs[i].body))
  }

  lemma {:induction false} PairMessagesSymmetric(users: seq<UserRow>, log: seq<Message>, a: int, b: int)
    ensures PairMessages(users, log, a, b) == PairMessages(users, log, b, a)
    decreases |log|
  {
    if log != [] {
      PairMessagesSymmetric(users, log[..|log| - 1], a, b);
    }
  }

  /** Both users of a pair get the same history. */
  lemma PairHistorySymmetric(users: seq<UserRow>, log: seq<Message>, a: int, b: int)
    ensures PairHistory(users, log, a, b) == PairHistory(users, log, b, a)
  {
    PairMessagesSymmetric(users, log, a, b);
  }

  lemma {:induction false} SortByTimeKeepsSorted(s: seq<Message>)
    requires SortedByTime(s)
    ensures SortByTime(s) == s
    decreases |s|
  {
    if s != [] {
      SortByTimeKeepsSorted(s[1..]);
      assert s == [s[0]] + s[1..];
    }
  }

  /** No two messages share a timestamp, and the timestamps rise along the sequence. */
  predicate StrictlyByTime(s: seq<Message>) {
    forall i, j | 0 <= i < j < |s| :: s[i].sentAt < s[j].sentAt
  }

  /** A sorted rearrangement of a strictly ordered sequence starts with the same message. */
  lemma SortedPermutationHead(r: seq<Message>, s: seq<Message>)
    requires StrictlyByTime(s) && SortedByTime(r) && multiset(r) == multiset(s) && s != []
    ensures r != [] && r[0] == s[0]
  {
    assert s[0] in multiset(r);
    assert r != [];
    assert r[0] in multiset(s);
    var k :| 0 <= k < |s| && s[k] == r[0];
    var m :| 0 <= m < |r| && r[m] == s[0];
    assert r[0].sentAt <= r[m].sentAt;
  }

  /** Dropping the common first message keeps the two sequences rearrangements of each other. */
  lemma PermutationTail(r: seq<Message>, s: seq<Message>)
    requires r != [] && s != [] && r[0] == s[0] && multiset(r) == multiset(s)
    ensures multiset(r[1..]) == multiset(s[1..])
  {
    assert r == [r[0]] + r[1..];
    assert multiset(r) == multiset{r[0]} + multiset(r[1..]);
    assert s == [s[0]] + s[1..];
    assert multiset(s) == multiset{s[0]} + multiset(s[1..]);
    assert multiset(r[1..]) == multiset(r) - multiset{r[0]};
    assert multiset(s[1..]) == multiset(s) - multiset{s[0]};
  }

  /** A sequence with strictly increasing timestamps is the only sorted order of its
      elements: ORDER BY has no ties to break. */
  lemma {:induction false} SortedPermutationUnique(r: seq<Message>, s: seq<Message>)
    requires StrictlyByTime(s) && SortedByTime(r) && multiset(r) == multiset(s)
    ensures r == s
    decreases |s|
  {
    if s == [] {
      assert |r| == |multiset(r)|;
    } else {
      SortedPermutationHead(r, s);
      PermutationTail(r, s);
      SortedPermutationUnique(r[1..], s[1..]);
      assert r == [r[0]] + r[1..];
      assert s == [s[0]] + s[1..];
    }
  }

  lemma StrictSnoc(s: seq<Message>, m: Message)
    requires StrictlyByTime(s)
    requires forall x | x in s :: x.sentAt < m.sentAt
    ensures StrictlyByTime(s + [m])
  {
  }

  lemma {:induction false} PairMessagesOfStrict(users: seq<UserRow>, log: seq<Message>, a: int, b: int)
    requires StrictlyByTime(log)
    ensures StrictlyByTime(PairMessages(users, log, a, b))
    decreases |log|
  {
    if log != [] {
      var init, m := log[..|log| - 1], log[|log| - 1];
      assert StrictlyByTime(init);
      PairMessagesOfStrict(users, init, a, b);
      var rest := PairMessages(users, init, a, b);
      if InPair(m, a, b) && KnownSender(users, m) {
        assert forall x | x in init :: x.sentAt < m.sentAt by {
          forall x | x in init ensures x.sentAt < m.sentAt {
            var k :| 0 <= k < |init| && init[k] == x;
            assert log[k] == x;
          }
        }
        StrictSnoc(rest, m);
      }
    }
  }

  /** When no two messages share a timestamp and timestamps rise with the inserts,
      the history of a pair is its messages in the order they were sent, whatever
      order ORDER BY gives to ties. */
  lemma PairHistoryInSendOrder(users: seq<UserRow>, log: seq<Message>, a: int, b: int)
    requires StrictlyByTime(log)
    ensures PairHistory(users, log, a, b) == PairMessages(users, log, a, b)
  {
    PairMessagesOfStrict(users, log, a, b);
    SortedPermutationUnique(PairHistory(users, log, a, b), PairMessages(users, log, a, b));
  }

  /** Appending a message adds it to the history of its own pair, and of no other pair. */
  lemma AppendExtendsHistory(users: seq<UserRow>, log: seq<Message>, m: Message, a: int, b: int)
    ensures multiset(PairHistory(users, log + [m], a, b))
            == multiset(PairHistory(users, log, a, b))
               + (if InPair(m, a, b) && KnownSender(users, m) then multiset{m} else multiset{})
  {
    var all := log + [m];
    assert all[..|all| - 1] == log;
  }
}
