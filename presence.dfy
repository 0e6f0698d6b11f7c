/**
  The users table as far as presence is concerned, the UPDATE of
  last_active, and the peer list built by the index page: every other user
  with an online flag that is true when their last activity lies less than
  120 seconds before now.
 */
module Presence {
  import opened Wrappers
  import opened Timestamps

  /** A row of `users` without the password hash; last_active is NULL or the stored text. */
  datatype UserRow = UserRow(id: int, username: string, lastActive: Option<string>)

  /** One element of user_list: {"id", "username", "online"}. */
  datatype PeerEntry = PeerEntry(id: int, username: string, online: bool)

  /** The online window, 120 seconds, in microseconds. */
  const OnlineWindow: int := 120_000_000

  /** `id` is the table's primary key. */
  predicate DistinctIds(rows: seq<UserRow>) {
    forall i, j | 0 <= i < j < |rows| :: rows[i].id != rows[j].id
  }

  predicate HasId(rows: seq<UserRow>, id: int) {
    exists i | 0 <= i < |rows| :: rows[i].id == id
  }

  /** The online flag of one row: NULL or empty text is offline; other text must
      parse (its error propagates); then online when now - last_active < 120 s. */
  function IsOnline(lastActive: Option<string>, now: int): (r: Result<bool, TimestampError>)
    ensures r.Err? <==> lastActive.Some? && lastActive.value != "" && ParseLastActive(lastActive.value).Err?
    ensures r.Err? ==> r.error == Malformed(lastActive.value)
    ensures r == Ok(true) <==>
              && lastActive.Some? && ParseLastActive(lastActive.value).Ok?
              && now - ToInstant(ParseLastActive(lastActive.value).value) < OnlineWindow
  {
    if lastActive.None? || lastActive.value == "" then Ok(false)
    else
      match ParseLastActive(lastActive.value)
      case Err(e) => Err(e)
      case Ok(t) => Ok(now - ToInstant(t) < OnlineWindow)
  }

  /** SELECT id, username, last_active FROM users WHERE id != me, in row order. */
  function SelectOthers(rows: seq<UserRow>, me: int): (r: seq<UserRow>)
    ensures forall u :: u in r <==> u in rows && u.id != me
    decreases |rows|
  {
    if rows == [] then []
    else
      var rest := SelectOthers(rows[..|rows| - 1], me);
      var u := rows[|rows| - 1];
      assert rows == rows[..|rows| - 1] + [u];
      if u.id != me then rest + [u] else rest
  }

  lemma LastIdIsNew(rows: seq<UserRow>)
    requires rows != [] && DistinctIds(rows)
    ensures forall x | x in rows[..|rows| - 1] :: x.id != rows[|rows| - 1].id
  {
    var init := rows[..|rows| - 1];
    forall x | x in init ensures x.id != rows[|rows| - 1].id {
      var j :| 0 <= j < |init| && init[j] == x;
      assert rows[j] == x;
    }
  }

  lemma AppendDistinct(rest: seq<UserRow>, u: UserRow)
    requires DistinctIds(rest)
    requires forall x | x in rest :: x.id != u.id
    ensures DistinctIds(rest + [u])
  {
    var all := rest + [u];
    forall i, j | 0 <= i < j < |all| ensures all[i].id != all[j].id {
      if j == |rest| {
        assert all[i] in rest;
      } else {
        assert all[i] == rest[i] && all[j] == rest[j];
      }
    }
  }

  /** With unique ids the query returns each other user exactly once: one row
      fewer than the table when the current user has a row. */
  lemma {:induction false} SelectOthersExact(rows: seq<UserRow>, me: int)
    requires DistinctIds(rows)
    ensures DistinctIds(SelectOthers(rows, me))
    ensures |SelectOthers(rows, me)| == |rows| - (if HasId(rows, me) then 1 else 0)
    decreases |rows|
  {
    if rows != [] {
      var init := rows[..|rows| - 1];
      var u := rows[|rows| - 1];
      assert DistinctIds(init);
      SelectOthersExact(init, me);
      LastIdIsNew(rows);
      var rest := SelectOthers(init, me);
      assert HasId(rows, me) <==> HasId(init, me) || u.id == me by {
        if HasId(rows, me) && u.id != me {
          var j :| 0 <= j < |rows| && rows[j].id == me;
          assert init[j] == rows[j];
        }
        if HasId(init, me) {
          var j :| 0 <= j < |init| && init[j].id == me;
          assert rows[j] == init[j];
        }
      }
      if u.id != me {
        AppendDistinct(rest, u);
      }
    }
  }

  /** The user_list the loop of the index page builds from the fetched rows; the
      first row whose timestamp does not parse aborts the listing with its error. */
  function PeerList(rows: seq<UserRow>, now: int): (r: Result<seq<PeerEntry>, TimestampError>)
    ensures r.Ok? ==> |r.value| == |rows|
    ensures r.Ok? ==> forall i | 0 <= i < |rows| :: r.value[i].id == rows[i].id && r.value[i].username == rows[i].username
    decreases |rows|
  {
    if rows == [] then Ok([])
    else
      match PeerList(rows[..|rows| - 1], now)
      case Err(e) => Err(e)
      case Ok(acc) =>
        var u := rows[|rows| - 1];
        match IsOnline(u.lastActive, now)
        case Err(e) => Err(e)
        case Ok(online) => Ok(acc + [PeerEntry(u.id, u.username, online)])
  }

  lemma {:induction false} PeerListErrorPersists(rows: seq<UserRow>, more: seq<UserRow>, now: int)
    requires PeerList(rows, now).Err?
    ensures PeerList(rows + more, now) == PeerList(rows, now)
    decreases |more|
  {
    if more != [] {
      var all := rows + more;
      assert all[..|all| - 1] == rows + more[..|more| - 1];
      PeerListErrorPersists(rows, more[..|more| - 1], now);
    } else {
      assert rows + more == rows;
    }
  }

  /** The loop of the index page over the fetched rows. */
  method ListPeers(rows: seq<UserRow>, now: int) returns (r: Result<seq<PeerEntry>, TimestampError>)
    ensures r == PeerList(rows, now)
  {
    var userList: seq<PeerEntry> := [];
    var i := 0;
    while i < |rows|
      invariant 0 <= i <= |rows|
      invariant PeerList(rows[..i], now) == Ok(userList)
    {
      var u := rows[i];
      assert rows[..i + 1][..i] == rows[..i];
      var online := IsOnline(u.lastActive, now);
      if online.Err? {
        PeerListErrorPersists(rows[..i + 1], rows[i + 1..], now);
        assert rows[..i + 1] + rows[i + 1..] == rows;
        return Err(online.error);
      }
      userList := userList + [PeerEntry(u.id, u.username, online.value)];
      i := i + 1;
    }
    assert rows[..i] == rows;
    r := Ok(userList);
  }

  /** The listing succeeds exactly when every row's timestamp is absent, empty or parses. */
  lemma {:induction false} PeerListSucceedsIff(rows: seq<UserRow>, now: int)
    ensures PeerList(rows, now).Ok? <==> forall i | 0 <= i < |rows| :: IsOnline(rows[i].lastActive, now).Ok?
    decreases |rows|
  {
    if rows != [] {
      var init := rows[..|rows| - 1];
      PeerListSucceedsIff(init, now);
      assert forall i | 0 <= i < |init| :: init[i] == rows[i];
    }
  }

  /** A successful listing carries each row's online flag at that row's position. */
  lemma {:induction false} PeerListEntries(rows: seq<UserRow>, now: int)
    requires PeerList(rows, now).Ok?
    ensures forall i | 0 <= i < |rows| :: IsOnline(rows[i].lastActive, now) == Ok(PeerList(rows, now).value[i].online)
    decreases |rows|
  {
    if rows != [] {
      var init := rows[..|rows| - 1];
      PeerListEntries(init, now);
      assert forall i | 0 <= i < |init| :: init[i] == rows[i];
    }
  }

  /** When the listing fails, the error is that of the first row whose timestamp does not parse. */
  lemma {:induction false} PeerListFirstError(rows: seq<UserRow>, now: int)
    requires PeerList(rows, now).Err?
    ensures exists k | 0 <= k < |rows| ::
              && IsOnline(rows[k].lastActive, now) == Err(PeerList(rows, now).error)
              && forall i | 0 <= i < k :: IsOnline(rows[i].lastActive, now).Ok?
    decreases |rows|
  {
    var init := rows[..|rows| - 1];
    var k := |rows| - 1;
    if PeerList(init, now).Err? {
      PeerListFirstError(init, now);
      var j :| 0 <= j < |init| && IsOnline(init[j].lastActive, now) == Err(PeerList(init, now).error)
               && forall i | 0 <= i < j :: IsOnline(init[i].lastActive, now).Ok?;
      assert rows[j] == init[j];
      assert forall i | 0 <= i < j :: rows[i] == init[i];
    } else {
      PeerListSucceedsIff(init, now);
      assert forall i | 0 <= i < k :: rows[i] == init[i];
    }
  }

  /** A user whose stored last_active is a written datetime t is online exactly when
      now - t < 120 s: the text always parses, so the flag never errors. */
  lemma OnlineAfterWrite(t: DateTime, now: int)
    requires ValidDateTime(t)
    ensures IsOnline(Some(FormatDateTime(t)), now) == Ok(now - ToInstant(t) < OnlineWindow)
  {
    FormatParseRoundTrip(t);
  }

  /** The window is strict: 119 seconds after the write is online, 120 seconds is offline. */
  lemma OnlineWindowEdges(t: DateTime)
    requires ValidDateTime(t)
    ensures IsOnline(Some(FormatDateTime(t)), ToInstant(t) + 119_000_000) == Ok(true)
    ensures IsOnline(Some(FormatDateTime(t)), ToInstant(t) + 120_000_000) == Ok(false)
    ensures IsOnline(None, ToInstant(t)) == Ok(false) && IsOnline(Some(""), ToInstant(t)) == Ok(false)
  {
    OnlineAfterWrite(t, ToInstant(t) + 119_000_000);
    OnlineAfterWrite(t, ToInstant(t) + 120_000_000);
  }

  /** UPDATE users SET last_active = stamp WHERE id = id: rows with another id are
      untouched and nothing is inserted when no row has the id. */
  function SetLastActive(rows: seq<UserRow>, id: int, stamp: string): (r: seq<UserRow>)
    ensures |r| == |rows|
    ensures forall i | 0 <= i < |rows| ::
              && r[i].id == rows[i].id && r[i].username == rows[i].username
              && r[i].lastActive == (if rows[i].id == id then Some(stamp) else rows[i].lastActive)
    decreases |rows|
  {
    if rows == [] then []
    else
      var u := rows[|rows| - 1];
      SetLastActive(rows[..|rows| - 1], id, stamp)
        + [if u.id == id then UserRow(u.id, u.username, Some(stamp)) else u]
  }

  lemma SetLastActiveKeepsIds(rows: seq<UserRow>, id: int, stamp: string)
    requires DistinctIds(rows)
    ensures DistinctIds(SetLastActive(rows, id, stamp))
  {
    var r := SetLastActive(rows, id, stamp);
    assert forall i | 0 <= i < |rows| :: r[i].id == rows[i].id;
  }

  /** After update_last_active(id) at time t, that user reads as online for the next 120 s. */
  lemma {:induction false} TouchedUserIsOnline(rows: seq<UserRow>, id: int, t: DateTime, elapsed: int)
    requires ValidDateTime(t)
    ensures forall u | u in SetLastActive(rows, id, FormatDateTime(t)) && u.id == id ::
              IsOnline(u.lastActive, ToInstant(t) + elapsed) == Ok(elapsed < OnlineWindow)
  {
    OnlineAfterWrite(t, ToInstant(t) + elapsed);
  }
}
