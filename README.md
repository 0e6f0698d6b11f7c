# Private chat engine: a verified model

This project models the private-chat core of a Flask + Socket.IO chat
server (`app.py`). It covers four pieces:

- **Room identity.** Two users talk in the room `room_<min>_<max>`. Both the
  join handler and the send handler build this name from the two integer ids.
- **Activity timestamps.** `update_last_active` and registration store
  `datetime.now()` in `users.last_active`. sqlite3's default adapter writes it
  as `isoformat(" ")`. The index page reads the text back with a fallback
  chain of three parsers: `fromisoformat`, then `strptime` with `%f`, then
  `strptime` without a fraction.
- **Presence listing.** The index page lists every other user. A user is
  online when their last activity is less than 120 seconds before now.
- **Message store and dispatch.** `send_message` inserts the row and then
  emits it to the pair's room. `join_chat` joins the room and sends back the
  pair's history, in both directions, oldest first.

Modules, one per file:

| file | module | what it holds |
|---|---|---|
| `wrappers.dfy` | `Wrappers` | `Option` and `Result` |
| `decimal.dfy` | `Decimal` | Python's `str(int)` and its inverse, fixed-width zero padding |
| `rooms.dfy` | `Rooms` | `RoomName` and a parser for room names |
| `timestamps.dfy` | `Timestamps` | `DateTime`, its instant in microseconds, the stored text and the three parsers |
| `presence.dfy` | `Presence` | user rows, the online flag, the peer list (a loop, as in the source), the `UPDATE` of `last_active` |
| `history.dfy` | `History` | message rows, the pair query and its `ORDER BY` |
| `chat.dfy` | `Chat` | the server state as a class: tables, joins and emits, and the handlers as methods |

Inputs that come from outside the program are parameters:

- the clock (`now`, `touchedAt`, `sentAt`);
- the logged-in user (`Principal`);
- whether the sqlite write succeeds (`writeSucceeds`).

Socket.IO delivery is modelled as the server's log of `JoinedRoom`,
`LoadMessages` and `ReceiveMessage` events.

The server's invariant, `Chat.ChatServer.Valid` (the predicate `Chat.Consistent` on its fields), says three things:

- user ids are unique;
- message ids are 1, 2, 3, … in insertion order;
- every emitted `receive_message` carries a row that was stored before it,
  and is sent to that row's room with that row's body. A ghost sequence
  records, for each event, the number of rows stored when it was emitted.

The third point is the property "emit only after insert". The handlers are
modelled as running one at a time (see "## Left out"). In the model, the row
an emit carries is therefore also the last row stored when the emit happens.

## Model

| member | source | states |
|---|---|---|
| Decimal.IntToStringRoundTrip | app.py:149 | reading back the decimal text that `str()` gives an id returns the same id, negative ids included; the text has only digits and '-' |
| Rooms.RoomName | app.py:149 | the room name starts with "room_" and is followed by two decimal ids and a separator; RoomNameRoundTrip shows what it encodes |
| Rooms.RoomNameSymmetric | app.py:149 | room_{min}_{max} does not depend on which of the two users builds it |
| Rooms.RoomNameRoundTrip | app.py:170 | a room name can be parsed back into exactly (min(a,b), max(a,b)), also when a == b |
| Rooms.RoomNameInjective | app.py:149 | two pairs share a room name only when they are the same unordered pair |
| Rooms.RoomNameExample | app.py:149 | users 1 and 2 share "room_1_2" whichever one builds it; a user paired with themself gets "room_7_7" (no self-pair rejection) |
| Timestamps.FormatDateTime | app.py:65 | the stored text of datetime.now() is 19 characters, or 26 when it has a microsecond part |
| Timestamps.FormatParseRoundTrip | app.py:65 | the parsing chain reads every stored timestamp back as the same datetime |
| Timestamps.ParseLastActive | app.py:86-92 | the parsers are tried in the source's order; the result is a valid datetime, or the ValueError of the last parser, abstracted as `Malformed(s)` for the text s |
| Timestamps.ParseFailsIff | app.py:86-92 | for the fixed-width text modelled, the chain raises exactly when neither fromisoformat nor strptime with %f accepts it; on such text strptime without a fraction never rescues a text |
| Timestamps.ParseIso | app.py:87 | fromisoformat accepts only 19-, 23- or 26-character text and yields a valid datetime; without a fraction the microsecond is 0, a 3-digit fraction gives whole milliseconds (agreement with the other parsers is in PlainSubsumedByIso and IsoAndFractionAgree) |
| Timestamps.ParseWithFraction | app.py:90 | strptime with %f accepts only 21 to 26 characters with a space at index 10 and a '.' at index 19, and yields a valid datetime (agreement with fromisoformat is in IsoAndFractionAgree) |
| Timestamps.ParsePlain | app.py:92 | strptime without a fraction accepts only 19 characters with a space at index 10, and yields a valid datetime with microsecond 0 (that fromisoformat reads the same value is in PlainSubsumedByIso) |
| Timestamps.IsoAndFractionAgree | app.py:87-90 | when fromisoformat and strptime with %f both accept a text they read the same datetime, so parser order changes only which texts are accepted |
| Timestamps.ShortFractionsFallToStrptime | app.py:87-90 | with fromisoformat as in CPython 3.7-3.10, a fraction of 1, 2, 4 or 5 digits is never read by fromisoformat, and strptime with %f alone decides the result |
| Timestamps.NoParserExample | app.py:86-92 | with fromisoformat as in CPython 3.7-3.10, "2024-05-01T12:00:05.5" matches none of the three formats, so the listing raises |
| Timestamps.ToInstant | app.py:93 | the instant is a non-negative count of microseconds whose quotient by a day is the day number since 0001-01-01 and whose remainder is the time of day |
| Timestamps.ToInstantMonotone | app.py:93 | a datetime earlier in calendar order has an earlier instant, so `now - last_active` follows the calendar |
| Timestamps.ToInstantInjective | app.py:93 | distinct valid datetimes have distinct instants |
| Timestamps.DaysBeforeYearStep | app.py:93 | the closed form of the days before a year grows by 366 after a leap year and by 365 otherwise |
| Presence.SelectOthers | app.py:76 | the fetched rows are exactly the rows whose id differs from the current user's |
| Presence.SelectOthersExact | app.py:76 | with a unique id column, the query yields each other user once, and one row fewer than the table when the current user has a row |
| Presence.IsOnline | app.py:84-93 | the flag raises exactly when last_active is non-empty text that no parser accepts, with that text's error; it is true exactly when the text parses to a t with now - t < 120 s |
| Presence.PeerList | app.py:82-94 | a successful listing has one entry per fetched row, with that row's id and username at the same position |
| Presence.ListPeers | app.py:82-94 | the loop over the fetched rows produces the peer list, or stops with the error of the row whose timestamp does not parse |
| Presence.PeerListSucceedsIff | app.py:83-94 | the listing succeeds exactly when every row's last_active is NULL, empty or parses |
| Presence.PeerListEntries | app.py:83-94 | in a successful listing, each entry's online flag is what the presence test gives for the row at the same position; with PeerList's own contract (one entry per row, same id and username) this fixes every entry |
| Presence.PeerListFirstError | app.py:92 | a failed listing carries the error of the first row whose timestamp does not parse |
| Presence.OnlineAfterWrite | app.py:93 | a user whose stored stamp was written for t is online exactly when now - t < 120 s, and the flag never errors |
| Presence.OnlineWindowEdges | app.py:93 | 119 s after the write the user is online, at 120 s offline; NULL or empty last_active is offline |
| Presence.SetLastActive | app.py:62-67 | the UPDATE sets last_active on the rows with that id only, keeps every other column and row, and inserts nothing |
| Presence.SetLastActiveKeepsIds | app.py:65 | the UPDATE keeps ids unique |
| Presence.TouchedUserIsOnline | app.py:79 | after update_last_active at t, that user reads as online exactly while less than 120 s have passed |
| History.InPair | app.py:157-158 | the WHERE clause holds exactly when {sender, receiver} is the unordered pair {a, b} |
| History.LookupUsername | app.py:156 | the JOIN finds a username exactly when a user row has the sender's id, and returns that row's username |
| History.PairMessages | app.py:154-158 | the selected rows are exactly the rows between the two users, in either direction, with a known sender |
| History.SortByTime | app.py:159 | ORDER BY timestamp ASC returns a permutation of its input sorted by timestamp |
| History.PairHistory | app.py:154-161 | the history is sorted by timestamp, is a permutation of the selected rows, and holds exactly the pair's messages with a known sender |
| History.SenderName | app.py:154-156 | the sender name the JOIN pairs with a message is the username of a user row with the sender's id |
| History.Transcript | app.py:154-161 | the load_messages payload has one entry per history row, with that row's body and the username of a user row whose id is the row's sender |
| History.PairHistorySymmetric | app.py:157-160 | both users of a pair get the same history |
| History.SortByTimeKeepsSorted | app.py:159 | the model's stable sort leaves rows that are already in timestamp order unchanged (SQL may order same-second ties differently; see Left out) |
| History.SortedPermutationUnique | app.py:159 | when no two rows share a timestamp, any timestamp-sorted rearrangement of them is the rows in their given order, so ORDER BY has a single possible result |
| History.PairHistoryInSendOrder | app.py:154-161 | when every message has a strictly later timestamp than the one inserted before it, the history is the pair's messages in insertion order, whatever order the database would give to ties |
| History.AppendExtendsHistory | app.py:174-175 | inserting a message adds it to the history of its own pair and changes no other pair's history |
| Chat.AllPersistedAppendMessage | app.py:174-176 | inserting a row keeps every earlier emit backed by its stored row |
| Chat.AllPersistedAppendEvent | app.py:179-183 | an emit that reports the newest stored row keeps the "emitted only after insert" invariant |
| Chat.Consistent | app.py:22-35 | the server invariant: unique user ids, message ids 1..n in insertion order, and every emit carries, with its room and body, a row that was stored before it |
| Chat.ConsistentAfterTouch | app.py:65 | the UPDATE of last_active keeps the invariant |
| Chat.ConsistentAfterReply | app.py:146-163 | a room join or a load_messages reply keeps the invariant |
| Chat.ConsistentAfterSend | app.py:174-183 | inserting the row with the next id and then emitting it to its pair's room keeps the invariant |
| Chat.ChatServer.constructor | app.py:18-37 | the server starts on existing users and messages tables (CREATE TABLE IF NOT EXISTS keeps earlier rows), with no events yet |
| Chat.ChatServer.TouchUser | app.py:62-67 | update_last_active stores the text of now in the user's row and changes nothing else |
| Chat.ChatServer.Index | app.py:73-94 | the peer list is built from the rows fetched before the update (with the online flag at `now`); the current user's activity is then recorded |
| Chat.ChatServer.RecordReplies | app.py:146-163 | the join and the reply are appended to the event log and the tables are unchanged |
| Chat.ChatServer.JoinChat | app.py:146-163 | join the pair's room, then send this user the pair's sorted history with usernames; the tables are unchanged |
| Chat.ChatServer.RecordSend | app.py:174-183 | the row is appended to the messages table, then its emit to the event log, so the row the emit carries was stored before it; the invariant is kept |
| Chat.ChatServer.SendMessage | app.py:166-183 | a successful write appends exactly one row with the next id and then emits {sender, body, room} to the pair's room; a failed write stores and emits nothing; the body is not checked |
| Chat.JoinThenSend | app.py:149 | when the receiver joins and then the sender writes, the message is emitted to exactly the room the receiver joined |

## Left out

- The Socket.IO transport is not modelled: connections, `join_room` bookkeeping, delivery to the room's members, and disconnects. Joins and emits are entries in the server's event log.
- Login, registration, logout and password hashing are not modelled (`app.py:99-142`, bcrypt). Registration's write of `last_active` has the same format as `update_last_active`, so `FormatDateTime` covers it.
- `main.py`, `database.py` and `static/chat.js` are not part of this model. The server never calls `main.py` or `database.py`, and `static/chat.js` is the client.
- Timestamps.ParseIso: models `fromisoformat` as in CPython 3.7-3.10, restricted to `YYYY-MM-DD?HH:MM:SS` with an optional 3- or 6-digit fraction and any separator character. It does not model date-only text, `HH:MM` text or time-zone suffixes. The stored text never has those forms.
- Timestamps.ParseWithFraction, Timestamps.ParsePlain: model `strptime` with fixed-width two-digit fields and one space. `strptime` also accepts one-digit fields, extra whitespace and non-ASCII decimal digits (its `\d` matches "２０２４"), and that is not modelled. Text written by the server always has fixed-width fields.
- Presence.IsOnline: compares integer microseconds. The source compares the float `total_seconds()` with 120. This is equivalent for microsecond-resolution datetimes.
- History.SortByTime: sorts stably, so equal timestamps keep table order. SQL leaves the order of ties unspecified, and CURRENT_TIMESTAMP has one-second resolution, so two messages sent in the same second may come back in either order. The sortedness, membership and multiset facts of PairHistory hold for any order of ties.
- History.SortByTimeKeepsSorted: is about the model's stable sort. With same-second ties the database may return another order; the order-independent statement is PairHistoryInSendOrder, which requires strictly increasing timestamps.
- History.Message: `sentAt` is the `CURRENT_TIMESTAMP` column as whole seconds. The column's text ordering equals the numeric ordering for its fixed format.
- Chat.Consistent: the handlers are modelled as running one at a time. Flask-SocketIO, as set up at app.py:12, runs each event handler in its own thread, so two sends can interleave: insert A, insert B, emit A. Under that interleaving "the emitted row is the last stored row" and "emits come in insertion order" hold only in the model. What holds for the real server is that each emit's row was stored before the emit.
- sqlite failures other than the send's insert are not modelled. The SELECT of `handle_join_chat` can raise after `join_room` (app.py:150-154), leaving the room joined with no `load_messages`. The UPDATE of `update_last_active` (app.py:65) and the SELECT of the index page (app.py:76) can also raise.
- Chat.ChatServer.SendMessage: the database failure is a boolean parameter. The exception it stands for is not modelled beyond "nothing is stored and nothing is emitted".
- Ids are taken to be JSON integers and message bodies to be strings. Other JSON values are not modelled. A float or a boolean `receiver_id` would be formatted into rooms such as `room_1_2.5` or `room_True_5`. A string or null `receiver_id` makes `min`/`max` raise.
- The code does not reject a user pairing with themself, does not check for empty message bodies, and returns the whole history with no limit. The model does the same.
- An unparseable `last_active` makes the whole index page fail, because the third parser's error escapes. The model does not treat such a user as offline; it follows the code (`Presence.PeerListFirstError`).
- Timestamps.ParseFailsIff: holds for the fixed-width text modelled. The real `strptime` also accepts one-digit fields, runs of whitespace and non-ASCII decimal digits, so app.py:92 reads text such as "2024-05-01 12:00:5", which the first two parsers reject and the model reports as an error.
- Timestamps.ParseLastActive: the error is `Malformed(s)` for the text s. This abstracts the message of Python's ValueError, which may not name the text (for "2024-04-31 12:00:00" it is "day is out of range for month").
- Presence.IsOnline: for a NULL or empty `last_active`, app.py:93 stores `None`, not `False`, as the online flag (`last_active and ...`). The model uses `false`; both are falsy to the template.
