/**
  Room identity for a private chat: both the join handler and the send
  handler name the room of users a and b "room_<min>_<max>", with the two
  integer ids written in decimal. Nothing rejects a == b.
 */
module Rooms {
  import opened Wrappers
  import opened Decimal

  const Prefix: string := "room_"
  const Separator: char := '_'

  function Min(a: int, b: int): int { if a <= b then a else b }
  function Max(a: int, b: int): int { if a <= b then b else a }

  /** The room name built by the f-string in handle_join_chat and handle_send_message:
      the prefix, then two decimal ids and a separator. RoomNameRoundTrip shows the
      name determines its pair. */
  function RoomName(a: int, b: int): (s: string)
    ensures |s| >= |Prefix| + 3 && s[..|Prefix|] == Prefix
  {
    Prefix + IntToString(Min(a, b)) + [Separator] + IntToString(Max(a, b))
  }

  /** First index of `c` in `s`, or |s| when `c` does not occur. */
  function IndexOf(s: string, c: char): (k: nat)
    ensures k <= |s|
    ensures k < |s| ==> s[k] == c
    ensures forall i | 0 <= i < k :: s[i] != c
    decreases |s|
  {
    if s == [] then 0 else if s[0] == c then 0 else 1 + IndexOf(s[1..], c)
  }

  /** Splits a room name back into its lower and upper id. */
  function ParseRoom(s: string): Option<(int, int)>
  {
    if |s| < |Prefix| || s[..|Prefix|] != Prefix then None
    else
      var rest := s[|Prefix|..];
      var k := IndexOf(rest, Separator);
      if k == |rest| then None
      else
        var lo, hi := ParseInt(rest[..k]), ParseInt(rest[k + 1..]);
        if lo.Some? && hi.Some? then Some((lo.value, hi.value)) else None
  }

  /** The room is the same whichever of the two users computes it: the room the
      receiver joins for the sender is the room the sender's message goes to. */
  lemma RoomNameSymmetric(a: int, b: int)
    ensures RoomName(a, b) == RoomName(b, a)
  {
  }

  /** Splitting "lo_hi" at its first separator gives back lo and hi when lo has none. */
  lemma {:induction false} SplitAtFirstSeparator(lo: string, hi: string)
    requires forall i | 0 <= i < |lo| :: lo[i] != Separator
    ensures var rest := lo + [Separator] + hi;
            && IndexOf(rest, Separator) == |lo|
            && rest[..|lo|] == lo && rest[|lo| + 1..] == hi
  {
    var rest := lo + [Separator] + hi;
    assert rest[|lo|] == Separator;
    assert rest[..|lo|] == lo;
    assert rest[|lo| + 1..] == hi;
  }

  lemma StripPrefix(rest: string)
    ensures var s := Prefix + rest; |s| >= |Prefix| && s[..|Prefix|] == Prefix && s[|Prefix|..] == rest
  {
  }

  lemma {:induction false} ParseRoomOfParts(lo: string, hi: string, x: int, y: int)
    requires forall i | 0 <= i < |lo| :: lo[i] != Separator
    requires ParseInt(lo) == Some(x) && ParseInt(hi) == Some(y)
    ensures ParseRoom(Prefix + lo + [Separator] + hi) == Some((x, y))
  {
    var rest := lo + [Separator] + hi;
    assert Prefix + lo + [Separator] + hi == Prefix + rest;
    StripPrefix(rest);
    SplitAtFirstSeparator(lo, hi);
  }

  /** A room name determines its pair: ParseRoom recovers (min, max), also for a == b. */
  lemma {:induction false} RoomNameRoundTrip(a: int, b: int)
    ensures ParseRoom(RoomName(a, b)) == Some((Min(a, b), Max(a, b)))
  {
    var x, y := Min(a, b), Max(a, b);
    IntToStringRoundTrip(x);
    IntToStringRoundTrip(y);
    ParseRoomOfParts(IntToString(x), IntToString(y), x, y);
  }

  /** Distinct unordered pairs of ids never share a room. */
  lemma RoomNameInjective(a: int, b: int, c: int, d: int)
    requires RoomName(a, b) == RoomName(c, d)
    ensures Min(a, b) == Min(c, d) && Max(a, b) == Max(c, d)
  {
    RoomNameRoundTrip(a, b);
    RoomNameRoundTrip(c, d);
  }

  lemma RoomNameExample()
    ensures RoomName(1, 2) == RoomName(2, 1) == "room_1_2"
    ensures RoomName(7, 7) == "room_7_7"
  {
  }
}
