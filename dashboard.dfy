/** The dashboard's pure helpers and list reducers (client/src/pages/Dashboard/Dashboard.jsx):
 *  reading a room id out of a meeting code or link, the `MM:SS` meeting timer, the online test,
 *  the search filter, and the three reducers that keep the user list in step with a meeting.
 *  Joining by code is a method over the few pieces of component state it sets. */
module Dashboard {
  import opened Wrappers
  import opened Events
  import Seqs
  import Strings
  import AuthController
  import SignalingServer

  const JOIN_SEPARATOR := "/join/"
  const CODE_PROMPT := "Please enter a meeting code or link"
  const MEDIA_ALERT := "Could not access camera/microphone or join meeting. Please check permissions."
  /** The domain given to a meeting participant whose email the notice does not carry. */
  const MEETING_DOMAIN := "@meeting.local"

  /** An entry of the dashboard's user list. */
  datatype ListedUser = ListedUser(id: string, username: string, email: string, profilepic: string)

  /** A meeting participant as a `user-joined-meeting` notice or a `meeting-participants` list
   *  describes it; `userEmail` is "" when the notice carries none. */
  datatype MeetingPeer = MeetingPeer(userId: string, userName: string, userEmail: string)

  // ---------------------------------------------------------------- meeting codes and links

  /** A shareable link to a room: the page origin, `/join/`, and the room id. */
  function MeetingLink(origin: string, roomId: string): string
  {
    origin + JOIN_SEPARATOR + roomId
  }

  /** The room id `joinMeetingByCode` reads out of a code: the trimmed code itself, or, when it
   *  contains `/join/`, the text after the first `/join/` up to the next one or the end. */
  function RoomIdOf(code: string): (r: string)
    ensures !Strings.Contains(Strings.Trim(code), JOIN_SEPARATOR) ==> r == Strings.Trim(code)
    ensures Strings.Contains(Strings.Trim(code), JOIN_SEPARATOR) ==>
              Strings.IsSecondPiece(Strings.Trim(code), JOIN_SEPARATOR, r)
  {
    var t := Strings.Trim(code);
    if Strings.Contains(t, JOIN_SEPARATOR) then Strings.SecondPiece(t, JOIN_SEPARATOR) else t
  }

  /** A bare room id with no whitespace at its ends and no `/join/` in it is its own room id. */
  lemma RoomIdOfBareCode(roomId: string)
    requires roomId != [] && !Strings.IsWhitespace(roomId[0]) && !Strings.IsWhitespace(roomId[|roomId| - 1])
    requires !Strings.Contains(roomId, JOIN_SEPARATOR)
    ensures RoomIdOf(roomId) == roomId
  {
    Strings.TrimUnpadded(roomId);
  }

  /** Reading a link made by `MeetingLink` gives back its room id, provided the origin does not
   *  start with whitespace or produce a `/join/` of its own, and the room id does not end with
   *  whitespace or contain `/join/`. */
  lemma RoomIdOfMeetingLink(origin: string, roomId: string)
    requires origin != [] && !Strings.IsWhitespace(origin[0])
    requires roomId != [] && !Strings.IsWhitespace(roomId[|roomId| - 1])
    requires !Strings.Contains(origin + "/join", JOIN_SEPARATOR)
    requires !Strings.Contains(roomId, JOIN_SEPARATOR)
    ensures RoomIdOf(MeetingLink(origin, roomId)) == roomId
  {
    var s := MeetingLink(origin, roomId);
    var head := origin + "/join";
    assert s[0] == origin[0] && s[|s| - 1] == roomId[|roomId| - 1];
    Strings.TrimUnpadded(s);
    assert Strings.OccursAt(s, JOIN_SEPARATOR, |origin|) by {
      assert s[|origin|..|origin| + |JOIN_SEPARATOR|] == JOIN_SEPARATOR;
    }
    forall j | 0 <= j < |origin| ensures !Strings.OccursAt(s, JOIN_SEPARATOR, j) {
      assert s[j..j + |JOIN_SEPARATOR|] == head[j..j + |JOIN_SEPARATOR|];
      assert !Strings.OccursAt(head, JOIN_SEPARATOR, j);
    }
    assert Strings.IndexOf(s, JOIN_SEPARATOR) == Some(|origin|);
    assert s[|origin| + |JOIN_SEPARATOR|..] == roomId;
  }

  // ---------------------------------------------------------------- the meeting timer

  /** JavaScript's `%` with a positive divisor: what is left of `a` after taking away `b` times
   *  the quotient truncated toward zero, so the remainder has the dividend's sign. */
  function JsRemainder(a: int, b: int): (r: int)
    requires b > 0
    ensures a >= 0 ==> r == a % b
    ensures a >= 0 ==> 0 <= r < b && a == b * (a / b) + r
    ensures a < 0 ==> -b < r <= 0 && a == -(b * ((-a) / b)) + r
  {
    if a >= 0 then a % b else -((-a) % b)
  }

  /** `n.toString().padStart(2, '0')`. */
  function TwoDigits(n: int): string
  {
    Strings.PadStart(Strings.IntToString(n), 2, '0')
  }

  /** `MM:SS` for a count of elapsed seconds: `Math.floor(elapsed / 60)` minutes and
   *  `elapsed % 60` seconds. */
  function Clock(elapsed: int): string
  {
    TwoDigits(elapsed / 60) + ":" + TwoDigits(JsRemainder(elapsed, 60))
  }

  /** `formatMeetingTime` at time `now` (milliseconds): "00:00" while there is no start time
   *  (`null`, or the falsy 0), otherwise the clock of the whole seconds since the start. */
  function FormatMeetingTime(start: Option<int>, now: int): (r: string)
    ensures start.None? || start == Some(0) ==> r == "00:00"
  {
    if start.None? || start.value == 0 then "00:00" else Clock((now - start.value) / 1000)
  }

  /** A zero-padded field of a non-negative number is at least two digits long, and reading it
   *  back gives the number. */
  lemma TwoDigitsReadsBack(n: nat)
    ensures |TwoDigits(n)| >= 2 && Strings.AllDigits(TwoDigits(n))
    ensures Strings.DigitsValue(TwoDigits(n)) == n
    ensures n < 100 ==> |TwoDigits(n)| == 2
  {
    var f := TwoDigits(n);
    var d := Strings.NatToString(n);
    var z := f[..|f| - |d|];
    assert f == z + d;
    Strings.NatToStringValue(n);
    Strings.LeadingZerosValue(z, d);
  }

  /** `r` reads as `MM:SS` for `total` seconds: two digits of seconds below 60 after the colon,
   *  at least two digits of minutes before it, and minutes * 60 + seconds is `total`. */
  predicate ReadsAsClock(r: string, total: int)
  {
    |r| >= 5 && r[|r| - 3] == ':' &&
    Strings.AllDigits(r[..|r| - 3]) && Strings.AllDigits(r[|r| - 2..]) &&
    Strings.DigitsValue(r[|r| - 2..]) < 60 &&
    Strings.DigitsValue(r[..|r| - 3]) * 60 + Strings.DigitsValue(r[|r| - 2..]) == total
  }

  /** Joining two digit fields with a colon reads back as their clock value. */
  lemma ColonJoinReads(mm: string, ss: string)
    requires |mm| >= 2 && |ss| == 2 && Strings.AllDigits(mm) && Strings.AllDigits(ss)
    requires Strings.DigitsValue(ss) < 60
    ensures ReadsAsClock(mm + ":" + ss, Strings.DigitsValue(mm) * 60 + Strings.DigitsValue(ss))
  {
    var c := mm + ":";
    var r := c + ss;
    assert |r| == |mm| + 3;
    assert r[..|c|] == c && c[..|mm|] == mm;
    assert r[..|r| - 3] == mm;
    assert r[|r| - 3] == c[|mm|] == ':';
    assert r[|c|..] == ss;
  }

  /** The clock of a non-negative count reads back as that count. */
  lemma ClockReadsBack(elapsed: nat)
    ensures ReadsAsClock(Clock(elapsed), elapsed)
    ensures elapsed / 60 < 100 ==> |Clock(elapsed)| == 5
  {
    var minutes: nat := elapsed / 60;
    var seconds: nat := elapsed % 60;
    TwoDigitsReadsBack(minutes);
    TwoDigitsReadsBack(seconds);
    var mm := TwoDigits(minutes);
    var ss := TwoDigits(seconds);
    assert JsRemainder(elapsed, 60) == seconds;
    assert Clock(elapsed) == mm + ":" + ss;
    assert minutes * 60 + seconds == elapsed;
    assert Strings.DigitsValue(mm) * 60 + Strings.DigitsValue(ss) == elapsed;
    ColonJoinReads(mm, ss);
    assert ReadsAsClock(mm + ":" + ss, elapsed);
  }

  /** Once a meeting has started and the clock has not gone back, the timer reads `MM:SS` with
   *  the whole seconds elapsed since the start. */
  lemma FormatMeetingTimeReadsBack(start: int, now: int)
    requires start != 0 && start <= now
    ensures ReadsAsClock(FormatMeetingTime(Some(start), now), (now - start) / 1000)
  {
    assert FormatMeetingTime(Some(start), now) == Clock((now - start) / 1000);
    ClockReadsBack((now - start) / 1000);
  }

  // ---------------------------------------------------------------- presence and search

  /** `isOnlineUser`: some `online-users` entry carries the id. */
  function IsOnlineUser(online: seq<SignalingServer.OnlineUser>, userId: string): (b: bool)
    ensures b <==> exists i | 0 <= i < |online| :: online[i].userId == userId
  {
    Seqs.FindIndex((u: SignalingServer.OnlineUser) => u.userId == userId, online).Some?
  }

  /** A user matches a search when the lower-cased query occurs in the lower-cased username or
   *  the lower-cased email. */
  predicate Matches(u: ListedUser, query: string)
  {
    Strings.Contains(Strings.ToLower(u.username), Strings.ToLower(query)) ||
    Strings.Contains(Strings.ToLower(u.email), Strings.ToLower(query))
  }

  /** `filteredUsers`: exactly the users that match the query, in list order. */
  function FilteredUsers(users: seq<ListedUser>, query: string): (r: seq<ListedUser>)
    ensures forall i | 0 <= i < |r| :: r[i] in users && Matches(r[i], query)
    ensures forall i | 0 <= i < |users| && Matches(users[i], query) :: users[i] in r
  {
    Seqs.Filter((u: ListedUser) => Matches(u, query), users)
  }

  /** An empty search shows the whole list. */
  lemma FilteredUsersEmptyQuery(users: seq<ListedUser>)
    ensures FilteredUsers(users, "") == users
  {
    forall i | 0 <= i < |users| ensures Matches(users[i], "") {
      Strings.ContainsEmpty(Strings.ToLower(users[i].username));
    }
    Seqs.FilterKeepsAll((u: ListedUser) => Matches(u, ""), users);
  }

  /** The search ignores the case of the query's ASCII letters. */
  lemma FilteredUsersIgnoresCase(users: seq<ListedUser>, query: string)
    ensures FilteredUsers(users, query) == FilteredUsers(users, Strings.ToLower(query))
  {
    Strings.ToLowerIdempotent(query);
    Seqs.FilterPointwise((u: ListedUser) => Matches(u, query),
                         (u: ListedUser) => Matches(u, Strings.ToLower(query)), users);
  }

  // ---------------------------------------------------------------- meeting list reducers

  /** The list entry made for a meeting participant: its id and name, its email or a
   *  `name@meeting.local` stand-in, and the blue generated avatar. */
  function MeetingCard(p: MeetingPeer): (u: ListedUser)
    ensures u.id == p.userId && u.username == p.userName
    ensures p.userEmail != "" ==> u.email == p.userEmail
    ensures p.userEmail == "" ==> u.email == p.userName + MEETING_DOMAIN
    ensures u.profilepic == AuthController.AvatarUrl(p.userName, AuthController.MALE_BACKGROUND)
  {
    ListedUser(p.userId, p.userName,
               if p.userEmail != "" then p.userEmail else p.userName + MEETING_DOMAIN,
               AuthController.AvatarUrl(p.userName, AuthController.MALE_BACKGROUND))
  }

  function IdOf(u: ListedUser): string
  {
    u.id
  }

  /** Some entry of the list carries the id. */
  predicate Listed(users: seq<ListedUser>, id: string)
  {
    exists i | 0 <= i < |users| :: users[i].id == id
  }

  /** The `user-joined-meeting` reducer: the newcomer is appended unless it is the current user
   *  or its id is already listed, in which case the list stays as it is. */
  function UserJoinedMeeting(users: seq<ListedUser>, self: string, p: MeetingPeer): (r: seq<ListedUser>)
    ensures p.userId == self || Listed(users, p.userId) ==> r == users
    ensures p.userId != self && !Listed(users, p.userId) ==> r == users + [MeetingCard(p)]
  {
    if p.userId == self then users
    else
      match Seqs.Find((u: ListedUser) => u.id == p.userId, users)
      case None => users + [MeetingCard(p)]
      case Some(_) => users
  }

  /** The reducer never lists an id twice, and afterwards the newcomer is listed unless it is
   *  the current user. */
  lemma UserJoinedMeetingDistinct(users: seq<ListedUser>, self: string, p: MeetingPeer)
    requires Seqs.DistinctBy(IdOf, users)
    ensures Seqs.DistinctBy(IdOf, UserJoinedMeeting(users, self, p))
    ensures p.userId != self ==> Listed(UserJoinedMeeting(users, self, p), p.userId)
  {
    var r := UserJoinedMeeting(users, self, p);
    if p.userId != self && !Listed(users, p.userId) {
      assert r[|users|].id == p.userId;
      assert forall i | 0 <= i < |users| :: r[i] == users[i];
    }
  }

  /** A repeated `user-joined-meeting` notice changes nothing. */
  lemma UserJoinedMeetingIdempotent(users: seq<ListedUser>, self: string, p: MeetingPeer)
    ensures UserJoinedMeeting(UserJoinedMeeting(users, self, p), self, p) == UserJoinedMeeting(users, self, p)
  {
    var r := UserJoinedMeeting(users, self, p);
    if p.userId != self && !Listed(users, p.userId) {
      assert r[|users|].id == p.userId;
    }
  }

  /** The `user-left-meeting` reducer: every entry with the id goes, every other stays. */
  function UserLeftMeeting(users: seq<ListedUser>, userId: string): (r: seq<ListedUser>)
    ensures forall i | 0 <= i < |r| :: r[i].id != userId && r[i] in users
    ensures forall i | 0 <= i < |users| && users[i].id != userId :: users[i] in r
  {
    Seqs.Filter((u: ListedUser) => u.id != userId, users)
  }

  /** The entries that stay keep their order: removing from a concatenation removes from each
   *  part, a list without the id is left as it is, and no id becomes listed twice. */
  lemma UserLeftMeetingKeepsOrder(a: seq<ListedUser>, b: seq<ListedUser>, userId: string)
    ensures UserLeftMeeting(a + b, userId) == UserLeftMeeting(a, userId) + UserLeftMeeting(b, userId)
    ensures !Listed(a, userId) ==> UserLeftMeeting(a, userId) == a
    ensures Seqs.DistinctBy(IdOf, a) ==> Seqs.DistinctBy(IdOf, UserLeftMeeting(a, userId))
  {
    var keep := (u: ListedUser) => u.id != userId;
    Seqs.FilterConcat(keep, a, b);
    if !Listed(a, userId) {
      Seqs.FilterKeepsAll(keep, a);
    }
    if Seqs.DistinctBy(IdOf, a) {
      Seqs.FilterKeepsDistinct(keep, IdOf, a);
    }
  }

  /** A participant who joins and then leaves leaves the list as it would be had they never
   *  joined. */
  lemma JoinThenLeave(users: seq<ListedUser>, self: string, p: MeetingPeer)
    ensures UserLeftMeeting(UserJoinedMeeting(users, self, p), p.userId) == UserLeftMeeting(users, p.userId)
  {
    var keep := (u: ListedUser) => u.id != p.userId;
    if p.userId != self && !Listed(users, p.userId) {
      Seqs.FilterConcat(keep, users, [MeetingCard(p)]);
      assert Seqs.Filter(keep, [MeetingCard(p)]) == [];
    }
  }

  function PeerId(p: MeetingPeer): string
  {
    p.userId
  }

  /** The `meeting-participants` reducer: the list becomes one entry per participant other than
   *  the current user, in the order of the participant list. */
  function MeetingParticipants(participants: seq<MeetingPeer>, self: string): (r: seq<ListedUser>)
    ensures |r| <= |participants|
    ensures forall i | 0 <= i < |r| :: r[i].id != self
    ensures forall i | 0 <= i < |participants| && participants[i].userId != self :: MeetingCard(participants[i]) in r
    ensures forall u | u in r :: exists p | p in participants :: p.userId != self && u == MeetingCard(p)
  {
    var others := Seqs.Filter((p: MeetingPeer) => p.userId != self, participants);
    var r := seq(|others|, i requires 0 <= i < |others| => MeetingCard(others[i]));
    assert forall i | 0 <= i < |participants| && participants[i].userId != self :: MeetingCard(participants[i]) in r by {
      forall i | 0 <= i < |participants| && participants[i].userId != self
        ensures MeetingCard(participants[i]) in r
      {
        assert participants[i] in others;
        var j :| 0 <= j < |others| && others[j] == participants[i];
        assert r[j] == MeetingCard(participants[i]);
      }
    }
    assert forall u | u in r :: exists p | p in participants :: p.userId != self && u == MeetingCard(p) by {
      forall u | u in r ensures exists p | p in participants :: p.userId != self && u == MeetingCard(p) {
        var i :| 0 <= i < |r| && r[i] == u;
        assert r[i] == MeetingCard(others[i]) && others[i] in participants;
      }
    }
    r
  }

  /** A participant list without repeated ids gives a user list without repeated ids. */
  lemma MeetingParticipantsDistinct(participants: seq<MeetingPeer>, self: string)
    requires Seqs.DistinctBy(PeerId, participants)
    ensures Seqs.DistinctBy(IdOf, MeetingParticipants(participants, self))
  {
    var others := Seqs.Filter((p: MeetingPeer) => p.userId != self, participants);
    Seqs.FilterKeepsDistinct((p: MeetingPeer) => p.userId != self, PeerId, participants);
    var r := MeetingParticipants(participants, self);
    assert |r| == |others| && forall i | 0 <= i < |r| :: r[i] == MeetingCard(others[i]);
  }

  // ---------------------------------------------------------------- joining by code

  /** The component state `joinMeetingByCode` reads and sets. */
  class MeetingEntry {
    var meetingCode: string
    var currentMeetingId: string
    var callAccepted: bool
    var isSidebarOpen: bool
    var meetingStartTime: Option<int>

    constructor ()
      ensures meetingCode == "" && currentMeetingId == "" && !callAccepted && isSidebarOpen
      ensures meetingStartTime.None?
    {
      meetingCode := "";
      currentMeetingId := "";
      callAccepted := false;
      isSidebarOpen := true;
      meetingStartTime := None;
    }

    /** `joinMeetingByCode`: a blank code is refused with a prompt and nothing else happens; so is
     *  a code when the camera and microphone cannot be opened (`mediaOk` false). Otherwise the
     *  call view opens on the code's room, the timer starts at `now`, the input is cleared, and
     *  exactly one `join-meeting-room` request goes out for that room. */
    method JoinMeetingByCode(userId: string, userName: string, mediaOk: bool, now: int)
      returns (out: seq<Send<SignalingServer.JoinRoomData>>, alert: Option<string>)
      modifies this
      ensures Strings.AllWhitespace(old(meetingCode)) ==>
                out == [] && alert == Some(CODE_PROMPT) && unchanged(this)
      ensures !Strings.AllWhitespace(old(meetingCode)) && !mediaOk ==>
                out == [] && alert == Some(MEDIA_ALERT) && unchanged(this)
      ensures !Strings.AllWhitespace(old(meetingCode)) && mediaOk ==>
                out == [Send("join-meeting-room", SignalingServer.JoinRoomData(RoomIdOf(old(meetingCode)), userId, userName))] &&
                alert.None? && callAccepted && !isSidebarOpen && currentMeetingId == RoomIdOf(old(meetingCode)) &&
                meetingStartTime == Some(now) && meetingCode == ""
    {
      if Strings.Trim(meetingCode) == "" {
        return [], Some(CODE_PROMPT);
      }
      var roomId := Strings.Trim(meetingCode);
      if Strings.Contains(roomId, JOIN_SEPARATOR) {
        roomId := Strings.SecondPiece(roomId, JOIN_SEPARATOR);
      }
      if !mediaOk {
        return [], Some(MEDIA_ALERT);
      }
      callAccepted := true;
      isSidebarOpen := false;
      currentMeetingId := roomId;
      meetingStartTime := Some(now);
      out := [Send("join-meeting-room", SignalingServer.JoinRoomData(roomId, userId, userName))];
      meetingCode := "";
      alert := None;
    }
  }
}
