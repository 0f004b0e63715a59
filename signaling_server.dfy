/** The signaling and presence coordinator of the server (server/index.js): three pieces of
 *  process-wide state (the online users, the active one-to-one calls and the meeting rooms) and the
 *  socket handlers that read and update them. Each handler is a method of `Coordinator` taking the
 *  id of the connection the event came from and the event's payload, and returning the emits it
 *  makes, in order. */
module SignalingServer {
  import opened Wrappers
  import opened Events
  import OM = OrderedMaps
  import Seqs
  import Strings

  // MEETING_LIMITS
  const MAX_PARTICIPANTS_PER_ROOM: nat := 50
  const MAX_ROOMS_PER_SERVER: nat := 1000
  const MAX_MESSAGE_LENGTH: nat := 500
  /** Declared by the server and never consulted: no chat history is stored. */
  const MAX_MESSAGES_PER_ROOM: nat := 1000

  datatype OnlineUser = OnlineUser(userId: string, name: string, socketId: string)
  /** The value `activeCalls` holds under a key: the other end of the call and a socket id. */
  datatype CallEntry = CallEntry(with: string, socketId: string)
  datatype Participant = Participant(userId: string, userName: string, socketId: string, isHost: bool)
  type Room = OM.Entry<string, seq<Participant>>

  datatype ErrorCode = SERVER_FULL | ROOM_FULL | MESSAGE_TOO_LONG | ROOM_NOT_FOUND

  /** The payloads the server emits, one variant per event shape. */
  datatype Payload =
    | OnlineUsers(users: seq<OnlineUser>)
    | Notice(message: string)
    | CallerCard(from: string, name: string, email: string, profilepic: string)
    | IncomingCall(signal: string, from: string, name: string, email: string, profilepic: string)
    | Answer(signal: string, from: string)
    | Rejection(name: string, profilepic: string)
    | Hangup(name: string)
    | Failure(error: ErrorCode, message: string)
    | MeetingStarted(roomId: string, hostId: string, hostName: string, message: string)
    | Participants(list: seq<Participant>)
    | UserJoined(userId: string, userName: string, userEmail: string, message: string)
    | UserLeft(userId: string, userName: string, message: string)
    | ChatMessage(message: string, senderName: string, senderId: string, timestamp: string)
    | SocketGone(disUser: string)

  type Event = Emit<Payload>

  // The payloads the handlers receive. A string field that is "" stands for a missing or empty
  // (falsy) value of the source; opaque values (WebRTC signals, timestamps) are strings.
  datatype JoinData = JoinData(id: string, name: string)
  datatype CallData = CallData(callToUserId: string, signalData: string, from: string, name: string,
                               email: string, profilepic: string)
  datatype AnswerData = AnswerData(signal: string, from: string, to: string)
  datatype RejectData = RejectData(to: string, name: string, profilepic: string)
  datatype EndData = EndData(to: string, from: string, name: string)
  datatype StartMeetingData = StartMeetingData(roomId: string, hostId: string, hostName: string)
  datatype JoinRoomData = JoinRoomData(roomId: string, userId: string, userName: string)
  datatype ChatData = ChatData(roomId: string, message: string, senderName: string, senderId: string,
                               timestamp: string)

  const USER_OFFLINE := "User is offline."
  const USER_BUSY := "User is currently in another call."
  const SERVER_FULL_MESSAGE := "Server has reached maximum room capacity. Please try again later."
  const ROOM_FULL_MESSAGE := "This meeting room is full (" + Strings.NatToString(MAX_PARTICIPANTS_PER_ROOM)
                             + " participants maximum). Please try joining later."
  const MESSAGE_LENGTH_MESSAGE := "Message must be between 1 and " + Strings.NatToString(MAX_MESSAGE_LENGTH)
                                  + " characters."
  const ROOM_NOT_FOUND_MESSAGE := "Meeting room not found. Please rejoin the meeting."

  // ---------------------------------------------------------------- presence

  function UserIdOf(u: OnlineUser): string { u.userId }

  /** At most one presence entry per user id. */
  predicate UniqueUserIds(users: seq<OnlineUser>)
  {
    Seqs.DistinctBy(UserIdOf, users)
  }

  /** `onlineUsers.find(u => u.userId === userId)`, as a position. */
  function UserIndex(users: seq<OnlineUser>, userId: string): Option<nat>
  {
    Seqs.FindIndex((u: OnlineUser) => u.userId == userId, users)
  }

  /** `onlineUsers.find(u => u.userId === userId)`. */
  function UserById(users: seq<OnlineUser>, userId: string): Option<OnlineUser>
  {
    Seqs.Find((u: OnlineUser) => u.userId == userId, users)
  }

  /** `onlineUsers.find(u => u.socketId === sid)`. */
  function UserOnSocket(users: seq<OnlineUser>, sid: string): Option<OnlineUser>
  {
    Seqs.Find((u: OnlineUser) => u.socketId == sid, users)
  }

  /** `onlineUsers.filter(u => u.socketId !== sid)`. */
  function WithoutConnection(users: seq<OnlineUser>, sid: string): seq<OnlineUser>
  {
    Seqs.Filter((u: OnlineUser) => u.socketId != sid, users)
  }

  /** The online list after user `userId` joins from connection `sid`. A user already listed keeps
   *  its place and its name and takes the new socket id; every other entry stays as it was; an
   *  unknown user is appended. The list keeps one entry per user id, and `userId` ends up on `sid`. */
  function Connect(users: seq<OnlineUser>, userId: string, name: string, sid: string): (r: seq<OnlineUser>)
    ensures UserIndex(users, userId).None? ==> r == users + [OnlineUser(userId, name, sid)]
    ensures UserIndex(users, userId).Some? ==>
              var k := UserIndex(users, userId).value;
              |r| == |users| && r[k] == users[k].(socketId := sid) &&
              forall j | 0 <= j < |users| && j != k :: r[j] == users[j]
    ensures UniqueUserIds(users) ==> UniqueUserIds(r)
    ensures UserIndex(r, userId).Some? && r[UserIndex(r, userId).value].socketId == sid
  {
    match UserIndex(users, userId)
    case Some(k) =>
      var r := users[k := users[k].(socketId := sid)];
      assert UserIndex(r, userId) == Some(k) by {
        var q := UserIndex(r, userId);
        assert r[k].userId == userId;
        assert q.Some? && q.value <= k;
      }
      r
    case None =>
      var r := users + [OnlineUser(userId, name, sid)];
      assert UniqueUserIds(users) ==> UniqueUserIds(r) by {
        if UniqueUserIds(users) {
          forall i, j | 0 <= i < j < |r| ensures UserIdOf(r[i]) != UserIdOf(r[j]) {
            if j == |users| { assert users[i].userId != userId; }
          }
        }
      }
      assert UserIndex(r, userId) == Some(|users|) by {
        assert forall j | 0 <= j < |users| :: r[j].userId != userId;
        assert r[|users|].userId == userId;
      }
      r
  }

  // ------------------------------------------------------------------ calls

  /** `activeCalls` after `answeredCall` from `from` to `to` on connection `sid`: each end is keyed
   *  to the other, and every other call entry is kept. */
  function RecordCall(calls: map<string, CallEntry>, from: string, to: string, sid: string): (r: map<string, CallEntry>)
    ensures from in r && to in r && r[from].with == to && r[to].with == from
    ensures to != from ==> r[from].socketId == sid
    ensures r[to].socketId == to
    ensures r.Keys == calls.Keys + {from, to}
    ensures forall k | k in calls && k != from && k != to :: r[k] == calls[k]
  {
    calls[from := CallEntry(to, sid)][to := CallEntry(from, to)]
  }

  /** `activeCalls` after `call-ended`: both keys are gone and nothing else changes. */
  function EndCall(calls: map<string, CallEntry>, from: string, to: string): (r: map<string, CallEntry>)
    ensures from !in r && to !in r
    ensures r.Keys == calls.Keys - {from, to}
    ensures forall k | k in r :: r[k] == calls[k]
  {
    calls - {from, to}
  }

  /** Ending the same call twice is the same as ending it once. */
  lemma EndCallIdempotent(calls: map<string, CallEntry>, from: string, to: string)
    ensures EndCall(EndCall(calls, from, to), from, to) == EndCall(calls, from, to)
  {
  }

  /** `activeCalls` after a known user disconnects: the entry keyed by the user and every entry
   *  whose other end is the user are gone; the rest are kept. */
  function DropCallsOf(calls: map<string, CallEntry>, userId: string): (r: map<string, CallEntry>)
    ensures forall k | k in r :: k in calls && r[k] == calls[k] && k != userId && r[k].with != userId
    ensures forall k | k in calls && k != userId && calls[k].with != userId :: k in r
  {
    map k | k in calls && k != userId && calls[k].with != userId :: calls[k]
  }

  // ------------------------------------------------------------------ rooms

  function ParticipantId(p: Participant): string { p.userId }

  predicate UniqueParticipants(ps: seq<Participant>)
  {
    Seqs.DistinctBy(ParticipantId, ps)
  }

  /** `participants.find(p => p.userId === userId)` finds someone. */
  predicate InRoom(ps: seq<Participant>, userId: string)
  {
    exists i | 0 <= i < |ps| :: ps[i].userId == userId
  }

  /** A room the server keeps: never empty, one entry per user id. */
  predicate RoomOk(ps: seq<Participant>)
  {
    ps != [] && UniqueParticipants(ps)
  }

  /** The invariant of `meetingRooms`: one entry per room id, at most MAX_ROOMS_PER_SERVER rooms,
   *  and every room in a good state. */
  predicate RoomsValid(rooms: seq<Room>)
  {
    OM.DistinctKeys(rooms) && |rooms| <= MAX_ROOMS_PER_SERVER && OM.AllValues(rooms, RoomOk)
  }

  /** The participants of a room, or the empty array a missing room is created with. */
  function RoomOrEmpty(rooms: seq<Room>, roomId: string): seq<Participant>
  {
    if OM.HasKey(rooms, roomId) then OM.Get(rooms, roomId) else []
  }

  /** A participant list after `userId` enters it: a user already present is left exactly as it is
   *  (no refreshed socket id, no changed host flag); a new one is appended with `isHost`. */
  function Admit(ps: seq<Participant>, userId: string, userName: string, sid: string, isHost: bool): (r: seq<Participant>)
    ensures InRoom(r, userId)
    ensures InRoom(ps, userId) ==> r == ps
    ensures !InRoom(ps, userId) ==> r == ps + [Participant(userId, userName, sid, isHost)]
    ensures UniqueParticipants(ps) ==> UniqueParticipants(r)
  {
    if InRoom(ps, userId) then ps
    else
      var r := ps + [Participant(userId, userName, sid, isHost)];
      assert r[|ps|].userId == userId;
      assert UniqueParticipants(ps) ==> UniqueParticipants(r) by {
        if UniqueParticipants(ps) {
          forall i, j | 0 <= i < j < |r| ensures ParticipantId(r[i]) != ParticipantId(r[j]) {
            if j == |ps| { assert ps[i].userId != userId; }
          }
        }
      }
      r
  }

  /** Admitting a user a second time, under any name, socket or host flag, changes nothing. */
  lemma AdmitIdempotent(ps: seq<Participant>, userId: string, n1: string, s1: string, h1: bool,
                        n2: string, s2: string, h2: bool)
    ensures Admit(Admit(ps, userId, n1, s1, h1), userId, n2, s2, h2) == Admit(ps, userId, n1, s1, h1)
  {
  }

  /** A room entered by `userId`: only that room changes, it is created if absent, and below the
   *  room cap the room invariant is kept. */
  function Enter(rooms: seq<Room>, roomId: string, userId: string, userName: string, sid: string, isHost: bool): (r: seq<Room>)
    ensures OM.HasKey(r, roomId) && OM.Get(r, roomId) == Admit(RoomOrEmpty(rooms, roomId), userId, userName, sid, isHost)
    ensures forall k :: OM.HasKey(r, k) <==> k == roomId || OM.HasKey(rooms, k)
    ensures forall k | k != roomId && OM.HasKey(rooms, k) :: OM.Get(r, k) == OM.Get(rooms, k)
    ensures RoomsValid(rooms) && |rooms| < MAX_ROOMS_PER_SERVER ==> RoomsValid(r)
  {
    var ps := Admit(RoomOrEmpty(rooms, roomId), userId, userName, sid, isHost);
    assert RoomsValid(rooms) && |rooms| < MAX_ROOMS_PER_SERVER ==> RoomsValid(OM.Set(rooms, roomId, ps)) by {
      if RoomsValid(rooms) && |rooms| < MAX_ROOMS_PER_SERVER {
        if OM.HasKey(rooms, roomId) {
          OM.GetAllValues(rooms, roomId, RoomOk);
        }
        OM.SetAllValues(rooms, roomId, ps, RoomOk);
      }
    }
    OM.Set(rooms, roomId, ps)
  }

  /** `meetingRooms` after a successful `start-instant-meeting`: the room exists (appended if it was
   *  new) and holds the host; an absent host is appended with `isHost = true`. No other room
   *  changes, and below the room cap the room invariant is kept. */
  function StartMeeting(rooms: seq<Room>, roomId: string, hostId: string, hostName: string, sid: string): (r: seq<Room>)
    ensures OM.HasKey(r, roomId) && OM.Get(r, roomId) == Admit(RoomOrEmpty(rooms, roomId), hostId, hostName, sid, true)
    ensures forall k :: OM.HasKey(r, k) <==> k == roomId || OM.HasKey(rooms, k)
    ensures forall k | k != roomId && OM.HasKey(rooms, k) :: OM.Get(r, k) == OM.Get(rooms, k)
    ensures RoomsValid(rooms) && |rooms| < MAX_ROOMS_PER_SERVER ==> RoomsValid(r)
  {
    Enter(rooms, roomId, hostId, hostName, sid, true)
  }

  /** `meetingRooms` after a successful `join-meeting-room`: the room exists (appended if it was
   *  new) and holds the user; an absent user is appended with `isHost = false`. No other room
   *  changes, and below the room cap the room invariant is kept. */
  function JoinRoom(rooms: seq<Room>, roomId: string, userId: string, userName: string, sid: string): (r: seq<Room>)
    ensures OM.HasKey(r, roomId) && OM.Get(r, roomId) == Admit(RoomOrEmpty(rooms, roomId), userId, userName, sid, false)
    ensures forall k :: OM.HasKey(r, k) <==> k == roomId || OM.HasKey(rooms, k)
    ensures forall k | k != roomId && OM.HasKey(rooms, k) :: OM.Get(r, k) == OM.Get(rooms, k)
    ensures RoomsValid(rooms) && |rooms| < MAX_ROOMS_PER_SERVER ==> RoomsValid(r)
  {
    Enter(rooms, roomId, userId, userName, sid, false)
  }

  /** Repeating `start-instant-meeting` with the same data is idempotent. */
  lemma {:induction false} StartMeetingIdempotent(rooms: seq<Room>, roomId: string, hostId: string,
                                                  hostName: string, sid: string)
    ensures StartMeeting(StartMeeting(rooms, roomId, hostId, hostName, sid), roomId, hostId, hostName, sid)
            == StartMeeting(rooms, roomId, hostId, hostName, sid)
  {
    var ps := Admit(RoomOrEmpty(rooms, roomId), hostId, hostName, sid, true);
    var once := OM.Set(rooms, roomId, ps);
    assert RoomOrEmpty(once, roomId) == ps;
    assert Admit(ps, hostId, hostName, sid, true) == ps;
    OM.SetSet(rooms, roomId, ps, ps);
  }

  /** The host flag of a started meeting: if `hostId` was already in the room its entry is untouched,
   *  otherwise the room's last entry is the host with `isHost = true`. */
  lemma StartMeetingHost(rooms: seq<Room>, roomId: string, hostId: string, hostName: string, sid: string)
    ensures var after := StartMeeting(rooms, roomId, hostId, hostName, sid);
      OM.HasKey(after, roomId) &&
      if InRoom(RoomOrEmpty(rooms, roomId), hostId) then OM.Get(after, roomId) == RoomOrEmpty(rooms, roomId)
      else OM.Get(after, roomId) == RoomOrEmpty(rooms, roomId) + [Participant(hostId, hostName, sid, true)]
  {
  }

  /** A rejoin by a user already in an existing room leaves `meetingRooms` exactly as it was. */
  lemma {:induction false} RejoinChangesNothing(rooms: seq<Room>, roomId: string, userId: string,
                                                userName: string, sid: string)
    requires OM.HasKey(rooms, roomId) && InRoom(OM.Get(rooms, roomId), userId)
    ensures JoinRoom(rooms, roomId, userId, userName, sid) == rooms
  {
    OM.SetSame(rooms, roomId);
  }

  /** `participants.filter(p => p.socketId !== sid)`. */
  function WithoutSocket(ps: seq<Participant>, sid: string): seq<Participant>
  {
    Seqs.Filter((p: Participant) => p.socketId != sid, ps)
  }

  /** What the disconnect loop does to one room: the participants on `sid` go, and a room left
   *  empty is deleted (None). */
  function PruneRoom(sid: string): seq<Participant> -> Option<seq<Participant>>
  {
    ps => var kept := WithoutSocket(ps, sid); if kept == [] then None else Some(kept)
  }

  /** `meetingRooms` after the disconnect loop for connection `sid`. */
  function PruneRooms(rooms: seq<Room>, sid: string): seq<Room>
  {
    OM.Refine(rooms, PruneRoom(sid))
  }

  /** What the disconnect loop emits for one room: nothing when the room was emptied, otherwise
   *  the updated participant list and a departure notice, both to the rest of the room. */
  function RoomNotices(roomId: string, kept: seq<Participant>, user: OnlineUser): seq<Event>
  {
    if kept == [] then []
    else [Emit(ChannelButSender(roomId), "meeting-participants", Participants(kept)),
          Emit(ChannelButSender(roomId), "user-left-meeting",
               UserLeft(user.userId, user.name, user.name + " left the meeting"))]
  }

  /** The emits of the disconnect loop, room by room in order. */
  function DepartureNotices(rooms: seq<Room>, sid: string, user: OnlineUser): seq<Event>
  {
    if rooms == [] then []
    else
      var last := rooms[|rooms| - 1];
      DepartureNotices(rooms[..|rooms| - 1], sid, user) + RoomNotices(last.key, WithoutSocket(last.value, sid), user)
  }

  /** One room of the disconnect loop: with the first `i` rooms done, deleting or overwriting
   *  room `i` gives the first `i + 1` rooms done, and its notices follow the earlier ones. */
  lemma PruneStep(rooms: seq<Room>, i: nat, sid: string, user: OnlineUser)
    requires OM.DistinctKeys(rooms) && i < |rooms|
    ensures WithoutSocket(rooms[i].value, sid) == [] ==>
              OM.Delete(PruneRooms(rooms[..i], sid) + rooms[i..], rooms[i].key) ==
              PruneRooms(rooms[..i + 1], sid) + rooms[i + 1..]
    ensures WithoutSocket(rooms[i].value, sid) != [] ==>
              OM.Set(PruneRooms(rooms[..i], sid) + rooms[i..], rooms[i].key, WithoutSocket(rooms[i].value, sid)) ==
              PruneRooms(rooms[..i + 1], sid) + rooms[i + 1..]
    ensures DepartureNotices(rooms[..i + 1], sid, user) ==
            DepartureNotices(rooms[..i], sid, user) + RoomNotices(rooms[i].key, WithoutSocket(rooms[i].value, sid), user)
  {
    OM.RefineStep(rooms, i, PruneRoom(sid));
    assert rooms[..i + 1][..i] == rooms[..i] && rooms[..i + 1][i] == rooms[i];
  }

  /** Exactly the rooms that still have a participant on another connection survive the disconnect
   *  loop, each with exactly those participants; none of them is empty or holds `sid`. */
  lemma PruneRoomsContents(rooms: seq<Room>, sid: string)
    requires OM.DistinctKeys(rooms)
    ensures OM.DistinctKeys(PruneRooms(rooms, sid))
    ensures forall k :: OM.HasKey(PruneRooms(rooms, sid), k) <==>
              OM.HasKey(rooms, k) && WithoutSocket(OM.Get(rooms, k), sid) != []
    ensures forall k | OM.HasKey(PruneRooms(rooms, sid), k) ::
              OM.Get(PruneRooms(rooms, sid), k) == WithoutSocket(OM.Get(rooms, k), sid)
    ensures forall i, j | 0 <= i < |PruneRooms(rooms, sid)| && 0 <= j < |PruneRooms(rooms, sid)[i].value| ::
              PruneRooms(rooms, sid)[i].value[j].socketId != sid
  {
    OM.RefineContents(rooms, PruneRoom(sid));
    var r := PruneRooms(rooms, sid);
    forall i, j | 0 <= i < |r| && 0 <= j < |r[i].value| ensures r[i].value[j].socketId != sid {
      OM.GetDistinct(r, i);
    }
  }

  /** The room invariant survives the disconnect loop. */
  lemma PruneRoomsValid(rooms: seq<Room>, sid: string)
    requires RoomsValid(rooms)
    ensures RoomsValid(PruneRooms(rooms, sid))
  {
    OM.RefineKeys(rooms, PruneRoom(sid));
    OM.RefineContents(rooms, PruneRoom(sid));
    forall ps | RoomOk(ps) && PruneRoom(sid)(ps).Some? ensures RoomOk(PruneRoom(sid)(ps).value) {
      Seqs.FilterKeepsDistinct((p: Participant) => p.socketId != sid, ParticipantId, ps);
    }
    OM.RefineAllValues(rooms, PruneRoom(sid), RoomOk);
  }

  // ------------------------------------------------------------ the handlers

  class Coordinator {
    var onlineUsers: seq<OnlineUser>
    var activeCalls: map<string, CallEntry>
    var meetingRooms: seq<Room>

    ghost predicate Valid()
      reads this
    {
      UniqueUserIds(onlineUsers) && RoomsValid(meetingRooms)
    }

    constructor ()
      ensures Valid()
      ensures onlineUsers == [] && activeCalls == map[] && meetingRooms == []
    {
      onlineUsers := [];
      activeCalls := map[];
      meetingRooms := [];
    }

    /** `join`: register the user's presence and broadcast the online list. A missing payload or
     *  a missing id changes nothing and emits nothing. */
    method OnJoin(sid: string, user: Option<JoinData>) returns (out: seq<Event>)
      requires Valid()
      modifies this
      ensures Valid()
      ensures activeCalls == old(activeCalls) && meetingRooms == old(meetingRooms)
      ensures user.None? || user.value.id == "" ==> onlineUsers == old(onlineUsers) && out == []
      ensures user.Some? && user.value.id != "" ==>
                onlineUsers == Connect(old(onlineUsers), user.value.id, user.value.name, sid) &&
                out == [Emit(Everyone, "online-users", OnlineUsers(onlineUsers))]
    {
      if user.None? || user.value.id == "" {
        return [];
      }
      var existing := UserIndex(onlineUsers, user.value.id);
      if existing.Some? {
        var k := existing.value;
        onlineUsers := onlineUsers[k := onlineUsers[k].(socketId := sid)];
      } else {
        onlineUsers := onlineUsers + [OnlineUser(user.value.id, user.value.name, sid)];
      }
      out := [Emit(Everyone, "online-users", OnlineUsers(onlineUsers))];
    }

    /** `callToUser`: an offline callee yields one `userUnavailable` to the caller; a callee keyed in
     *  `activeCalls` yields `userBusy` to the caller and `incomingCallWhileBusy` to the callee;
     *  otherwise the offer goes to the callee's socket. No state changes on any path. */
    method OnCallToUser(data: CallData) returns (out: seq<Event>)
      ensures UserById(onlineUsers, data.callToUserId).None? ==>
                out == [Emit(Sender, "userUnavailable", Notice(USER_OFFLINE))]
      ensures UserById(onlineUsers, data.callToUserId).Some? && data.callToUserId in activeCalls ==>
                var callee := UserById(onlineUsers, data.callToUserId).value;
                out == [Emit(Sender, "userBusy", Notice(USER_BUSY)),
                        Emit(Channel(callee.socketId), "incomingCallWhileBusy",
                             CallerCard(data.from, data.name, data.email, data.profilepic))]
      ensures UserById(onlineUsers, data.callToUserId).Some? && data.callToUserId !in activeCalls ==>
                var callee := UserById(onlineUsers, data.callToUserId).value;
                out == [Emit(Channel(callee.socketId), "callToUser",
                             IncomingCall(data.signalData, data.from, data.name, data.email, data.profilepic))]
    {
      var callee := UserById(onlineUsers, data.callToUserId);
      if callee.None? {
        return [Emit(Sender, "userUnavailable", Notice(USER_OFFLINE))];
      }
      if data.callToUserId in activeCalls {
        return [Emit(Sender, "userBusy", Notice(USER_BUSY)),
                Emit(Channel(callee.value.socketId), "incomingCallWhileBusy",
                     CallerCard(data.from, data.name, data.email, data.profilepic))];
      }
      out := [Emit(Channel(callee.value.socketId), "callToUser",
                   IncomingCall(data.signalData, data.from, data.name, data.email, data.profilepic))];
    }

    /** `answeredCall`: tell `to` the call was accepted, then key both ends in `activeCalls`. */
    method OnAnsweredCall(sid: string, data: AnswerData) returns (out: seq<Event>)
      requires Valid()
      modifies this
      ensures Valid()
      ensures onlineUsers == old(onlineUsers) && meetingRooms == old(meetingRooms)
      ensures activeCalls == RecordCall(old(activeCalls), data.from, data.to, sid)
      ensures activeCalls[data.from].with == data.to && activeCalls[data.to].with == data.from
      ensures out == [Emit(Channel(data.to), "callAccepted", Answer(data.signal, data.from))]
    {
      out := [Emit(Channel(data.to), "callAccepted", Answer(data.signal, data.from))];
      activeCalls := activeCalls[data.from := CallEntry(data.to, sid)];
      activeCalls := activeCalls[data.to := CallEntry(data.from, data.to)];
    }

    /** `reject-call`: forward the rejection to `to`; no call entry is created or removed. */
    method OnRejectCall(data: RejectData) returns (out: seq<Event>)
      ensures out == [Emit(Channel(data.to), "callRejected", Rejection(data.name, data.profilepic))]
    {
      out := [Emit(Channel(data.to), "callRejected", Rejection(data.name, data.profilepic))];
    }

    /** `call-ended`: tell `to`, then delete both ends from `activeCalls`. */
    method OnCallEnded(data: EndData) returns (out: seq<Event>)
      requires Valid()
      modifies this
      ensures Valid()
      ensures onlineUsers == old(onlineUsers) && meetingRooms == old(meetingRooms)
      ensures activeCalls == EndCall(old(activeCalls), data.from, data.to)
      ensures out == [Emit(Channel(data.to), "callEnded", Hangup(data.name))]
    {
      out := [Emit(Channel(data.to), "callEnded", Hangup(data.name))];
      activeCalls := activeCalls - {data.from};
      activeCalls := activeCalls - {data.to};
    }

    /** `start-instant-meeting`: refused with SERVER_FULL, before anything is created, whenever the
     *  room count has reached the cap (even if the room exists). Otherwise the room is created if
     *  absent, the host joins it unless already present, everyone else hears of the meeting and the
     *  host receives the participant list. */
    method OnStartInstantMeeting(sid: string, data: StartMeetingData) returns (out: seq<Event>)
      requires Valid()
      modifies this
      ensures Valid()
      ensures onlineUsers == old(onlineUsers) && activeCalls == old(activeCalls)
      ensures |old(meetingRooms)| >= MAX_ROOMS_PER_SERVER ==>
                meetingRooms == old(meetingRooms) &&
                out == [Emit(Sender, "meeting-error", Failure(SERVER_FULL, SERVER_FULL_MESSAGE))]
      ensures |old(meetingRooms)| < MAX_ROOMS_PER_SERVER ==>
                meetingRooms == StartMeeting(old(meetingRooms), data.roomId, data.hostId, data.hostName, sid) &&
                out == [Emit(EveryoneButSender, "instant-meeting-started",
                             MeetingStarted(data.roomId, data.hostId, data.hostName,
                                            data.hostName + " started an instant meeting. Room ID: " + data.roomId)),
                        Emit(Sender, "meeting-participants", Participants(OM.Get(meetingRooms, data.roomId)))]
    {
      if |meetingRooms| >= MAX_ROOMS_PER_SERVER {
        return [Emit(Sender, "meeting-error", Failure(SERVER_FULL, SERVER_FULL_MESSAGE))];
      }
      ghost var before := meetingRooms;
      if !OM.HasKey(meetingRooms, data.roomId) {
        meetingRooms := OM.Set(meetingRooms, data.roomId, []);
      }
      var participants := OM.Get(meetingRooms, data.roomId);
      assert participants == RoomOrEmpty(before, data.roomId);
      if !InRoom(participants, data.hostId) {
        participants := participants + [Participant(data.hostId, data.hostName, sid, true)];
        meetingRooms := OM.Set(meetingRooms, data.roomId, participants);
        if !OM.HasKey(before, data.roomId) {
          OM.SetSet(before, data.roomId, [], participants);
        }
      } else {
        OM.SetSame(before, data.roomId);
      }
      assert meetingRooms == StartMeeting(before, data.roomId, data.hostId, data.hostName, sid);
      if OM.HasKey(before, data.roomId) {
        OM.GetAllValues(before, data.roomId, RoomOk);
      }
      OM.SetAllValues(before, data.roomId, participants, RoomOk);
      out := [Emit(EveryoneButSender, "instant-meeting-started",
                   MeetingStarted(data.roomId, data.hostId, data.hostName,
                                  data.hostName + " started an instant meeting. Room ID: " + data.roomId)),
              Emit(Sender, "meeting-participants", Participants(participants))];
    }

    /** `join-meeting-room`: refused with SERVER_FULL whenever the room count has reached the cap
     *  (even if the room exists), and with ROOM_FULL when the room already holds
     *  MAX_PARTICIPANTS_PER_ROOM or more; neither refusal changes the rooms. Otherwise the user is
     *  added unless already present (a rejoin keeps the old entry and its socket id), the rest of
     *  the room is told, and the whole room receives the participant list. */
    method OnJoinMeetingRoom(sid: string, data: JoinRoomData) returns (out: seq<Event>)
      requires Valid()
      modifies this
      ensures Valid()
      ensures onlineUsers == old(onlineUsers) && activeCalls == old(activeCalls)
      ensures |old(meetingRooms)| >= MAX_ROOMS_PER_SERVER ==>
                meetingRooms == old(meetingRooms) &&
                out == [Emit(Sender, "meeting-error", Failure(SERVER_FULL, SERVER_FULL_MESSAGE))]
      ensures |old(meetingRooms)| < MAX_ROOMS_PER_SERVER &&
              |RoomOrEmpty(old(meetingRooms), data.roomId)| >= MAX_PARTICIPANTS_PER_ROOM ==>
                meetingRooms == old(meetingRooms) &&
                out == [Emit(Sender, "meeting-error", Failure(ROOM_FULL, ROOM_FULL_MESSAGE))]
      ensures |old(meetingRooms)| < MAX_ROOMS_PER_SERVER &&
              |RoomOrEmpty(old(meetingRooms), data.roomId)| < MAX_PARTICIPANTS_PER_ROOM ==>
                meetingRooms == JoinRoom(old(meetingRooms), data.roomId, data.userId, data.userName, sid) &&
                out == [Emit(ChannelButSender(data.roomId), "user-joined-meeting",
                             UserJoined(data.userId, data.userName, data.userName + "@meeting.local",
                                        data.userName + " joined the meeting")),
                        Emit(Channel(data.roomId), "meeting-participants",
                             Participants(OM.Get(meetingRooms, data.roomId)))]
    {
      if |meetingRooms| >= MAX_ROOMS_PER_SERVER {
        return [Emit(Sender, "meeting-error", Failure(SERVER_FULL, SERVER_FULL_MESSAGE))];
      }
      ghost var before := meetingRooms;
      if !OM.HasKey(meetingRooms, data.roomId) {
        meetingRooms := OM.Set(meetingRooms, data.roomId, []);
      }
      var participants := OM.Get(meetingRooms, data.roomId);
      assert participants == RoomOrEmpty(before, data.roomId);
      if |participants| >= MAX_PARTICIPANTS_PER_ROOM {
        return [Emit(Sender, "meeting-error", Failure(ROOM_FULL, ROOM_FULL_MESSAGE))];
      }
      if !InRoom(participants, data.userId) {
        participants := participants + [Participant(data.userId, data.userName, sid, false)];
        meetingRooms := OM.Set(meetingRooms, data.roomId, participants);
        if !OM.HasKey(before, data.roomId) {
          OM.SetSet(before, data.roomId, [], participants);
        }
      } else {
        OM.SetSame(before, data.roomId);
      }
      assert meetingRooms == JoinRoom(before, data.roomId, data.userId, data.userName, sid);
      if OM.HasKey(before, data.roomId) {
        OM.GetAllValues(before, data.roomId, RoomOk);
      }
      OM.SetAllValues(before, data.roomId, participants, RoomOk);
      out := [Emit(ChannelButSender(data.roomId), "user-joined-meeting",
                   UserJoined(data.userId, data.userName, data.userName + "@meeting.local",
                              data.userName + " joined the meeting")),
              Emit(Channel(data.roomId), "meeting-participants", Participants(participants))];
    }

    /** `send-meeting-chat`: an empty message or one longer than MAX_MESSAGE_LENGTH (counted in
     *  UTF-16 units) yields MESSAGE_TOO_LONG; a missing room yields ROOM_NOT_FOUND; in both cases
     *  only the sender hears of it. Otherwise the message goes to the rest of the room. */
    method OnSendMeetingChat(data: ChatData) returns (out: seq<Event>)
      ensures data.message == "" || Strings.Utf16Length(data.message) > MAX_MESSAGE_LENGTH ==>
                out == [Emit(Sender, "chat-error", Failure(MESSAGE_TOO_LONG, MESSAGE_LENGTH_MESSAGE))]
      ensures data.message != "" && Strings.Utf16Length(data.message) <= MAX_MESSAGE_LENGTH &&
              !OM.HasKey(meetingRooms, data.roomId) ==>
                out == [Emit(Sender, "chat-error", Failure(ROOM_NOT_FOUND, ROOM_NOT_FOUND_MESSAGE))]
      ensures data.message != "" && Strings.Utf16Length(data.message) <= MAX_MESSAGE_LENGTH &&
              OM.HasKey(meetingRooms, data.roomId) ==>
                out == [Emit(ChannelButSender(data.roomId), "meeting-chat-message",
                             ChatMessage(data.message, data.senderName, data.senderId, data.timestamp))]
    {
      if data.message == "" || Strings.Utf16Length(data.message) > MAX_MESSAGE_LENGTH {
        return [Emit(Sender, "chat-error", Failure(MESSAGE_TOO_LONG, MESSAGE_LENGTH_MESSAGE))];
      }
      if !OM.HasKey(meetingRooms, data.roomId) {
        return [Emit(Sender, "chat-error", Failure(ROOM_NOT_FOUND, ROOM_NOT_FOUND_MESSAGE))];
      }
      out := [Emit(ChannelButSender(data.roomId), "meeting-chat-message",
                   ChatMessage(data.message, data.senderName, data.senderId, data.timestamp))];
    }

    /** `disconnect` of connection `sid`. When a user is on `sid`: its call entries go (keyed by it,
     *  or with it as the other end), every room loses the participants on `sid`, an emptied room
     *  is deleted, and every other room, in order, gets the new list and a departure notice. In any
     *  case the online list loses every entry on `sid`, and everyone hears of it. */
    method OnDisconnect(sid: string) returns (out: seq<Event>)
      requires Valid()
      modifies this
      ensures Valid()
      ensures onlineUsers == WithoutConnection(old(onlineUsers), sid)
      ensures forall u | u in onlineUsers :: u.socketId != sid
      ensures UserOnSocket(old(onlineUsers), sid).None? ==>
                activeCalls == old(activeCalls) && meetingRooms == old(meetingRooms) &&
                out == [Emit(Everyone, "online-users", OnlineUsers(onlineUsers)),
                        Emit(EveryoneButSender, "discounnectUser", SocketGone(sid))]
      ensures UserOnSocket(old(onlineUsers), sid).Some? ==>
                var user := UserOnSocket(old(onlineUsers), sid).value;
                activeCalls == DropCallsOf(old(activeCalls), user.userId) &&
                meetingRooms == PruneRooms(old(meetingRooms), sid) &&
                out == DepartureNotices(old(meetingRooms), sid, user) +
                       [Emit(Everyone, "online-users", OnlineUsers(onlineUsers)),
                        Emit(EveryoneButSender, "discounnectUser", SocketGone(sid))]
    {
      out := [];
      var user := UserOnSocket(onlineUsers, sid);
      if user.Some? {
        ForgetCalls(user.value.userId);
        out := LeaveAllRooms(sid, user.value);
      }
      ghost var users := onlineUsers;
      onlineUsers := WithoutConnection(onlineUsers, sid);
      Seqs.FilterKeepsDistinct((u: OnlineUser) => u.socketId != sid, UserIdOf, users);
      out := out + [Emit(Everyone, "online-users", OnlineUsers(onlineUsers)),
                    Emit(EveryoneButSender, "discounnectUser", SocketGone(sid))];
    }

    /** The call clean-up of `disconnect`: delete the user's own entry, then walk the entries and
     *  delete each one whose other end is the user. */
    method ForgetCalls(userId: string)
      modifies this
      ensures onlineUsers == old(onlineUsers) && meetingRooms == old(meetingRooms)
      ensures activeCalls == DropCallsOf(old(activeCalls), userId)
    {
      activeCalls := activeCalls - {userId};
      ghost var calls := activeCalls;
      var pending := activeCalls.Keys;
      while pending != {}
        invariant pending <= calls.Keys
        invariant onlineUsers == old(onlineUsers) && meetingRooms == old(meetingRooms)
        invariant activeCalls == map k | k in calls && (k in pending || calls[k].with != userId) :: calls[k]
        decreases pending
      {
        var key :| key in pending;
        if activeCalls[key].with == userId {
          activeCalls := activeCalls - {key};
        }
        pending := pending - {key};
      }
    }

    /** The room clean-up of `disconnect`: walk `meetingRooms` in order; each room loses the
     *  participants on `sid` and is deleted if that empties it, or else is overwritten in place
     *  and notified. The walk only rewrites or deletes the entry it is on, so iterating the live
     *  map visits the entries present at the start, in order. */
    method LeaveAllRooms(sid: string, user: OnlineUser) returns (out: seq<Event>)
      requires RoomsValid(meetingRooms)
      modifies this
      ensures onlineUsers == old(onlineUsers) && activeCalls == old(activeCalls)
      ensures meetingRooms == PruneRooms(old(meetingRooms), sid)
      ensures RoomsValid(meetingRooms)
      ensures out == DepartureNotices(old(meetingRooms), sid, user)
    {
      var rooms := meetingRooms;
      assert OM.DistinctKeys(rooms);
      out := [];
      var i := 0;
      while i < |rooms|
        invariant 0 <= i <= |rooms|
        invariant OM.DistinctKeys(rooms)
        invariant onlineUsers == old(onlineUsers) && activeCalls == old(activeCalls)
        invariant meetingRooms == PruneRooms(rooms[..i], sid) + rooms[i..]
        invariant out == DepartureNotices(rooms[..i], sid, user)
      {
        out := LeaveRoom(rooms, i, sid, user, out);
        i := i + 1;
      }
      assert rooms[..i] == rooms;
      PruneRoomsValid(rooms, sid);
    }

    /** One room of the walk: room `i` of the snapshot `rooms` loses the participants on `sid`;
     *  it is deleted if that empties it, otherwise overwritten and its notices are added. */
    method LeaveRoom(rooms: seq<Room>, i: nat, sid: string, user: OnlineUser, prior: seq<Event>)
      returns (out: seq<Event>)
      requires OM.DistinctKeys(rooms) && i < |rooms|
      requires meetingRooms == PruneRooms(rooms[..i], sid) + rooms[i..]
      requires prior == DepartureNotices(rooms[..i], sid, user)
      modifies this
      ensures onlineUsers == old(onlineUsers) && activeCalls == old(activeCalls)
      ensures meetingRooms == PruneRooms(rooms[..i + 1], sid) + rooms[i + 1..]
      ensures out == DepartureNotices(rooms[..i + 1], sid, user)
    {
      var entry := rooms[i];
      var updated := WithoutSocket(entry.value, sid);
      PruneStep(rooms, i, sid, user);
      out := prior;
      if updated == [] {
        meetingRooms := OM.Delete(meetingRooms, entry.key);
      } else {
        meetingRooms := OM.Set(meetingRooms, entry.key, updated);
        out := out + RoomNotices(entry.key, updated, user);
      }
    }
  }
}
