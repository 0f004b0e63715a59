/** The meeting registry of the WebRTC signaling handlers (server/socketHandlers/videoCallHandler.js):
 *  `rooms`, a map from room id to a map from user id to the member's connection, and
 *  `userSockets`, a map from user id to the connection it last joined from. Each handler is a
 *  method of `Registry` taking the id of the connection the event came from. */
module VideoCallHandler {
  import opened Wrappers
  import opened Events
  import OM = OrderedMaps
  import Seqs

  /** What a room holds for a member. `joinedAt` is the `Date.now()` of the join. */
  datatype PeerInfo = PeerInfo(socketId: string, userName: string, joinedAt: int)
  type Members = seq<OM.Entry<string, PeerInfo>>
  type Rooms = seq<OM.Entry<string, Members>>

  /** A member as the joiner is told about it. */
  datatype PeerCard = PeerCard(userId: string, userName: string, socketId: string)

  datatype SignalKind = Offer | Answer | IceCandidate

  datatype Payload =
    | PeerJoined(userId: string, userName: string, socketId: string)
    | ExistingParticipants(peers: seq<PeerCard>)
    | PeerLeft(userId: string, userName: string)
    /** A relayed WebRTC message: `from` is the relaying connection, `fromUserId` what the client sent. */
    | Relayed(kind: SignalKind, roomId: string, body: string, from: string, fromUserId: string)

  type Event = Emit<Payload>

  datatype JoinData = JoinData(roomId: string, userId: string, userName: string)
  datatype LeaveData = LeaveData(roomId: string, userId: string)
  /** The payload of `webrtc-offer`, `webrtc-answer` and `ice-candidate`; `body` is the offer, the
   *  answer or the candidate. */
  datatype SignalData = SignalData(roomId: string, to: string, body: string, from: string)

  /** A room the registry keeps: never empty (the handlers delete a room that empties). */
  predicate RoomValid(ms: Members)
  {
    ms != [] && OM.DistinctKeys(ms)
  }

  predicate RegistryValid(rooms: Rooms)
  {
    OM.DistinctKeys(rooms) && OM.AllValues(rooms, RoomValid)
  }

  /** The members of a room, or the empty map a missing room is created with. */
  function MembersOf(rooms: Rooms, roomId: string): Members
  {
    if OM.HasKey(rooms, roomId) then OM.Get(rooms, roomId) else []
  }

  function Card(e: OM.Entry<string, PeerInfo>): PeerCard
  {
    PeerCard(e.key, e.value.userName, e.value.socketId)
  }

  /** The `existing-participants` list: every member other than `self`, in room order. */
  function OtherPeers(ms: Members, self: string): (r: seq<PeerCard>)
    ensures |r| <= |ms|
    ensures forall i | 0 <= i < |r| :: r[i].userId != self
    ensures forall i | 0 <= i < |ms| && ms[i].key != self :: Card(ms[i]) in r
    ensures forall c | c in r :: exists i | 0 <= i < |ms| :: Card(ms[i]) == c
  {
    if ms == [] then []
    else
      var tail := OtherPeers(ms[1..], self);
      var r := (if ms[0].key != self then [Card(ms[0])] else []) + tail;
      assert forall i | 1 <= i < |ms| :: ms[i] == ms[1..][i - 1];
      assert forall c | c in tail :: exists i | 0 <= i < |ms| :: Card(ms[i]) == c by {
        forall c | c in tail ensures exists i | 0 <= i < |ms| :: Card(ms[i]) == c {
          var i :| 0 <= i < |ms[1..]| && Card(ms[1..][i]) == c;
          assert Card(ms[i + 1]) == c;
        }
      }
      r
  }

  /** The peers list of a room the joiner is in has exactly one card fewer than the room. */
  lemma {:induction false} OtherPeersCount(ms: Members, self: string)
    requires OM.DistinctKeys(ms)
    ensures |OtherPeers(ms, self)| == if OM.HasKey(ms, self) then |ms| - 1 else |ms|
  {
    if ms != [] {
      assert OM.DistinctKeys(ms[1..]);
      OtherPeersCount(ms[1..], self);
      if ms[0].key == self {
        assert !OM.HasKey(ms[1..], self) by {
          assert forall j | 0 <= j < |ms[1..]| :: ms[1..][j].key != ms[0].key;
        }
      } else {
        assert OM.HasKey(ms, self) <==> OM.HasKey(ms[1..], self) by {
          if OM.HasKey(ms, self) {
            var j := OM.Find(ms, self).value;
            assert ms[1..][j - 1].key == self;
          }
          if OM.HasKey(ms[1..], self) {
            var j := OM.Find(ms[1..], self).value;
            assert ms[j + 1].key == self;
          }
        }
      }
    }
  }

  /** `rooms` after `join-meeting-room`: the room exists (appended if new) and maps `userId` to the
   *  new connection, overwriting any earlier entry; every other member and every other room is
   *  unchanged, and the registry invariant is kept. */
  function JoinRooms(rooms: Rooms, roomId: string, userId: string, userName: string, sid: string, now: int): (r: Rooms)
    ensures OM.HasKey(r, roomId)
    ensures OM.HasKey(OM.Get(r, roomId), userId) && OM.Get(OM.Get(r, roomId), userId) == PeerInfo(sid, userName, now)
    ensures forall u | u != userId :: OM.HasKey(OM.Get(r, roomId), u) <==> OM.HasKey(MembersOf(rooms, roomId), u)
    ensures forall u | u != userId && OM.HasKey(MembersOf(rooms, roomId), u) ::
              OM.Get(OM.Get(r, roomId), u) == OM.Get(MembersOf(rooms, roomId), u)
    ensures forall k :: OM.HasKey(r, k) <==> k == roomId || OM.HasKey(rooms, k)
    ensures forall k | k != roomId && OM.HasKey(rooms, k) :: OM.Get(r, k) == OM.Get(rooms, k)
    ensures RegistryValid(rooms) ==> RegistryValid(r)
  {
    var ms := OM.Set(MembersOf(rooms, roomId), userId, PeerInfo(sid, userName, now));
    assert RegistryValid(rooms) ==> RoomValid(ms) by {
      if RegistryValid(rooms) && OM.HasKey(rooms, roomId) { OM.GetAllValues(rooms, roomId, RoomValid); }
    }
    assert RegistryValid(rooms) ==> RegistryValid(OM.Set(rooms, roomId, ms)) by {
      if RegistryValid(rooms) { OM.SetAllValues(rooms, roomId, ms, RoomValid); }
    }
    OM.Set(rooms, roomId, ms)
  }

  /** `rooms` after `leave-meeting-room`: when the room exists and holds `userId`, that member is
   *  removed, every other member keeps its entry, and a room left empty is deleted; otherwise
   *  nothing changes. */
  function LeaveRooms(rooms: Rooms, roomId: string, userId: string): (r: Rooms)
    ensures !(OM.HasKey(rooms, roomId) && OM.HasKey(OM.Get(rooms, roomId), userId)) ==> r == rooms
    ensures RegistryValid(rooms) ==> RegistryValid(r)
    ensures RegistryValid(rooms) ==> !(OM.HasKey(r, roomId) && OM.HasKey(OM.Get(r, roomId), userId))
    ensures RegistryValid(rooms) && OM.HasKey(rooms, roomId) && OM.HasKey(OM.Get(rooms, roomId), userId) ==>
              (!OM.HasKey(r, roomId) <==> |OM.Get(rooms, roomId)| == 1)
    ensures RegistryValid(rooms) && OM.HasKey(r, roomId) ==>
              forall u | u != userId :: OM.HasKey(OM.Get(r, roomId), u) <==> OM.HasKey(MembersOf(rooms, roomId), u)
    ensures RegistryValid(rooms) && OM.HasKey(r, roomId) ==>
              forall u | u != userId && OM.HasKey(MembersOf(rooms, roomId), u) ::
                OM.Get(OM.Get(r, roomId), u) == OM.Get(MembersOf(rooms, roomId), u)
    ensures forall k | k != roomId :: OM.HasKey(r, k) <==> OM.HasKey(rooms, k)
    ensures forall k | k != roomId && OM.HasKey(rooms, k) :: OM.Get(r, k) == OM.Get(rooms, k)
  {
    if OM.HasKey(rooms, roomId) && OM.HasKey(OM.Get(rooms, roomId), userId) then
      var rest := OM.Delete(OM.Get(rooms, roomId), userId);
      assert RegistryValid(rooms) && rest != [] ==> RegistryValid(OM.Set(rooms, roomId, rest)) by {
        if RegistryValid(rooms) && rest != [] {
          OM.GetAllValues(rooms, roomId, RoomValid);
          OM.SetAllValues(rooms, roomId, rest, RoomValid);
        }
      }
      assert RegistryValid(rooms) ==> RegistryValid(OM.Delete(rooms, roomId)) by {
        if RegistryValid(rooms) { OM.DeleteAllValues(rooms, roomId, RoomValid); }
      }
      if rest == [] then OM.Delete(rooms, roomId) else OM.Set(rooms, roomId, rest)
    else rooms
  }

  /** The first member of a room on connection `sid`. */
  function SocketIndex(ms: Members, sid: string): Option<nat>
  {
    Seqs.FindIndex((e: OM.Entry<string, PeerInfo>) => e.value.socketId == sid, ms)
  }

  /** What the disconnect loop does to one room. Because of the `break`, only the FIRST member on
   *  `sid` is removed: every other member stays, including later ones on the same connection.
   *  The room is deleted (None) exactly when that member was its only one; a room with nobody on
   *  `sid` is left as it is. */
  function Vacate(ms: Members, sid: string): (r: Option<Members>)
    requires OM.DistinctKeys(ms)
    ensures SocketIndex(ms, sid).None? ==> r == Some(ms)
    ensures r.None? <==> |ms| == 1 && ms[0].value.socketId == sid
    ensures SocketIndex(ms, sid).Some? && r.Some? ==>
              var j := SocketIndex(ms, sid).value;
              |r.value| == |ms| - 1 && OM.DistinctKeys(r.value) && !OM.HasKey(r.value, ms[j].key) &&
              forall i | 0 <= i < |ms| && i != j :: OM.HasKey(r.value, ms[i].key) && OM.Get(r.value, ms[i].key) == ms[i].value
  {
    match SocketIndex(ms, sid)
    case None => Some(ms)
    case Some(j) =>
      OM.DeleteEntry(ms, j);
      var rest := OM.Delete(ms, ms[j].key);
      if rest == [] then None else Some(rest)
  }

  /** `Vacate` as the rewrite of one entry of `rooms`; a room without distinct keys, which the
   *  registry never holds, is left alone. */
  function VacateFn(sid: string): Members -> Option<Members>
  {
    ms => if OM.DistinctKeys(ms) then Vacate(ms, sid) else Some(ms)
  }

  /** `rooms` after the disconnect loop for connection `sid`, room by room in order. */
  function DisconnectRooms(rooms: Rooms, sid: string): Rooms
  {
    OM.Refine(rooms, VacateFn(sid))
  }

  /** The user ids the disconnect loop removes, one per room at most. */
  function DepartedUsers(rooms: Rooms, sid: string): set<string>
  {
    if rooms == [] then {}
    else
      var ms := rooms[|rooms| - 1].value;
      DepartedUsers(rooms[..|rooms| - 1], sid) +
      (match SocketIndex(ms, sid) case None => {} case Some(j) => {ms[j].key})
  }

  /** The emits of the disconnect loop: one departure notice per room that had a member on `sid`,
   *  to the rest of that room. */
  function DisconnectNotices(rooms: Rooms, sid: string): seq<Event>
  {
    if rooms == [] then []
    else
      var last := rooms[|rooms| - 1];
      DisconnectNotices(rooms[..|rooms| - 1], sid) +
      (match SocketIndex(last.value, sid)
       case None => []
       case Some(j) => [Emit(ChannelButSender(last.key), "user-left-meeting",
                             PeerLeft(last.value[j].key, last.value[j].value.userName))])
  }

  /** After the disconnect loop a room survives exactly when `Vacate` keeps it, with what `Vacate`
   *  leaves of it; in particular each room loses at most one member, and the registry invariant
   *  is kept. */
  lemma DisconnectRoomsContents(rooms: Rooms, sid: string)
    requires RegistryValid(rooms)
    ensures RegistryValid(DisconnectRooms(rooms, sid))
    ensures forall k :: OM.HasKey(DisconnectRooms(rooms, sid), k) <==>
              OM.HasKey(rooms, k) && Vacate(OM.Get(rooms, k), sid).Some?
    ensures forall k | OM.HasKey(DisconnectRooms(rooms, sid), k) ::
              OM.Get(DisconnectRooms(rooms, sid), k) == Vacate(OM.Get(rooms, k), sid).value &&
              |OM.Get(rooms, k)| - 1 <= |OM.Get(DisconnectRooms(rooms, sid), k)| <= |OM.Get(rooms, k)|
  {
    OM.RefineContents(rooms, VacateFn(sid));
    forall k | OM.HasKey(rooms, k) ensures RoomValid(OM.Get(rooms, k)) {
      OM.GetAllValues(rooms, k, RoomValid);
    }
    forall ms | RoomValid(ms) && VacateFn(sid)(ms).Some? ensures RoomValid(VacateFn(sid)(ms).value) {
    }
    OM.RefineAllValues(rooms, VacateFn(sid), RoomValid);
  }

  /** One step of the disconnect loop, for a room with a member on `sid`: with the first `i`
   *  rooms already handled, removing that member (and the room, if it empties) yields the first
   *  `i + 1` rooms handled. */
  lemma DisconnectStepFound(rooms: Rooms, i: nat, sid: string, j: nat, rest: Members)
    requires RegistryValid(rooms) && i < |rooms| && SocketIndex(rooms[i].value, sid) == Some(j)
    requires rest == OM.Delete(rooms[i].value, rooms[i].value[j].key)
    ensures rest == [] ==> OM.Delete(DisconnectRooms(rooms[..i], sid) + rooms[i..], rooms[i].key)
                           == DisconnectRooms(rooms[..i + 1], sid) + rooms[i + 1..]
    ensures rest != [] ==> OM.Set(DisconnectRooms(rooms[..i], sid) + rooms[i..], rooms[i].key, rest)
                           == DisconnectRooms(rooms[..i + 1], sid) + rooms[i + 1..]
    ensures DepartedUsers(rooms[..i + 1], sid) == DepartedUsers(rooms[..i], sid) + {rooms[i].value[j].key}
    ensures DisconnectNotices(rooms[..i + 1], sid) == DisconnectNotices(rooms[..i], sid) +
              [Emit(ChannelButSender(rooms[i].key), "user-left-meeting",
                    PeerLeft(rooms[i].value[j].key, rooms[i].value[j].value.userName))]
  {
    assert RoomValid(rooms[i].value);
    OM.RefineStep(rooms, i, VacateFn(sid));
    assert rooms[..i + 1][..i] == rooms[..i];
  }

  /** One step of the disconnect loop, for a room with nobody on `sid`: nothing changes. */
  lemma DisconnectStepNone(rooms: Rooms, i: nat, sid: string)
    requires RegistryValid(rooms) && i < |rooms| && SocketIndex(rooms[i].value, sid).None?
    ensures DisconnectRooms(rooms[..i], sid) + rooms[i..] == DisconnectRooms(rooms[..i + 1], sid) + rooms[i + 1..]
    ensures DepartedUsers(rooms[..i + 1], sid) == DepartedUsers(rooms[..i], sid)
    ensures DisconnectNotices(rooms[..i + 1], sid) == DisconnectNotices(rooms[..i], sid)
  {
    assert RoomValid(rooms[i].value);
    OM.RefineStep(rooms, i, VacateFn(sid));
    assert rooms[..i + 1][..i] == rooms[..i];
  }

  /** The registry invariant survives the disconnect loop. */
  lemma DisconnectRoomsValid(rooms: Rooms, sid: string)
    requires RegistryValid(rooms)
    ensures RegistryValid(DisconnectRooms(rooms, sid))
  {
    DisconnectRoomsContents(rooms, sid);
  }

  /** Removing two sets of keys one after the other removes their union. */
  lemma RemoveKeysTwice(m: map<string, string>, a: set<string>, b: set<string>)
    ensures (m - a) - b == m - (a + b)
  {
  }

  class Registry {
    var rooms: Rooms
    var userSockets: map<string, string>

    ghost predicate Valid()
      reads this
    {
      RegistryValid(rooms)
    }

    constructor ()
      ensures Valid()
      ensures rooms == [] && userSockets == map[]
    {
      rooms := [];
      userSockets := map[];
    }

    /** `join-meeting-room`: record the user's connection, put the user in the room (creating it
     *  if needed, overwriting an earlier entry), tell the rest of the room, and send the joiner
     *  every other member. */
    method OnJoinMeetingRoom(sid: string, data: JoinData, now: int) returns (out: seq<Event>)
      requires Valid()
      modifies this
      ensures Valid()
      ensures userSockets == old(userSockets)[data.userId := sid]
      ensures rooms == JoinRooms(old(rooms), data.roomId, data.userId, data.userName, sid, now)
      ensures out == [Emit(ChannelButSender(data.roomId), "user-joined-meeting", PeerJoined(data.userId, data.userName, sid)),
                      Emit(Sender, "existing-participants", ExistingParticipants(OtherPeers(OM.Get(rooms, data.roomId), data.userId)))]
    {
      ghost var before := rooms;
      userSockets := userSockets[data.userId := sid];
      if !OM.HasKey(rooms, data.roomId) {
        rooms := OM.Set(rooms, data.roomId, []);
      }
      var room := OM.Get(rooms, data.roomId);
      assert room == MembersOf(before, data.roomId);
      room := OM.Set(room, data.userId, PeerInfo(sid, data.userName, now));
      if !OM.HasKey(before, data.roomId) {
        OM.SetSet(before, data.roomId, [], room);
      }
      rooms := OM.Set(rooms, data.roomId, room);
      out := [Emit(ChannelButSender(data.roomId), "user-joined-meeting", PeerJoined(data.userId, data.userName, sid)),
              Emit(Sender, "existing-participants", ExistingParticipants(OtherPeers(room, data.userId)))];
    }

    /** `webrtc-offer`: forwarded to `to`, stamped with the relaying connection as `from`. */
    method OnWebrtcOffer(sid: string, data: SignalData) returns (out: seq<Event>)
      ensures |out| == 1 && out[0].target == Channel(data.to) && out[0].name == "webrtc-offer"
      ensures out[0].payload == Relayed(Offer, data.roomId, data.body, sid, data.from)
    {
      out := [Emit(Channel(data.to), "webrtc-offer", Relayed(Offer, data.roomId, data.body, sid, data.from))];
    }

    /** `webrtc-answer`: forwarded to `to`, stamped with the relaying connection as `from`. */
    method OnWebrtcAnswer(sid: string, data: SignalData) returns (out: seq<Event>)
      ensures |out| == 1 && out[0].target == Channel(data.to) && out[0].name == "webrtc-answer"
      ensures out[0].payload == Relayed(Answer, data.roomId, data.body, sid, data.from)
    {
      out := [Emit(Channel(data.to), "webrtc-answer", Relayed(Answer, data.roomId, data.body, sid, data.from))];
    }

    /** `ice-candidate`: forwarded to `to`, stamped with the relaying connection as `from`. */
    method OnIceCandidate(sid: string, data: SignalData) returns (out: seq<Event>)
      ensures |out| == 1 && out[0].target == Channel(data.to) && out[0].name == "ice-candidate"
      ensures out[0].payload == Relayed(IceCandidate, data.roomId, data.body, sid, data.from)
    {
      out := [Emit(Channel(data.to), "ice-candidate", Relayed(IceCandidate, data.roomId, data.body, sid, data.from))];
    }

    /** `leave-meeting-room`: a known member of a known room is removed from it and from
     *  `userSockets`, the rest of the room is told, and an emptied room is deleted. An unknown room
     *  or member changes nothing and emits nothing. */
    method OnLeaveMeetingRoom(data: LeaveData) returns (out: seq<Event>)
      requires Valid()
      modifies this
      ensures Valid()
      ensures rooms == LeaveRooms(old(rooms), data.roomId, data.userId)
      ensures !(OM.HasKey(old(rooms), data.roomId) && OM.HasKey(OM.Get(old(rooms), data.roomId), data.userId)) ==>
                userSockets == old(userSockets) && out == []
      ensures OM.HasKey(old(rooms), data.roomId) && OM.HasKey(OM.Get(old(rooms), data.roomId), data.userId) ==>
                userSockets == old(userSockets) - {data.userId} &&
                out == [Emit(ChannelButSender(data.roomId), "user-left-meeting",
                             PeerLeft(data.userId, OM.Get(OM.Get(old(rooms), data.roomId), data.userId).userName))]
    {
      out := [];
      if OM.HasKey(rooms, data.roomId) {
        var room := OM.Get(rooms, data.roomId);
        if OM.HasKey(room, data.userId) {
          var info := OM.Get(room, data.userId);
          room := OM.Delete(room, data.userId);
          userSockets := userSockets - {data.userId};
          out := [Emit(ChannelButSender(data.roomId), "user-left-meeting", PeerLeft(data.userId, info.userName))];
          if room == [] {
            rooms := OM.Delete(rooms, data.roomId);
          } else {
            rooms := OM.Set(rooms, data.roomId, room);
          }
        }
      }
    }

    /** The inner loop of `disconnect`: the position of the first member on `sid`, or the size of
     *  the room when there is none (the loop runs to its end without reaching the `break`). */
    method FirstOnSocket(members: Members, sid: string) returns (j: nat)
      ensures j <= |members|
      ensures j < |members| <==> SocketIndex(members, sid).Some?
      ensures j < |members| ==> SocketIndex(members, sid) == Some(j)
    {
      j := 0;
      while j < |members| && members[j].value.socketId != sid
        invariant 0 <= j <= |members|
        invariant forall k | 0 <= k < j :: members[k].value.socketId != sid
      {
        j := j + 1;
      }
    }

    /** `disconnect` of connection `sid`: in every room, in order, the first member on `sid` is
     *  removed from the room and from `userSockets`, the rest of the room is told, and an emptied
     *  room is deleted. */
    method OnDisconnect(sid: string) returns (out: seq<Event>)
      requires Valid()
      modifies this
      ensures Valid()
      ensures rooms == DisconnectRooms(old(rooms), sid)
      ensures userSockets == old(userSockets) - DepartedUsers(old(rooms), sid)
      ensures out == DisconnectNotices(old(rooms), sid)
    {
      var snapshot := rooms;
      out := [];
      var i := 0;
      while i < |snapshot|
        invariant 0 <= i <= |snapshot|
        invariant rooms == DisconnectRooms(snapshot[..i], sid) + snapshot[i..]
        invariant userSockets == old(userSockets) - DepartedUsers(snapshot[..i], sid)
        invariant out == DisconnectNotices(snapshot[..i], sid)
      {
        out := VisitRoom(snapshot, i, sid, old(userSockets), out);
        i := i + 1;
      }
      assert snapshot[..i] == snapshot && snapshot[i..] == [];
      assert rooms == DisconnectRooms(snapshot, sid);
      DisconnectRoomsValid(snapshot, sid);
    }

    /** The body of the disconnect loop for room `i` of the rooms as they were when the loop
     *  started: the inner loop looks for the first member on `sid`, and if there is one it is
     *  removed from the room and from `userSockets`, the rest of the room is told (after the
     *  `prior` emits), and an emptied room is deleted. */
    method VisitRoom(snapshot: Rooms, i: nat, sid: string, ghost sockets: map<string, string>, prior: seq<Event>)
      returns (out: seq<Event>)
      requires RegistryValid(snapshot) && i < |snapshot|
      requires rooms == DisconnectRooms(snapshot[..i], sid) + snapshot[i..]
      requires userSockets == sockets - DepartedUsers(snapshot[..i], sid)
      requires prior == DisconnectNotices(snapshot[..i], sid)
      modifies this
      ensures rooms == DisconnectRooms(snapshot[..i + 1], sid) + snapshot[i + 1..]
      ensures userSockets == sockets - DepartedUsers(snapshot[..i + 1], sid)
      ensures out == DisconnectNotices(snapshot[..i + 1], sid)
    {
      var roomId := snapshot[i].key;
      var members := snapshot[i].value;
      var j := FirstOnSocket(members, sid);
      if j < |members| {
        var userId := members[j].key;
        var remaining := OM.Delete(members, userId);
        DisconnectStepFound(snapshot, i, sid, j, remaining);
        RemoveKeysTwice(sockets, DepartedUsers(snapshot[..i], sid), {userId});
        userSockets := userSockets - {userId};
        out := prior + [Emit(ChannelButSender(roomId), "user-left-meeting", PeerLeft(userId, members[j].value.userName))];
        if remaining == [] {
          rooms := OM.Delete(rooms, roomId);
        } else {
          rooms := OM.Set(rooms, roomId, remaining);
        }
      } else {
        DisconnectStepNone(snapshot, i, sid);
        out := prior;
      }
    }
  }
}
