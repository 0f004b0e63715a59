# Video-call signaling server and meeting client, modelled in Dafny

The system lets signed-in users see who is online and call them over WebRTC. It also lets them hold
multi-party meetings with in-meeting chat and polls. A Node/Socket.IO server does not carry media.
It keeps three pieces of in-memory state and relays signaling messages:

- who is online;
- which one-to-one calls are active;
- which meeting rooms exist, and who is in each.

This project models that server core, the accounts it keeps in memory, and the client logic that
interprets its events.

Modules, one per source file (plus shared helpers):

- `SignalingServer` models the socket handlers of `server/index.js`. `Coordinator` holds
  `onlineUsers`, `activeCalls` and `meetingRooms`. Each handler is a method that takes the sending
  connection's id and the payload, updates the state, and returns the emits it makes, in order.
  Every handler keeps two invariants:
  - one presence entry per user id;
  - at most 1000 rooms, none of them empty, with one entry per user in each.
- `VideoCallHandler` models `server/socketHandlers/videoCallHandler.js`. The `Registry` class holds
  the nested room map and `userSockets`, and handles join, leave, disconnect and the three WebRTC
  relays.
- `TempStorage` and `AuthController` model the user store and the sign-up and login rules.
- `Polls` models the polls panel: its state as a class, plus the tally as functions.
- `Dashboard` models the dashboard's pure logic and its join-by-code handler:
  - meeting-code parsing;
  - the meeting timer;
  - presence and search;
  - the three reducers over the participant list.
- Shared helpers:
  - `OrderedMaps` is a JavaScript `Map` as an insertion-ordered association list. It includes
    `Refine`, a walk over the entries that rewrites or deletes the entry it is on.
  - `Seqs` holds filter, find and distinctness.
  - `Strings` holds `trim`, `toLowerCase`, `includes`, `split`, `padStart`, number printing and
    UTF-16 length.
  - `Events` holds emit targets, and `Wrappers` the `Option` type.

JavaScript Maps whose order shows in the output are insertion-ordered lists of entries with distinct
keys: `meetingRooms`, the video handler's rooms and their member maps. Setting an existing key
overwrites that entry in place; setting a new key appends it. Maps whose order never shows
(`activeCalls`, `userSockets`) are Dafny `map`s.

In payloads, a string field equal to `""` stands for the source's falsy values: missing, `null` or
empty. That holds where the source tests a field (`!user.id`, `data.userEmail || …`). It does not
hold where the source prints one into a template string; see "## Left out".

Three behaviours of the code are modelled as written:

- `answeredCall` stores, as the socket id of the `to` entry, that entry's own key (`data.to`).
- `answeredCall` keys `activeCalls` by whatever the client sends as `from` and `to`. The dashboard
  sends socket ids there, while the busy check of `callToUser` and the clean-up of `disconnect` look
  entries up by user id, so with that client neither finds the call. The model keys the map by the
  payload's strings exactly as the server does.
- Rejoining a meeting room keeps the first entry and its old socket id.
- `SERVER_FULL` is refused on the room count alone, even when the room already exists.

Also as written, `join-meeting-room` refuses a user already in a full room with `ROOM_FULL`. The
server's `disconnect` removes every participant on the closing connection from every room. The video
handler's `disconnect` removes only the first member on that connection from each room, because of
its `break`.

## Model

| member | source | states |
|---|---|---|
| SignalingServer.Coordinator.constructor | server/index.js:68-70 | The server starts with no online users, no calls and no rooms, and the invariant holds. |
| SignalingServer.Connect | server/index.js:100-111 | A user already online keeps its place and name and takes the new socket id. An unknown user is appended. No other entry changes, ids stay unique, and the user ends up on the new socket. |
| SignalingServer.Coordinator.OnJoin | server/index.js:93-114 | A missing payload or id changes nothing and emits nothing. Otherwise the online list becomes `Connect(...)`, the whole new list is broadcast, and calls and rooms are untouched. |
| SignalingServer.Coordinator.OnCallToUser | server/index.js:117-147 | Offline callee: one `userUnavailable` to the caller. Callee keyed in active calls: `userBusy` to the caller and `incomingCallWhileBusy` to the callee's socket. Otherwise: the offer to the callee's socket. |
| SignalingServer.RecordCall | server/index.js:157-158 | Each end is keyed to the other. The `from` entry has the sender's socket, and the `to` entry has its own key as its socket. The key set grows by exactly the two ends, and other entries are kept. |
| SignalingServer.Coordinator.OnAnsweredCall | server/index.js:150-159 | `callAccepted` goes to `to`, and the calls become `RecordCall(...)`. Users and rooms are untouched. |
| SignalingServer.Coordinator.OnRejectCall | server/index.js:162-167 | Exactly one `callRejected` goes to `to`, with the rejecter's name and picture. |
| SignalingServer.EndCall | server/index.js:176-177 | Both ends are gone, the key set loses exactly them, and every other entry is kept. |
| SignalingServer.EndCallIdempotent | server/index.js:170-178 | A second `call-ended` for the same pair leaves the calls as the first one did. |
| SignalingServer.Coordinator.OnCallEnded | server/index.js:170-178 | `callEnded` goes to `to`, and the calls become `EndCall(...)`. |
| SignalingServer.Admit | server/index.js:201-215 | The user is in the room afterwards. A user already present leaves the list exactly as it was. A new one is appended with the given host flag, and user ids stay unique. |
| SignalingServer.AdmitIdempotent | server/index.js:201-215 | Admitting a user a second time, under any name, socket or host flag, changes nothing. |
| SignalingServer.Enter | server/index.js:195-215 | Only the entered room changes, and it is created if absent. It becomes `Admit(...)` of its old participants, every other room keeps its list, and below 1000 rooms the room invariant is kept. |
| SignalingServer.StartMeeting | server/index.js:195-215 | The room holds `Admit(...)` of its old list with the host flag set, other rooms are unchanged, and below the cap the invariant is kept. |
| SignalingServer.JoinRoom | server/index.js:251-275 | The room holds `Admit(...)` of its old list without the host flag, other rooms are unchanged, and below the cap the invariant is kept. |
| SignalingServer.StartMeetingIdempotent | server/index.js:181-229 | Starting the same meeting twice leaves the rooms as starting it once. |
| SignalingServer.StartMeetingHost | server/index.js:199-215 | After a start the room exists. It is unchanged if the host was in it; otherwise it gains the host as last entry with `isHost` set. |
| SignalingServer.Coordinator.OnStartInstantMeeting | server/index.js:181-229 | With 1000 or more rooms, only `SERVER_FULL` goes to the sender, even for an existing room. Otherwise the rooms become `StartMeeting(...)`; everyone else hears of the meeting, and the host gets the room's list. The invariant is kept. |
| SignalingServer.RejoinChangesNothing | server/index.js:267-280 | A rejoin by a user already in an existing room leaves every room as it was, old socket id included. |
| SignalingServer.Coordinator.OnJoinMeetingRoom | server/index.js:232-294 | `SERVER_FULL` when the room count is 1000 or more. `ROOM_FULL` when the room already holds 50 or more. Neither changes the rooms. Otherwise the rooms become `JoinRoom(...)`; the rest of the room gets `user-joined-meeting` with `name@meeting.local`, and the whole room gets the list. |
| SignalingServer.Coordinator.OnSendMeetingChat | server/index.js:297-333 | An empty message, or one over 500 UTF-16 units, gets `MESSAGE_TOO_LONG` to the sender. A missing room gets `ROOM_NOT_FOUND`. Otherwise exactly one `meeting-chat-message` goes to the rest of the room. |
| SignalingServer.DropCallsOf | server/index.js:410-415 | The user's own entry and every entry whose other end is the user are gone. Every other entry is kept unchanged. |
| SignalingServer.Coordinator.ForgetCalls | server/index.js:410-415 | The delete-then-walk loop leaves exactly `DropCallsOf(old calls, user)`. |
| SignalingServer.PruneRooms | server/index.js:418-432 | The rooms the disconnect walk leaves. The function has no contract of its own; `PruneRoomsContents` and `PruneRoomsValid` state what it is. |
| SignalingServer.PruneStep | server/index.js:418-432 | One room of the walk, deleted or overwritten, extends the rooms and notices of the walk so far by that room. |
| SignalingServer.PruneRoomsContents | server/index.js:418-432 | A room survives the disconnect walk exactly when a participant on another connection remains, and it then holds exactly those participants. No surviving participant is on the closed connection. |
| SignalingServer.PruneRoomsValid | server/index.js:418-432 | The room invariant survives the disconnect walk. |
| SignalingServer.Coordinator.LeaveRoom | server/index.js:419-431 | One iteration of the room walk takes the loop invariant from room `i` to room `i + 1`. |
| SignalingServer.Coordinator.LeaveAllRooms | server/index.js:418-432 | Walking the live map leaves `PruneRooms(old rooms)`, emits the list and the departure notice for each surviving room in order, and keeps the invariant. |
| SignalingServer.Coordinator.OnDisconnect | server/index.js:407-447 | The online list loses every entry on the connection, and `online-users` and `discounnectUser` follow. If a user was on it, its calls and room entries are cleaned first, with the notices before the broadcasts. If not, calls and rooms are untouched. |
| VideoCallHandler.Registry.constructor | server/socketHandlers/videoCallHandler.js:4-5 | Both maps start empty. |
| VideoCallHandler.OtherPeers | server/socketHandlers/videoCallHandler.js:39-47 | The joiner's list holds every other member's card, and only cards of members. |
| VideoCallHandler.OtherPeersCount | server/socketHandlers/videoCallHandler.js:39-47 | The list has one card fewer than the room when the joiner is a member, and as many otherwise. |
| VideoCallHandler.JoinRooms | server/socketHandlers/videoCallHandler.js:19-29 | The room exists and maps the user to the new connection and time, overwriting any earlier entry. Every other member and every other room is unchanged, and the invariant is kept. |
| VideoCallHandler.Registry.OnJoinMeetingRoom | server/socketHandlers/videoCallHandler.js:12-50 | `userSockets` maps the user to the connection, and the rooms become `JoinRooms(...)`. The rest of the room is told, then the joiner gets the other members. |
| VideoCallHandler.Registry.OnWebrtcOffer | server/socketHandlers/videoCallHandler.js:53-61 | Exactly one `webrtc-offer` goes to `to`, carrying the offer and the relaying connection as `from`. |
| VideoCallHandler.Registry.OnWebrtcAnswer | server/socketHandlers/videoCallHandler.js:64-72 | Exactly one `webrtc-answer` goes to `to`, carrying the answer and the relaying connection as `from`. |
| VideoCallHandler.Registry.OnIceCandidate | server/socketHandlers/videoCallHandler.js:75-83 | Exactly one `ice-candidate` goes to `to`, carrying the candidate and the relaying connection as `from`. |
| VideoCallHandler.LeaveRooms | server/socketHandlers/videoCallHandler.js:86-111 | An unknown room or member changes nothing. Otherwise the member is gone, and every other member of the room keeps its entry. The room is deleted exactly when the member was its last one. Other rooms are unchanged, and the invariant is kept. |
| VideoCallHandler.Registry.OnLeaveMeetingRoom | server/socketHandlers/videoCallHandler.js:86-111 | The rooms become `LeaveRooms(...)`. A known member also leaves `userSockets`, and the rest of the room gets one notice with the member's name. Otherwise nothing changes or is emitted. |
| VideoCallHandler.Vacate | server/socketHandlers/videoCallHandler.js:117-131 | A room with nobody on the connection is kept whole. Otherwise only its first member on the connection goes, every other member stays, and the room is deleted exactly when that member was its only one. |
| VideoCallHandler.Registry.FirstOnSocket | server/socketHandlers/videoCallHandler.js:117-131 | The inner loop stops at the first member on the connection, or at the end when there is none. |
| VideoCallHandler.DisconnectStepFound | server/socketHandlers/videoCallHandler.js:116-133 | One room with a member on the connection extends the walk's rooms, removed users and notices by that room. |
| VideoCallHandler.DisconnectStepNone | server/socketHandlers/videoCallHandler.js:116-133 | One room with nobody on the connection changes nothing in the walk. |
| VideoCallHandler.DisconnectRoomsContents | server/socketHandlers/videoCallHandler.js:114-134 | After the disconnect loop a room survives exactly when `Vacate` keeps it, with what `Vacate` leaves. Each room loses at most one member, and the invariant holds. |
| VideoCallHandler.DisconnectRoomsValid | server/socketHandlers/videoCallHandler.js:114-134 | The registry invariant survives the disconnect loop. |
| VideoCallHandler.Registry.VisitRoom | server/socketHandlers/videoCallHandler.js:116-133 | One iteration of the outer loop takes rooms, `userSockets` and notices from room `i` to room `i + 1`. |
| VideoCallHandler.DisconnectRooms | server/socketHandlers/videoCallHandler.js:114-134 | The rooms the disconnect loop leaves. The function has no contract of its own; `DisconnectRoomsContents` and `DisconnectRoomsValid` state what it is. |
| VideoCallHandler.Registry.OnDisconnect | server/socketHandlers/videoCallHandler.js:114-134 | The rooms become `DisconnectRooms(old rooms)`, `userSockets` loses exactly the removed users, and one notice goes out per room that had a member on the connection. |
| TempStorage.UserStore.constructor | server/utils/tempStorage.js:4 | The store starts empty. |
| TempStorage.UserStore.AddUser | server/utils/tempStorage.js:6-8 | The record is appended, and every earlier record keeps its place. |
| TempStorage.FindUserByEmail | server/utils/tempStorage.js:10-12 | None exactly when no record has the email. Otherwise the first record with that email. |
| TempStorage.FindUserByUsername | server/utils/tempStorage.js:14-16 | None exactly when no record has the username. Otherwise the first record with that username. |
| TempStorage.GetAllUsersExcept | server/utils/tempStorage.js:18-20 | Every record whose id differs is kept, and only such records. |
| TempStorage.GetAllUsersExceptAppend | server/utils/tempStorage.js:18-20 | The result keeps store order: a record appended later comes last. |
| TempStorage.GetAllUsersExceptAbsent | server/utils/tempStorage.js:18-20 | An id no record has gives back the whole store. |
| TempStorage.AppendKeepsUnique | server/routControler/authControler.js:11-15 | Appending a record whose username and email are both unused keeps usernames and emails unique. |
| AuthController.ProfilePic | server/routControler/authControler.js:18-19 | A supplied picture is kept. Otherwise the avatar is blue for "male" and pink for any other gender. |
| AuthController.NewUser | server/routControler/authControler.js:21-29 | The id is the decimal time, the password is stored only as its hash, and the other fields come from the request. |
| AuthController.SignUp | server/routControler/authControler.js:6-54 | A taken username is refused first, then a taken email, each with 400 and the store untouched. Otherwise exactly one record is appended and 201 returns the account with a token for its id. Uniqueness of usernames and emails is kept. |
| AuthController.Login | server/routControler/authControler.js:58-88 | An unknown email gives 400 `Email doesn't exist…`, and a known email with a non-matching password gives 400 `Invalid email or password`. Status 200 exactly when the first record with the email matches the password. The body is then that record's account (id, names, picture, email), the login message, and a token for its id. |
| AuthController.SignUpThenLogin | server/routControler/authControler.js:21-80 | After signing up with a fresh email, logging in with the same email and password returns the new account, when the hash accepts its own password. |
| Polls.PollsModal.constructor | client/src/components/tools/PollsModal.jsx:4-6 | No polls, an empty question, and three empty option fields. |
| Polls.PollsModal.OnPollCreated | client/src/components/tools/PollsModal.jsx:12-15 | The received poll is appended and the form is untouched. |
| Polls.RecordVote | client/src/components/tools/PollsModal.jsx:17-23 | On every poll with the id, the user's vote becomes the option, and every other vote and field is unchanged. Other polls are unchanged. |
| Polls.RecordVoteOverwrites | client/src/components/tools/PollsModal.jsx:17-23 | A later vote by the same user replaces the earlier one, so a user holds one vote per poll. |
| Polls.PollsModal.OnPollVoted | client/src/components/tools/PollsModal.jsx:17-23 | The polls become `RecordVote(...)`. |
| Polls.NonBlank | client/src/components/tools/PollsModal.jsx:33 | Exactly the options that are not all whitespace are kept, untrimmed, each as often as it was typed. |
| Polls.Acceptable | client/src/components/tools/PollsModal.jsx:35 | The acceptance test of `createPoll`. A predicate with no contract; `AcceptableMeans` states what it means. |
| Polls.AcceptableMeans | client/src/components/tools/PollsModal.jsx:32-35 | A form is accepted exactly when the question is not all whitespace and two different option fields are not all whitespace. A blank question, or fewer than two fields, is refused. |
| Polls.PollsModal.CreatePoll | client/src/components/tools/PollsModal.jsx:31-64 | An accepted form appends a poll with the trimmed question, the non-blank options and no votes. It sends the poll only when in a meeting with a socket, resets the form, and shows the success alert. A refused form changes nothing and shows the other alert. |
| Polls.PollsModal.VoteOnPoll | client/src/components/tools/PollsModal.jsx:66-82 | The vote is sent only when in a meeting with a socket, and is always recorded locally. |
| Polls.PollsModal.ClickOption | client/src/components/tools/PollsModal.jsx:186-200 | A click is ignored once the user has voted on that poll: no vote, no send. Otherwise the vote is recorded, and `vote-poll` is sent exactly when in a meeting with a socket. |
| Polls.HasVoted | client/src/components/tools/PollsModal.jsx:186 | Whether the user's id is a key of the poll's votes. A predicate with no contract; `ClickOption` states what it gates. |
| Polls.VoteCount | client/src/components/tools/PollsModal.jsx:87 | An option's count never exceeds the number of voters. |
| Polls.RoundedPercentage | client/src/components/tools/PollsModal.jsx:88 | The nearest whole percentage, halves up. It is between 0 and 100 for counts up to the total, 0 for none and 100 for all. |
| Polls.PercentageBounds | client/src/components/tools/PollsModal.jsx:88 | The floor of `(200 * votes + total) / (2 * total)` is the nearest whole percentage, halves up: within 0..100 for at most `total` votes, 0 for none and 100 for all. |
| Polls.CalculateResults | client/src/components/tools/PollsModal.jsx:84-91 | One row per option, in order, with its text, its count and its rounded share of all voters. Shares are between 0 and 100, and the row is all zero while nobody has voted. |
| Polls.CountsPartitionVoters | client/src/components/tools/PollsModal.jsx:84-91 | The counts of the first `n` options add up to the number of voters who chose one of them. |
| Polls.ResultsCountEachVoterOnce | client/src/components/tools/PollsModal.jsx:84-91 | The counts never add up to more than the voters, and add up to exactly that when every vote names an option. |
| Strings.Trim | client/src/pages/Dashboard/Dashboard.jsx:590 | The result strips all whitespace at both ends, and is empty exactly when the input is all whitespace. |
| Strings.SecondPiece | client/src/pages/Dashboard/Dashboard.jsx:601 | The text that starts after the first separator and runs up to the next separator occurrence starting at or after that point, or to the end. |
| Strings.SecondPieceUnique | client/src/pages/Dashboard/Dashboard.jsx:601 | At most one string is the second piece, so the contract of `SecondPiece` determines its result. |
| Strings.SecondPieceHasNoSeparator | client/src/pages/Dashboard/Dashboard.jsx:601 | A second piece contains no whole separator. |
| Strings.Utf16Length | server/index.js:301 | `length` counts UTF-16 units: between one and two per character, one each when all are in the Basic Multilingual Plane. |
| Dashboard.RoomIdOf | client/src/pages/Dashboard/Dashboard.jsx:597-602 | Without `/join/` in the trimmed code, the room id is the trimmed code. With it, the room id is the piece after the first `/join/`, up to the next `/join/` occurrence starting inside it, or the end. |
| Dashboard.RoomIdOfBareCode | client/src/pages/Dashboard/Dashboard.jsx:597-602 | A bare room id with no padding and no `/join/` is its own room id. |
| Dashboard.RoomIdOfMeetingLink | client/src/pages/Dashboard/Dashboard.jsx:556 | A link built as `origin/join/roomId` yields `roomId` again. |
| Dashboard.MeetingEntry.JoinMeetingByCode | client/src/pages/Dashboard/Dashboard.jsx:589-642 | A blank code alerts and changes nothing, and so does refused media. Otherwise one `join-meeting-room` with `RoomIdOf(code)` is sent, and the meeting state is set: accepted, sidebar closed, current meeting, start time, and the code cleared. |
| Dashboard.JsRemainder | client/src/pages/Dashboard/Dashboard.jsx:883 | JavaScript's `%`: `a` minus `b` times the quotient truncated toward zero. That equals Dafny's `%` for non-negative `a`, and otherwise lies between `-b` and 0. |
| Dashboard.FormatMeetingTime | client/src/pages/Dashboard/Dashboard.jsx:879-885 | No start time, or the falsy 0, shows `00:00`. The display for a set start is stated by `FormatMeetingTimeReadsBack`. |
| Dashboard.TwoDigitsReadsBack | client/src/pages/Dashboard/Dashboard.jsx:884 | The padded field is all digits, at least two of them (exactly two below 100), and reads back as the number. |
| Dashboard.ClockReadsBack | client/src/pages/Dashboard/Dashboard.jsx:881-884 | The clock of `e` seconds reads back as minutes and seconds, seconds below 60, with `minutes * 60 + seconds == e`. It is exactly `MM:SS`, five characters, below 100 minutes. |
| Dashboard.FormatMeetingTimeReadsBack | client/src/pages/Dashboard/Dashboard.jsx:879-885 | For a set start no later than now, the display reads back as the elapsed whole seconds. |
| Dashboard.IsOnlineUser | client/src/pages/Dashboard/Dashboard.jsx:843 | True exactly when some online entry has the user id. |
| Dashboard.FilteredUsers | client/src/pages/Dashboard/Dashboard.jsx:855-858 | Exactly the users whose lower-cased name or email contains the lower-cased query are kept. |
| Dashboard.FilteredUsersEmptyQuery | client/src/pages/Dashboard/Dashboard.jsx:855-858 | An empty query keeps every user. |
| Dashboard.FilteredUsersIgnoresCase | client/src/pages/Dashboard/Dashboard.jsx:855-858 | A query and its lower-cased form select the same users. |
| Dashboard.MeetingCard | client/src/pages/Dashboard/Dashboard.jsx:176-181 | The card copies id and name. The email is the sent one, or `name@meeting.local`. The picture is the blue default avatar. |
| Dashboard.UserJoinedMeeting | client/src/pages/Dashboard/Dashboard.jsx:169-186 | An event about oneself, or about a listed user, leaves the list as it is. Otherwise the card is appended. |
| Dashboard.UserJoinedMeetingDistinct | client/src/pages/Dashboard/Dashboard.jsx:172-184 | The reducer keeps ids unique. |
| Dashboard.UserJoinedMeetingIdempotent | client/src/pages/Dashboard/Dashboard.jsx:172-184 | A repeated join event changes nothing. |
| Dashboard.UserLeftMeeting | client/src/pages/Dashboard/Dashboard.jsx:239-242 | Exactly the users with other ids are kept. |
| Dashboard.UserLeftMeetingKeepsOrder | client/src/pages/Dashboard/Dashboard.jsx:241 | The removal keeps order and unique ids, and is the identity when the id is not listed. |
| Dashboard.JoinThenLeave | client/src/pages/Dashboard/Dashboard.jsx:169-242 | A join event followed by the same user's leave event gives the list as the leave alone would. |
| Dashboard.MeetingParticipants | client/src/pages/Dashboard/Dashboard.jsx:228-236 | The list replaces the users with the cards of every participant other than oneself, and only those. |
| Dashboard.MeetingParticipantsDistinct | client/src/pages/Dashboard/Dashboard.jsx:228-236 | Unique participant ids give unique card ids. |

## Left out

- Socket transport (`io`, `socket.join`, `socket.leave`, rooms as broadcast groups) is modelled only as emit targets. Delivery itself is not modelled.
- The `me` emit and `test-message` listener of `server/index.js` are not modelled; they log or echo the socket id and touch no state.
- The relays at `server/index.js` 336-404 are not modelled: screen sharing, the whiteboard, notes and polls pass a payload on to the room unchanged.
- The 500 branches of `SignUp` and `Login` are not modelled. No modelled step throws once hashing and token issuance are parameters.
- bcrypt hashing and comparison and JWT issuance are parameters. The JWT cookie, the salt rounds and `LogOut` are not modelled.
- `userController.js`, the database schema and the Express routes are not part of this model.
- `Date.now()` is an input of every operation that reads it.
- Camera and microphone access is the `mediaOk` input of `Dashboard.MeetingEntry.JoinMeetingByCode`. Streams, video elements and every other UI effect are not modelled.
- `MAX_MESSAGES_PER_ROOM` is declared and never read, by the server as by the model.
- The cap of 50 participants is not an invariant of `Coordinator`, because `start-instant-meeting` adds the host without checking it.
- Maps held inside other maps (room member maps) are values, so the model shows no aliasing between a room read out and the map that holds it.
- Dashboard.FilteredUsers: case folding is ASCII only. `toLowerCase` on other scripts is not modelled.
- Polls.RoundedPercentage: `Math.round` of the floating-point quotient is exact rational rounding, halves up. Floating-point error at exact halves is not modelled.
- Dashboard.FormatMeetingTime: the start time is a whole number of milliseconds and a start of 0 counts as unset (falsy). `NaN` is not modelled.
- Dashboard.MeetingParticipants: the server's participant list carries no `userEmail`, so the email field is `""` and the card falls back to `name@meeting.local`.
- Missing fields printed into template strings are not modelled. A payload with no `userName` yields `undefined@meeting.local` and `undefined joined the meeting` in the source (server/index.js:286-287, client/src/pages/Dashboard/Dashboard.jsx:179 and 233). The model's `""` yields `@meeting.local`.
