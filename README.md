# OurClass service layer in Dafny

A model of the service layer of the OurClass backend, a school-alumni social
network (Spring Boot, JPA). The model covers:

- **messaging**: one-to-one chat rooms with read flags and two kinds of
  deletion, group chat rooms with per-member read cursors and per-user hide
  sets, notes (inbox/outbox messages) and notifications;
- the **friendship** state machine (PENDING / ACCEPTED / REJECTED rows, one per
  pair of users, seen from either side);
- **reunion clubs**: roles and their privileges, membership, leader
  succession, invite codes, join requests, treasurer assignment, fee groups
  and payments with Java `int` sums, and meeting votes;
- the **school board**: post defaults, who may read a post, which tab lists
  it, like, comment and view counters, threaded comments and the count of
  new posts per tab;
- **accounts**: signup, login, find-id masking, password reset, profile
  update, classmate and free user search, the guestbook and the
  administrator's operations;
- the **school directory** search and the first graduation year computed
  from a school's founding date, and image upload validation.

Every database table is a `Table<T>` (rows keyed by an identity id that
only grows). Each service is a class whose fields are the tables it owns,
and its methods change them as the Java code does. A failure is an
`Outcome` value, and a failed call leaves every table as it was (a rolled
back transaction). Repository queries are functions over the rows. The
service methods are specified against those functions and against
transition functions, such as `Toggled`, `Unthreaded`, `Enrol`, `Charge`
and `Created`. The properties the application relies on are proved as
lemmas about those functions, and as invariants every method preserves:

- one row per pair or per member;
- a single treasurer per club;
- unique invite codes;
- replies always hang under a stored comment;
- like counters equal the number of like rows.

Orders by creation time are modelled as orders by id, on the assumption
that creation times grow with the identity column. Where the Java code and
its comments or the client disagree, the model follows the code. The
divergences are listed below.

## Model

| member | source | states |
|---|---|---|
| Common.SelectNewest | ourclass-backend/src/main/java/com/ourclass/backend/repository/NotificationRepository.java:16 | The rows satisfying the filter, each once, newest (largest id) first, cut to the limit when one is given; every matching row left out is older than all listed. |
| Common.SelectOldest | ourclass-backend/src/main/java/com/ourclass/backend/repository/CommentRepository.java:12 | Every matching row exactly once, oldest first. |
| Common.OrderByRecency | ourclass-backend/src/main/java/com/ourclass/backend/repository/ChatRoomRepository.java:19-20 | `ORDER BY lastMessageAt DESC NULLS LAST`: every given room exactly once, each no later than the one before it, rooms without a time last. |
| Common.Trim | ourclass-backend/src/main/java/com/ourclass/backend/service/SchoolService.java:22-23 | `String.trim()`: the result is no longer than the input, starts and ends with a character trim keeps, and is empty iff every character of the input is one trim removes. |
| Common.TrimIsCut | ourclass-backend/src/main/java/com/ourclass/backend/service/SchoolService.java:22-23 | The result of `trim()` is a contiguous piece of the input, and every character before it and after it is one trim removes. |
| Common.TrimTwice | ourclass-backend/src/main/java/com/ourclass/backend/service/SchoolService.java:22-23 | Trimming twice is trimming once. |
| Common.ParseInt | ourclass-backend/src/main/java/com/ourclass/backend/dto/SchoolSearchResponse.java:33 | `Integer.parseInt`: accepts an optional sign and at least one digit whose value fits an `int`, and gives exactly the value the sign and digits denote; anything else fails. |
| Common.IntToStringRoundTrip | ourclass-backend/src/main/java/com/ourclass/backend/service/ReunionService.java:1116 | Parsing the decimal text of any `int` gives the number back. |
| Common.ParseIsoDate | ourclass-backend/src/main/java/com/ourclass/backend/service/ReunionService.java:1085-1087 | `LocalDate.parse` on a four-digit year: a result is a day that exists (February 29 only in a leap year) and the text has the `yyyy-MM-dd` shape. |
| Common.DateRoundTrip | ourclass-backend/src/main/java/com/ourclass/backend/service/ReunionService.java:1085-1087 | Every existing day of the years 0 to 9999 is parsed back from its own text. |
| Common.ParsedDateIsItsText | ourclass-backend/src/main/java/com/ourclass/backend/service/ReunionService.java:1085-1087 | A text that parses is exactly the text of the day it names, so the parser accepts nothing but the `yyyy-MM-dd` texts of existing days. |
| Common.Wrap32 | ourclass-backend/src/main/java/com/ourclass/backend/service/ReunionService.java:751-771 | Two's-complement wrap-around of Java `int` arithmetic: the result is in the `int` range and congruent to the exact value modulo 2^32. |
| Users.WithEmailAtMostOne | ourclass-backend/src/main/java/com/ourclass/backend/entity/User.java:36-37 | Under the unique e-mail constraint `findByEmail` finds at most one account. |
| Auth.MaskUserId | ourclass-backend/src/main/java/com/ourclass/backend/service/AuthService.java:193-202 | An id of at most three characters shows its first character and two stars; a longer id keeps its length, shows min(2, length/3) characters at each end (at least one) and stars out everything between. |
| Auth.AuthService.Signup | ourclass-backend/src/main/java/com/ourclass/backend/service/AuthService.java:33-82 | A taken login id fails first, then a taken e-mail, then an account that does not fit its columns; otherwise exactly `NewAccount` is added and the accounts stay unique. |
| Auth.NewAccount | ourclass-backend/src/main/java/com/ourclass/backend/service/AuthService.java:43-54 | The new account has the given id, password, name, e-mail and enrolments, no image or bio, is ACTIVE, and has the ADMIN role iff the id is "admin". |
| Auth.AuthService.Login | ourclass-backend/src/main/java/com/ourclass/backend/service/AuthService.java:85-135 | An unknown id and a wrong password fail with the same error; success stamps only the caller's login and activity times. |
| Auth.AuthService.FindId | ourclass-backend/src/main/java/com/ourclass/backend/service/AuthService.java:137-149 | Succeeds iff an account has the e-mail and the name, and then returns the masked id of an account with that e-mail; both mismatches fail alike. |
| Auth.AuthService.VerifyIdentity | ourclass-backend/src/main/java/com/ourclass/backend/service/AuthService.java:151-158 | Succeeds iff the account exists and its e-mail matches. |
| Auth.AuthService.ResetPassword | ourclass-backend/src/main/java/com/ourclass/backend/service/AuthService.java:161-172 | After the same identity check, only that account's password changes. |
| Auth.AuthService.Logout | ourclass-backend/src/main/java/com/ourclass/backend/service/AuthService.java:175-182 | An unknown account fails; otherwise only its logout time changes. |
| Auth.AuthService.UpdateActivity | ourclass-backend/src/main/java/com/ourclass/backend/service/AuthService.java:185-191 | An unknown account fails; otherwise only its activity time changes. |
| DirectChat.RoomsOfPair | ourclass-backend/src/main/java/com/ourclass/backend/repository/ChatRoomRepository.java:16-17 | The rooms whose participants are the two users, in either order. |
| DirectChat.RoomsOfPairSymmetric | ourclass-backend/src/main/java/com/ourclass/backend/repository/ChatRoomRepository.java:16-17 | The pair lookup does not depend on the order of its arguments. |
| DirectChat.RoomsOfUser | ourclass-backend/src/main/java/com/ourclass/backend/repository/ChatRoomRepository.java:19-20 | Exactly the rooms where the user is either participant. |
| DirectChat.MarkRead | ourclass-backend/src/main/java/com/ourclass/backend/repository/ChatMessageRepository.java:22-24 | Every message of the room sent by someone else becomes read; every other field and message is unchanged. |
| DirectChat.MarkRoomsRead | ourclass-backend/src/main/java/com/ourclass/backend/repository/ChatMessageRepository.java:26-28 | The same update over every room of the set. |
| DirectChat.MarkReadEffect | ourclass-backend/src/main/java/com/ourclass/backend/repository/ChatMessageRepository.java:19-24 | After marking, the user has nothing unread in the room; no read flag is cleared; only others' messages in that room change; marking twice is marking once. |
| DirectChat.MarkRoomsReadOneAtATime | ourclass-backend/src/main/java/com/ourclass/backend/repository/ChatMessageRepository.java:26-28 | Marking a set of rooms equals marking each room in turn. |
| DirectChat.DeleteByRoom | ourclass-backend/src/main/java/com/ourclass/backend/repository/ChatMessageRepository.java:30-32 | Removes exactly the messages of that room and keeps all others. |
| DirectChat.Preview | ourclass-backend/src/main/java/com/ourclass/backend/service/ChatService.java:75-105 | A message of at most 100 characters is its own preview; a longer one is previewed by its first 100 characters followed by "...". |
| DirectChat.DeletedVisibility | ourclass-backend/src/main/java/com/ourclass/backend/entity/ChatMessage.java:43-51 | Deleting an unread message hides it from every viewer; deleting a read one hides it from its sender and from nobody else. |
| DirectChat.ChatService.GetOrCreateRoom | ourclass-backend/src/main/java/com/ourclass/backend/service/ChatService.java:36-46 | Both users must exist; the existing room of the pair is returned in either order, else one new room (user1, user2) is created; one room per unordered pair is kept. |
| DirectChat.ChatService.GetMyChatRooms | ourclass-backend/src/main/java/com/ourclass/backend/service/ChatService.java:49-71 | Each of the caller's rooms once, most recent first, nulls last, with the other participant, the preview and the caller's unread count. |
| DirectChat.ChatService.SendMessage | ourclass-backend/src/main/java/com/ourclass/backend/service/ChatService.java:75-105 | The room, then the sender, must exist; one unread, undeleted message is added; the room's preview and time are set; the other participant gets one notification. |
| DirectChat.ChatService.GetMessages | ourclass-backend/src/main/java/com/ourclass/backend/service/ChatService.java:109-121 | The room, then the viewer, must exist; the messages are first marked read for the viewer, then all of the room's messages are returned oldest first. |
| DirectChat.ChatService.LeaveRoom | ourclass-backend/src/main/java/com/ourclass/backend/service/ChatService.java:125-139 | The room, then the user, must exist and the user must take part; the room and exactly its messages are deleted. |
| DirectChat.ChatService.DeleteMessage | ourclass-backend/src/main/java/com/ourclass/backend/entity/ChatMessage.java:43-51 | Only the sender may delete; the message row changes as `Deleted` says and nothing else changes. |
| DirectChat.ChatService.MarkAllAsRead | ourclass-backend/src/main/java/com/ourclass/backend/repository/ChatMessageRepository.java:26-28 | Afterwards none of the user's rooms has a message unread by them. |
| GroupChat.MembersOf | ourclass-backend/src/main/java/com/ourclass/backend/repository/GroupChatMemberRepository.java:14 | The users holding a membership of the room. |
| GroupChat.NullCursorNotCounted | ourclass-backend/src/main/java/com/ourclass/backend/repository/GroupChatMemberRepository.java:18-19 | A member with a null cursor never counts toward any unread count. |
| GroupChat.RaisingCursorLowersCount | ourclass-backend/src/main/java/com/ourclass/backend/repository/GroupChatMemberRepository.java:18-19 | Moving a set cursor forward never raises any message's unread count. |
| GroupChat.FirstReadRaisesCount | ourclass-backend/src/main/java/com/ourclass/backend/repository/GroupChatMemberRepository.java:18-19 | A first read is the exception: setting a member's null cursor below a message raises that message's unread count by exactly one. |
| GroupChat.Advanced | ourclass-backend/src/main/java/com/ourclass/backend/service/GroupChatService.java:131-153 | The cursor after a view is the newest message id when that is higher, and otherwise unchanged; it never moves back. |
| GroupChat.DeletedVisibility | ourclass-backend/src/main/java/com/ourclass/backend/entity/GroupChatMessage.java:41-51 | A deletion while someone has not read hides the message from every viewer; otherwise it hides it from the sender in addition to earlier hiders and from nobody else; deleting twice is deleting once. |
| GroupChat.Founding | ourclass-backend/src/main/java/com/ourclass/backend/service/GroupChatService.java:38-69 | The founding memberships of the room: the creator and every listed id that names an existing user, and nothing else. |
| GroupChat.GroupChatService.CreateRoom | ourclass-backend/src/main/java/com/ourclass/backend/service/GroupChatService.java:38-69 | The creator must exist; the room's memberships are exactly `Founding`, all without a cursor; unknown ids are skipped. |
| GroupChat.GroupChatService.GetMyRooms | ourclass-backend/src/main/java/com/ourclass/backend/service/GroupChatService.java:72-79 | Exactly the rooms the user belongs to, each once, most recent message first and rooms without messages last. |
| GroupChat.GroupChatService.SendMessage | ourclass-backend/src/main/java/com/ourclass/backend/service/GroupChatService.java:83-127 | The room, then the sender, must exist and the sender must be a member; one message is added; the preview is the full content; the sender's cursor moves to it; every other member is notified exactly once. |
| GroupChat.GroupChatService.OthersInRoom | ourclass-backend/src/main/java/com/ourclass/backend/service/GroupChatService.java:83-127 | The members other than the given user, each exactly once. |
| GroupChat.GroupChatService.GetMessages | ourclass-backend/src/main/java/com/ourclass/backend/service/GroupChatService.java:131-153 | The room, then the viewer, must exist; a member's cursor moves as `Advanced` says; the messages the viewer has not hidden are returned oldest first, each with its unread count. |
| GroupChat.GroupChatService.ReadUpTo | ourclass-backend/src/main/java/com/ourclass/backend/service/GroupChatService.java:131-153 | Only the viewer's cursor changes, as `Advanced` says. |
| GroupChat.GroupChatService.Shown | ourclass-backend/src/main/java/com/ourclass/backend/service/GroupChatService.java:131-153 | Exactly the room's messages not hidden from the viewer, oldest first, each with `CountUnreadMembers`. |
| GroupChat.GroupChatService.InviteMember | ourclass-backend/src/main/java/com/ourclass/backend/service/GroupChatService.java:157-172 | The room, then the invitee, must exist and not be a member yet; exactly one membership without a cursor is added; the inviter is not checked. |
| GroupChat.GroupChatService.LeaveRoom | ourclass-backend/src/main/java/com/ourclass/backend/service/GroupChatService.java:176-185 | The room and the user must exist and be a member; exactly that membership is removed. |
| GroupChat.GroupChatService.KickMember | ourclass-backend/src/main/java/com/ourclass/backend/service/GroupChatService.java:189-210 | The room, the requester and the target must exist; only the creator may kick, never themselves, and only a member; exactly that membership is removed. |
| GroupChat.GroupChatService.DeleteMessage | ourclass-backend/src/main/java/com/ourclass/backend/service/GroupChatService.java:213-236 | Only the sender may delete; the row changes as `Deleted` says and nothing else changes. |
| Notes.NewNote | ourclass-backend/src/main/java/com/ourclass/backend/service/MessageService.java:28-56 | A new note is unread and in both the sender's and the receiver's box. |
| Notes.MarkInboxRead | ourclass-backend/src/main/java/com/ourclass/backend/repository/MessageRepository.java:28 | Stamps exactly the unread notes still in the user's inbox. |
| Notes.MarkInboxReadEffect | ourclass-backend/src/main/java/com/ourclass/backend/repository/MessageRepository.java:24-28 | Afterwards the user has no unread notes; notes already read keep their first read time; notes the receiver deleted stay unread. |
| Notes.DeleteIsOneSided | ourclass-backend/src/main/java/com/ourclass/backend/service/MessageService.java:99-115 | Deleting removes the note from the caller's box only; the other box and the read state are untouched. |
| Notes.NoteService.SendNote | ourclass-backend/src/main/java/com/ourclass/backend/service/MessageService.java:28-56 | The sender, then the receiver, must exist; exactly one new note is stored; the receiver is notified with its id. |
| Notes.NoteService.GetReceived | ourclass-backend/src/main/java/com/ourclass/backend/repository/MessageRepository.java:17-18 | Every note in the user's inbox, each once, newest first. |
| Notes.NoteService.GetSent | ourclass-backend/src/main/java/com/ourclass/backend/repository/MessageRepository.java:20-21 | Every note in the user's outbox, each once, newest first. |
| Notes.NoteService.MarkAsRead | ourclass-backend/src/main/java/com/ourclass/backend/service/MessageService.java:83-96 | Only the receiver may mark a note; the first read stamps the time and later reads keep it. |
| Notes.NoteService.DeleteNote | ourclass-backend/src/main/java/com/ourclass/backend/service/MessageService.java:99-115 | The sender removes the note from the outbox, the receiver from the inbox; anyone else is refused and nothing changes. |
| Notes.NoteService.GetUnreadCount | ourclass-backend/src/main/java/com/ourclass/backend/service/MessageService.java:118-123 | An unknown user fails; otherwise the number of unread notes still in the user's inbox. |
| Notifications.Created | ourclass-backend/src/main/java/com/ourclass/backend/service/NotificationService.java:27-55 | An unknown recipient is skipped silently; otherwise exactly one unread row for the recipient is added and no row changes. |
| Notifications.CreatedForEach | ourclass-backend/src/main/java/com/ourclass/backend/service/NotificationService.java:27-55 | `createAndSend` once per listed recipient, in order. |
| Notifications.FanOutReachesExistingRecipients | ourclass-backend/src/main/java/com/ourclass/backend/service/NotificationService.java:27-55 | Every row a fan-out adds is unread, of the notice's kind, and addressed to a listed recipient that exists; every listed recipient that exists receives one. |
| Notifications.MarkAllRead | ourclass-backend/src/main/java/com/ourclass/backend/repository/NotificationRepository.java:20-22 | Every unread row of the user becomes read; nothing else changes. |
| Notifications.MarkAllReadClearsUnread | ourclass-backend/src/main/java/com/ourclass/backend/service/NotificationService.java:90-95 | Afterwards the user has nothing unread and every other user keeps their unread count. |
| Notifications.NotificationService.CreateAndSend | ourclass-backend/src/main/java/com/ourclass/backend/service/NotificationService.java:27-55 | The table changes exactly as `Created` says. |
| Notifications.NotificationService.CreateAndSendEach | ourclass-backend/src/main/java/com/ourclass/backend/service/NotificationService.java:27-55 | The table changes exactly as `CreatedForEach` says. |
| Notifications.NotificationService.GetNotifications | ourclass-backend/src/main/java/com/ourclass/backend/service/NotificationService.java:58-66 | The user's notifications, newest first, at most 50; any one left out is older than all listed. |
| Notifications.NotificationService.GetUnreadCount | ourclass-backend/src/main/java/com/ourclass/backend/service/NotificationService.java:69-74 | `UnreadCount` of the user. |
| Notifications.NotificationService.MarkAsRead | ourclass-backend/src/main/java/com/ourclass/backend/service/NotificationService.java:77-87 | An unknown notification fails; only its recipient may mark it; exactly that row becomes read. |
| Notifications.NotificationService.MarkAllAsRead | ourclass-backend/src/main/java/com/ourclass/backend/service/NotificationService.java:90-95 | The table becomes `MarkAllRead` of the user. |
| Friends.RowsOfPair | ourclass-backend/src/main/java/com/ourclass/backend/repository/FriendshipRepository.java:14-18 | The rows between the two users in either direction. |
| Friends.RowsOfPairSymmetric | ourclass-backend/src/main/java/com/ourclass/backend/repository/FriendshipRepository.java:14-18 | The lookup does not depend on the argument order. |
| Friends.AcceptedOf | ourclass-backend/src/main/java/com/ourclass/backend/repository/FriendshipRepository.java:20-24 | ACCEPTED rows with the user on either side. |
| Friends.PendingFor | ourclass-backend/src/main/java/com/ourclass/backend/repository/FriendshipRepository.java:26-29 | PENDING rows the user received. |
| Friends.SentBy | ourclass-backend/src/main/java/com/ourclass/backend/repository/FriendshipRepository.java:31-34 | PENDING rows the user sent. |
| Friends.CountPendingIsListSize | ourclass-backend/src/main/java/com/ourclass/backend/repository/FriendshipRepository.java:26-38 | The pending badge counts exactly the received-requests list. |
| Friends.WithTargets | ourclass-backend/src/main/java/com/ourclass/backend/repository/FriendshipRepository.java:40-45 | The PENDING or ACCEPTED rows between the user and any target, in either direction. |
| Friends.SamePairUpdate | ourclass-backend/src/main/java/com/ourclass/backend/entity/Friendship.java:13-14 | Rewriting a row within its pair keeps one row per pair. |
| Friends.NewPairInsert | ourclass-backend/src/main/java/com/ourclass/backend/entity/Friendship.java:13-14 | Adding the first row of a pair of distinct existing users keeps one row per pair. |
| Friends.RejectedReadsAsNone | ourclass-backend/src/main/java/com/ourclass/backend/service/FriendService.java:173-198 | A row reads NONE iff it is REJECTED. |
| Friends.RequestOutcome | ourclass-backend/src/main/java/com/ourclass/backend/service/FriendService.java:33-89 | A request fails exactly for friends and for a request already sent; on success the requester sees FRIEND iff the other side's request was pending, and SENT otherwise. |
| Friends.CrossingRequestsMakeFriends | ourclass-backend/src/main/java/com/ourclass/backend/service/FriendService.java:33-89 | Two users who ask each other become friends, whoever asks first. |
| Friends.ToResponse | ourclass-backend/src/main/java/com/ourclass/backend/service/FriendService.java:236-254 | The other party from the viewer's side, and a direction only while the row is PENDING. |
| Friends.DirectionMatchesStatus | ourclass-backend/src/main/java/com/ourclass/backend/service/FriendService.java:236-254 | The direction of a pending row agrees with the status the viewer gets. |
| Friends.FriendService.SendRequest | ourclass-backend/src/main/java/com/ourclass/backend/service/FriendService.java:33-89 | A request to oneself and one involving an unknown user fail; otherwise the pair's row moves as the state machine says, one row per pair is kept, and only a new row notifies the receiver. |
| Friends.FriendService.AcceptRequest | ourclass-backend/src/main/java/com/ourclass/backend/service/FriendService.java:93-117 | Only the row's receiver may accept; the row becomes ACCEPTED whatever its status; the requester is notified. |
| Friends.FriendService.RemoveFriendship | ourclass-backend/src/main/java/com/ourclass/backend/service/FriendService.java:121-131 | Either party may delete the row; anyone else is refused and nothing changes. |
| Friends.FriendService.GetFriendshipStatus | ourclass-backend/src/main/java/com/ourclass/backend/service/FriendService.java:173-198 | NONE for an unknown user or no row; otherwise `StatusFor` from the first user's side, with the row's id. |
| Friends.FriendService.GetBatchFriendshipStatus | ourclass-backend/src/main/java/com/ourclass/backend/service/FriendService.java:201-234 | An entry for every target: NONE by default, overwritten by the status and id of each PENDING or ACCEPTED row between the user and that target. |
| Friends.Overlay | ourclass-backend/src/main/java/com/ourclass/backend/service/FriendService.java:201-234 | The second loop: each listed row overwrites its target's entry, and the other entries are kept. |
| Friends.OnlyRowOfPair | ourclass-backend/src/main/java/com/ourclass/backend/entity/Friendship.java:13-14 | Under one row per pair, the row of a pair is the only one. |
| Posts.AccessRules | ourclass-backend/src/main/java/com/ourclass/backend/service/PostService.java:168-182 | School-wide posts and unknown visibilities are open to all; a GRADE post needs an enrolment of that grade; a CLASS post one of that grade and class. |
| Posts.TabContents | ourclass-backend/src/main/java/com/ourclass/backend/service/PostService.java:185-207 | The "all" tab shows exactly the school-wide posts; the grade and class tabs show exactly the matching GRADE and CLASS posts, which are always readable; a post appears on at most one tab. |
| Posts.ExplicitClassSkipsAccess | ourclass-backend/src/main/java/com/ourclass/backend/service/PostService.java:134-148 | With an explicit grade and class the class tab can list a post the user may not read. |
| Posts.MoreEnrolmentsSeeMore | ourclass-backend/src/main/java/com/ourclass/backend/service/PostService.java:168-207 | Adding enrolments never hides a post the user could read or see on a tab. |
| Posts.RequestedSchools | ourclass-backend/src/main/java/com/ourclass/backend/service/PostService.java:489-505 | Exactly the user's enrolments matching the requested name (and year, when given). |
| Posts.NothingRequested | ourclass-backend/src/main/java/com/ourclass/backend/service/PostService.java:489-505 | Without a requested school name nothing is requested. |
| Posts.FirstRequested | ourclass-backend/src/main/java/com/ourclass/backend/service/PostService.java:474-486 | The first requested enrolment heads the matching list. |
| Posts.MatchingSchools | ourclass-backend/src/main/java/com/ourclass/backend/service/PostService.java:489-505 | The requested enrolments, or the user's first enrolment alone when none matches. |
| Posts.BoardSchool | ourclass-backend/src/main/java/com/ourclass/backend/service/PostService.java:103-165 | The board a request reaches is the school of the first matching enrolment. |
| Posts.FindAllMatchingSchools | ourclass-backend/src/main/java/com/ourclass/backend/service/PostService.java:489-505 | The loop's result is `MatchingSchools`. |
| Posts.FindMatchingSchool | ourclass-backend/src/main/java/com/ourclass/backend/service/PostService.java:474-486 | The first requested enrolment, else the first enrolment, else none; it is always the head of `MatchingSchools`. |
| Posts.VisibilityOf | ourclass-backend/src/main/java/com/ourclass/backend/service/PostService.java:43-95 | The request's visibility, or "SCHOOL" when it is null or empty. |
| Posts.FiledUnder | ourclass-backend/src/main/java/com/ourclass/backend/service/PostService.java:43-95 | The request's school and year, unless the requested name is empty and the author has an enrolment, in which case the author's first enrolment. |
| Posts.Drafted | ourclass-backend/src/main/java/com/ourclass/backend/service/PostService.java:43-95 | The saved post: counters zero, the content, visibility and filing above, and the GRADE/CLASS target from the request or from the enrolment `findMatchingSchool` picks; no enrolment to pick fails. |
| Posts.Draft | ourclass-backend/src/main/java/com/ourclass/backend/service/PostService.java:43-95 | The step-by-step computation gives `Drafted`. |
| Posts.AuthorSeesOwnTargetedPost | ourclass-backend/src/main/java/com/ourclass/backend/service/PostService.java:43-95 | A GRADE or CLASS post targeted from the author's own enrolment is readable by its author. |
| Posts.ViewOf | ourclass-backend/src/main/java/com/ourclass/backend/service/PostService.java:507-551 | The post's own school when it has a name, else the author's first enrolment; `liked` iff a known viewer has a like row on it. |
| Posts.NewCountIsListingLength | ourclass-backend/src/main/java/com/ourclass/backend/service/PostService.java:414-465 | For any last-seen id, a tab's new-post count is the number of entries at the head of that tab's newest-first listing whose id is above it, and those entries are exactly the new posts. |
| Posts.ThroughAll | ourclass-backend/src/main/java/com/ourclass/backend/service/PostService.java:405-411 | Once every direct reply is visited, the visited subtrees cover all descendants. |
| Posts.CountAllReplies | ourclass-backend/src/main/java/com/ourclass/backend/service/PostService.java:405-411 | The recursive count over direct replies equals the number of descendants of the comment. |
| Posts.SubtreeRemovalKeepsForest | ourclass-backend/src/main/java/com/ourclass/backend/entity/Comment.java:45-53 | Deleting a comment with its subtree leaves no surviving reply without its parent. |
| Posts.SweepKeepsForest | ourclass-backend/src/main/java/com/ourclass/backend/service/PostService.java:241-254 | Removing a post's comments leaves none of them and no orphaned reply. |
| Board.PostAddedKeeps | ourclass-backend/src/main/java/com/ourclass/backend/service/PostService.java:43-95 | A new post that fits its columns, with a zero like counter, keeps the board consistent. |
| Board.PostEditedKeeps | ourclass-backend/src/main/java/com/ourclass/backend/service/PostService.java:222-238 | Rewriting a post with a row that fits its columns and the same like counter keeps the board consistent. |
| Board.Toggled | ourclass-backend/src/main/java/com/ourclass/backend/service/PostService.java:257-295 | The caller's like row appears or disappears and the post's like counter moves by one in the same direction; nothing else changes. |
| Board.ToggleTwiceRestores | ourclass-backend/src/main/java/com/ourclass/backend/service/PostService.java:257-295 | Toggling twice restores the like rows and the counter. |
| Board.ToggleKeeps | ourclass-backend/src/main/java/com/ourclass/backend/service/PostService.java:257-295 | A toggle keeps every like counter equal to the number of like rows. |
| Board.CommentAddedKeeps | ourclass-backend/src/main/java/com/ourclass/backend/service/PostService.java:298-348 | A new comment on a stored post, under a stored comment or none, keeps the board consistent. |
| Board.CommentEditedKeeps | ourclass-backend/src/main/java/com/ourclass/backend/service/PostService.java:369-381 | Editing a comment's text keeps the board consistent. |
| Board.PostDeletedKeeps | ourclass-backend/src/main/java/com/ourclass/backend/service/PostService.java:241-254 | Removing a post with its comments and likes leaves no dangling row. |
| Board.Recounted | ourclass-backend/src/main/java/com/ourclass/backend/entity/Post.java:45-47 | Only the post's comment counter moves, by the given amount. |
| Board.ThreadRemovedKeeps | ourclass-backend/src/main/java/com/ourclass/backend/service/PostService.java:384-403 | Removing a comment's subtree and lowering the counter by its size keeps the board consistent. |
| Board.RemoveThread | ourclass-backend/src/main/java/com/ourclass/backend/service/PostService.java:384-403 | Exactly the comment and its descendants are removed, and its post's counter drops by one plus `countAllReplies`. |
| Board.SaveComment | ourclass-backend/src/main/java/com/ourclass/backend/service/PostService.java:298-348 | The comment is stored and its post's counter rises by one. |
| Board.Mentioned | ourclass-backend/src/main/java/com/ourclass/backend/repository/UserRepository.java:36 | The listed users that exist, none when the list is null or empty. |
| Board.PostService.CreatePost | ourclass-backend/src/main/java/com/ourclass/backend/service/PostService.java:43-95 | The author must exist; the `Drafted` post is stored exactly when it fits its columns (`PostFits`: content 5000, every image URL, school name, year, visibility and target 255, after `entity/Post.java` lines 30-76); otherwise the call fails with a constraint violation and nothing changes. |
| Board.PostService.GetPost | ourclass-backend/src/main/java/com/ourclass/backend/service/PostService.java:210-219 | Every read of a stored post raises its view counter by one and changes nothing else. |
| Board.PostService.UpdatePost | ourclass-backend/src/main/java/com/ourclass/backend/service/PostService.java:222-238 | Only the author may edit; the content is replaced, and the images only when given; the edit succeeds exactly when the new content fits 5000 characters and every new image URL 255, and otherwise fails with a constraint violation and nothing changes. |
| Board.PostService.DeletePost | ourclass-backend/src/main/java/com/ourclass/backend/service/PostService.java:241-254 | Only the author may delete; the post, all its comments and replies and its likes go. |
| Board.PostService.ToggleLike | ourclass-backend/src/main/java/com/ourclass/backend/service/PostService.java:257-295 | The post, then the user, must exist; the rows change as `Toggled` says; adding a like notifies the author unless the author is the caller. |
| Board.PostService.AddComment | ourclass-backend/src/main/java/com/ourclass/backend/service/PostService.java:298-348 | The post, the user and any parent must exist (the parent may be on another post); the comment is stored with its existing mentions; the counter rises by one; the author is notified unless they are the caller. |
| Board.PostService.PutComment | ourclass-backend/src/main/java/com/ourclass/backend/service/PostService.java:327-331 | Saving a comment takes the next id, inserts the comment, raises its post's counter by one and keeps the board consistent; likes are untouched. |
| Board.PostService.Notify | ourclass-backend/src/main/java/com/ourclass/backend/service/PostService.java:336-344 | A notification to a recipient is created as the notification table's `Created` says, and the board stays consistent. |
| Board.PostService.GetComments | ourclass-backend/src/main/java/com/ourclass/backend/service/PostService.java:351-366 | The post's top-level comments, each once, oldest first. |
| Board.PostService.UpdateComment | ourclass-backend/src/main/java/com/ourclass/backend/service/PostService.java:369-381 | Only the author may edit; the text and `updatedAt` change. |
| Board.PostService.DeleteComment | ourclass-backend/src/main/java/com/ourclass/backend/service/PostService.java:384-403 | Only the author may delete; the comment and its replies go and the counter drops by their number. |
| Board.PostService.GetPosts | ourclass-backend/src/main/java/com/ourclass/backend/service/PostService.java:103-165 | The user must exist; without enrolments nothing; otherwise exactly the posts of the board's school that the tab lists, newest first. |
| Board.PostService.GetNewPostCounts | ourclass-backend/src/main/java/com/ourclass/backend/service/PostService.java:414-465 | Per tab, the number of `NewOnTab` posts; all zero for a user without enrolments. |
| Reunions.RoleLadder | ourclass-backend/src/main/java/com/ourclass/backend/service/ReunionService.java:42-48 | Whoever may lead may manage fees; MEMBER is the only role with no privilege. |
| Reunions.OnlyRowOf | ourclass-backend/src/main/java/com/ourclass/backend/entity/ReunionMember.java:13-14 | Under the unique key, a member's row is the only one. |
| Reunions.OnlyTreasurer | ourclass-backend/src/main/java/com/ourclass/backend/repository/ReunionMemberRepository.java:16 | Under the single-treasurer rule, a treasurer is the only one. |
| Reunions.Enrol | ourclass-backend/src/main/java/com/ourclass/backend/service/ReunionService.java:53-103 | One row per listed user, in list order, each with the next id. |
| Reunions.EnrolKeepsKeys | ourclass-backend/src/main/java/com/ourclass/backend/entity/ReunionMember.java:13-14 | Enrolling distinct non-members keeps one row per member and adds no treasurer unless enrolling treasurers. |
| Reunions.EnrolMembership | ourclass-backend/src/main/java/com/ourclass/backend/service/ReunionService.java:119-152 | After enrolling, a user belongs to a club iff they did before or were enrolled into it. |
| Reunions.SuccessionKeepsClubLed | ourclass-backend/src/main/java/com/ourclass/backend/service/ReunionService.java:154-180 | Promoting the successor leaves the club led, and without a treasurer if the treasurer was promoted. |
| Reunions.CodeOf | ourclass-backend/src/main/java/com/ourclass/backend/service/ReunionService.java:205-219 | Six characters of the code alphabet. |
| Reunions.InviteCodeIgnoresCase | ourclass-backend/src/main/java/com/ourclass/backend/service/ReunionService.java:222-257 | A code is its own upper case, so typing it in either case finds it. |
| Reunions.GenerateInviteCode | ourclass-backend/src/main/java/com/ourclass/backend/service/ReunionService.java:205-219 | The code of the first attempt not already in use, or none when every given attempt collides. |
| Clubs.WithCode | ourclass-backend/src/main/java/com/ourclass/backend/repository/ReunionRepository.java:16 | The clubs whose code is the given one. |
| Clubs.OneClubPerCode | ourclass-backend/src/main/java/com/ourclass/backend/entity/Reunion.java:44-45 | Under the unique key a code names at most one club. |
| Clubs.Eligible | ourclass-backend/src/main/java/com/ourclass/backend/service/ReunionService.java:53-103 | Exactly the listed known users other than the creator. |
| Clubs.InviteesStep | ourclass-backend/src/main/java/com/ourclass/backend/service/ReunionService.java:53-103 | Skipping the creator, an unknown user or a first occurrence keeps the enrolled prefix free of repeats. |
| Clubs.RepeatFound | ourclass-backend/src/main/java/com/ourclass/backend/entity/ReunionMember.java:13-14 | A user to be enrolled who occurs earlier in the list is a repeat. |
| Clubs.CollectInvitees | ourclass-backend/src/main/java/com/ourclass/backend/service/ReunionService.java:53-103 | `Eligible` when it has no repeats, else the failure of the unique key. |
| Clubs.Newcomers | ourclass-backend/src/main/java/com/ourclass/backend/service/ReunionService.java:119-152 | Exactly the listed known users who are not yet members, without repeats. |
| Clubs.FoundingKeepsTables | ourclass-backend/src/main/java/com/ourclass/backend/service/ReunionService.java:53-103 | Founding a club with a fresh code, a LEADER creator and distinct MEMBER invitees keeps every invariant. |
| Clubs.ClubAdded | ourclass-backend/src/main/java/com/ourclass/backend/entity/Reunion.java:44-45 | Adding a club with an unused, well-formed code keeps the codes unique. |
| Clubs.Enrolled | ourclass-backend/src/main/java/com/ourclass/backend/service/ReunionService.java:119-152 | Enrolling distinct non-members in a non-treasurer role keeps the membership invariant, with exactly the enrolled users added. |
| Clubs.Unenrolled | ourclass-backend/src/main/java/com/ourclass/backend/service/ReunionService.java:154-201 | Removing a membership row keeps the membership invariant. |
| Clubs.Relabelled | ourclass-backend/src/main/java/com/ourclass/backend/service/ReunionService.java:1008-1070 | A role change keeps one row per member; a non-treasurer role adds no second treasurer. |
| Clubs.RequestAdded | ourclass-backend/src/main/java/com/ourclass/backend/entity/ReunionJoinRequest.java:13-14 | A new request is the user's only request for the club. |
| Clubs.RequestProcessed | ourclass-backend/src/main/java/com/ourclass/backend/service/ReunionService.java:284-340 | Processing a request changes its status and time, never whose request it is. |
| Clubs.CodeReplaced | ourclass-backend/src/main/java/com/ourclass/backend/service/ReunionService.java:342-360 | A fresh code keeps codes unique; it then finds the club and the old code finds nothing. |
| Clubs.CodeFindsClub | ourclass-backend/src/main/java/com/ourclass/backend/service/ReunionService.java:222-257 | Every club is found by its own code, whatever its case. |
| Clubs.RosterMeaning | ourclass-backend/src/main/java/com/ourclass/backend/repository/ReunionMemberRepository.java:13 | The roster lists every member of the club, each once. |
| Clubs.FeeRewritten | ourclass-backend/src/main/java/com/ourclass/backend/service/ReunionService.java:773-809 | Changing a fee's payment fields keeps the fee invariant. |
| Clubs.GroupCharged | ourclass-backend/src/main/java/com/ourclass/backend/service/ReunionService.java:1073-1124 | A new group charging each listed user once keeps the fee invariant. |
| Clubs.ChargedKeys | ourclass-backend/src/main/java/com/ourclass/backend/repository/ReunionFeeRepository.java:17 | Charging distinct users for a new group keeps one fee per user and group. |
| Clubs.FeeAdded | ourclass-backend/src/main/java/com/ourclass/backend/service/ReunionService.java:1174-1205 | A fee for a user the group does not charge yet keeps the invariant. |
| Clubs.FeesDropped | ourclass-backend/src/main/java/com/ourclass/backend/service/ReunionService.java:1207-1240 | Deleting fees, or a group with its fees, keeps the invariant. |
| Clubs.ChargeMeaning | ourclass-backend/src/main/java/com/ourclass/backend/service/ReunionService.java:1073-1124 | A new group charges exactly the listed users, one unpaid fee each at the group's amount. |
| Clubs.GroupFiguresMeaning | ourclass-backend/src/main/java/com/ourclass/backend/service/ReunionService.java:979-1003 | A group's figures count its fees, paid ones and the rest (PARTIAL as unpaid); the paid and expected totals are the amount per paid fee and per fee, as `int`. |
| Clubs.FiguresOf | ourclass-backend/src/main/java/com/ourclass/backend/service/ReunionService.java:979-1003 | The figures computed over `findByFeeGroup` are the group's figures. |
| Clubs.ViewsOf | ourclass-backend/src/main/java/com/ourclass/backend/service/ReunionService.java:1126-1132 | Each listed group with its figures, in list order. |
| Clubs.VotersAfterDelete | ourclass-backend/src/main/java/com/ourclass/backend/service/ReunionService.java:607-631 | Withdrawing a vote removes exactly that voter from that option. |
| Clubs.VotersAfterInsert | ourclass-backend/src/main/java/com/ourclass/backend/service/ReunionService.java:607-631 | Casting a vote adds exactly that voter to that option. |
| Clubs.ToggleFlips | ourclass-backend/src/main/java/com/ourclass/backend/service/ReunionService.java:607-631 | Voting flips the user's vote for the option and no other; voting twice restores every option's voters. |
| Clubs.ToggleKeepsVotes | ourclass-backend/src/main/java/com/ourclass/backend/service/ReunionService.java:607-631 | Voting keeps one vote per voter and option. |
| Clubs.ReunionService.FindMember | ourclass-backend/src/main/java/com/ourclass/backend/repository/ReunionMemberRepository.java:14 | The user's membership row in the club, if any. |
| Clubs.ReunionService.Authorize | ourclass-backend/src/main/java/com/ourclass/backend/service/ReunionService.java:42-48 | Fails for an unknown user, a non-member, or a role without the privilege; otherwise returns the caller's row. |
| Reunions.ClubFor | ourclass-backend/src/main/java/com/ourclass/backend/service/ReunionService.java:57-66 | The club row keeps every text field of the request, the generated code and the creator. |
| Fees.DueDateOf | ourclass-backend/src/main/java/com/ourclass/backend/service/ReunionService.java:1085-1087 | A null or empty due date gives none; otherwise the call succeeds exactly when `LocalDate.parse` accepts the text, gives the day whose text it is, and fails as a rejected request otherwise. |
| Clubs.ReunionService.CreateReunion | ourclass-backend/src/main/java/com/ourclass/backend/service/ReunionService.java:53-103 | The creator becomes LEADER, `Eligible` users become MEMBERs and are notified, and the club row `ClubFor` the request gets an unused code; a request that does not fit the `reunions` columns (`RequestFits`, after `entity/Reunion.java` lines 26-42) or a repeated invitee fails and rolls everything back. |
| Clubs.ReunionService.InviteMembers | ourclass-backend/src/main/java/com/ourclass/backend/service/ReunionService.java:119-152 | A LEADER or ADMIN enrols exactly the `Newcomers` as MEMBERs and notifies them. |
| Clubs.ReunionService.LeaveReunion | ourclass-backend/src/main/java/com/ourclass/backend/service/ReunionService.java:154-180 | The member's row goes; when a leader leaves and others remain, the successor (the treasurer, else the earliest member) becomes LEADER. |
| Clubs.ReunionService.FirstTreasurer | ourclass-backend/src/main/java/com/ourclass/backend/service/ReunionService.java:166-173 | The club's treasurer among the remaining members, else the earliest remaining member. |
| Clubs.ReunionService.RemoveMember | ourclass-backend/src/main/java/com/ourclass/backend/service/ReunionService.java:182-201 | A LEADER or ADMIN removes exactly the target's row; nobody is promoted. |
| Clubs.ReunionService.JoinByCode | ourclass-backend/src/main/java/com/ourclass/backend/service/ReunionService.java:222-257 | Members and pending requesters are refused and a processed requester breaks the unique key; otherwise one PENDING request is stored and every leader is notified. |
| Clubs.ReunionService.LeadersOf | ourclass-backend/src/main/java/com/ourclass/backend/service/ReunionService.java:222-257 | Exactly the users with a LEADER or ADMIN row of the club, each once. |
| Clubs.ReunionService.ApproveJoinRequest | ourclass-backend/src/main/java/com/ourclass/backend/service/ReunionService.java:284-315 | A LEADER or ADMIN marks the request APPROVED, enrols its user as MEMBER and notifies them; an existing member breaks the unique key. |
| Clubs.ReunionService.RejectJoinRequest | ourclass-backend/src/main/java/com/ourclass/backend/service/ReunionService.java:317-340 | A LEADER or ADMIN marks the request REJECTED and notifies its user. |
| Clubs.ReunionService.RegenerateInviteCode | ourclass-backend/src/main/java/com/ourclass/backend/service/ReunionService.java:342-360 | A LEADER or ADMIN replaces the code by an unused one; the old code stops working and the new one finds the club. |
| Clubs.ReunionService.AssignTreasurer | ourclass-backend/src/main/java/com/ourclass/backend/service/ReunionService.java:1008-1048 | A LEADER or ADMIN makes a non-leader member the treasurer; the previous treasurer becomes MEMBER; the target is notified. |
| Clubs.ReunionService.RemoveTreasurer | ourclass-backend/src/main/java/com/ourclass/backend/service/ReunionService.java:1050-1070 | A LEADER or ADMIN sends the treasurer, if any, back to MEMBER. |
| Clubs.ReunionService.GetFeeSummary | ourclass-backend/src/main/java/com/ourclass/backend/service/ReunionService.java:751-771 | The club's fees newest first, with the `Summary` sums and counts. |
| Clubs.ReunionService.GetFeeGroups | ourclass-backend/src/main/java/com/ourclass/backend/service/ReunionService.java:1126-1132 | The club's groups newest first, each with its figures. |
| Clubs.ReunionService.UpdateFeePayment | ourclass-backend/src/main/java/com/ourclass/backend/service/ReunionService.java:773-809 | A fee manager records the paid amount and the status derived from it; the fee's user, unless the caller, is notified. |
| Clubs.ReunionService.ToggleFeePayment | ourclass-backend/src/main/java/com/ourclass/backend/service/ReunionService.java:1135-1172 | A fee manager flips the fee between PAID and UNPAID; the fee's user, unless the caller, is told which. |
| Clubs.ReunionService.CreateFeeGroup | ourclass-backend/src/main/java/com/ourclass/backend/service/ReunionService.java:1073-1124 | A fee manager opens a group, with the parsed due date, charging every member one unpaid fee of the amount; every member but the caller is notified. After the role check, a non-empty due date that `LocalDate.parse` refuses fails the call, then a description over 200 characters does; either way nothing changes. |
| Clubs.ReunionService.AddMemberToFeeGroup | ourclass-backend/src/main/java/com/ourclass/backend/service/ReunionService.java:1174-1205 | A fee manager charges one more user the group's amount; a user already charged is refused. |
| Clubs.ReunionService.RemoveMemberFromFeeGroup | ourclass-backend/src/main/java/com/ourclass/backend/service/ReunionService.java:1207-1225 | A fee manager deletes exactly the fee the group charges the user. |
| Clubs.ReunionService.DeleteFeeGroup | ourclass-backend/src/main/java/com/ourclass/backend/service/ReunionService.java:1227-1240 | A fee manager deletes the group and exactly its fees. |
| Clubs.ReunionService.CastVote | ourclass-backend/src/main/java/com/ourclass/backend/service/ReunionService.java:607-631 | The user's vote for the option is cast, or withdrawn when already cast; nothing else changes. |
| Fees.PaymentStatus | ourclass-backend/src/main/java/com/ourclass/backend/service/ReunionService.java:773-809 | PAID when the paid amount reaches the fee, PARTIAL when some is paid, else UNPAID. |
| Fees.Recorded | ourclass-backend/src/main/java/com/ourclass/backend/service/ReunionService.java:773-809 | The paid amount as given, its derived status and the time; amount and payer unchanged. |
| Fees.Toggled | ourclass-backend/src/main/java/com/ourclass/backend/service/ReunionService.java:1135-1172 | Toggling never changes the fee's amount, payer, club or group. |
| Fees.ToggleFlips | ourclass-backend/src/main/java/com/ourclass/backend/service/ReunionService.java:1135-1172 | The toggle flips PAID and UNPAID (PARTIAL becomes PAID); a fresh fee toggled twice is unchanged; a positive fee stays consistent. |
| Fees.ZeroFeeToggleInconsistent | ourclass-backend/src/main/java/com/ourclass/backend/service/ReunionService.java:1135-1172 | For a fee of amount zero the toggle's UNPAID state disagrees with `PaymentStatus` of the same paid amount. |
| Fees.Charge | ourclass-backend/src/main/java/com/ourclass/backend/service/ReunionService.java:1073-1124 | Every stored fee is kept, and each listed user gets one new UNPAID fee of the group at the amount, under consecutive ids in list order. |
| Fees.CountIsCardinality | ourclass-backend/src/main/java/com/ourclass/backend/repository/ReunionFeeRepository.java:15-18 | Counting a status along a repeat-free list of stored fees equals the number of stored fees of that status. |
| Fees.UniformPaidAmounts | ourclass-backend/src/main/java/com/ourclass/backend/service/ReunionService.java:979-1003 | With one amount for every fee, the PAID fees add up to that amount per paid fee. |
| Fees.Wrap32Congruent | ourclass-backend/src/main/java/com/ourclass/backend/service/ReunionService.java:751-771 | Two `int` results agreeing modulo 2^32 are equal. |
| Fees.Summary | ourclass-backend/src/main/java/com/ourclass/backend/service/ReunionService.java:751-771 | The summary's three totals are 32-bit `int` values. |
| Fees.SummaryMeaning | ourclass-backend/src/main/java/com/ourclass/backend/service/ReunionService.java:751-771 | The three counts cover every fee exactly once; the unpaid total is the outstanding amount up to `int` wrap-around, and exactly that when no sum overflows. |
| Fees.WrapDifference | ourclass-backend/src/main/java/com/ourclass/backend/service/ReunionService.java:751-771 | The difference of wrapped `int`s is the wrapped exact difference. |
| Fees.Totals | ourclass-backend/src/main/java/com/ourclass/backend/service/ReunionService.java:979-1003 | The group's paid and expected totals are 32-bit `int` values. |
| Fees.TotalsMeaning | ourclass-backend/src/main/java/com/ourclass/backend/service/ReunionService.java:979-1003 | Paid and unpaid members add up to the group; with a uniform amount the paid total is the amount times the paid count. |
| Schools.GraduationYearFrom | ourclass-backend/src/main/java/com/ourclass/backend/dto/SchoolSearchResponse.java:29-58 | None iff the date is missing, shorter than four characters or its first four do not parse; otherwise that year plus 6 at an elementary school and 3 elsewhere. |
| Schools.FoundedInYear | ourclass-backend/src/main/java/com/ourclass/backend/dto/SchoolSearchResponse.java:29-58 | A date starting with a four-digit year gives that year plus six or three. |
| Schools.SignedYearAccepted | ourclass-backend/src/main/java/com/ourclass/backend/dto/SchoolSearchResponse.java:33 | A signed prefix such as "+198" or "-123" parses; "19a0" and a three-character date give none. |
| Schools.From | ourclass-backend/src/main/java/com/ourclass/backend/dto/SchoolSearchResponse.java:29-58 | Every column is copied and `graduationYearFrom` is `GraduationYearFrom` of the founding date. |
| Schools.Found | ourclass-backend/src/main/java/com/ourclass/backend/repository/SchoolRepository.java:17-26 | Exactly the directory rows the query hits, and no more rows than the directory has. |
| Schools.QueryFor | ourclass-backend/src/main/java/com/ourclass/backend/service/SchoolService.java:20-39 | Name, type and region when both are non-blank; name and type with a type alone; the name otherwise; the keyword trimmed. |
| Schools.Search | ourclass-backend/src/main/java/com/ourclass/backend/service/SchoolService.java:20-39 | Nothing for a missing keyword or one shorter than two once trimmed; otherwise the first twenty hits of the chosen query as responses. |
| Schools.ResultsMatchKeyword | ourclass-backend/src/main/java/com/ourclass/backend/service/SchoolService.java:20-39 | Every result is a directory row whose name contains the trimmed keyword. |
| Schools.RegionNeedsType | ourclass-backend/src/main/java/com/ourclass/backend/service/SchoolService.java:20-39 | A region without a type is ignored. |
| Schools.KeywordTrimmed | ourclass-backend/src/main/java/com/ourclass/backend/service/SchoolService.java:20-39 | Surrounding spaces in the keyword change nothing. |
| Schools.TypedSearchKeepsType | ourclass-backend/src/main/java/com/ourclass/backend/service/SchoolService.java:20-39 | A typed search returns only schools of that type. |
| Images.LastDot | ourclass-backend/src/main/java/com/ourclass/backend/service/ImageService.java:59-65 | The position of the last dot, or -1 when there is none. |
| Images.FileExtension | ourclass-backend/src/main/java/com/ourclass/backend/service/ImageService.java:59-65 | The dot-free text after the last dot, or "" without one; the name is the prefix, a dot and the extension. |
| Images.ExtensionOfJoined | ourclass-backend/src/main/java/com/ourclass/backend/service/ImageService.java:59-65 | base + "." + ext gives back ext whenever ext has no dot. |
| Images.Validate | ourclass-backend/src/main/java/com/ourclass/backend/service/ImageService.java:21-57 | An empty file, then one over 5 MiB, then a missing name, then an extension outside jpg/jpeg/png/gif in any case is refused, in that order; otherwise the URL is the prefix, the name, a dot and the lower-cased extension. |
| Images.StoredUrlHasAllowedExtension | ourclass-backend/src/main/java/com/ourclass/backend/service/ImageService.java:21-57 | A stored URL ends in an allowed lower-case extension. |
| Images.LimitIsInclusive | ourclass-backend/src/main/java/com/ourclass/backend/service/ImageService.java:19-57 | For every base name and every dot-free allowed extension: exactly 5 MiB is stored under the lower-cased extension, the same as the lower-case name would be, and one byte more is refused as too large. |
| Images.LastDotDecides | ourclass-backend/src/main/java/com/ourclass/backend/service/ImageService.java:59-65 | For every base name (dots included) and dot-free extension, the file is stored exactly when the lower-cased last extension is allowed; every name without a dot is refused as a type not allowed. |
| Profiles.FirstAttendedAt | ourclass-backend/src/main/java/com/ourclass/backend/service/UserService.java:108-147 | The position of the first enrolment at the school and year, or the length without one. |
| Profiles.Dedup | ourclass-backend/src/main/java/com/ourclass/backend/service/UserService.java:108-147 | `distinct()`: the same ids, each once. |
| Common.Without | ourclass-backend/src/main/java/com/ourclass/backend/service/UserService.java:108-147 | Exactly the elements other than the skipped one, never more of them; used for the caller skipped in `searchClassmates` and in the fee notices of `createFeeGroup`. |
| Common.WithoutDistinct | ourclass-backend/src/main/java/com/ourclass/backend/service/UserService.java:108-147 | Leaving one element out keeps a list free of repeats. |
| Profiles.Classmates | ourclass-backend/src/main/java/com/ourclass/backend/service/UserService.java:108-147 | The repository's owners, each once, without the caller, each with their first matching enrolment; the count is the list's length. |
| Profiles.ClassmatesAreSchoolmates | ourclass-backend/src/main/java/com/ourclass/backend/repository/UserSchoolRepository.java:12 | The classmates are exactly the other accounts enrolled at that school and year. |
| Profiles.Normalized | ourclass-backend/src/main/java/com/ourclass/backend/service/UserService.java:150-194 | A filter that is blank once trimmed is absent. |
| Profiles.NameOnlySearch | ourclass-backend/src/main/java/com/ourclass/backend/repository/UserRepository.java:19-29 | Without enrolment filters only the name decides. |
| Profiles.SearchUsers | ourclass-backend/src/main/java/com/ourclass/backend/service/UserService.java:150-194 | The repository's answer without the caller, each with their first enrolment; the count is the list's length. |
| Profiles.SearchUsersFindsQualified | ourclass-backend/src/main/java/com/ourclass/backend/service/UserService.java:150-194 | The hits are exactly the other qualifying accounts, each once. |
| Profiles.BlankSearchFindsEveryone | ourclass-backend/src/main/java/com/ourclass/backend/service/UserService.java:150-194 | A request of blanks finds every account but the caller, each once. |
| Profiles.Updated | ourclass-backend/src/main/java/com/ourclass/backend/service/UserService.java:54-105 | Each given field overwrites the stored one; the enrolments are replaced only by a non-empty list; id, e-mail, password, role, status and times stay. |
| Profiles.UpdateIdempotent | ourclass-backend/src/main/java/com/ourclass/backend/service/UserService.java:54-105 | Applying the same update twice is applying it once. |
| Profiles.EmptyUpdateKeepsProfile | ourclass-backend/src/main/java/com/ourclass/backend/service/UserService.java:54-105 | An update with no fields, or only an empty school list, changes nothing. |
| Profiles.UpdateKeepsAccounts | ourclass-backend/src/main/java/com/ourclass/backend/service/UserService.java:54-105 | An update keeps account ids and e-mails unique. |
| Profiles.ProfileService.UpdateProfile | ourclass-backend/src/main/java/com/ourclass/backend/service/UserService.java:54-105 | An unknown user fails; an updated account whose name, image URL, bio or enrolment fields exceed their columns is refused with nothing changed; otherwise only that account changes, to `Updated`. |
| Guestbook.CanDelete | ourclass-backend/src/main/java/com/ourclass/backend/service/GuestbookService.java:78-98 | False for an anonymous viewer, otherwise exactly `deleteEntry`'s permission. |
| Guestbook.ViewOf | ourclass-backend/src/main/java/com/ourclass/backend/service/GuestbookService.java:78-98 | The entry with its writer's name and image and the viewer's `canDelete`. |
| Guestbook.WriterMayDeleteOwnEntry | ourclass-backend/src/main/java/com/ourclass/backend/service/GuestbookService.java:26-41 | The writer and the page owner may delete an entry. |
| Guestbook.GuestbookService.AddEntry | ourclass-backend/src/main/java/com/ourclass/backend/service/GuestbookService.java:26-41 | An unknown owner or writer fails; content over 500 characters is refused; otherwise exactly one entry is added and shown deletable to its writer. |
| Guestbook.GuestbookService.GetEntries | ourclass-backend/src/main/java/com/ourclass/backend/service/GuestbookService.java:44-53 | An unknown owner fails; otherwise every entry on the page, once, newest first, with `canDelete` for the viewer. |
| Guestbook.GuestbookService.DeleteEntry | ourclass-backend/src/main/java/com/ourclass/backend/service/GuestbookService.java:56-69 | An unknown entry fails; only its writer or the page owner may delete it; exactly that entry goes. |
| Guestbook.GuestbookService.EntryCount | ourclass-backend/src/main/java/com/ourclass/backend/service/GuestbookService.java:72-76 | An unknown owner fails; otherwise the number of entries on the page. |
| Admin.AccountGate | ourclass-backend/src/main/java/com/ourclass/backend/service/AdminService.java:51-95 | The target is looked up first, then the admin, then the admin's role. |
| Admin.AdminGate | ourclass-backend/src/main/java/com/ourclass/backend/service/AdminService.java:99-127 | The acting account must exist and be an administrator. |
| Admin.UnknownTargetReportedFirst | ourclass-backend/src/main/java/com/ourclass/backend/service/AdminService.java:51-63 | An unknown target is reported even to a non-administrator. |
| Admin.Matching | ourclass-backend/src/main/java/com/ourclass/backend/service/AdminService.java:36-47 | Every account for a missing or blank keyword; otherwise those whose id, name or e-mail contains it. |
| Admin.LoginIdFindsAccount | ourclass-backend/src/main/java/com/ourclass/backend/service/AdminService.java:36-47 | Searching an account's full id finds it. |
| Admin.StatsOf | ourclass-backend/src/main/java/com/ourclass/backend/service/AdminService.java:130-152 | The total, active, suspended, logged-in-today and online counts. |
| Admin.StatusesPartitionUsers | ourclass-backend/src/main/java/com/ourclass/backend/service/AdminService.java:130-152 | Active plus suspended is the total; today's and online users are at most the total. |
| Admin.BarePostDeletedKeeps | ourclass-backend/src/main/java/com/ourclass/backend/service/AdminService.java:99-111 | A post with no comment and no like can be deleted alone without a dangling row. |
| Admin.AdminService.SuspendUser | ourclass-backend/src/main/java/com/ourclass/backend/service/AdminService.java:51-63 | After `AccountGate`, only the target's status changes, to SUSPENDED. |
| Admin.AdminService.UnsuspendUser | ourclass-backend/src/main/java/com/ourclass/backend/service/AdminService.java:67-79 | After `AccountGate`, only the target's status changes, to ACTIVE. |
| Admin.AdminService.ChangeUserRole | ourclass-backend/src/main/java/com/ourclass/backend/service/AdminService.java:83-95 | After `AccountGate`, only the target's role changes. |
| Admin.AdminService.DeletePost | ourclass-backend/src/main/java/com/ourclass/backend/service/AdminService.java:99-111 | After `AdminGate`, an unknown post fails; a post with comments or likes is refused; otherwise exactly the post row goes. |
| Admin.AdminService.DeleteComment | ourclass-backend/src/main/java/com/ourclass/backend/service/AdminService.java:115-127 | After `AdminGate`, an unknown comment fails; otherwise it goes with its replies and the counter stays. |
| Admin.AdminService.SearchUsers | ourclass-backend/src/main/java/com/ourclass/backend/service/AdminService.java:29-47 | `Matching` over the stored accounts. |
| Admin.AdminService.GetStats | ourclass-backend/src/main/java/com/ourclass/backend/service/AdminService.java:130-152 | `StatsOf` the stored accounts. |
| Users.WithEmail | ourclass-backend/src/main/java/com/ourclass/backend/repository/UserRepository.java:15 | Exactly the accounts registered with the e-mail. |
| Reunions.RowsOf | ourclass-backend/src/main/java/com/ourclass/backend/repository/ReunionMemberRepository.java:14 | The membership rows of that user in that club. |
| Reunions.MembersOf | ourclass-backend/src/main/java/com/ourclass/backend/repository/ReunionMemberRepository.java:13 | Every membership row of the club. |
| Reunions.TreasurersOf | ourclass-backend/src/main/java/com/ourclass/backend/repository/ReunionMemberRepository.java:16 | The club's rows holding the TREASURER role. |
| Reunions.RequestsOf | ourclass-backend/src/main/java/com/ourclass/backend/repository/ReunionJoinRequestRepository.java:14 | The join requests of that user for that club. |
| Reunions.Voters | ourclass-backend/src/main/java/com/ourclass/backend/repository/MeetingVoteRepository.java:16 | The users with a vote row for the option. |
| Reunions.VotesOf | ourclass-backend/src/main/java/com/ourclass/backend/repository/MeetingVoteRepository.java:14 | The user's vote rows for the option. |
| Clubs.RoleInRow | ourclass-backend/src/main/java/com/ourclass/backend/repository/ReunionMemberRepository.java:14 | Under one row per member, a stored row's role is what the lookup reports for its user and club. |
| Clubs.Codes | ourclass-backend/src/main/java/com/ourclass/backend/repository/ReunionRepository.java:16 | The invite codes some club holds. |
| Fees.NewFee | ourclass-backend/src/main/java/com/ourclass/backend/entity/ReunionFee.java:37-47 | A new fee is UNPAID, with nothing paid and no payment time. |
| Fees.ClubFees | ourclass-backend/src/main/java/com/ourclass/backend/repository/ReunionFeeRepository.java:14 | The fees of the club. |
| Fees.GroupFees | ourclass-backend/src/main/java/com/ourclass/backend/repository/ReunionFeeRepository.java:16 | The fees of the group. |
| Fees.FeesOfIn | ourclass-backend/src/main/java/com/ourclass/backend/repository/ReunionFeeRepository.java:17 | The fees of the group charged to the user. |
| Fees.GroupsOf | ourclass-backend/src/main/java/com/ourclass/backend/repository/FeeGroupRepository.java:10 | The fee groups of the club. |
| Fees.InStatus | ourclass-backend/src/main/java/com/ourclass/backend/repository/ReunionFeeRepository.java:15-18 | The stored fees among the given ones that have the status. |
| GroupChat.NewMessage | ourclass-backend/src/main/java/com/ourclass/backend/service/GroupChatService.java:83-127 | A new message has the room, sender and content given, an empty hide set, and is not deleted. |
| Guestbook.OnPage | ourclass-backend/src/main/java/com/ourclass/backend/repository/GuestbookRepository.java:12-13 | The entries whose owner is the page's user. |
| Notes.View | ourclass-backend/src/main/java/com/ourclass/backend/service/MessageService.java:125-143 | The response's `read` flag is set iff the note has a read time. |
| Clubs.ReunionService.Open | ourclass-backend/src/main/java/com/ourclass/backend/service/ReunionService.java:53-103 | The club row is added; its members are exactly the creator as LEADER and the invitees; it has no treasurer; no other table changes. |
| Clubs.ReunionService.CollectNewcomers | ourclass-backend/src/main/java/com/ourclass/backend/service/ReunionService.java:119-152 | The loop's result is `Newcomers`. |
| Clubs.ReunionService.AddMembers | ourclass-backend/src/main/java/com/ourclass/backend/service/ReunionService.java:119-152 | The memberships become `Enrol` of the newcomers; membership grows by exactly them. |
| Clubs.ReunionService.Drop | ourclass-backend/src/main/java/com/ourclass/backend/service/ReunionService.java:154-201 | Exactly that membership row and that membership go. |
| Clubs.ReunionService.Promote | ourclass-backend/src/main/java/com/ourclass/backend/service/ReunionService.java:166-175 | The successor's row becomes LEADER, the club is led, and membership is unchanged. |
| Clubs.ReunionService.Request | ourclass-backend/src/main/java/com/ourclass/backend/service/ReunionService.java:222-257 | Exactly one PENDING request of the user is added. |
| Clubs.ReunionService.Stamp | ourclass-backend/src/main/java/com/ourclass/backend/service/ReunionService.java:284-340 | Only the request's status and processing time change. |
| Clubs.ReunionService.Recode | ourclass-backend/src/main/java/com/ourclass/backend/service/ReunionService.java:342-360 | Only the club's code changes, to a new one that finds the club; the old code finds nothing. |
| Clubs.ReunionService.Appoint | ourclass-backend/src/main/java/com/ourclass/backend/service/ReunionService.java:1008-1048 | The previous treasurer becomes MEMBER and the target TREASURER, the club's only one; no other row changes. |
| Clubs.ReunionService.Demote | ourclass-backend/src/main/java/com/ourclass/backend/service/ReunionService.java:1050-1070 | The club's treasurer, if any, becomes MEMBER; the club then has none; membership is unchanged. |
| Clubs.ReunionService.Relabel | ourclass-backend/src/main/java/com/ourclass/backend/service/ReunionService.java:1008-1070 | Only that member's role changes; membership is unchanged. |
| Clubs.ReunionService.GroupIds | ourclass-backend/src/main/java/com/ourclass/backend/repository/FeeGroupRepository.java:10 | The club's fee groups, newest first. |
| Clubs.ReunionService.RosterOf | ourclass-backend/src/main/java/com/ourclass/backend/service/ReunionService.java:1073-1124 | The club's `Roster`: its members' users, each once. |
| Clubs.ReunionService.Rewrite | ourclass-backend/src/main/java/com/ourclass/backend/service/ReunionService.java:773-809 | Only that fee row changes. |
| Clubs.ReunionService.OpenGroup | ourclass-backend/src/main/java/com/ourclass/backend/service/ReunionService.java:1073-1124 | The group row is added and its fees are `Charge` of the listed users; no other table changes. |

## Left out

- Transport and framework: HTTP controllers, WebSocket/STOMP delivery of notifications and chat messages, security filters, DTO JSON mapping, and the time zone of `LocalDateTime` are not modelled. The clock is an input `now`.
- Creation-time order is modelled as identity order. Rows stamped with equal times, and a clock that moves back, are not modelled.
- Transactions: a failure leaves every table as it was. Lazy loading, flush order and database locks are not modelled, and neither is concurrency between requests.
- Null strings are not modelled, except where the code tests for null (`Option`).
- Java `Integer` counters (likes, comments, views) do not wrap at 2^31. The fee sums do wrap (`Wrap32`).
- Group chat entities (`GroupChatRoom`, `GroupChatMember`) are not part of this model. Their fields are taken from how the services use them. One membership per room and user is assumed. The direct chat room follows `entity/ChatRoom.java`, whose unique key on (user1_id, user2_id) at lines 13-14 is the one-room-per-pair rule; its 500-character `last_message` column always holds the preview, which is at most 103 characters.
- `User` as shown lacks `role`, `status` and the login/activity/logout times that the services read. They are modelled with the defaults the services set: USER and ACTIVE.
- DirectChat.ChatService.DeleteMessage: `ChatService` has no deletion method of its own. This member follows the deletion meaning documented on `ChatMessage`.
- DirectChat.ChatService.MarkAllAsRead: `ChatService` has no such method either. This member composes the repository's `markAllAsRead` with `findByUser`.
- Message formatting: the response mappings (`toMessageResponse`, `toRoomResponse`, `toResponse`, `toPostResponse`) are modelled only for the fields that carry logic. Timestamps formatted as text are left out.
- Friend lists (`getMyFriends`, `getSentRequests`, `getPendingRequests`) are modelled by their repository queries (`AcceptedOf`, `SentBy`, `PendingFor`), not as service methods.
- Posts: `getNewPostCountForSchool` is left out, and so are the `CommentResponse` reply trees.
- Posts: `PostLike` uniqueness per post and user is assumed. The `posts` identity column starts at 1.
- Board.PostService.AddComment: the code does not check that the parent comment is on the same post. The model follows the code. A cross-post reply can then make a later `deleteComment` lower the wrong post's counter, so consistency of comment counters is not claimed.
- Clubs.ReunionService.RemoveMember: nobody is promoted when the removed member led the club. This follows the code, unlike `leaveReunion`.
- Clubs.ReunionService.ApproveJoinRequest: the request's status is not checked first. This follows the code.
- Clubs.ReunionService.JoinByCode: a user whose earlier request was already processed hits the unique key and fails. This follows the code.
- Clubs.ReunionService.UpdateFeePayment: the notification always says the payment was confirmed, whatever the amount. This follows the code.
- Fees.Toggled: on a fee of amount zero the toggle leaves a state that `updateFeePayment` would not derive (`ZeroFeeToggleInconsistent`). This follows the code.
- Clubs.ReunionService.CastVote: club membership is not checked. This follows the code.
- Reunions.GenerateInviteCode: `Random` is modelled as a finite list of given attempts. When every attempt collides the model returns none, where the source would keep drawing.
- Reunions: `findByReunion` order is taken as id order.
- Reunions: the following are left out as plain reads or unrelated to the rules: meetings, the club feed (posts, comments, likes), `createFees`, `getFees`, `getMyReunions`, `getReunionDetail`, `getReunionByCode`, `getJoinRequests`, and the `to*Response` mappings.
- Fees: each fee row's own copy of the group's description and due date, and the `createdBy` of fee rows and fee groups, are not modelled; no rule reads them, and the fee row's description column has the group's 200-character limit, so its copy fits whenever the group's does.
- Clubs.ReunionService.CreateFeeGroup: a null description, which the non-null column refuses, is not modelled; the description is a string.
- Fees.DueDateOf: `LocalDate.parse` also accepts a year written with a sign, such as "+10000-01-01" or "-0001-01-01"; the model accepts four-digit years only and refuses these.
- Clubs.ReunionService.CreateReunion: the notices are written before the club rows within the same transaction. This is not observable.
- Users: `getProfile` is left out as a plain read. In `updateProfile` the request's school entries are copied field by field, which the model treats as an identity copy.
- Profiles.Classmates: the result of `findBySchoolCodeAndGraduationYear` is a parameter. `EnrolmentOwners` states its meaning, but the query is not computed.
- Profiles.SearchUsers: the result of the `searchUsers` JPQL query is a parameter. `Qualifies` states its meaning, with `LIKE` as a case-sensitive substring test; `%` and `_` typed by the user are not treated as wildcards.
- Schools: the order of `ORDER BY schoolName` is taken as the directory's row order, and collation is not modelled. `LIKE` is a case-sensitive substring test. A null `schoolType`, on which the switch would throw, is not modelled.
- Schools.GraduationYearFrom: `Integer.parseInt` is modelled over ASCII digits only. Other Unicode decimal digits are not modelled.
- Images: the file write, the upload directory and the random UUID are left out. The generated name is a parameter.
- Images.Validate: the extension is lower-cased letter by letter in ASCII, which is what `toLowerCase()` does to these extensions under a default locale that is not Turkish or Azeri. Under a Turkish or Azeri default locale, Java turns 'I' into dotless 'ı', so "GIF" is refused by the source and accepted by the model, and it turns 'İ' (and 'I' followed by a combining dot above) into 'i', so "GİF" is accepted by the source and refused by the model.
- Guestbook.GuestbookService.AddEntry: the 500-character limit comes from the column length. A longer entry fails as a constraint violation. Null content is not modelled.
- Admin: `countByStatus`, `countTodayLogins`, `countOnlineUsers` and `findByUserIdContainingOrNameContainingOrEmailContaining` are not in the repository shown. They are modelled by their names: today means logged in at or after the start of the day, and online means active within the last five minutes.
- Admin.AdminService.DeletePost: the forced deletion removes only the post row. A post with comments or likes is refused by their foreign keys.
- Admin.AdminService.DeleteComment: replies are removed by the cascade, but the post's comment counter is not lowered. This follows the code, unlike `PostService.deleteComment`.
- Admin.AdminService.SearchUsers: the result is a set. The order of `findAll` is not modelled.
- Auth: password hashing is left out. The encoded password is an input, and matching is a parameter.
- DirectChat.Preview: the 100-character limit counts Unicode characters, where `length()` and `substring` in `ChatService.java` count UTF-16 code units. A message with characters outside the Basic Multilingual Plane (emoji, say) is longer in Java: 60 emoji are 120 units and get a cut preview that may split a surrogate pair, while the model keeps them whole.
- Schools.Search: the "shorter than two" test counts Unicode characters, not UTF-16 code units, so a keyword of one character outside the Basic Multilingual Plane passes the source's test but is refused by the model.
- Auth.MaskUserId: lengths and positions count Unicode characters, not UTF-16 code units. The two agree for ids made of characters inside the Basic Multilingual Plane.
- Clubs.ReunionService.JoinByCode: the typed code is upper-cased with ASCII rules. Java's `toUpperCase()` maps every Unicode letter and depends on the default locale (for example 'ı' becomes 'I' and 'ſ' becomes 'S'), so a code typed with such letters is found by the source and not by the model, and under a Turkish default locale a lower-case 'i' becomes 'İ', so the source misses a code the model finds.
- GroupChat.GroupChatService.CreateRoom: an id listed twice gets one membership. The source saves one `GroupChatMember` row per occurrence. That entity is not part of this model, so whether a unique key would then roll the whole creation back is not known.
