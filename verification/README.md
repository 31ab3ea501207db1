# Minimal chat system: a Dafny model

This project models the core of a small threaded TCP chat system. The
server (`server.py`) keeps a list of `(username, connection)` entries, a
message queue and a connection count. Each new connection first runs a
registration handshake: the peer sends candidate names until one is not yet
in the list. The connection then runs a command loop:

- `"y"` asks for the list of the other users;
- `"n"`, followed by a recipient frame and a body frame, queues a message;
- any frame that is empty or mentions "stop" in any letter case ends the
  session, and the user's entry is then taken out of the list.

A router drains the queue. It writes `From <sender>: "<body>"\n` to every
listed connection whose name is the recipient.

The client (`client.py`) models three pieces:

- the stop test on text it sends;
- the username submission loop, which skips empty input;
- `get_all_messages`. This function splits received chunks into lines, keeps
  the non-empty ones in an inbox list, and then hands back either every
  delivery line (message mode) or the first other line (users mode). Each
  line it hands back is removed from the inbox in place.

Files:

- `text.dfy` — module `Optional`; module `Text`, which models Python's
  `lower()` (ASCII only), `in` on strings, `startswith`, `split` on one
  character and `join`; module `Lists`, which models `list.remove`.
- `protocol.dfy` — module `Protocol`. It holds the stop test, the frames the
  server writes (the registration acknowledgement, the list reply and the
  delivery line) with their parsers, and `Commands`, the commands that a
  connection's frames stand for.
- `registry.dfy` — module `Registry`. It holds the client list as a
  sequence of entries, uniqueness of names, the entry that a disconnect
  removes, the names a list reply shows and the writes the router makes.
- `server.dfy` — module `Server`. Class `ChatServer` holds the fields
  `clients`, `queue` and `connCount`. Two more fields stand in for the
  sockets: `sent` logs every frame written to a connection, and `closed`
  records every connection closed. The methods are the handshake, one command
  step, the command loop with its cleanup, and the router.
- `client.dfy` — module `ChatClient`. It holds the stop test, the submission
  loop and class `Inbox` (the `all_messages` list).

Every connection hands in its frames as a sequence. Once that sequence is
exhausted, the peer has closed the connection, and every further read
returns the empty frame. This has two consequences, as in the source:

- a handshake whose candidates have all been rejected goes on with the
  candidate `""`. It registers `""` when that name is free. Otherwise it
  never ends, and `AcceptClient` returns `None`.
- a command loop always ends.

`AcceptClient`, `CommandStep`, `Disconnect` and `RouteOne` are each one
atomic step of a worker thread. `RunCommands`, `ReceiveMessage` and
`RouteAll` run such steps one after another, with no other thread's step in
between.

## Model

| member | source | states |
|---|---|---|
| Text.Lower | server.py:36 | `lower()` keeps the length and leaves no capital letter in the result |
| Text.LowerFixed | server.py:36 | lowering twice is lowering once, and a string is left as it is exactly when it holds no capital letter |
| Text.Contains | server.py:36 | a string only contains a substring that is no longer than itself |
| Text.ContainsIff | server.py:36 | the substring test `p in s` holds exactly when `p` occurs at some position of `s` |
| Text.MentionsStopIff | server.py:36 | `"stop" in msg.lower()` holds exactly when four consecutive characters spell "stop" in some letter case |
| Protocol.IsStopFrame | server.py:36-38 | a frame ends the session exactly when it is empty or has "stop" somewhere in any letter case |
| Protocol.ShortFrameNotStop | server.py:36-38 | the one-character command tokens are never stop frames |
| Text.Split | client.py:107 | `split` yields at least one piece, and no piece holds the separator |
| Text.Join | server.py:52 | the first part starts the result, with two or more parts the separator occurs in it, and the result is no shorter than the number of parts less one |
| Text.JoinSplit | server.py:52 | joining the pieces of a split gives back the original string |
| Text.SplitJoin | server.py:52 | splitting a join of one or more separator-free parts gives back the parts |
| Protocol.RegisteredFrame | server.py:93 | the acknowledgement is non-empty and newline-terminated, holds no other newline when the name holds none, and the registered name can be read back at its fixed place in it |
| Protocol.ListReply | server.py:51-54 | the reply is one non-empty newline-terminated frame, and it is the "No Other users" text exactly when there are no names |
| Protocol.ListReplyRoundTrip | server.py:51-54 | the list reply gives back exactly the listed names, in order, when no name holds a comma; with no names it is the "No Other users" text |
| Protocol.DeliveryLine | server.py:153 | the line starts with "From ", ends with a quote, is nine characters longer than sender and body together, and holds no newline when they hold none |
| Protocol.DeliveryFrame | server.py:153 | the frame is the delivery line ended by one newline; the sender and body read back from it unchanged when the sender has no colon |
| Protocol.DeliveryRoundTrip | server.py:153 | the sender and body can be read back unchanged from a delivery line when the sender has no colon |
| Protocol.Commands | server.py:108-127 | every command the loop carries out is well formed: no stop frame among its frames, and an ignored token is neither "y" nor "n" |
| Protocol.CommandAt | server.py:110-127 | the form of `CommandsStep` that `RunCommands` uses at a read position: a well-formed command whose frames start there is the next command carried out, and the loop goes on after its frames |
| Protocol.CommandsStep | server.py:110-127 | one well-formed command is carried out, and the loop goes on with the frames after it |
| Protocol.CommandsEncode | server.py:108-127 | well-formed commands are carried out in the order they were sent |
| Protocol.SessionCommands | server.py:108-127 | a session that ends with "stop", or with the connection closing, carries out exactly the commands sent |
| Protocol.CommandsConsumePrefix | server.py:108-127 | every command carried out is well formed, and the frames consumed are a prefix of the frames sent ("y" and other tokens take one frame, "n" takes three) |
| Registry.NamesHas | server.py:71-79 | `username in names` over the snapshot of names holds exactly when some entry carries the name |
| Registry.FindName | server.py:129-130 | finds the first entry with the name, or reports that none has it |
| Registry.RegisterKeepsUnique | server.py:87-89 | appending a name not yet present keeps the names unique and registers it |
| Registry.UnregisterSpec | server.py:129-135 | a disconnect removes one entry when the name is present, keeps uniqueness, frees the name and keeps every other name |
| Registry.Unregister | server.py:129-131 | the list loses one entry exactly when the name is registered, and keeps no entry that was not there before |
| Registry.Others | server.py:47-50 | the list of other users is no longer than the client list and never holds the requester's name |
| Registry.OthersSpec | server.py:47-50 | the list holds exactly the registered names other than the requester's, and never the requester's own |
| Registry.OthersIsUnregister | server.py:47-50 | with unique names, the listed names are the client list without the requester's entry, in list order |
| Registry.Deliveries | server.py:148-155 | no more writes than entries, each carrying the delivery frame of the message's sender and body to a connection registered under the recipient's name |
| Registry.RoutedWrites | server.py:145-155 | every write the router makes carries the delivery frame of a queued message to a connection registered under that message's recipient |
| Registry.DeliveriesUnique | server.py:148-155 | with unique names, the router writes a message at most once, to the recipient's connection, with sender and body unchanged |
| Registry.RoutedWritesCount | server.py:145-155 | with unique names, routing a queue writes at most one frame per message, and exactly one per message when every recipient is registered |
| Lists.RemoveFirst | client.py:122 | `list.remove` drops one element |
| Lists.RemoveFirstAfter | server.py:131 | removing an element by value when no earlier element equals it takes out exactly that occurrence |
| Server.Enqueued | server.py:117-127 | a connection queues at most one message per command, each with its own user as sender |
| Server.Replies | server.py:114-115 | a connection gets at most one list reply per command, each the same reply on its own connection |
| Server.EnqueuedAppend | server.py:127 | queue entries of consecutive commands follow one another |
| Server.RepliesAppend | server.py:115 | list replies of consecutive commands follow one another |
| Server.EnqueuedFromFrames | server.py:117-127 | every queued message has the connection's user as sender, and a recipient and body that are frames the peer sent and are not stop frames |
| Server.ChatServer.constructor | server.py:177-182 | the server starts with no clients, an empty queue and a count of zero |
| Server.ChatServer.AcceptClient | server.py:67-93 | for non-empty candidates (a read yields "" only once the peer has closed): rejected candidates are exactly those already registered and get no reply; the first free candidate is appended at the end with its connection and acknowledged with `Client "<name>" registered.\n`; names stay unique; the count grows by one |
| Server.ChatServer.ClientList | server.py:47-54 | the reply lists every other registered name in list order, comma-joined after "Other users: ", or is the "No Other users" text |
| Server.ChatServer.CommandStep | server.py:110-127 | one step reads exactly the frames of one well-formed command, or ends the loop exactly when a stop frame comes as the token or, after "n", as recipient or body; "y" writes one list reply, "n" queues (sender, body, recipient), other tokens are passed over, and nothing else is queued or written |
| Server.ChatServer.Disconnect | server.py:129-136 | the first entry with the user's name is removed, the count drops by one and the connection is closed; without such an entry nothing changes; the count never goes below zero |
| Server.ChatServer.RunCommands | server.py:108-127 | the queue gains the session's messages and the connection gets the session's list replies, in frame order; the client list, the count and the closed connections are untouched |
| Server.ChatServer.ReceiveMessage | server.py:96-136 | the effect of the command loop followed by the cleanup of `Disconnect` |
| Server.ChatServer.RouteOne | server.py:146-157 | the oldest message is consumed even for an unknown recipient, and its delivery frame goes to every entry of the recipient's name |
| Server.ChatServer.RouteAll | server.py:145-157 | the queue is drained in FIFO order |
| ChatClient.CheckInput | client.py:85-87 | the text is flagged exactly when four consecutive characters spell "stop" in some letter case |
| ChatClient.CheckInputAgrees | client.py:85-87 | the server stops on everything the client flags, and on non-empty text the two tests agree |
| ChatClient.SubmitUsername | client.py:41-57 | empty input is never sent; the non-empty inputs are sent in order until the first one the server answers, which becomes the username |
| ChatClient.FromLines | client.py:126-130 | message mode returns no more entries than the inbox holds, each starting with "From" |
| ChatClient.OtherLines | client.py:126-130 | message mode leaves no more entries than the inbox holds, none starting with "From" |
| ChatClient.FromLinesPartition | client.py:126-130 | message mode loses or invents no entry: the delivery lines and the rest together are the inbox, duplicates included |
| ChatClient.FromLinesAppend | client.py:126-130 | both parts of an inbox made of two pieces are the parts of each piece, in order |
| ChatClient.OtherLinesStable | client.py:126-132 | message mode is idempotent: a second call finds nothing and changes nothing |
| ChatClient.FromLinesNone | client.py:126-132 | an inbox without delivery lines yields nothing and stays as it is |
| ChatClient.FirstOther | client.py:119-121 | the first inbox entry that does not start with "From", or none |
| Text.NonEmpty | client.py:108-110 | only non-empty pieces are kept, each one of the input pieces, and never more than there were |
| ChatClient.Received | client.py:102-113 | the lines the receive loop appends are non-empty and newline-free |
| ChatClient.DeliveriesArrive | client.py:107-110 | delivery lines that arrive in one chunk come back whole and in order, and message mode takes all of them |
| ChatClient.DeliveryLineIsFrom | server.py:153 | every delivery line the router writes starts with "From" |
| ChatClient.ListReplyFound | client.py:117-123 | a list reply never starts with "From", so users mode picks it out after any delivery lines before it |
| Text.SplitLines | client.py:107-110 | non-empty, newline-free lines written one after another come back in order from the split once empty pieces are dropped |
| ChatClient.Inbox.constructor | client.py:138 | the inbox starts empty |
| ChatClient.Inbox.Receive | client.py:102-113 | each chunk's non-empty lines are appended in order, up to the first empty chunk |
| ChatClient.Inbox.AppendLines | client.py:108-110 | exactly the non-empty pieces of one chunk are appended, in order |
| ChatClient.Inbox.TakeMessages | client.py:126-132 | returns exactly the delivery lines in inbox order; the inbox keeps exactly the other entries, in order and with duplicates |
| ChatClient.Inbox.TakeUser | client.py:117-123 | the first entry that is not a delivery line is removed and returned alone, and every other entry stays; with no such entry nothing changes and there is no list |
| ChatClient.Inbox.GetAllMessages | client.py:90-132 | receives the chunks, then works in users mode or in message mode, as above |

## Left out

- Socket creation, bind, listen and accept; the Windows accept timeout; the
  exit when bind fails (server.py:160-204). Connections are plain numbers.
  What a connection sends is a given sequence of frames. Writes go to the
  `sent` log, and closing is an entry in `closed`.
- `get_my_ip` (server.py:17-24). It is a DNS lookup.
- Threads, the lock, and the blocking of the queues. This includes the
  hand-off of new connections through `all_clients` and the several router
  threads started per connection. Each handshake, command step and router
  round is one atomic step, so these are not modelled:
  - the race between the name snapshot and the append;
  - the unlocked removal;
  - a router blocking on an empty queue. `RouteOne` does nothing on an
    empty queue.
- The "invalid user" branch of `accept_client` (server.py:83-85). The loop
  only ends once a name is valid, so the branch cannot run.
- The log output (`print`), including the "not found" and "Can't close
  connection." messages.
- The client's connection setup, its menu and the `input`/`print` loop
  (client.py:13-32, 60-72, 135-195). Typed input and the server's answers to
  submissions are given as sequences.
- The timeout-driven `recv` loop of `get_all_messages` (client.py:100-115).
  The data received is a given sequence of chunks. An empty chunk stands for
  a closed connection, and the end of the sequence stands for the timeout.
- Byte encoding and decoding. Frames are strings.
- Server.ChatServer.ReceiveMessage: socket errors are not modelled. In the
  source, a `recv` or `decode` that raises (a reset connection, bytes that are
  not UTF-8; server.py:110-111, 118-119, 122-123) ends the thread before the
  cleanup at server.py:129-135. The entry and the count then stay, and the
  name is never freed. The model always runs `Disconnect` after the loop.
- Server.ChatServer.RouteOne: a `send` that raises (server.py:155) ends that
  router thread in the source. The model's writes always succeed.
- TCP framing. Each `recv(2048)` is taken to return exactly one frame the
  peer sent. Over TCP, "n", "bob" and "hello" can arrive in one read, and the
  source then sees the single token "nbobhello" and passes over it. A frame
  longer than 2048 bytes is cut in two. Neither is modelled.
- ChatClient.CheckInput: the send of the text to the server (client.py:84) is
  not part of the function. It models the stop test only.
- Text.Lower: folds ASCII letters only, not the full Unicode case mapping of
  Python's `lower()`.
- Lists.RemoveFirst: requires the element to be present. Python raises
  ValueError otherwise, and every call in the source removes an element that
  is in the list.
- The count field `connCount` includes the increment that the accept loop
  makes (server.py:189). It is folded into `AcceptClient`.
