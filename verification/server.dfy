/** The server's shared state and the sequential steps that update it: the
    registration handshake of a new connection, one connection's command
    loop with its cleanup, and the router that drains the message queue.
    `AcceptClient`, `CommandStep`, `Disconnect` and `RouteOne` are each one
    atomic step of a worker thread; `RunCommands`, `ReceiveMessage` and
    `RouteAll` run such steps one after another with no other thread in
    between. */
module Server {
  import opened Optional
  import opened Text
  import opened Lists
  import opened Protocol
  import opened Registry

  /** The messages a connection's commands put on the queue, in order. */
  function Enqueued(cmds: seq<Command>, sender: string): (r: seq<Routed>)
    ensures |r| <= |cmds|
    ensures forall m :: m in r ==> m.sender == sender
    decreases |cmds|
  {
    if cmds == [] then []
    else
      (match cmds[0]
       case Send(recipient, body) => [Routed(sender, body, recipient)]
       case _ => [])
      + Enqueued(cmds[1..], sender)
  }

  /** The list replies a connection's commands cause, in order. */
  function Replies(cmds: seq<Command>, conn: ConnId, reply: string): (r: seq<Write>)
    ensures |r| <= |cmds|
    ensures forall w :: w in r ==> w == Write(conn, reply)
    decreases |cmds|
  {
    if cmds == [] then []
    else (if cmds[0].ListUsers? then [Write(conn, reply)] else []) + Replies(cmds[1..], conn, reply)
  }

  lemma {:induction false} EnqueuedAppend(a: seq<Command>, b: seq<Command>, sender: string)
    ensures Enqueued(a + b, sender) == Enqueued(a, sender) + Enqueued(b, sender)
    decreases |a|
  {
    if a != [] {
      EnqueuedAppend(a[1..], b, sender);
      assert (a + b)[0] == a[0] && (a + b)[1..] == a[1..] + b;
      Assoc(Enqueued([a[0]], sender), Enqueued(a[1..], sender), Enqueued(b, sender));
      assert [a[0]][1..] == [];
    } else {
      assert a + b == b;
    }
  }

  lemma {:induction false} RepliesAppend(a: seq<Command>, b: seq<Command>, conn: ConnId, reply: string)
    ensures Replies(a + b, conn, reply) == Replies(a, conn, reply) + Replies(b, conn, reply)
    decreases |a|
  {
    if a != [] {
      RepliesAppend(a[1..], b, conn, reply);
      assert (a + b)[0] == a[0] && (a + b)[1..] == a[1..] + b;
      Assoc(Replies([a[0]], conn, reply), Replies(a[1..], conn, reply), Replies(b, conn, reply));
      assert [a[0]][1..] == [];
    } else {
      assert a + b == b;
    }
  }

  /** Everything a connection puts on the queue names that connection's user
      as its sender and carries a recipient and a body that are frames the
      peer sent and that are not stop frames. */
  lemma {:induction false} EnqueuedFromFrames(frames: seq<string>, user: string)
    ensures forall k :: 0 <= k < |Enqueued(Commands(frames), user)| ==>
      var m := Enqueued(Commands(frames), user)[k];
      m.sender == user && !IsStopFrame(m.recipient) && !IsStopFrame(m.body)
      && m.recipient in frames && m.body in frames
    decreases |frames|
  {
    if frames != [] && !IsStopFrame(frames[0]) {
      var cmds := Commands(frames);
      if frames[0] == "y" {
        EnqueuedFromFrames(frames[1..], user);
        assert Enqueued(cmds, user) == Enqueued(Commands(frames[1..]), user);
      } else if frames[0] == "n" {
        if !IsStopFrame(FrameAt(frames, 1)) && !IsStopFrame(FrameAt(frames, 2)) {
          EnqueuedFromFrames(frames[3..], user);
          assert Enqueued(cmds, user)
              == [Routed(user, frames[2], frames[1])] + Enqueued(Commands(frames[3..]), user);
        }
      } else {
        EnqueuedFromFrames(frames[1..], user);
        assert Enqueued(cmds, user) == Enqueued(Commands(frames[1..]), user);
      }
    }
  }

  /** One iteration of the command loop: the command just carried out moves
      from the commands still to come to those done, and its queue entry and
      list reply, if any, follow those of the earlier ones. */
  lemma LoopStep(all: seq<Command>, done: seq<Command>, c: Command, rest: seq<Command>,
                 user: string, conn: ConnId, reply: string,
                 queue0: seq<Routed>, sent0: seq<Write>, queue1: seq<Routed>, sent1: seq<Write>)
    requires all == done + ([c] + rest)
    requires c.Send? ==> queue1 == queue0 + Enqueued(done, user) + [Routed(user, c.body, c.recipient)]
    requires !c.Send? ==> queue1 == queue0 + Enqueued(done, user)
    requires c.ListUsers? ==> sent1 == sent0 + Replies(done, conn, reply) + [Write(conn, reply)]
    requires !c.ListUsers? ==> sent1 == sent0 + Replies(done, conn, reply)
    ensures all == (done + [c]) + rest
    ensures queue1 == queue0 + Enqueued(done + [c], user)
    ensures sent1 == sent0 + Replies(done + [c], conn, reply)
  {
    assert [c][1..] == [];
    EnqueuedAppend(done, [c], user);
    Assoc(queue0, Enqueued(done, user), Enqueued([c], user));
    RepliesAppend(done, [c], conn, reply);
    Assoc(sent0, Replies(done, conn, reply), Replies([c], conn, reply));
    Assoc(done, [c], rest);
    if !c.Send? {
      assert Enqueued(done + [c], user) == Enqueued(done, user) + [];
    }
    if !c.ListUsers? {
      assert Replies(done + [c], conn, reply) == Replies(done, conn, reply) + [];
    }
  }

  /** The server's shared state: the client list, the message queue, the
      connection count, and (standing in for the sockets) the frames written
      to each connection and the connections closed. */
  class ChatServer {
    var clients: seq<Client>
    var queue: seq<Routed>
    var connCount: int
    var sent: seq<Write>
    var closed: set<ConnId>

    /** Names in the client list are pairwise distinct, and there are no
        more entries than counted connections. */
    ghost predicate Valid()
      reads this
    {
      UniqueNames(clients) && |clients| <= connCount
    }

    constructor ()
      ensures Valid()
      ensures clients == [] && queue == [] && connCount == 0 && sent == [] && closed == {}
    {
      clients, queue, connCount, sent, closed := [], [], 0, [], {};
    }

    /** A new connection is counted and runs the registration handshake on
        the candidate names its peer sends: candidates already in the list
        get no reply at all, and the first free one is appended with the
        connection and acknowledged. Once the candidates run out the
        connection is closed, every read yields "" and "" itself is the
        candidate; if "" is taken too the handshake never ends. A read
        before that never yields "", so no candidate sent is empty. */
    method AcceptClient(conn: ConnId, candidates: seq<string>) returns (name: Option<string>, rejected: nat)
      requires Valid()
      requires forall j :: 0 <= j < |candidates| ==> candidates[j] != ""
      modifies this
      ensures Valid()
      ensures rejected <= |candidates|
      ensures forall j :: 0 <= j < rejected ==> Registered(old(clients), candidates[j])
      ensures name.Some? <==> rejected < |candidates| || !Registered(old(clients), "")
      ensures name.Some? ==> name.value == FrameAt(candidates, rejected) && !Registered(old(clients), name.value)
      ensures name.Some? ==> clients == old(clients) + [Client(name.value, conn)]
      ensures name.Some? ==> sent == old(sent) + [Write(conn, RegisteredFrame(name.value))]
      ensures name.None? ==> clients == old(clients) && sent == old(sent)
      ensures connCount == old(connCount) + 1
      ensures queue == old(queue) && closed == old(closed)
    {
      rejected := 0;
      var valid := false;
      while rejected < |candidates| && !valid
        invariant unchanged(this)
        invariant rejected <= |candidates|
        invariant forall j :: 0 <= j < rejected ==> Registered(clients, candidates[j])
        invariant valid ==> rejected < |candidates| && !Registered(clients, candidates[rejected])
        decreases |candidates| - rejected, !valid
      {
        var username := candidates[rejected];
        var names := Names(clients);
        NamesHas(clients, username);
        if names == [] {
          valid := true;
        } else if username !in names {
          valid := true;
        } else {
          rejected := rejected + 1;
        }
      }
      connCount := connCount + 1;
      var username := FrameAt(candidates, rejected);
      if !valid {
        assert rejected == |candidates| && username == "";
        NamesHas(clients, "");
        valid := "" !in Names(clients);
      }
      if valid {
        RegisterKeepsUnique(clients, username, conn);
        clients := clients + [Client(username, conn)];
        sent := sent + [Write(conn, RegisteredFrame(username))];
        name := Some(username);
      } else {
        name := None;
      }
    }

    /** `send_client_list`: the reply to a "y" command from `username`,
        listing every other registered name in list order. */
    method ClientList(username: string) returns (reply: string)
      ensures reply == ListReply(Others(clients, username))
    {
      var names: seq<string> := [];
      var i := 0;
      while i < |clients|
        invariant 0 <= i <= |clients|
        invariant names == Others(clients[..i], username)
      {
        assert clients[..i + 1][..i] == clients[..i];
        if clients[i].name != username {
          names := names + [clients[i].name];
        }
        i := i + 1;
      }
      assert clients[..i] == clients;
      if |names| > 0 {
        reply := OtherUsersPrefix + Join(names, ',') + "\n";
      } else {
        reply := NoOtherUsers;
      }
    }

    /** One step of `receive_message` for the connection of `username`,
        reading from position `pos` of the frames its peer sends. A stop
        frame ends the loop (None); "y" writes the list reply; "n" reads a
        recipient and a body and, unless either is a stop frame, queues the
        message; any other token is passed over. The frames the step reads
        are exactly the command's own, and `next` is where the following
        command starts. */
    method CommandStep(username: string, conn: ConnId, frames: seq<string>, pos: nat)
      returns (cmd: Option<Command>, next: nat)
      requires Valid() && pos <= |frames|
      modifies this
      ensures Valid()
      ensures clients == old(clients) && connCount == old(connCount) && closed == old(closed)
      ensures cmd.None? <==> EndsAt(frames, pos)
      ensures cmd.None? ==> queue == old(queue) && sent == old(sent)
      ensures cmd.Some? ==> pos < next <= |frames| && frames[pos..next] == Encode(cmd.value) && WellFormed(cmd.value)
      ensures cmd.Some? && cmd.value.Send? ==> queue == old(queue) + [Routed(username, cmd.value.body, cmd.value.recipient)]
      ensures cmd.Some? && !cmd.value.Send? ==> queue == old(queue)
      ensures cmd.Some? && cmd.value.ListUsers? ==> sent == old(sent) + [Write(conn, ListReply(Others(clients, username)))]
      ensures cmd.Some? && !cmd.value.ListUsers? ==> sent == old(sent)
    {
      next := pos;
      var action := FrameAt(frames, pos);
      if IsStopFrame(action) {
        cmd := None;
        return;
      }
      if action == "y" {
        var reply := ClientList(username);
        sent := sent + [Write(conn, reply)];
        cmd, next := Some(ListUsers), pos + 1;
      } else if action == "n" {
        var toUser := FrameAt(frames, pos + 1);
        if IsStopFrame(toUser) {
          cmd := None;
          return;
        }
        var message := FrameAt(frames, pos + 2);
        if IsStopFrame(message) {
          cmd := None;
          return;
        }
        queue := queue + [Routed(username, message, toUser)];
        cmd, next := Some(Send(toUser, message)), pos + 3;
      } else {
        cmd, next := Some(Ignored(action)), pos + 1;
      }
    }

    /** The cleanup of `receive_message`: the first entry named `username`
        leaves the list, the count drops by one and the connection is closed;
        with no such entry nothing changes. */
    method Disconnect(username: string, conn: ConnId) returns (removed: bool)
      requires Valid()
      modifies this
      ensures Valid()
      ensures removed == Registered(old(clients), username)
      ensures clients == Unregister(old(clients), username)
      ensures connCount == old(connCount) - (if removed then 1 else 0)
      ensures connCount >= 0
      ensures closed == old(closed) + (if removed then {conn} else {})
      ensures queue == old(queue) && sent == old(sent)
    {
      var i := 0;
      while i < |clients| && clients[i].name != username
        invariant unchanged(this)
        invariant 0 <= i <= |clients|
        invariant forall j :: 0 <= j < i ==> clients[j].name != username
      {
        i := i + 1;
      }
      UnregisterSpec(clients, username);
      if i < |clients| {
        var entry := clients[i];
        FindNameIs(clients, username, i);
        assert clients == clients[..i] + [entry] + clients[i + 1..];
        RemoveFirstAfter(clients[..i], entry, clients[i + 1..]);
        clients := RemoveFirst(clients, entry);
        connCount := connCount - 1;
        closed := closed + {conn};
        removed := true;
      } else {
        removed := false;
      }
    }

    /** The command loop of `receive_message` for the connection of
        `username`: carries out the commands of its frames in order. The
        client list is untouched while the loop runs, so every list reply
        names the same other users. */
    method RunCommands(username: string, conn: ConnId, frames: seq<string>)
      requires Valid()
      modifies this
      ensures Valid()
      ensures queue == old(queue) + Enqueued(Commands(frames), username)
      ensures sent == old(sent) + Replies(Commands(frames), conn, ListReply(Others(clients, username)))
      ensures clients == old(clients) && connCount == old(connCount) && closed == old(closed)
    {
      var pos: nat := 0;
      var stop := false;
      ghost var all := Commands(frames);
      ghost var done: seq<Command> := [];
      ghost var reply := ListReply(Others(clients, username));
      assert frames[0..] == frames;
      while !stop
        invariant Valid()
        invariant pos <= |frames|
        invariant clients == old(clients) && connCount == old(connCount) && closed == old(closed)
        invariant !stop ==> all == done + Commands(frames[pos..])
        invariant stop ==> all == done
        invariant queue == old(queue) + Enqueued(done, username)
        invariant sent == old(sent) + Replies(done, conn, reply)
        decreases if stop then 0 else |frames| - pos + 1
      {
        var cmd, next := CommandStep(username, conn, frames, pos);
        if cmd.None? {
          EndsAtCommands(frames, pos);
          stop := true;
        } else {
          CommandAt(frames, pos, cmd.value, next);
          LoopStep(all, done, cmd.value, Commands(frames[next..]), username, conn, reply, old(queue), old(sent), queue, sent);
          done := done + [cmd.value];
          pos := next;
        }
      }
    }

    /** `receive_message`: the command loop, then the cleanup. */
    method ReceiveMessage(username: string, conn: ConnId, frames: seq<string>) returns (removed: bool)
      requires Valid()
      modifies this
      ensures Valid()
      ensures queue == old(queue) + Enqueued(Commands(frames), username)
      ensures sent == old(sent) + Replies(Commands(frames), conn, ListReply(Others(old(clients), username)))
      ensures removed == Registered(old(clients), username)
      ensures clients == Unregister(old(clients), username)
      ensures connCount == old(connCount) - (if removed then 1 else 0)
      ensures connCount >= 0
      ensures closed == old(closed) + (if removed then {conn} else {})
    {
      RunCommands(username, conn, frames);
      removed := Disconnect(username, conn);
    }

    /** One round of `send_message`: takes the oldest queued message and
        writes its delivery frame to every listed client of the recipient's
        name; an unknown recipient gets nothing, but the message is consumed
        all the same. With the queue empty the router would wait, and nothing
        happens. */
    method RouteOne() returns (routed: Option<Routed>)
      requires Valid()
      modifies this
      ensures Valid()
      ensures old(queue) == [] ==> routed.None? && queue == [] && sent == old(sent)
      ensures old(queue) != [] ==> routed == Some(old(queue)[0]) && queue == old(queue)[1..]
      ensures old(queue) != [] ==> sent == old(sent) + Deliveries(clients, old(queue)[0])
      ensures clients == old(clients) && connCount == old(connCount) && closed == old(closed)
    {
      if queue == [] {
        return None;
      }
      var m := queue[0];
      queue := queue[1..];
      ghost var before := sent;
      var i := 0;
      while i < |clients|
        invariant 0 <= i <= |clients|
        invariant clients == old(clients) && connCount == old(connCount) && closed == old(closed)
        invariant queue == old(queue)[1..]
        invariant sent == before + Deliveries(clients[..i], m)
      {
        DeliveriesStep(clients, i, m);
        if m.recipient == clients[i].name {
          var connection := clients[i].conn;
          Assoc(before, Deliveries(clients[..i], m), [Write(connection, DeliveryFrame(m.sender, m.body))]);
          sent := sent + [Write(connection, DeliveryFrame(m.sender, m.body))];
        }
        i := i + 1;
      }
      assert clients[..i] == clients;
      routed := Some(m);
    }

    /** `send_message` run until the queue is empty: the messages are routed
        in FIFO order. */
    method RouteAll()
      requires Valid()
      modifies this
      ensures Valid()
      ensures queue == []
      ensures sent == old(sent) + RoutedWrites(old(queue), clients)
      ensures clients == old(clients) && connCount == old(connCount) && closed == old(closed)
    {
      while queue != []
        invariant Valid()
        invariant clients == old(clients) && connCount == old(connCount) && closed == old(closed)
        invariant old(sent) + RoutedWrites(old(queue), clients) == sent + RoutedWrites(queue, clients)
        decreases |queue|
      {
        ghost var q := queue;
        var _ := RouteOne();
        assert RoutedWrites(q, clients) == Deliveries(clients, q[0]) + RoutedWrites(queue, clients);
      }
    }
  }
}
