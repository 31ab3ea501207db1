/** The frames of the chat protocol as the server reads and writes them:
    the stop test, the replies it sends, the delivery line and the commands
    a connection's frames stand for. */
module Protocol {
  import opened Optional
  import opened Text

  /** `check_received_message`: an empty frame (what a read returns once the
      peer has closed the connection) or a frame mentioning "stop" in any
      letter case ends the session. */
  predicate IsStopFrame(msg: string)
    ensures IsStopFrame(msg) <==> msg == "" || exists i :: StopAt(msg, i)
  {
    MentionsStopIff(msg);
    msg == "" || MentionsStop(msg)
  }

  /** Frames shorter than "stop", such as the command tokens "y" and "n",
      end the session only when empty. */
  lemma ShortFrameNotStop(msg: string)
    requires 0 < |msg| < 4
    ensures !IsStopFrame(msg)
  {
    MentionsStopIff(msg);
  }

  /** The frame a read at position `i` returns: past the end of what the
      peer sent, the connection is closed and every read yields "". */
  function FrameAt(frames: seq<string>, i: nat): string
  {
    if i < |frames| then frames[i] else ""
  }

  /** The acknowledgement of a successful registration. */
  function RegisteredFrame(name: string): (r: string)
    ensures r != "" && r[|r| - 1] == '\n'
    ensures |r| == |name| + 22 && r[8..|r| - 14] == name
    ensures '\n' !in name ==> '\n' !in r[..|r| - 1]
  {
    var line := "Client \"" + name + "\" registered.";
    assert (line + "\n")[..|line|] == line;
    line + "\n"
  }

  const OtherUsersPrefix: string := "Other users: "
  const NoOtherUsers: string := "No Other users at the time\n"

  /** The reply to a "y" command, built from the names to list. */
  function ListReply(names: seq<string>): (r: string)
    ensures r != "" && r[|r| - 1] == '\n'
    ensures r == NoOtherUsers <==> names == []
  {
    if |names| > 0 then
      var r := OtherUsersPrefix + Join(names, ',') + "\n";
      assert r[0] == 'O' && NoOtherUsers[0] == 'N';
      r
    else NoOtherUsers
  }

  /** Reads the names back out of a list reply. */
  function ParseListReply(reply: string): Option<seq<string>>
  {
    if reply == NoOtherUsers then Some([])
    else if OtherUsersPrefix <= reply && |reply| > |OtherUsersPrefix| && reply[|reply| - 1] == '\n' then
      Some(Split(reply[|OtherUsersPrefix|..|reply| - 1], ','))
    else None
  }

  /** A list reply gives back exactly the names it was built from, in their
      order, as long as no name holds a comma. */
  lemma ListReplyRoundTrip(names: seq<string>)
    requires forall k :: 0 <= k < |names| ==> ',' !in names[k]
    ensures ParseListReply(ListReply(names)) == Some(names)
  {
    if |names| > 0 {
      var joined := Join(names, ',');
      var reply := ListReply(names);
      assert reply == OtherUsersPrefix + joined + "\n";
      assert reply[0] == 'O' && NoOtherUsers[0] == 'N';
      assert reply[|OtherUsersPrefix|..|reply| - 1] == joined;
      SplitJoin(names, ',');
    }
  }

  /** The line a routed message is delivered as, without its newline. */
  function DeliveryLine(sender: string, body: string): (r: string)
    ensures "From " <= r && |r| == |sender| + |body| + 9 && r[|r| - 1] == '"'
    ensures '\n' !in sender && '\n' !in body ==> '\n' !in r
  {
    "From " + sender + ": \"" + body + "\""
  }

  /** The frame written to the recipient's connection. */
  function DeliveryFrame(sender: string, body: string): (r: string)
    ensures r == DeliveryLine(sender, body) + "\n"
    ensures r != "" && r[|r| - 1] == '\n'
    ensures '\n' !in sender && '\n' !in body ==> '\n' !in r[..|r| - 1]
    ensures ':' !in sender ==> ParseDelivery(r[..|r| - 1]) == Some((sender, body))
  {
    var line := DeliveryLine(sender, body);
    assert ':' !in sender ==> ParseDelivery(line) == Some((sender, body)) by {
      if ':' !in sender {
        DeliveryRoundTrip(sender, body);
      }
    }
    assert (line + "\n")[..|line|] == line;
    line + "\n"
  }

  /** Reads sender and body back out of a delivery line: the sender runs up
      to the first colon, the body sits between the quotes. */
  function ParseDelivery(line: string): Option<(string, string)>
  {
    if !StartsWith(line, "From ") then None
    else
      var rest := line[5..];
      match IndexOf(rest, ':')
      case None => None
      case Some(k) =>
        if k + 4 <= |rest| && rest[k..k + 3] == ": \"" && rest[|rest| - 1] == '"' then
          Some((rest[..k], rest[k + 3..|rest| - 1]))
        else None
  }

  /** A delivery carries its sender and body unchanged: both can be read
      back from the line, provided the sender holds no colon. */
  lemma DeliveryRoundTrip(sender: string, body: string)
    requires ':' !in sender
    ensures ParseDelivery(DeliveryLine(sender, body)) == Some((sender, body))
  {
    var after := ": \"" + (body + "\"");
    var rest := sender + after;
    var line := DeliveryLine(sender, body);
    DeliveryLineShape(sender, body);
    AppendParts("From ", rest);
    assert StartsWith(line, "From ") && line[5..] == rest;
    QuotedBody(body, after);
    SenderColon(sender, after, rest);
    DeliverySlices(sender, after, body, rest);
  }

  /** The delivery line is "From " followed by the sender, the colon, the
      opening quote, the body and the closing quote. */
  lemma DeliveryLineShape(sender: string, body: string)
    ensures DeliveryLine(sender, body) == "From " + (sender + (": \"" + (body + "\"")))
  {
    var from, quote, close := "From ", ": \"", "\"";
    calc {
      DeliveryLine(sender, body);
      from + sender + quote + body + close;
      { Assoc(from + sender + quote, body, close); }
      from + sender + quote + (body + close);
      { Assoc(from + sender, quote, body + close); }
      from + sender + (quote + (body + close));
      { Assoc(from, sender, quote + (body + close)); }
      from + (sender + (quote + (body + close)));
    }
  }

  /** What follows the sender: the colon, the opening quote, the body and
      the closing quote. */
  lemma QuotedBody(body: string, after: string)
    requires after == ": \"" + (body + "\"")
    ensures |after| == |body| + 4 && after[0] == ':' && after[..3] == ": \""
    ensures after[|after| - 1] == '"' && after[3..|after| - 1] == body
  {
    AppendParts(": \"", body + "\"");
    AppendParts(body, "\"");
    assert after[3..|after| - 1] == after[3..][..|body|];
  }

  /** With no colon in the sender, the first colon after "From " is the
      one that ends the sender. */
  lemma SenderColon(sender: string, after: string, rest: string)
    requires ':' !in sender && after != [] && after[0] == ':' && rest == sender + after
    ensures IndexOf(rest, ':') == Some(|sender|)
  {
    AppendParts(sender, after);
    IndexOfAt(rest, ':', |sender|);
  }

  /** The pieces the parser cuts out of what follows "From ". */
  lemma DeliverySlices(sender: string, after: string, body: string, rest: string)
    requires rest == sender + after
    requires |after| == |body| + 4 && after[..3] == ": \"" && after[|after| - 1] == '"'
    requires after[3..|after| - 1] == body
    ensures |sender| + 4 <= |rest| && rest[|sender|..|sender| + 3] == ": \"" && rest[|rest| - 1] == '"'
    ensures rest[..|sender|] == sender && rest[|sender| + 3..|rest| - 1] == body
  {
    AppendParts(sender, after);
    SliceRight(sender, after, |sender|, |sender| + 3);
    SliceRight(sender, after, |sender| + 3, |rest| - 1);
  }

  /** What one step of a connection's command loop does. */
  datatype Command =
    | ListUsers                               // "y"
    | Send(recipient: string, body: string)   // "n", recipient, body
    | Ignored(token: string)                  // any other token

  /** The commands the per-connection loop carries out on the frames its
      peer sends, in order, up to the step that ends the loop. */
  function Commands(frames: seq<string>): (r: seq<Command>)
    ensures forall c :: c in r ==> WellFormed(c)
    decreases |frames|
  {
    if frames == [] || IsStopFrame(frames[0]) then []
    else if frames[0] == "y" then [ListUsers] + Commands(frames[1..])
    else if frames[0] == "n" then
      if IsStopFrame(FrameAt(frames, 1)) || IsStopFrame(FrameAt(frames, 2)) then []
      else [Send(frames[1], frames[2])] + Commands(frames[3..])
    else [Ignored(frames[0])] + Commands(frames[1..])
  }

  /** The frames a client sends for one command. */
  function Encode(c: Command): seq<string>
  {
    match c
    case ListUsers => ["y"]
    case Send(recipient, body) => ["n", recipient, body]
    case Ignored(token) => [token]
  }

  function EncodeAll(cmds: seq<Command>): seq<string>
    decreases |cmds|
  {
    if cmds == [] then [] else Encode(cmds[0]) + EncodeAll(cmds[1..])
  }

  /** A command the loop can carry out without ending: none of its frames is
      a stop frame, and an ignored token is neither "y" nor "n". */
  predicate WellFormed(c: Command)
  {
    match c
    case ListUsers => true
    case Send(recipient, body) => !IsStopFrame(recipient) && !IsStopFrame(body)
    case Ignored(token) => !IsStopFrame(token) && token != "y" && token != "n"
  }

  /** One well-formed command is carried out and the loop goes on with the
      frames after it. */
  lemma CommandsStep(c: Command, tail: seq<string>)
    requires WellFormed(c)
    ensures Commands(Encode(c) + tail) == [c] + Commands(tail)
  {
    var frames := Encode(c) + tail;
    match c
    case ListUsers =>
      ShortFrameNotStop("y");
      assert frames[0] == "y" && frames[1..] == tail;
    case Send(recipient, body) =>
      ShortFrameNotStop("n");
      assert frames[0] == "n" && FrameAt(frames, 1) == recipient && FrameAt(frames, 2) == body;
      assert frames[3..] == tail;
    case Ignored(token) =>
      assert frames[0] == token && frames[1..] == tail;
  }

  /** A well-formed command whose frames run from `pos` to `next` is the
      next command carried out from `pos` on. */
  lemma CommandAt(frames: seq<string>, pos: nat, c: Command, next: nat)
    requires pos <= next <= |frames| && frames[pos..next] == Encode(c)
    requires WellFormed(c)
    ensures Commands(frames[pos..]) == [c] + Commands(frames[next..])
  {
    assert frames[pos..] == Encode(c) + frames[next..];
    CommandsStep(c, frames[next..]);
  }

  /** The frames from position `pos` on end the loop at once: the next
      token is a stop frame, or it is "n" and its recipient or body is. */
  predicate EndsAt(frames: seq<string>, pos: nat)
  {
    var action := FrameAt(frames, pos);
    IsStopFrame(action)
    || (action == "n" && (IsStopFrame(FrameAt(frames, pos + 1)) || IsStopFrame(FrameAt(frames, pos + 2))))
  }

  /** Where the frames end the loop, no command is carried out. */
  lemma EndsAtCommands(frames: seq<string>, pos: nat)
    requires pos <= |frames| && EndsAt(frames, pos)
    ensures Commands(frames[pos..]) == []
  {
    var rest := frames[pos..];
    if rest != [] {
      assert rest[0] == FrameAt(frames, pos);
      assert FrameAt(rest, 1) == FrameAt(frames, pos + 1);
      assert FrameAt(rest, 2) == FrameAt(frames, pos + 2);
    }
  }

  /** The loop carries out well-formed commands one after another, in the
      order they were sent, and then goes on with whatever follows. */
  lemma {:induction false} CommandsEncode(cmds: seq<Command>, rest: seq<string>)
    requires forall k :: 0 <= k < |cmds| ==> WellFormed(cmds[k])
    ensures Commands(EncodeAll(cmds) + rest) == cmds + Commands(rest)
    decreases |cmds|
  {
    if cmds == [] {
      assert EncodeAll(cmds) + rest == rest;
    } else {
      CommandsEncode(cmds[1..], rest);
      CommandsEncodeCons(cmds, rest);
    }
  }

  lemma CommandsEncodeCons(cmds: seq<Command>, rest: seq<string>)
    requires cmds != [] && WellFormed(cmds[0])
    requires Commands(EncodeAll(cmds[1..]) + rest) == cmds[1..] + Commands(rest)
    ensures Commands(EncodeAll(cmds) + rest) == cmds + Commands(rest)
  {
    var c, tail := cmds[0], EncodeAll(cmds[1..]) + rest;
    calc {
      Commands(EncodeAll(cmds) + rest);
      { EncodeAllCons(cmds, rest); }
      Commands(Encode(c) + tail);
      { CommandsStep(c, tail); }
      [c] + Commands(tail);
      [c] + (cmds[1..] + Commands(rest));
      { Assoc([c], cmds[1..], Commands(rest)); }
      [c] + cmds[1..] + Commands(rest);
      { assert cmds == [c] + cmds[1..]; }
      cmds + Commands(rest);
    }
  }

  lemma EncodeAllCons(cmds: seq<Command>, rest: seq<string>)
    requires cmds != []
    ensures EncodeAll(cmds) + rest == Encode(cmds[0]) + (EncodeAll(cmds[1..]) + rest)
  {
    Assoc(Encode(cmds[0]), EncodeAll(cmds[1..]), rest);
  }

  /** A session the client ends with "stop", or by closing the connection,
      is carried out as exactly the commands it sent, in order. */
  lemma SessionCommands(cmds: seq<Command>)
    requires forall k :: 0 <= k < |cmds| ==> WellFormed(cmds[k])
    ensures Commands(EncodeAll(cmds) + ["stop"]) == cmds
    ensures Commands(EncodeAll(cmds)) == cmds
  {
    CommandsEncode(cmds, ["stop"]);
    StopEnds();
    CommandsEncode(cmds, []);
    assert EncodeAll(cmds) + [] == EncodeAll(cmds);
  }

  /** The frame "stop" ends the loop at once. */
  lemma StopEnds()
    ensures Commands(["stop"]) == []
  {
    assert Lower("stop") == "stop";
    assert Contains("stop", "stop");
    assert IsStopFrame(["stop"][0]);
  }

  /** Every command the loop carries out is well formed, and the frames it
      consumed are exactly a prefix of what the peer sent: commands are taken
      in frame order, "y" and other tokens take one frame and "n" three. */
  lemma {:induction false} CommandsConsumePrefix(frames: seq<string>)
    ensures forall k :: 0 <= k < |Commands(frames)| ==> WellFormed(Commands(frames)[k])
    ensures EncodeAll(Commands(frames)) <= frames
    decreases |frames|
  {
    if frames != [] && !IsStopFrame(frames[0]) {
      if frames[0] == "y" {
        CommandsConsumePrefix(frames[1..]);
        ConsumeOne(frames, ListUsers, 1, Commands(frames[1..]));
      } else if frames[0] == "n" {
        if !IsStopFrame(FrameAt(frames, 1)) && !IsStopFrame(FrameAt(frames, 2)) {
          CommandsConsumePrefix(frames[3..]);
          ConsumeOne(frames, Send(frames[1], frames[2]), 3, Commands(frames[3..]));
        }
      } else {
        CommandsConsumePrefix(frames[1..]);
        ConsumeOne(frames, Ignored(frames[0]), 1, Commands(frames[1..]));
      }
    }
  }

  /** A well-formed command read from the first `n` frames, followed by
      commands read from a prefix of the rest, was read from a prefix. */
  lemma ConsumeOne(frames: seq<string>, c: Command, n: nat, cmds: seq<Command>)
    requires n <= |frames| && frames[..n] == Encode(c) && WellFormed(c)
    requires forall k :: 0 <= k < |cmds| ==> WellFormed(cmds[k])
    requires EncodeAll(cmds) <= frames[n..]
    ensures forall k :: 0 <= k < |[c] + cmds| ==> WellFormed(([c] + cmds)[k])
    ensures EncodeAll([c] + cmds) <= frames
  {
    assert ([c] + cmds)[1..] == cmds;
    assert EncodeAll([c] + cmds) == frames[..n] + EncodeAll(cmds);
    assert frames == frames[..n] + frames[n..];
  }
}
