/** The client side: the stop test on outgoing text, the username
    submission loop, and the inbox that `get_all_messages` fills from the
    received chunks and then empties in message mode or users mode. */
module ChatClient {
  import opened Optional
  import opened Text
  import opened Lists
  import opened Protocol

  /** `check_input`: the text the user typed mentions "stop" in some letter
      case (the text itself is sent either way). */
  function CheckInput(msg: string): (r: bool)
    ensures r <==> exists i :: StopAt(msg, i)
  {
    MentionsStopIff(msg);
    MentionsStop(msg)
  }

  /** The client and the server agree on what ends a session: the server
      stops on everything the client's test flags, and on non-empty text the
      two tests coincide (the server alone also stops on the empty frame). */
  lemma CheckInputAgrees(msg: string)
    ensures CheckInput(msg) ==> IsStopFrame(msg)
    ensures msg != "" ==> (CheckInput(msg) <==> IsStopFrame(msg))
  {
    MentionsStopIff(msg);
  }

  /** The k-th username submitted got a non-empty reply before the timeout;
      submissions past the given answers time out. */
  predicate Answered(answered: seq<bool>, k: nat)
  {
    k < |answered| && answered[k]
  }

  /** `submit_username` on the names the user types, in order: empty input
      is skipped without being sent, every other name is sent, and the first
      name that the server answers is the username. `answered[k]` says
      whether the k-th submission was answered; when the input runs out
      before that, there is no username. `read` is how many inputs were
      consumed. */
  method SubmitUsername(inputs: seq<string>, answered: seq<bool>)
    returns (submitted: seq<string>, name: Option<string>, read: nat)
    ensures read <= |inputs|
    ensures submitted == NonEmpty(inputs[..read])
    ensures forall k :: 0 <= k < |submitted| ==> submitted[k] != ""
    ensures name.None? ==> read == |inputs|
    ensures name.None? ==> forall k :: 0 <= k < |submitted| ==> !Answered(answered, k)
    ensures name.Some? ==> |submitted| > 0 && name.value == submitted[|submitted| - 1]
    ensures name.Some? ==> name.value == inputs[read - 1] && Answered(answered, |submitted| - 1)
    ensures name.Some? ==> forall k :: 0 <= k < |submitted| - 1 ==> !Answered(answered, k)
  {
    submitted, name, read := [], None, 0;
    while read < |inputs|
      invariant read <= |inputs|
      invariant submitted == NonEmpty(inputs[..read])
      invariant forall k :: 0 <= k < |submitted| ==> !Answered(answered, k)
    {
      var username := inputs[read];
      assert inputs[..read + 1][..read] == inputs[..read];
      read := read + 1;
      if username == "" {
        continue;
      }
      submitted := submitted + [username];
      var k := |submitted| - 1;
      if k < |answered| && answered[k] {
        name := Some(username);
        return;
      }
    }
  }

  /** A delivery line, as opposed to a list reply or other text. */
  predicate IsFromLine(m: string)
  {
    StartsWith(m, "From")
  }

  /** The inbox entries that are delivery lines, in inbox order. */
  function FromLines(s: seq<string>): (r: seq<string>)
    ensures |r| <= |s|
    ensures forall m :: m in r ==> IsFromLine(m)
  {
    if s == [] then []
    else
      var last := s[|s| - 1];
      FromLines(s[..|s| - 1]) + (if IsFromLine(last) then [last] else [])
  }

  /** The inbox entries that are not delivery lines, in inbox order. */
  function OtherLines(s: seq<string>): (r: seq<string>)
    ensures |r| <= |s|
    ensures forall m :: m in r ==> !IsFromLine(m)
  {
    if s == [] then []
    else
      var last := s[|s| - 1];
      OtherLines(s[..|s| - 1]) + (if !IsFromLine(last) then [last] else [])
  }

  /** Message mode splits the inbox without losing or inventing an entry:
      the delivery lines and the rest together are the inbox, duplicates
      included. */
  lemma {:induction false} FromLinesPartition(s: seq<string>)
    ensures multiset(FromLines(s)) + multiset(OtherLines(s)) == multiset(s)
    decreases |s|
  {
    if s != [] {
      var init, last := s[..|s| - 1], s[|s| - 1];
      FromLinesPartition(init);
      assert s == init + [last];
      assert multiset(s) == multiset(init) + multiset{last};
      if IsFromLine(last) {
        assert FromLines(s) == FromLines(init) + [last];
        assert OtherLines(s) == OtherLines(init);
      } else {
        assert FromLines(s) == FromLines(init);
        assert OtherLines(s) == OtherLines(init) + [last];
      }
    }
  }

  /** One more entry of a prefix adds itself to exactly one of the parts. */
  lemma PrefixStep(s: seq<string>, i: nat)
    requires i < |s|
    ensures FromLines(s[..i + 1]) == FromLines(s[..i]) + (if IsFromLine(s[i]) then [s[i]] else [])
    ensures OtherLines(s[..i + 1]) == OtherLines(s[..i]) + (if IsFromLine(s[i]) then [] else [s[i]])
  {
    assert s[..i + 1][..i] == s[..i];
  }

  /** The walk over the copy after `i` entries: the next entry, when it is
      a delivery line, joins the result and is removed by value from the
      inbox, which takes out exactly that entry; otherwise both stay. */
  lemma TakeStep(copy: seq<string>, i: nat, msgs: seq<string>, inbox: seq<string>)
    requires i < |copy|
    requires msgs == FromLines(copy[..i]) && inbox == OtherLines(copy[..i]) + copy[i..]
    ensures IsFromLine(copy[i]) ==> copy[i] in inbox
    ensures IsFromLine(copy[i]) ==> msgs + [copy[i]] == FromLines(copy[..i + 1])
    ensures IsFromLine(copy[i]) ==> RemoveFirst(inbox, copy[i]) == OtherLines(copy[..i + 1]) + copy[i + 1..]
    ensures !IsFromLine(copy[i]) ==> msgs == FromLines(copy[..i + 1])
    ensures !IsFromLine(copy[i]) ==> inbox == OtherLines(copy[..i + 1]) + copy[i + 1..]
  {
    var m, kept, rest := copy[i], OtherLines(copy[..i]), copy[i + 1..];
    PrefixStep(copy, i);
    assert copy[i..] == [m] + rest;
    assert inbox == kept + [m] + rest;
    if IsFromLine(m) {
      RemoveFirstAfter(kept, m, rest);
    }
  }

  lemma TakeDone(copy: seq<string>, i: nat)
    requires i == |copy|
    ensures FromLines(copy[..i]) == FromLines(copy)
    ensures OtherLines(copy[..i]) + copy[i..] == OtherLines(copy)
  {
    assert copy[..i] == copy && copy[i..] == [];
  }

  lemma {:induction false} FromLinesAppend(a: seq<string>, b: seq<string>)
    ensures FromLines(a + b) == FromLines(a) + FromLines(b)
    ensures OtherLines(a + b) == OtherLines(a) + OtherLines(b)
    decreases |b|
  {
    if b == [] {
      assert a + b == a;
    } else {
      var b', last := b[..|b| - 1], b[|b| - 1];
      FromLinesAppend(a, b');
      assert (a + b)[..|a + b| - 1] == a + b';
      assert (a + b)[|a + b| - 1] == last;
      var x := if IsFromLine(last) then [last] else [];
      var y := if !IsFromLine(last) then [last] else [];
      assert FromLines(a + b) == FromLines(a + b') + x;
      assert FromLines(b) == FromLines(b') + x;
      Assoc(FromLines(a), FromLines(b'), x);
      assert OtherLines(a + b) == OtherLines(a + b') + y;
      assert OtherLines(b) == OtherLines(b') + y;
      Assoc(OtherLines(a), OtherLines(b'), y);
    }
  }

  /** An inbox without delivery lines is left as it is by message mode. */
  lemma {:induction false} FromLinesNone(s: seq<string>)
    requires forall k :: 0 <= k < |s| ==> !IsFromLine(s[k])
    ensures FromLines(s) == [] && OtherLines(s) == s
    decreases |s|
  {
    if s != [] {
      FromLinesNone(s[..|s| - 1]);
    }
  }

  /** Message mode is idempotent: once the delivery lines are taken, a
      second call finds none and leaves the inbox as it is. */
  lemma OtherLinesStable(s: seq<string>)
    ensures FromLines(OtherLines(s)) == []
    ensures OtherLines(OtherLines(s)) == OtherLines(s)
  {
    FromLinesNone(OtherLines(s));
  }

  /** The index of the first entry that is not a delivery line. */
  function FirstOther(s: seq<string>): (r: Option<nat>)
    ensures r.Some? ==> r.value < |s| && !IsFromLine(s[r.value])
    ensures r.Some? ==> forall j :: 0 <= j < r.value ==> IsFromLine(s[j])
    ensures r.None? <==> forall j :: 0 <= j < |s| ==> IsFromLine(s[j])
    decreases |s|
  {
    if s == [] then None
    else if !IsFromLine(s[0]) then Some(0)
    else
      match FirstOther(s[1..])
      case None =>
        assert forall j :: 1 <= j < |s| ==> s[j] == s[1..][j - 1];
        None
      case Some(k) => Some(k + 1)
  }

  /** The entries the receive loop appends for the given chunks: each chunk
      is split on newlines and its non-empty pieces are kept in order; an
      empty chunk (the server closed the connection) ends the loop, and so
      does running out of chunks (the read timed out). */
  function Received(chunks: seq<string>): (r: seq<string>)
    ensures forall k :: 0 <= k < |r| ==> r[k] != "" && '\n' !in r[k]
    decreases |chunks|
  {
    if chunks == [] || chunks[0] == "" then []
    else NonEmpty(Split(chunks[0], '\n')) + Received(chunks[1..])
  }

  /** The receive loop after `i` chunks: a non-empty next chunk contributes
      its non-empty lines before those of the chunks after it. */
  lemma ReceivedStep(chunks: seq<string>, i: nat)
    requires i < |chunks| && chunks[i] != ""
    ensures Received(chunks[i..]) == NonEmpty(Split(chunks[i], '\n')) + Received(chunks[i + 1..])
  {
    assert chunks[i..][0] == chunks[i];
    assert chunks[i..][1..] == chunks[i + 1..];
  }

  /** The receive loop stops at an empty chunk or at the end: nothing more
      is appended. */
  lemma ReceivedDone(chunks: seq<string>, i: nat)
    requires i <= |chunks| && (i == |chunks| || chunks[i] == "")
    ensures Received(chunks[i..]) == []
  {
    if i < |chunks| {
      assert chunks[i..][0] == chunks[i];
    }
  }

  /** A non-empty chunk contributes its non-empty lines. */
  lemma ReceivedOne(chunk: string)
    requires chunk != ""
    ensures Received([chunk]) == NonEmpty(Split(chunk, '\n'))
  {
    assert [chunk][1..] == [];
  }

  /** Delivery frames that arrive back to back in one chunk are read back
      as exactly their delivery lines: each line whole, in order, and each
      one taken by message mode. */
  lemma DeliveriesArrive(lines: seq<string>)
    requires forall k :: 0 <= k < |lines| ==> lines[k] != "" && '\n' !in lines[k] && IsFromLine(lines[k])
    ensures Received([Lines(lines)]) == lines
    ensures FromLines(Received([Lines(lines)])) == lines
  {
    FromLinesKeeps(lines);
    if lines != [] {
      assert Lines(lines) != "";
      ReceivedOne(Lines(lines));
      SplitLines(lines);
    }
  }

  lemma {:induction false} FromLinesKeeps(s: seq<string>)
    requires forall k :: 0 <= k < |s| ==> IsFromLine(s[k])
    ensures FromLines(s) == s
    decreases |s|
  {
    if s != [] {
      FromLinesKeeps(s[..|s| - 1]);
    }
  }

  /** A delivery line as the router formats it is a delivery line to the
      inbox, whatever the sender and body. */
  lemma DeliveryLineIsFrom(sender: string, body: string)
    ensures IsFromLine(DeliveryLine(sender, body))
  {
    assert DeliveryLine(sender, body) == "From" + (" " + sender + ": \"" + body + "\"");
  }

  /** A list reply never looks like a delivery line, so users mode picks it
      out of an inbox whose earlier entries are all deliveries. */
  lemma ListReplyFound(before: seq<string>, names: seq<string>, after: seq<string>)
    requires forall k :: 0 <= k < |before| ==> IsFromLine(before[k])
    ensures var line := ListReply(names)[..|ListReply(names)| - 1];
      FirstOther(before + [line] + after) == Some(|before|)
  {
    var reply := ListReply(names);
    var line := reply[..|reply| - 1];
    if |names| > 0 {
      assert reply == OtherUsersPrefix + Join(names, ',') + "\n";
    }
    assert line[0] == 'O' || line[0] == 'N';
    var s := before + [line] + after;
    assert s[|before|] == line;
    assert !IsFromLine(line);
    assert forall j :: 0 <= j < |before| ==> s[j] == before[j];
    FirstOtherAt(s, |before|);
  }

  lemma FirstOtherAt(s: seq<string>, k: nat)
    requires k < |s| && !IsFromLine(s[k])
    requires forall j :: 0 <= j < k ==> IsFromLine(s[j])
    ensures FirstOther(s) == Some(k)
  {
  }

  /** The client's list of received entries (`all_messages`). */
  class Inbox {
    var messages: seq<string>

    constructor ()
      ensures messages == []
    {
      messages := [];
    }

    /** The receive loop of `get_all_messages`: appends the non-empty
        newline-separated pieces of each chunk, in order, up to the first
        empty chunk. */
    method Receive(chunks: seq<string>)
      modifies this
      ensures messages == old(messages) + Received(chunks)
    {
      var i := 0;
      assert chunks[0..] == chunks;
      while i < |chunks| && chunks[i] != ""
        invariant 0 <= i <= |chunks|
        invariant old(messages) + Received(chunks) == messages + Received(chunks[i..])
      {
        var pieces := Split(chunks[i], '\n');
        ReceivedStep(chunks, i);
        AppendLines(pieces);
        i := i + 1;
      }
      ReceivedDone(chunks, i);
    }

    /** The inner loop of `get_all_messages`: appends the non-empty pieces
        of one chunk, in order. */
    method AppendLines(pieces: seq<string>)
      modifies this
      ensures messages == old(messages) + NonEmpty(pieces)
    {
      var j := 0;
      while j < |pieces|
        invariant 0 <= j <= |pieces|
        invariant messages == old(messages) + NonEmpty(pieces[..j])
      {
        assert pieces[..j + 1][..j] == pieces[..j];
        if pieces[j] != "" {
          messages := messages + [pieces[j]];
        }
        j := j + 1;
      }
      assert pieces[..j] == pieces;
    }

    /** Message mode: walks a copy of the inbox and moves every delivery
        line, in order, from the inbox to the result, removing each by value
        (the first equal entry). Only the other entries stay, in order and
        with their duplicates. */
    method TakeMessages() returns (msgs: seq<string>)
      modifies this
      ensures msgs == FromLines(old(messages))
      ensures messages == OtherLines(old(messages))
    {
      var copy := messages;
      msgs := [];
      var i := 0;
      assert copy[..0] == [] && copy[0..] == copy;
      while i < |copy|
        invariant 0 <= i <= |copy|
        invariant copy == old(messages)
        invariant msgs == FromLines(copy[..i])
        invariant messages == OtherLines(copy[..i]) + copy[i..]
      {
        var m := copy[i];
        TakeStep(copy, i, msgs, messages);
        if IsFromLine(m) {
          msgs := msgs + [m];
          messages := RemoveFirst(messages, m);
        }
        i := i + 1;
      }
      TakeDone(copy, i);
    }

    /** Users mode: the first entry that is not a delivery line is removed
        and returned on its own; every other entry stays. With no such entry
        nothing is removed and there is no list. */
    method TakeUser() returns (users: Option<seq<string>>)
      modifies this
      ensures FirstOther(old(messages)).None? ==> users.None? && messages == old(messages)
      ensures FirstOther(old(messages)).Some? ==>
        var k := FirstOther(old(messages)).value;
        users == Some([old(messages)[k]]) && messages == old(messages)[..k] + old(messages)[k + 1..]
    {
      var copy := messages;
      var i := 0;
      while i < |copy| && IsFromLine(copy[i])
        invariant unchanged(this)
        invariant 0 <= i <= |copy|
        invariant forall j :: 0 <= j < i ==> IsFromLine(copy[j])
      {
        i := i + 1;
      }
      if i < |copy| {
        var m := copy[i];
        FirstOtherAt(copy, i);
        assert m !in copy[..i];
        assert copy == copy[..i] + [m] + copy[i + 1..];
        RemoveFirstAfter(copy[..i], m, copy[i + 1..]);
        messages := RemoveFirst(messages, m);
        users := Some([m]);
      } else {
        users := None;
      }
    }

    /** `get_all_messages`: receives the chunks into the inbox, then takes
        the first non-delivery entry (users mode) or all delivery lines
        (message mode). */
    method GetAllMessages(chunks: seq<string>, usersMode: bool) returns (r: Option<seq<string>>)
      modifies this
      ensures var all := old(messages) + Received(chunks);
        usersMode ==> match FirstOther(all)
          case None => r.None? && messages == all
          case Some(k) => r == Some([all[k]]) && messages == all[..k] + all[k + 1..]
      ensures var all := old(messages) + Received(chunks);
        !usersMode ==> r == Some(FromLines(all)) && messages == OtherLines(all)
    {
      Receive(chunks);
      if usersMode {
        r := TakeUser();
      } else {
        var msgs := TakeMessages();
        r := Some(msgs);
      }
    }
  }
}
