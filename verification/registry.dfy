/** The server's client list: an ordered sequence of (username, connection)
    entries, and what the server computes from it (the list reply, the
    entry a disconnect removes, the writes a routed message causes). */
module Registry {
  import opened Optional
  import opened Text
  import opened Protocol

  /** Connections are opaque handles. */
  type ConnId = nat

  /** One entry of the client list. */
  datatype Client = Client(name: string, conn: ConnId)

  /** A message waiting in the queue: (sender, body, recipient). */
  datatype Routed = Routed(sender: string, body: string, recipient: string)

  /** A frame written to a connection. */
  datatype Write = Write(conn: ConnId, frame: string)

  /** The names of the entries, in list order. */
  function Names(cs: seq<Client>): seq<string>
  {
    seq(|cs|, i requires 0 <= i < |cs| => cs[i].name)
  }

  /** Some entry carries the name (`name in names` on the list of names). */
  predicate Registered(cs: seq<Client>, name: string)
  {
    exists i :: 0 <= i < |cs| && cs[i].name == name
  }

  lemma NamesHas(cs: seq<Client>, name: string)
    ensures name in Names(cs) <==> Registered(cs, name)
  {
    if Registered(cs, name) {
      var i :| 0 <= i < |cs| && cs[i].name == name;
      assert Names(cs)[i] == name;
    }
  }

  /** No two entries share a name. */
  predicate UniqueNames(cs: seq<Client>)
  {
    forall i, j :: 0 <= i < j < |cs| ==> cs[i].name != cs[j].name
  }

  /** The index of the first entry with the given name, if any. */
  function FindName(cs: seq<Client>, name: string): (r: Option<nat>)
    ensures r.Some? ==> r.value < |cs| && cs[r.value].name == name
    ensures r.Some? ==> forall j :: 0 <= j < r.value ==> cs[j].name != name
    ensures r.None? <==> !Registered(cs, name)
    decreases |cs|
  {
    if cs == [] then None
    else if cs[0].name == name then Some(0)
    else
      match FindName(cs[1..], name)
      case None =>
        assert forall i :: 1 <= i < |cs| ==> cs[i] == cs[1..][i - 1];
        None
      case Some(k) => Some(k + 1)
  }

  /** The first entry carrying the name is the one found. */
  lemma FindNameIs(cs: seq<Client>, name: string, k: nat)
    requires k < |cs| && cs[k].name == name
    requires forall j :: 0 <= j < k ==> cs[j].name != name
    ensures FindName(cs, name) == Some(k)
  {
  }

  /** The list after the first entry with the given name is taken out; the
      list itself when there is none. */
  function Unregister(cs: seq<Client>, name: string): (r: seq<Client>)
    ensures |r| == if Registered(cs, name) then |cs| - 1 else |cs|
    ensures forall c :: c in r ==> c in cs
  {
    match FindName(cs, name)
    case None => cs
    case Some(k) => cs[..k] + cs[k + 1..]
  }

  /** Appending an entry whose name is not yet present keeps the names
      unique. */
  lemma RegisterKeepsUnique(cs: seq<Client>, name: string, conn: ConnId)
    requires UniqueNames(cs) && !Registered(cs, name)
    ensures UniqueNames(cs + [Client(name, conn)])
    ensures Registered(cs + [Client(name, conn)], name)
  {
    var cs' := cs + [Client(name, conn)];
    assert cs'[|cs|].name == name;
  }

  /** A disconnect takes out exactly one entry when the name is present and
      keeps the rest in order; with unique names the name is then free for
      a new registration and every other name stays registered. */
  lemma UnregisterSpec(cs: seq<Client>, name: string)
    requires UniqueNames(cs)
    ensures UniqueNames(Unregister(cs, name))
    ensures |Unregister(cs, name)| == if Registered(cs, name) then |cs| - 1 else |cs|
    ensures !Registered(Unregister(cs, name), name)
    ensures forall n :: n != name ==> (Registered(Unregister(cs, name), n) <==> Registered(cs, n))
  {
    match FindName(cs, name)
    case None =>
    case Some(k) =>
      var r := cs[..k] + cs[k + 1..];
      assert forall i :: 0 <= i < |r| ==> r[i] == if i < k then cs[i] else cs[i + 1];
      forall n | Registered(r, n) ensures n != name && Registered(cs, n) {
        var i :| 0 <= i < |r| && r[i].name == n;
        if i < k {
          assert cs[i].name == n;
        } else {
          assert cs[i + 1].name == n;
        }
      }
      forall n | n != name && Registered(cs, n) ensures Registered(r, n) {
        var i :| 0 <= i < |cs| && cs[i].name == n;
        if i < k {
          assert r[i].name == n;
        } else {
          assert r[i - 1].name == n;
        }
      }
  }

  /** The names of all entries other than `user`, in list order (the loop
      of `send_client_list`). */
  function Others(cs: seq<Client>, user: string): (r: seq<string>)
    ensures |r| <= |cs| && user !in r
  {
    if cs == [] then []
    else
      var last := cs[|cs| - 1];
      Others(cs[..|cs| - 1], user) + (if last.name != user then [last.name] else [])
  }

  lemma {:induction false} OthersAppend(a: seq<Client>, b: seq<Client>, user: string)
    ensures Others(a + b, user) == Others(a, user) + Others(b, user)
    decreases |b|
  {
    if b == [] {
      assert a + b == a;
    } else {
      var b', last := b[..|b| - 1], b[|b| - 1];
      OthersAppend(a, b', user);
      assert (a + b)[..|a + b| - 1] == a + b';
      assert (a + b)[|a + b| - 1] == last;
      var x := if last.name != user then [last.name] else [];
      assert Others(a + b, user) == Others(a + b', user) + x;
      assert Others(b, user) == Others(b', user) + x;
      Assoc(Others(a, user), Others(b', user), x);
    }
  }

  /** A name is listed exactly when it is registered and is not the
      requester's own. */
  lemma {:induction false} OthersSpec(cs: seq<Client>, user: string)
    ensures user !in Others(cs, user)
    ensures forall n :: n in Others(cs, user) <==> Registered(cs, n) && n != user
    decreases |cs|
  {
    if cs != [] {
      var init := cs[..|cs| - 1];
      OthersSpec(init, user);
      forall n ensures Registered(cs, n) <==> Registered(init, n) || cs[|cs| - 1].name == n {
        if Registered(cs, n) && cs[|cs| - 1].name != n {
          var i :| 0 <= i < |cs| && cs[i].name == n;
          assert init[i].name == n;
        }
        if Registered(init, n) {
          var i :| 0 <= i < |init| && init[i].name == n;
          assert cs[i].name == n;
        }
      }
    }
  }

  /** When the requester is not registered, every name is listed. */
  lemma {:induction false} OthersNone(cs: seq<Client>, user: string)
    requires !Registered(cs, user)
    ensures Others(cs, user) == Names(cs)
    decreases |cs|
  {
    if cs != [] {
      var init := cs[..|cs| - 1];
      assert Names(cs) == Names(init) + [cs[|cs| - 1].name];
      assert !Registered(init, user) by {
        forall i | 0 <= i < |init| ensures init[i].name != user {
          assert init[i] == cs[i];
        }
      }
      OthersNone(init, user);
    }
  }

  /** Taking out the requester's one entry leaves exactly the listed names. */
  lemma OthersAround(a: seq<Client>, x: Client, b: seq<Client>)
    requires !Registered(a, x.name) && !Registered(b, x.name)
    ensures Others(a + [x] + b, x.name) == Names(a + b)
  {
    var user := x.name;
    assert Others([x], user) == [] by {
      assert [x][..0] == [];
    }
    calc {
      Others(a + [x] + b, user);
      { OthersAppend(a + [x], b, user); }
      Others(a + [x], user) + Others(b, user);
      { OthersAppend(a, [x], user); }
      Others(a, user) + [] + Others(b, user);
      { assert Others(a, user) + [] == Others(a, user); }
      Others(a, user) + Others(b, user);
      { OthersNone(a, user); OthersNone(b, user); }
      Names(a) + Names(b);
      { NamesAppend(a, b); }
      Names(a + b);
    }
  }

  lemma NamesAppend(a: seq<Client>, b: seq<Client>)
    ensures Names(a + b) == Names(a) + Names(b)
  {
  }

  /** With unique names, the list reply names exactly the registry as it
      would be after the requester disconnected, in the same order. */
  lemma OthersIsUnregister(cs: seq<Client>, user: string)
    requires UniqueNames(cs)
    ensures Others(cs, user) == Names(Unregister(cs, user))
  {
    match FindName(cs, user)
    case None =>
      OthersNone(cs, user);
    case Some(k) =>
      var a, b := cs[..k], cs[k + 1..];
      assert cs == a + [cs[k]] + b;
      assert !Registered(a, user) by {
        forall i | 0 <= i < |a| ensures a[i].name != user {
          assert a[i] == cs[i];
        }
      }
      assert !Registered(b, user) by {
        forall i | 0 <= i < |b| ensures b[i].name != user {
          assert b[i] == cs[k + 1 + i];
        }
      }
      OthersAround(a, cs[k], b);
  }

  /** The writes the router makes for one message: one delivery frame to
      every entry whose name equals the recipient, in list order. */
  function Deliveries(cs: seq<Client>, m: Routed): (r: seq<Write>)
    ensures |r| <= |cs|
    ensures forall w :: w in r ==> w.frame == DeliveryFrame(m.sender, m.body) && Client(m.recipient, w.conn) in cs
  {
    if cs == [] then []
    else
      var last := cs[|cs| - 1];
      Deliveries(cs[..|cs| - 1], m)
        + (if last.name == m.recipient then [Write(last.conn, DeliveryFrame(m.sender, m.body))] else [])
  }

  /** Scanning one more entry adds a write exactly when its name is the
      recipient's. */
  lemma DeliveriesStep(cs: seq<Client>, i: nat, m: Routed)
    requires i < |cs|
    ensures Deliveries(cs[..i + 1], m)
      == Deliveries(cs[..i], m) + (if cs[i].name == m.recipient then [Write(cs[i].conn, DeliveryFrame(m.sender, m.body))] else [])
  {
    assert cs[..i + 1][..i] == cs[..i];
  }

  /** The router as a lookup: the message goes to the connection registered
      under the recipient's name, or nowhere. */
  function LookupDelivery(cs: seq<Client>, m: Routed): seq<Write>
  {
    match FindName(cs, m.recipient)
    case None => []
    case Some(k) => [Write(cs[k].conn, DeliveryFrame(m.sender, m.body))]
  }

  /** With unique names, scanning the whole list delivers a message at most
      once: to the recipient's connection with sender and body unchanged, or
      not at all when nobody of that name is registered. */
  lemma {:induction false} DeliveriesUnique(cs: seq<Client>, m: Routed)
    requires UniqueNames(cs)
    ensures Deliveries(cs, m) == LookupDelivery(cs, m)
    decreases |cs|
  {
    if cs != [] {
      var n := |cs| - 1;
      var init, last := cs[..n], cs[n];
      assert forall i :: 0 <= i < n ==> init[i] == cs[i];
      DeliveriesUnique(init, m);
      var x := if last.name == m.recipient then [Write(last.conn, DeliveryFrame(m.sender, m.body))] else [];
      assert Deliveries(cs, m) == Deliveries(init, m) + x;
      if last.name == m.recipient {
        assert !Registered(init, m.recipient);
        assert Deliveries(init, m) == [];
        FindNameIs(cs, m.recipient, n);
        assert Deliveries(cs, m) == x;
      } else {
        assert Deliveries(cs, m) == Deliveries(init, m);
        match FindName(init, m.recipient)
        case None =>
          assert !Registered(cs, m.recipient);
        case Some(k) =>
          FindNameIs(cs, m.recipient, k);
      }
    }
  }

  /** The writes the router makes for a queue of messages, taken in FIFO
      order. */
  function RoutedWrites(q: seq<Routed>, cs: seq<Client>): (r: seq<Write>)
    ensures forall w :: w in r ==>
      exists m :: m in q && w.frame == DeliveryFrame(m.sender, m.body) && Client(m.recipient, w.conn) in cs
    decreases |q|
  {
    if q == [] then []
    else
      var rest := RoutedWrites(q[1..], cs);
      assert forall m :: m in q[1..] ==> m in q;
      Deliveries(cs, q[0]) + rest
  }

  /** With unique names, routing a queue writes at most one frame per
      message, and exactly one per message when every recipient is
      registered. */
  lemma {:induction false} RoutedWritesCount(q: seq<Routed>, cs: seq<Client>)
    requires UniqueNames(cs)
    ensures |RoutedWrites(q, cs)| <= |q|
    ensures (forall k :: 0 <= k < |q| ==> Registered(cs, q[k].recipient)) ==> |RoutedWrites(q, cs)| == |q|
    decreases |q|
  {
    if q != [] {
      DeliveriesUnique(cs, q[0]);
      RoutedWritesCount(q[1..], cs);
      if forall k :: 0 <= k < |q| ==> Registered(cs, q[k].recipient) {
        assert Registered(cs, q[0].recipient);
        assert forall k :: 0 <= k < |q| - 1 ==> q[1..][k] == q[k + 1];
      }
    }
  }
}
