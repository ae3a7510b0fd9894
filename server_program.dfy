/**
 The chat server's connection registry (ChatServer/ServerProgram.cs): the
 static ClientTable mapping a client id to its connection, the admission step
 of the accept loop, RemoveClient, and Broadcast.

 A connection is modelled by the text messages sent to it so far (its
 outbox); ChatProtocol.SendMessage appends one message to it. A null string
 is modelled as None.
 */
module ChatServer {

  import opened Wrappers

  /** The client end of a TcpClient as the server sees it: what it was sent. */
  class Connection {
    var outbox: seq<string>

    constructor()
      ensures outbox == []
    {
      outbox := [];
    }
  }

  /** What the registry looks like from the clients' side: each registered
      id and what its connection has been sent. */
  type Outboxes = map<string, seq<string>>

  /** The broadcast text: "username: message" when showName, else message.
      A null username concatenates as the empty string. */
  function SendData(message: string, username: Option<string>, showName: bool): (r: string)
    ensures |r| >= |message| && r[|r| - |message|..] == message
    ensures showName ==> |r| == |NameOf(username)| + 2 + |message| && r[..|NameOf(username)|] == NameOf(username)
    ensures showName ==> r[|NameOf(username)|..|NameOf(username)| + 2] == ": "
    ensures !showName ==> r == message
  {
    if showName then NameOf(username) + ": " + message else message
  }

  function NameOf(username: Option<string>): string
  {
    if username.Some? then username.value else ""
  }

  function JoinNotice(clientId: string): string
  {
    "<client '" + clientId + "' joined the chat>"
  }

  function DisconnectNotice(clientId: string): string
  {
    "<client '" + clientId + "' disconnected>"
  }

  const UploadNotice := "<someone uploaded a file."

  /** The id whose admission ends the accept loop. */
  const ExitId := "exit"

  /** Every registered connection is sent the message once. */
  function Deliver(boxes: Outboxes, message: string): (r: Outboxes)
    ensures r.Keys == boxes.Keys
  {
    map k | k in boxes :: boxes[k] + [message]
  }

  /** The outboxes after a client with id clientId, whose connection has
      been sent `box`, arrives: a duplicate id changes nothing; otherwise the
      id is added, and unless it is "exit" everyone, the newcomer included,
      is sent the join notice. */
  function AfterAdmit(boxes: Outboxes, clientId: string, box: seq<string>): Outboxes
  {
    if clientId in boxes then boxes
    else if clientId == ExitId then boxes[clientId := box]
    else Deliver(boxes[clientId := box], JoinNotice(clientId))
  }

  /** The outboxes after RemoveClient(clientId): the id is gone, whether or
      not it was there, and everyone left is sent the disconnect notice. */
  function AfterRemove(boxes: Outboxes, clientId: string): Outboxes
  {
    Deliver(boxes - {clientId}, DisconnectNotice(clientId))
  }

  /** Broadcast reaches every entry exactly once and nothing else: each
      outbox grows by one message, that message, and keeps what it had. */
  lemma DeliverExactlyOnce(boxes: Outboxes, message: string)
    ensures forall k :: k in boxes ==>
              |Deliver(boxes, message)[k]| == |boxes[k]| + 1 &&
              Deliver(boxes, message)[k][..|boxes[k]|] == boxes[k] &&
              Deliver(boxes, message)[k][|boxes[k]|] == message
    ensures forall k :: k in boxes ==>
              multiset(Deliver(boxes, message)[k])[message] == multiset(boxes[k])[message] + 1
  {
    forall k | k in boxes
      ensures Deliver(boxes, message)[k][..|boxes[k]|] == boxes[k]
      ensures multiset(Deliver(boxes, message)[k])[message] == multiset(boxes[k])[message] + 1
    {
      assert Deliver(boxes, message)[k] == boxes[k] + [message];
      assert multiset(boxes[k] + [message]) == multiset(boxes[k]) + multiset{message};
    }
  }

  /** Deliver is the only map that gives each entry, and nothing else, one
      more message. */
  lemma DeliverUnique(boxes: Outboxes, message: string, r: Outboxes)
    requires r.Keys == boxes.Keys
    requires forall k :: k in r ==> r[k] == boxes[k] + [message]
    ensures r == Deliver(boxes, message)
  {
  }

  /** A duplicate id leaves the table and every outbox as they were. */
  lemma AdmitDuplicate(boxes: Outboxes, clientId: string, box: seq<string>)
    requires clientId in boxes
    ensures AfterAdmit(boxes, clientId, box) == boxes
  {
  }

  /** A fresh id adds exactly that key; everyone already present, and the
      newcomer, is sent the join notice, except when the id is "exit". */
  lemma AdmitFresh(boxes: Outboxes, clientId: string, box: seq<string>)
    requires clientId !in boxes
    ensures AfterAdmit(boxes, clientId, box).Keys == boxes.Keys + {clientId}
    ensures clientId != ExitId ==>
              AfterAdmit(boxes, clientId, box)[clientId] == box + [JoinNotice(clientId)] &&
              forall k :: k in boxes ==> AfterAdmit(boxes, clientId, box)[k] == boxes[k] + [JoinNotice(clientId)]
    ensures clientId == ExitId ==>
              AfterAdmit(boxes, clientId, box) == boxes[clientId := box] &&
              forall k :: k in boxes ==> AfterAdmit(boxes, clientId, box)[k] == boxes[k]
  {
    if clientId != ExitId {
      var added := boxes[clientId := box];
      assert forall k :: k in boxes ==> added[k] == boxes[k];
    }
  }

  /** RemoveClient drops the key, keeps every other key, and sends each
      remaining client the notice; an absent id only causes the notice. */
  lemma RemoveLeavesOthers(boxes: Outboxes, clientId: string)
    ensures AfterRemove(boxes, clientId).Keys == boxes.Keys - {clientId}
    ensures forall k :: k in boxes && k != clientId ==>
              AfterRemove(boxes, clientId)[k] == boxes[k] + [DisconnectNotice(clientId)]
    ensures clientId !in boxes ==> AfterRemove(boxes, clientId) == Deliver(boxes, DisconnectNotice(clientId))
  {
    if clientId !in boxes {
      assert boxes - {clientId} == boxes;
    }
  }

  /** Admitting a fresh id and removing it again leaves the others with the
      join and the disconnect notices, in that order, and nothing else. */
  lemma AdmitThenRemove(boxes: Outboxes, clientId: string, box: seq<string>)
    requires clientId !in boxes && clientId != ExitId
    ensures AfterRemove(AfterAdmit(boxes, clientId, box), clientId).Keys == boxes.Keys
    ensures forall k :: k in boxes ==>
              AfterRemove(AfterAdmit(boxes, clientId, box), clientId)[k]
                == boxes[k] + [JoinNotice(clientId), DisconnectNotice(clientId)]
  {
    AdmitFresh(boxes, clientId, box);
    var admitted := AfterAdmit(boxes, clientId, box);
    RemoveLeavesOthers(admitted, clientId);
    forall k | k in boxes
      ensures AfterRemove(admitted, clientId)[k] == boxes[k] + [JoinNotice(clientId), DisconnectNotice(clientId)]
    {
      assert AfterRemove(admitted, clientId)[k] == admitted[k] + [DisconnectNotice(clientId)];
    }
  }

  /** The ids registered after a run of arrivals: each arrival adds its id,
      and a duplicate adds nothing new. */
  ghost function Registered(keys: set<string>, ids: seq<string>): set<string>
  {
    if ids == [] then keys else Registered(keys, ids[..|ids| - 1]) + {ids[|ids| - 1]}
  }

  /** Exactly the ids that were there before and the ids that arrived are
      registered. */
  lemma {:induction false} RegisteredMembers(keys: set<string>, ids: seq<string>)
    ensures forall k :: k in Registered(keys, ids) <==> k in keys || k in ids
  {
    if ids != [] {
      RegisteredMembers(keys, ids[..|ids| - 1]);
      assert ids == ids[..|ids| - 1] + [ids[|ids| - 1]];
    }
  }

  /** The outboxes after a run of arrivals, each on a new connection that has
      been sent nothing, admitted in turn as AfterAdmit says. */
  ghost function AdmitAll(boxes: Outboxes, ids: seq<string>): Outboxes
  {
    if ids == [] then boxes else AfterAdmit(AdmitAll(boxes, ids[..|ids| - 1]), ids[|ids| - 1], [])
  }

  /** The join notices a run of arrivals causes: one for each id that is new
      when it arrives and is not "exit", in order of arrival. */
  ghost function Joins(keys: set<string>, ids: seq<string>): seq<string>
  {
    if ids == [] then []
    else
      var earlier, id := ids[..|ids| - 1], ids[|ids| - 1];
      Joins(keys, earlier) + (if id in Registered(keys, earlier) || id == ExitId then [] else [JoinNotice(id)])
  }

  /** After a run of arrivals the registered ids are as Registered says, and
      every client that was already connected has been sent exactly the join
      notices of the run, in order. */
  lemma {:induction false} AdmitAllShape(boxes: Outboxes, ids: seq<string>)
    ensures AdmitAll(boxes, ids).Keys == Registered(boxes.Keys, ids)
    ensures boxes.Keys <= AdmitAll(boxes, ids).Keys
    ensures forall k :: k in boxes ==> AdmitAll(boxes, ids)[k] == boxes[k] + Joins(boxes.Keys, ids)
  {
    if ids != [] {
      var earlier, id := ids[..|ids| - 1], ids[|ids| - 1];
      AdmitAllShape(boxes, earlier);
      var before := AdmitAll(boxes, earlier);
      RegisteredMembers(boxes.Keys, earlier);
      if id !in before {
        AdmitFresh(before, id, []);
      }
    }
  }

  /** One more arrival extends a run by its last element. */
  lemma ArrivalStep(keys: set<string>, boxes: Outboxes, ids: seq<string>, p: nat)
    requires p < |ids|
    ensures AdmitAll(boxes, ids[..p + 1]) == AfterAdmit(AdmitAll(boxes, ids[..p]), ids[p], [])
    ensures Registered(keys, ids[..p + 1]) == Registered(keys, ids[..p]) + {ids[p]}
  {
    assert ids[..p + 1][..p] == ids[..p];
  }

  /** While "exit" has not been admitted, arrival p either admits it (and
      it is then the first "exit" of the run, not registered before) or
      leaves it unadmitted. */
  lemma ExitStep(keys: set<string>, ids: seq<string>, p: nat)
    requires p < |ids|
    requires ExitId in keys || ExitId !in ids[..p]
    ensures ids[p] == ExitId && ids[p] !in Registered(keys, ids[..p]) ==>
              ExitId !in keys && ExitId in ids && ExitId !in ids[..p + 1][..p]
    ensures !(ids[p] == ExitId && ids[p] !in Registered(keys, ids[..p])) ==>
              ExitId in keys || ExitId !in ids[..p + 1]
  {
    RegisteredMembers(keys, ids[..p]);
    assert ids[..p + 1][..p] == ids[..p];
    assert ids[..p + 1] == ids[..p] + [ids[p]];
  }

  /** A run that never admitted "exit" either had it registered from the
      start or never saw it. */
  lemma ExitEnd(keys: set<string>, ids: seq<string>)
    requires ExitId in keys || ExitId !in ids[..|ids|]
    ensures !(ExitId !in keys && ExitId in ids)
  {
    assert ids[..|ids|] == ids;
  }

  /** ServerProgram's static state: ClientTable, an id-to-connection map. */
  class ServerProgram {
    var clientTable: map<string, Connection>

    /** Every connection comes from its own AcceptTcpClient, so no two ids
        share one. */
    ghost predicate Valid()
      reads this
    {
      forall j, k :: j in clientTable && k in clientTable && j != k ==> clientTable[j] != clientTable[k]
    }

    ghost function Outboxes(): Outboxes
      reads this, clientTable.Values
    {
      map k | k in clientTable :: clientTable[k].outbox
    }

    constructor()
      ensures clientTable == map[] && Valid()
    {
      clientTable := map[];
    }

    /** Broadcast(message, username, showName): SendMessage of the same text
        to each entry of the table. */
    method Broadcast(message: string, username: Option<string>, showName: bool)
      requires Valid()
      modifies clientTable.Values
      ensures Outboxes() == Deliver(old(Outboxes()), SendData(message, username, showName))
    {
      var sendData := SendData(message, username, showName);
      var pending := clientTable.Keys;
      while pending != {}
        invariant pending <= clientTable.Keys
        invariant forall k :: k in pending ==> clientTable[k].outbox == old(clientTable[k].outbox)
        invariant forall k :: k in clientTable && k !in pending ==> clientTable[k].outbox == old(clientTable[k].outbox) + [sendData]
        decreases pending
      {
        var k :| k in pending;
        var broadcastStream := clientTable[k];
        broadcastStream.outbox := broadcastStream.outbox + [sendData];
        pending := pending - {k};
      }
      DeliverUnique(old(Outboxes()), sendData, Outboxes());
    }

    /** One turn of the accept loop in Main, after the client's id has been
        read: a duplicate id is turned away with nothing changed; otherwise
        the connection is added, and unless the id is "exit" (which ends the
        loop) the join notice is broadcast and a handler would start. */
    method Admit(clientId: string, clientSocket: Connection) returns (admitted: bool, stop: bool)
      requires Valid() && clientSocket !in clientTable.Values
      modifies this, clientTable.Values, clientSocket
      ensures Valid()
      ensures admitted <==> clientId !in old(clientTable)
      ensures stop <==> admitted && clientId == ExitId
      ensures clientTable == if admitted then old(clientTable)[clientId := clientSocket] else old(clientTable)
      ensures clientTable.Keys == old(clientTable.Keys) + {clientId}
      ensures clientTable.Values <= old(clientTable.Values) + {clientSocket}
      ensures Outboxes() == AfterAdmit(old(Outboxes()), clientId, old(clientSocket.outbox))
      ensures !admitted ==> clientSocket.outbox == old(clientSocket.outbox)
    {
      if clientId in clientTable {
        return false, false;
      }
      ghost var before := Outboxes();
      clientTable := clientTable[clientId := clientSocket];
      assert Outboxes() == before[clientId := clientSocket.outbox];
      if clientId == ExitId {
        return true, true;
      }
      Broadcast(JoinNotice(clientId), None, false);
      return true, false;
    }

    /** RemoveClient(clientId): Hashtable.Remove (nothing happens for an
        absent id), then the disconnect notice to everyone left. */
    method RemoveClient(clientId: string)
      requires Valid()
      modifies this, clientTable.Values
      ensures Valid()
      ensures clientTable == old(clientTable) - {clientId}
      ensures Outboxes() == AfterRemove(old(Outboxes()), clientId)
      ensures clientId in old(clientTable) ==> old(clientTable)[clientId].outbox == old(clientTable[clientId].outbox)
    {
      ghost var before := Outboxes();
      ghost var removed := if clientId in clientTable then Some(clientTable[clientId]) else None;
      clientTable := clientTable - {clientId};
      assert Outboxes() == before - {clientId};
      assert removed.Some? ==> removed.value !in clientTable.Values;
      Broadcast(DisconnectNotice(clientId), None, false);
    }

    /** What the file-listener thread does after each ReceiveFile: a
        successful upload is announced to everyone. */
    method FileReceived(received: bool)
      requires Valid()
      modifies clientTable.Values
      ensures Outboxes() == if received then Deliver(old(Outboxes()), UploadNotice) else old(Outboxes())
    {
      if received {
        Broadcast(UploadNotice, None, false);
      }
    }

    /** One turn of the accept loop, arrival p of the run `ids` (the table
        having started the run with ids `keys` and outboxes `boxes`): a new
        TcpClient arrives and sends its id, which is admitted as by Admit.
        The turn stops the loop exactly when it admits the run's first
        "exit". */
    method Arrive(ghost keys: set<string>, ghost boxes: Outboxes, ids: seq<string>, p: nat) returns (stop: bool)
      requires Valid() && p < |ids|
      requires clientTable.Keys == Registered(keys, ids[..p])
      requires Outboxes() == AdmitAll(boxes, ids[..p])
      requires ExitId in keys || ExitId !in ids[..p]
      modifies this, clientTable.Values
      ensures Valid()
      ensures clientTable.Keys == Registered(keys, ids[..p + 1])
      ensures Outboxes() == AdmitAll(boxes, ids[..p + 1])
      ensures stop ==> ExitId !in keys && ExitId in ids && ids[p] == ExitId && ExitId !in ids[..p + 1][..p]
      ensures stop ==> ExitId in clientTable
      ensures !stop ==> ExitId in keys || ExitId !in ids[..p + 1]
      ensures forall c :: c in clientTable.Values ==> c in old(clientTable.Values) || fresh(c)
      ensures forall k :: k in old(clientTable) ==> k in clientTable && clientTable[k] == old(clientTable)[k]
    {
      ArrivalStep(keys, boxes, ids, p);
      ExitStep(keys, ids, p);
      ghost var known := Registered(keys, ids[..p]);
      var clientSocket := new Connection();
      ghost var before := Outboxes();
      assert before == AdmitAll(boxes, ids[..p]);
      var admitted;
      admitted, stop := Admit(ids[p], clientSocket);
      assert Outboxes() == AfterAdmit(before, ids[p], []);
      assert stop <==> ids[p] == ExitId && ids[p] !in known;
    }

    /** The accept loop of Main over a finite run of arrivals: the id of each
        arrival is admitted in turn; the loop ends right after the first
        admission of "exit", and otherwise when the arrivals run out. */
    method AcceptLoop(ids: seq<string>) returns (processed: nat, stopped: bool)
      requires Valid()
      modifies this, clientTable.Values
      ensures Valid()
      ensures processed <= |ids|
      ensures stopped <==> ExitId !in old(clientTable.Keys) && ExitId in ids
      ensures stopped ==> 0 < processed && ids[processed - 1] == ExitId && ExitId !in ids[..processed - 1]
      ensures stopped ==> ExitId in clientTable
      ensures !stopped ==> processed == |ids|
      ensures clientTable.Keys == Registered(old(clientTable.Keys), ids[..processed])
      ensures Outboxes() == AdmitAll(old(Outboxes()), ids[..processed])
      ensures forall k :: k in old(clientTable) ==> k in clientTable && clientTable[k] == old(clientTable)[k]
    {
      processed, stopped := 0, false;
      while processed < |ids|
        invariant Valid()
        invariant processed <= |ids|
        invariant clientTable.Keys == Registered(old(clientTable.Keys), ids[..processed])
        invariant Outboxes() == AdmitAll(old(Outboxes()), ids[..processed])
        invariant ExitId in old(clientTable.Keys) || ExitId !in ids[..processed]
        invariant forall c :: c in clientTable.Values ==> c in old(clientTable.Values) || fresh(c)
        invariant forall k :: k in old(clientTable) ==> k in clientTable && clientTable[k] == old(clientTable)[k]
        invariant !stopped
        decreases |ids| - processed
      {
        var stop := Arrive(old(clientTable.Keys), old(Outboxes()), ids, processed);
        processed := processed + 1;
        if stop {
          return processed, true;
        }
      }
      ExitEnd(old(clientTable.Keys), ids);
    }
  }

  /** Two clients both calling themselves "alice": the second is turned
      away, and only the first is registered and sent the join notice. */
  method DuplicateAlice() returns (server: ServerProgram, first: Connection, second: Connection)
    ensures server.clientTable == map["alice" := first]
    ensures first.outbox == [JoinNotice("alice")]
    ensures second.outbox == []
  {
    server := new ServerProgram();
    first := new Connection();
    second := new Connection();
    var admitted, stop := server.Admit("alice", first);
    assert server.Outboxes()["alice"] == first.outbox;
    admitted, stop := server.Admit("alice", second);
    assert !admitted;
    assert server.Outboxes()["alice"] == first.outbox;
  }

  /** "alice" is admitted on her connection, then the accept loop admits
      "bob": alice's own connection, still hers, has received both join
      notices. */
  method LaterArrival() returns (server: ServerProgram, alice: Connection)
    ensures server.clientTable.Keys == {"alice", "bob"}
    ensures server.clientTable["alice"] == alice
    ensures alice.outbox == [JoinNotice("alice"), JoinNotice("bob")]
  {
    server := new ServerProgram();
    alice := new Connection();
    var admitted, stop := server.Admit("alice", alice);
    assert server.Outboxes()["alice"] == alice.outbox == [JoinNotice("alice")];
    ghost var before := server.Outboxes();
    var processed, stopped := server.AcceptLoop(["bob"]);
    assert ["bob"][..processed] == ["bob"];
    assert AdmitAll(before, ["bob"]) == AfterAdmit(before, "bob", []);
    assert server.Outboxes()["alice"] == [JoinNotice("alice"), JoinNotice("bob")];
    assert server.clientTable.Keys == Registered({"alice"}, ["bob"]) == {"alice", "bob"};
  }

  /** Three registered connections and one that is not: a broadcast with
      the sender's name reaches the three once each and not the fourth. */
  method FanOut() returns (a: Connection, b: Connection, c: Connection, outsider: Connection)
    ensures a.outbox == b.outbox == c.outbox == ["bob: hi"]
    ensures outsider.outbox == []
  {
    assert SendData("hi", Some("bob"), true) == "bob: hi";
    var server := new ServerProgram();
    a := new Connection();
    b := new Connection();
    c := new Connection();
    outsider := new Connection();
    server.clientTable := map["a" := a, "b" := b, "c" := c];
    assert server.clientTable.Keys == {"a", "b", "c"};
    assert server.Valid();
    ghost var before := server.Outboxes();
    assert before["a"] == [] && before["b"] == [] && before["c"] == [];
    assert outsider !in server.clientTable.Values;
    server.Broadcast("hi", Some("bob"), true);
    assert server.Outboxes()["a"] == a.outbox;
    assert server.Outboxes()["b"] == b.outbox;
    assert server.Outboxes()["c"] == c.outbox;
  }
}
