/**
The closed loop: the client of CoreStack/vnc_session.c and a server joined by two queues.
The server may send what it likes, but answers each request with at most one refreshing
update.
*/
module RfbLoop {
  import opened RfbWire
  import opened RfbParse
  import opened RfbClient
  import opened RfbRuns

  datatype System = System(
    client: State,
    toServer: seq<ClientMessage>,
    toClient: seq<ServerMessage>,
    credit: nat)   // requests the server has received and not answered

  ghost predicate Init(y: System) {
    y.client.status == 0 && y.toServer == [] && y.toClient == [] && y.credit == 0
  }

  datatype Step =
    | ServerSends(message: ServerMessage)
    | ServerReceives
    | ClientReceives

  ghost predicate Next(y: System, step: Step, z: System) {
    match step
    case ServerSends(m) =>
      && (Answered(m) ==> 0 < y.credit)
      && z == y.(toClient := y.toClient + [m], credit := if Answered(m) then y.credit - 1 else y.credit)
    case ServerReceives =>
      && y.toServer != []
      && z == y.(toServer := y.toServer[1..], credit := y.credit + if y.toServer[0].UpdateRequest? then 1 else 0)
    case ClientReceives =>
      && y.toClient != []
      && z == y.(client := AfterMessage(y.client, y.toClient[0]),
                 toServer := y.toServer + Replies(y.client, y.toClient[0]),
                 toClient := y.toClient[1..])
  }

  /** A request is on its way, waits at the server, or is on its way back as an update. */
  function Outstanding(y: System): nat {
    CountRequests(y.toServer) + y.credit + CountAnswered(y.toClient)
  }

  ghost predicate Inv(y: System) {
    && y.client.status <= 2
    && Outstanding(y) == if y.client.status == 2 then 1 else 0
  }

  lemma StepKeepsInv(y: System, step: Step, z: System)
    requires Inv(y) && Next(y, step, z)
    ensures Inv(z)
  {
    hide Answered, AfterMessage, Replies;
    match step {
      case ServerSends(m) =>
        CountAnsweredAppend(y.toClient, [m]);
        assert [m][1..] == [];
      case ServerReceives =>
      case ClientReceives =>
        RequestsOfMessage(y.client, y.toClient[0]);
        CountRequestsAppend(y.toServer, Replies(y.client, y.toClient[0]));
    }
  }

  ghost predicate Run(states: seq<System>, steps: seq<Step>) {
    && |states| == |steps| + 1
    && Init(states[0])
    && forall i | 0 <= i < |steps| :: Next(states[i], steps[i], states[i + 1])
  }

  /** In every state of every run at most one request is outstanding, and one is as soon as the client is configured. */
  lemma {:induction false} AtMostOneOutstanding(states: seq<System>, steps: seq<Step>, k: nat)
    requires Run(states, steps) && k < |states|
    ensures Outstanding(states[k]) == if states[k].client.status == 2 then 1 else 0
    ensures states[k].client.status <= 2
  {
    hide Outstanding, Next;
    RunKeepsInv(states, steps, k);
  }

  lemma {:induction false} RunKeepsInv(states: seq<System>, steps: seq<Step>, k: nat)
    requires Run(states, steps) && k < |states|
    ensures Inv(states[k])
  {
    hide Next;
    if k == 0 {
    } else {
      RunKeepsInv(states, steps, k - 1);
      assert Next(states[k - 1], steps[k - 1], states[k]);
      StepKeepsInv(states[k - 1], steps[k - 1], states[k]);
    }
  }

  /** Once the client has taken in a refreshing update, its new request is the only thing outstanding. */
  lemma UpdateIsAnsweredAtOnce(states: seq<System>, steps: seq<Step>, k: nat)
    requires Run(states, steps) && k < |steps|
    requires steps[k] == ClientReceives && states[k].toClient != [] && Answered(states[k].toClient[0])
    ensures var z := states[k + 1];
            && CountRequests(z.toServer) == 1 && z.credit == 0 && CountAnswered(z.toClient) == 0
            && z.toServer != [] && z.toServer[|z.toServer| - 1].UpdateRequest?
  {
    hide AfterMessage, Answered;
    RunKeepsInv(states, steps, k);
    RunKeepsInv(states, steps, k + 1);
    var y, m := states[k], states[k].toClient[0];
    assert Next(y, steps[k], states[k + 1]);
    RequestsOfMessage(y.client, m);
    CountRequestsAppend(y.toServer, Replies(y.client, m));
  }
}
