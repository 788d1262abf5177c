/** The load balancer check of pkg/collect/host_network.go. Each host starts a server and, as a
    client, keeps dialling an address behind which a balancer picks any of the hosts, until
    its own server answers with its own response token.

    The hosts are a transition system: a schedule is any list of steps of any host, including
    every way its calls can fail. Routing is arbitrary: the target of a dial is part of the
    step. */
module Handshake {
  import opened Options
  import opened Text

  type Bytes = seq<Byte>

  const BUFFER := 1024
  const TOKEN := 20

  function Zeros(n: nat): (z: Bytes)
    ensures |z| == n
  {
    seq(n, _ => 0)
  }

  /** The read buffer after one message has been read into it. */
  function Buffer(message: Bytes): (b: Bytes)
    requires |message| <= BUFFER
    ensures |b| == BUFFER
  {
    message + Zeros(BUFFER - |message|)
  }

  /** bytes.Contains(buf, token) on such a buffer. */
  predicate Contains(buf: Bytes, token: Bytes) {
    exists i :: 0 <= i <= |buf| - |token| && buf[i..][..|token|] == token
  }

  /** A host takes message for its token. */
  predicate Recognises(token: Bytes, message: Bytes)
    requires |message| <= BUFFER
  {
    Contains(Buffer(message), token)
  }

  /** The zeros after a message can complete a token: a message is taken for a token exactly
      when the token is a tail of the message followed by zeros. */
  lemma RecognisesShifted(token: Bytes, message: Bytes)
    requires |token| == |message| == TOKEN
    ensures Recognises(token, message) <==> exists k :: 0 <= k <= TOKEN && token == message[k..] + Zeros(k)
  {
    var buf := Buffer(message);
    if k :| 0 <= k <= TOKEN && token == message[k..] + Zeros(k) {
      assert buf[k..][..TOKEN] == token;
    }
    if i :| 0 <= i <= BUFFER - TOKEN && buf[i..][..TOKEN] == token {
      var k := if i < TOKEN then i else TOKEN;
      forall x | 0 <= x < TOKEN
        ensures token[x] == (message[k..] + Zeros(k))[x]
      {
        assert token[x] == buf[i + x];
      }
      assert token == message[k..] + Zeros(k);
    }
  }

  /** Tokens that do not end in a zero byte are recognised only as themselves. */
  lemma RecognisesItself(token: Bytes, message: Bytes)
    requires |token| == |message| == TOKEN
    ensures token == message ==> Recognises(token, message)
    ensures token[TOKEN - 1] != 0 && Recognises(token, message) ==> token == message
  {
    RecognisesShifted(token, message);
    assert message[0..] + Zeros(0) == message;
  }

  /** The tokens each host has drawn for its run. */
  datatype Config = Config(requests: seq<Bytes>, responses: seq<Bytes>) {
    predicate Valid() {
      && |requests| == |responses|
      && forall h :: 0 <= h < |requests| ==> |requests[h]| == |responses[h]| == TOKEN
    }

    function Hosts(): nat {
      |requests|
    }

    /** Host j's server takes i's request for its own, and i takes j's response for its own. */
    predicate Confusable(i: nat, j: nat)
      requires Valid() && i < Hosts() && j < Hosts()
    {
      Recognises(requests[j], requests[i]) && Recognises(responses[i], responses[j])
    }

    ghost predicate NoneConfusable()
      requires Valid()
    {
      forall i, j :: 0 <= i < Hosts() && 0 <= j < Hosts() && i != j ==> !Confusable(i, j)
    }
  }

  /** Distinct request tokens that do not end in a zero byte rule confusion out. */
  lemma DistinctTokensAreNotConfusable(c: Config)
    requires c.Valid()
    requires forall i, j :: 0 <= i < j < c.Hosts() ==> c.requests[i] != c.requests[j]
    requires forall i :: 0 <= i < c.Hosts() ==> c.requests[i][TOKEN - 1] != 0
    ensures c.NoneConfusable()
  {
    forall i, j | 0 <= i < c.Hosts() && 0 <= j < c.Hosts() && i != j
      ensures !c.Confusable(i, j)
    {
      RecognisesItself(c.requests[j], c.requests[i]);
      assert if i < j then c.requests[i] != c.requests[j] else c.requests[j] != c.requests[i];
    }
  }

  /** A token of the same bytes throughout, and the one that follows it in the buffer. */
  lemma TailIsRecognised(b: int, whole: Bytes, tail: Bytes)
    requires 0 < b < 256 && whole == seq(TOKEN, _ => b) && tail == seq(TOKEN - 1, _ => b) + [0]
    ensures Recognises(tail, whole) && whole != tail
  {
    assert whole[1..] + Zeros(1) == tail;
    RecognisesShifted(tail, whole);
    assert whole[TOKEN - 1] != tail[TOKEN - 1];
  }

  /** Distinct tokens alone do not: four of them that do not. */
  lemma DistinctTokensCanBeConfused() returns (c: Config)
    ensures c.Valid() && c.Hosts() == 2 && c.Confusable(0, 1)
    ensures c.requests[0] != c.requests[1] && c.responses[0] != c.responses[1]
    ensures forall i, j :: 0 <= i < 2 && 0 <= j < 2 ==> c.requests[i] != c.responses[j]
  {
    var ones, twos := seq(TOKEN, _ => 1), seq(TOKEN, _ => 2);
    var onesAndZero, twosAndZero := seq(TOKEN - 1, _ => 1) + [0], seq(TOKEN - 1, _ => 2) + [0];
    TailIsRecognised(1, ones, onesAndZero);
    TailIsRecognised(2, twos, twosAndZero);
    assert ones[0] == onesAndZero[0] == 1 && twos[0] == twosAndZero[0] == 2;
    c := Config([ones, onesAndZero], [twosAndZero, twos]);
  }

  datatype Conn = Conn(client: nat, server: nat, accepted: bool, request: Option<Bytes>, response: Option<Bytes>)

  datatype Server =
    | NotListening
    | Accepting
    | Reading(conn: nat)
    | Writing(conn: nat)
    | Stopped(conn: nat)  // has written its response on that connection

  datatype Status = Connected | TimedOut | Refused | OtherError

  datatype Client =
    | NotStarted
    | Dialing             // at the top of its loop
    | Sending(conn: nat)
    | Awaiting(conn: nat)
    | Done(status: Status)

  datatype State = State(clients: seq<Client>, servers: seq<Server>, conns: seq<Conn>, writes: seq<nat>)

  function Init(c: Config): State {
    State(seq(c.Hosts(), _ => NotStarted), seq(c.Hosts(), _ => NotListening), [], seq(c.Hosts(), _ => 0))
  }

  /** How net.DialTimeout fails. */
  datatype DialError = IoTimeout | ConnectionRefused | OtherDialError

  datatype Step =
    | Start(host: nat)
    | TimeUp(host: nat)
    | Dial(host: nat, target: nat)
    | DialFails(host: nat, error: DialError)
    | SendRequest(host: nat, ok: bool)
    | ReadReply(host: nat)
    | ReadReplyFails(host: nat)
    | Accept(host: nat, conn: nat)
    | ReadRequest(host: nat)
    | ReadRequestFails(host: nat)
    | WriteResponse(host: nat, ok: bool)

  predicate WellFormed(c: Config, s: State) {
    && c.Valid()
    && |s.clients| == |s.servers| == |s.writes| == c.Hosts()
    && (forall k :: 0 <= k < |s.conns| ==> s.conns[k].client < c.Hosts() && s.conns[k].server < c.Hosts())
    && (forall h :: 0 <= h < c.Hosts() ==>
          && ((s.clients[h].Sending? || s.clients[h].Awaiting?) ==> s.clients[h].conn < |s.conns|)
          && (!s.servers[h].NotListening? && !s.servers[h].Accepting? ==> s.servers[h].conn < |s.conns|))
    && (forall k :: 0 <= k < |s.conns| ==>
          && (s.conns[k].request.Some? ==> |s.conns[k].request.value| <= BUFFER)
          && (s.conns[k].response.Some? ==> |s.conns[k].response.value| <= BUFFER))
  }

  /** The listener is open from the start of the check until checkTCPConnection returns. */
  predicate Listening(s: State, h: nat)
    requires h < |s.clients|
  {
    !s.clients[h].NotStarted? && !s.clients[h].Done?
  }

  function SetClient(s: State, h: nat, client: Client): State
    requires h < |s.clients|
  {
    s.(clients := s.clients[h := client])
  }

  function SetServer(s: State, h: nat, server: Server): State
    requires h < |s.servers|
  {
    s.(servers := s.servers[h := server])
  }

  function SetConn(s: State, k: nat, conn: Conn): State
    requires k < |s.conns|
  {
    s.(conns := s.conns[k := conn])
  }

  /** checkTCPConnection and verifyConnectionToServer. */
  function ClientStep(c: Config, s: State, step: Step): Option<State>
    requires WellFormed(c, s) && step.host < c.Hosts()
  {
    var h := step.host;
    match (step, s.clients[h])
    case (Start(_), NotStarted) => Some(SetServer(SetClient(s, h, Dialing), h, Accepting))
    case (TimeUp(_), Dialing) => Some(SetClient(s, h, Done(TimedOut)))
    case (Dial(_, target), Dialing) =>
      if target < c.Hosts() && Listening(s, target) then
        Some(SetClient(s, h, Sending(|s.conns|)).(conns := s.conns + [Conn(h, target, false, None, None)]))
      else None
    case (DialFails(_, error), Dialing) =>
      Some(SetClient(s, h, match error
                           case IoTimeout => Dialing
                           case ConnectionRefused => Done(Refused)
                           case OtherDialError => Done(OtherError)))
    case (SendRequest(_, ok), Sending(k)) =>
      if ok then Some(SetConn(SetClient(s, h, Awaiting(k)), k, s.conns[k].(request := Some(c.requests[h]))))
      else Some(SetClient(s, h, Dialing))
    case (ReadReply(_), Awaiting(k)) =>
      if s.conns[k].response.None? then None
      else if Recognises(c.responses[h], s.conns[k].response.value) then Some(SetClient(s, h, Done(Connected)))
      else Some(SetClient(s, h, Dialing))
    case (ReadReplyFails(_), Awaiting(k)) => Some(SetClient(s, h, Dialing))
    case _ => None
  }

  /** The accept loop and handleTestConnection. */
  function ServerStep(c: Config, s: State, step: Step): Option<State>
    requires WellFormed(c, s) && step.host < c.Hosts()
  {
    var h := step.host;
    match (step, s.servers[h])
    case (Accept(_, k), Accepting) =>
      if Listening(s, h) && k < |s.conns| && s.conns[k].server == h && !s.conns[k].accepted then
        Some(SetConn(SetServer(s, h, Reading(k)), k, s.conns[k].(accepted := true)))
      else None
    case (ReadRequest(_), Reading(k)) =>
      if s.conns[k].request.None? then None
      else if Recognises(c.requests[h], s.conns[k].request.value) then Some(SetServer(s, h, Writing(k)))
      else Some(SetServer(s, h, Accepting))
    case (ReadRequestFails(_), Reading(k)) => Some(SetServer(s, h, Accepting))
    case (WriteResponse(_, ok), Writing(k)) =>
      if ok then
        Some(SetConn(SetServer(s, h, Stopped(k)), k, s.conns[k].(response := Some(c.responses[h])))
             .(writes := s.writes[h := s.writes[h] + 1]))
      else Some(SetServer(s, h, Accepting))
    case _ => None
  }

  /** The state after a step, None when the step cannot be taken. */
  function Next(c: Config, s: State, step: Step): Option<State> {
    if !WellFormed(c, s) || step.host >= c.Hosts() then None
    else if step.Accept? || step.ReadRequest? || step.ReadRequestFails? || step.WriteResponse? then
      ServerStep(c, s, step)
    else ClientStep(c, s, step)
  }

  function Exec(c: Config, s: State, schedule: seq<Step>): Option<State>
    decreases |schedule|
  {
    if schedule == [] then Some(s)
    else
      match Next(c, s, schedule[0])
      case None => None
      case Some(s') => Exec(c, s', schedule[1..])
  }

  ghost predicate Reachable(c: Config, s: State) {
    exists schedule: seq<Step> :: Exec(c, Init(c), schedule) == Some(s)
  }

  /** A check that has returned stays so, and returns refused, another error or timed out in the step
      that says so and in no other. */
  lemma StatusAfterStep(c: Config, s: State, step: Step, h: nat)
    requires WellFormed(c, s) && h < c.Hosts() && Next(c, s, step).Some?
    ensures var s' := Next(c, s, step).value;
            && |s'.clients| == c.Hosts()
            && (s.clients[h].Done? ==> s'.clients[h] == s.clients[h] && !Returns(step, h))
            && (!s.clients[h].Done? ==>
                  && (s'.clients[h] == Done(Refused) <==> step == DialFails(h, ConnectionRefused))
                  && (s'.clients[h] == Done(OtherError) <==> step == DialFails(h, OtherDialError))
                  && (s'.clients[h] == Done(TimedOut) <==> step == TimeUp(h))
                  && (s'.clients[h] == Done(Connected) ==> step == ReadReply(h)))
  {
  }

  predicate Returns(step: Step, h: nat) {
    step == DialFails(h, ConnectionRefused) || step == DialFails(h, OtherDialError) || step == TimeUp(h)
  }

  lemma {:induction false} StatusAfter(c: Config, s: State, schedule: seq<Step>, h: nat)
    requires Inv(c, s) && h < c.Hosts() && Exec(c, s, schedule).Some?
    ensures var s' := Exec(c, s, schedule).value;
            && |s'.clients| == c.Hosts()
            && (s'.clients[h] == Done(Refused) <==>
                s.clients[h] == Done(Refused) || DialFails(h, ConnectionRefused) in schedule)
            && (s'.clients[h] == Done(OtherError) <==>
                s.clients[h] == Done(OtherError) || DialFails(h, OtherDialError) in schedule)
            && (s'.clients[h] == Done(TimedOut) <==> s.clients[h] == Done(TimedOut) || TimeUp(h) in schedule)
    decreases |schedule|
  {
    if schedule != [] {
      var step, rest := schedule[0], schedule[1..];
      StatusAfterStep(c, s, step, h);
      NextInv(c, s, step);
      StatusAfter(c, Next(c, s, step).value, rest, h);
      assert schedule == [step] + rest;
    }
  }

  /** In every run the check of a host ends as refused exactly when a dial of it was refused, with
      another error exactly when a dial failed otherwise than by its timeout, and as timed out exactly
      when the time was up at the top of its loop; otherwise it is connected or has not returned. So a
      dial that times out never ends it. */
  lemma StatusIff(c: Config, schedule: seq<Step>, h: nat)
    requires c.Valid() && h < c.Hosts() && Exec(c, Init(c), schedule).Some?
    ensures var s := Exec(c, Init(c), schedule).value;
            && |s.clients| == c.Hosts()
            && (s.clients[h] == Done(Refused) <==> DialFails(h, ConnectionRefused) in schedule)
            && (s.clients[h] == Done(OtherError) <==> DialFails(h, OtherDialError) in schedule)
            && (s.clients[h] == Done(TimedOut) <==> TimeUp(h) in schedule)
            && (s.clients[h].Done? ==>
                  || s.clients[h] == Done(Connected) || DialFails(h, ConnectionRefused) in schedule
                  || DialFails(h, OtherDialError) in schedule || TimeUp(h) in schedule)
  {
    assert Inv(c, Init(c));
    StatusAfter(c, Init(c), schedule, h);
    var client := Exec(c, Init(c), schedule).value.clients[h];
    if client.Done? {
      match client.status
      case Connected => assert client == Done(Connected);
      case TimedOut => assert client == Done(TimedOut);
      case Refused => assert client == Done(Refused);
      case OtherError => assert client == Done(OtherError);
    }
  }

  /** An attempt to reach the server ends in one of these steps. */
  predicate EndsAttempt(step: Step, h: nat) {
    || step == DialFails(h, IoTimeout) || step == SendRequest(h, false)
    || step == ReadReply(h) || step == ReadReplyFails(h)
  }

  /** Whatever ends an attempt of a host, it is connected then, exactly when it has read a reply that it
      takes for its server's, or else it dials again. */
  lemma AttemptOutcome(c: Config, s: State, step: Step, h: nat)
    requires WellFormed(c, s) && h < c.Hosts() && Next(c, s, step).Some? && EndsAttempt(step, h)
    ensures var client := Next(c, s, step).value.clients[h];
            && (client == Dialing || client == Done(Connected))
            && (client == Done(Connected) <==>
                  && step == ReadReply(h) && s.clients[h].Awaiting?
                  && var reply := s.conns[s.clients[h].conn].response;
                     reply.Some? && Recognises(c.responses[h], reply.value))
  {
  }

  /** What a server reads or fails to read or write brings it back to accepting, unless it has read its
      own request, which it then answers, or has answered. */
  lemma ServiceOutcome(c: Config, s: State, step: Step, h: nat)
    requires WellFormed(c, s) && h < c.Hosts() && Next(c, s, step).Some?
    requires step == ReadRequest(h) || step == ReadRequestFails(h) || step == WriteResponse(h, false)
    ensures var server := Next(c, s, step).value.servers[h];
            && (server == Accepting || server == Writing(s.servers[h].conn))
            && (server.Writing? <==>
                  && step == ReadRequest(h)
                  && var request := s.conns[s.servers[h].conn].request;
                     request.Some? && Recognises(c.requests[h], request.value))
  {
  }

  /** The listener is closed when the check returns: from then on, in every schedule, no dial reaches the
      host and it accepts no connection. */
  lemma {:induction false} ReturnedHostsAreNotReached(c: Config, s: State, schedule: seq<Step>, t: nat, i: nat)
    requires Inv(c, s) && t < c.Hosts() && s.clients[t].Done? && Exec(c, s, schedule).Some? && i < |schedule|
    ensures !(schedule[i].Dial? && schedule[i].target == t)
    ensures !(schedule[i].Accept? && schedule[i].host == t)
    decreases |schedule|
  {
    if i > 0 {
      StatusAfterStep(c, s, schedule[0], t);
      NextInv(c, s, schedule[0]);
      ReturnedHostsAreNotReached(c, Next(c, s, schedule[0]).value, schedule[1..], t, i - 1);
    }
  }

  ghost predicate ConnInv(c: Config, s: State, k: nat)
    requires WellFormed(c, s) && k < |s.conns|
  {
    var conn := s.conns[k];
    && (conn.request.Some? ==> conn.request.value == c.requests[conn.client])
    && (conn.response.Some? ==>
          && conn.response.value == c.responses[conn.server]
          && conn.request.Some? && Recognises(c.requests[conn.server], conn.request.value)
          && s.servers[conn.server] == Stopped(k))
  }

  ghost predicate HostInv(c: Config, s: State, h: nat)
    requires WellFormed(c, s) && h < c.Hosts()
  {
    var client, server := s.clients[h], s.servers[h];
    && (server.NotListening? <==> client.NotStarted?)
    && ((client.Sending? || client.Awaiting?) ==> s.conns[client.conn].client == h)
    && (client.Sending? ==> s.conns[client.conn].request.None?)
    && (client.Awaiting? ==> s.conns[client.conn].request.Some?)
    && ((server.Reading? || server.Writing?) ==>
          s.conns[server.conn].server == h && s.conns[server.conn].response.None?)
    && (server.Writing? ==>
          s.conns[server.conn].request.Some? && Recognises(c.requests[h], s.conns[server.conn].request.value))
    && (server.Stopped? ==> s.conns[server.conn].server == h && s.conns[server.conn].response.Some?)
    && s.writes[h] == (if server.Stopped? then 1 else 0)
    && (client == Done(Connected) ==> Answered(c, s, h))
  }

  /** Some host's server took this host's request for its own and answered with a response
      that this host takes for its own. */
  ghost predicate Answered(c: Config, s: State, h: nat)
    requires WellFormed(c, s) && h < c.Hosts()
  {
    exists k :: 0 <= k < |s.conns| && s.conns[k].client == h && s.conns[k].response.Some? &&
                Recognises(c.responses[h], s.conns[k].response.value)
  }

  ghost predicate Inv(c: Config, s: State) {
    && WellFormed(c, s)
    && (forall k :: 0 <= k < |s.conns| ==> ConnInv(c, s, k))
    && (forall h :: 0 <= h < c.Hosts() ==> HostInv(c, s, h))
  }

  /** A connection only gains a request, a response, or the mark that it was accepted; only its
      own server gives the response. */
  predicate Grows(conn: Conn, conn': Conn, h: nat) {
    && conn'.client == conn.client && conn'.server == conn.server
    && (conn.request.Some? ==> conn'.request == conn.request)
    && (conn.response.Some? ==> conn'.response == conn.response)
    && (conn'.response != conn.response ==> conn.server == h)
    && (conn'.request != conn.request ==> conn.client == h)
  }

  /** A step of host h that touches no connection but k keeps the invariant when it keeps it for
      that host and that connection. k is |s'.conns| for a step that touches none. */
  lemma KeepsInv(c: Config, s: State, s': State, h: nat, k: nat)
    requires Inv(c, s) && WellFormed(c, s') && h < c.Hosts()
    requires |s.conns| <= |s'.conns| && k <= |s'.conns|
    requires |s.conns| < |s'.conns| ==> k == |s.conns| == |s'.conns| - 1
    requires forall j :: 0 <= j < |s.conns| && j != k ==> s'.conns[j] == s.conns[j]
    requires k < |s.conns| ==> Grows(s.conns[k], s'.conns[k], h)
    requires forall g :: 0 <= g < c.Hosts() && g != h ==>
               s'.clients[g] == s.clients[g] && s'.servers[g] == s.servers[g] && s'.writes[g] == s.writes[g]
    requires s.servers[h].Stopped? ==> s'.servers[h] == s.servers[h]
    requires k < |s'.conns| ==> ConnInv(c, s', k)
    requires HostInv(c, s', h)
    ensures Inv(c, s')
  {
    forall j | 0 <= j < |s'.conns|
      ensures ConnInv(c, s', j)
    {
      if j < |s.conns| {
        assert ConnInv(c, s, j);
      }
    }
    forall g | 0 <= g < c.Hosts()
      ensures HostInv(c, s', g)
    {
      assert HostInv(c, s, g);
      if Answered(c, s, g) {
        AnsweredStays(c, s, s', g);
      }
    }
  }

  lemma AnsweredStays(c: Config, s: State, s': State, h: nat)
    requires WellFormed(c, s) && WellFormed(c, s') && h < c.Hosts() && |s.conns| <= |s'.conns|
    requires forall k :: 0 <= k < |s.conns| ==>
               s'.conns[k].client == s.conns[k].client &&
               (s.conns[k].response.Some? ==> s'.conns[k].response == s.conns[k].response)
    ensures Answered(c, s, h) ==> Answered(c, s', h)
  {
  }

  lemma DialInv(c: Config, s: State, h: nat, target: nat)
    requires Inv(c, s) && h < c.Hosts() && ClientStep(c, s, Dial(h, target)).Some?
    ensures Inv(c, ClientStep(c, s, Dial(h, target)).value)
  {
    var s' := ClientStep(c, s, Dial(h, target)).value;
    assert HostInv(c, s, h);
    KeepsInv(c, s, s', h, |s.conns|);
  }

  lemma SendInv(c: Config, s: State, h: nat)
    requires Inv(c, s) && h < c.Hosts() && ClientStep(c, s, SendRequest(h, true)).Some?
    ensures Inv(c, ClientStep(c, s, SendRequest(h, true)).value)
  {
    var s' := ClientStep(c, s, SendRequest(h, true)).value;
    assert HostInv(c, s, h) && ConnInv(c, s, s.clients[h].conn);
    KeepsInv(c, s, s', h, s.clients[h].conn);
  }

  lemma ReplyInv(c: Config, s: State, h: nat)
    requires Inv(c, s) && h < c.Hosts() && ClientStep(c, s, ReadReply(h)).Some?
    ensures Inv(c, ClientStep(c, s, ReadReply(h)).value)
  {
    var s' := ClientStep(c, s, ReadReply(h)).value;
    assert HostInv(c, s, h);
    assert s'.clients[h] == Done(Connected) ==> Answered(c, s', h);
    KeepsInv(c, s, s', h, |s'.conns|);
  }

  lemma ClientStepInv(c: Config, s: State, step: Step)
    requires Inv(c, s) && step.host < c.Hosts() && ClientStep(c, s, step).Some?
    ensures Inv(c, ClientStep(c, s, step).value)
  {
    var h := step.host;
    if step.Dial? {
      DialInv(c, s, h, step.target);
    } else if step.SendRequest? && step.ok {
      SendInv(c, s, h);
    } else if step.ReadReply? {
      ReplyInv(c, s, h);
    } else {
      var s' := ClientStep(c, s, step).value;
      assert HostInv(c, s, h);
      assert s'.conns == s.conns && s'.clients[h] != Done(Connected);
      KeepsInv(c, s, s', h, |s'.conns|);
    }
  }

  lemma ServerStepInv(c: Config, s: State, step: Step)
    requires Inv(c, s) && step.host < c.Hosts() && ServerStep(c, s, step).Some?
    ensures Inv(c, ServerStep(c, s, step).value)
  {
    var h, s' := step.host, ServerStep(c, s, step).value;
    assert HostInv(c, s, h);
    AnsweredStays(c, s, s', h);
    if step.Accept? {
      assert ConnInv(c, s, step.conn);
      KeepsInv(c, s, s', h, step.conn);
    } else if step.WriteResponse? && step.ok {
      assert ConnInv(c, s, s.servers[h].conn);
      KeepsInv(c, s, s', h, s.servers[h].conn);
    } else {
      KeepsInv(c, s, s', h, |s'.conns|);
    }
  }

  lemma NextInv(c: Config, s: State, step: Step)
    requires Inv(c, s) && Next(c, s, step).Some?
    ensures Inv(c, Next(c, s, step).value)
  {
    if step.Accept? || step.ReadRequest? || step.ReadRequestFails? || step.WriteResponse? {
      ServerStepInv(c, s, step);
    } else {
      ClientStepInv(c, s, step);
    }
  }

  lemma {:induction false} ExecInv(c: Config, s: State, schedule: seq<Step>)
    requires Inv(c, s) && Exec(c, s, schedule).Some?
    ensures Inv(c, Exec(c, s, schedule).value)
    decreases |schedule|
  {
    if schedule != [] {
      NextInv(c, s, schedule[0]);
      ExecInv(c, Next(c, s, schedule[0]).value, schedule[1..]);
    }
  }

  lemma ReachableInv(c: Config, s: State)
    requires c.Valid() && Reachable(c, s)
    ensures Inv(c, s)
  {
    var schedule :| Exec(c, Init(c), schedule) == Some(s);
    assert Inv(c, Init(c));
    ExecInv(c, Init(c), schedule);
  }

  /** This host's own server read this host's request token and wrote its response token, on a
      connection this host made. */
  ghost predicate Genuine(c: Config, s: State, h: nat)
    requires h < |c.requests| == |c.responses|
  {
    exists k :: 0 <= k < |s.conns| && s.conns[k].client == h && s.conns[k].server == h &&
                s.conns[k].request == Some(c.requests[h]) && s.conns[k].response == Some(c.responses[h])
  }

  /** A host that has returned "connected" was answered by its own server, whatever the balancer
      did, unless its tokens can be confused with another host's. */
  lemma ConnectedIsGenuine(c: Config, s: State, h: nat)
    requires c.Valid() && c.NoneConfusable()
    requires Reachable(c, s) && h < c.Hosts() && |s.clients| == c.Hosts() && s.clients[h] == Done(Connected)
    ensures Genuine(c, s, h)
  {
    ReachableInv(c, s);
    assert HostInv(c, s, h);
    var k :| 0 <= k < |s.conns| && s.conns[k].client == h && s.conns[k].response.Some? &&
             Recognises(c.responses[h], s.conns[k].response.value);
    assert ConnInv(c, s, k);
    assert h != s.conns[k].server ==> !c.Confusable(h, s.conns[k].server);
  }

  predicate AnsweredBy(s: State, k: nat, h: nat)
    requires k < |s.conns|
  {
    s.conns[k].server == h && s.conns[k].response.Some?
  }

  /** No server writes its response successfully more than once in a run. */
  lemma ServersAnswerAtMostOnce(c: Config, s: State, h: nat)
    requires c.Valid() && Reachable(c, s) && h < c.Hosts()
    ensures |s.writes| == c.Hosts() && s.writes[h] <= 1
    ensures forall j, k :: 0 <= j < |s.conns| && 0 <= k < |s.conns| && AnsweredBy(s, j, h) && AnsweredBy(s, k, h) ==>
              j == k
  {
    ReachableInv(c, s);
    assert HostInv(c, s, h);
    forall k | 0 <= k < |s.conns|
      ensures AnsweredBy(s, k, h) ==> s.servers[h] == Stopped(k)
    {
      assert ConnInv(c, s, k);
    }
  }

  /** Host t can still answer a new connection: its check has not begun, or is still listening and its
      server has not written its one response. */
  predicate MayAnswer(s: State, t: nat)
    requires t < |s.clients| == |s.servers|
  {
    s.clients[t].NotStarted? || (!s.clients[t].Done? && !s.servers[t].Stopped?)
  }

  /** The server of host t is at the connection that host h holds, or stopped at it. */
  predicate Answering(s: State, h: nat, t: nat)
    requires h < |s.clients| && t < |s.servers|
  {
    && (s.clients[h].Sending? || s.clients[h].Awaiting?)
    && !s.servers[t].NotListening? && !s.servers[t].Accepting?
    && s.servers[t].conn == s.clients[h].conn
  }

  /** Host t can connect host h: it is h itself or can be confused with it, and can answer it. */
  predicate Connects(c: Config, s: State, h: nat, t: nat)
    requires WellFormed(c, s) && h < c.Hosts()
  {
    t < c.Hosts() && c.Confusable(h, t) && (MayAnswer(s, t) || Answering(s, h, t))
  }

  /** The host is connected, or has not returned and some host can connect it. */
  ghost predicate CanConnect(c: Config, s: State, h: nat)
    requires WellFormed(c, s) && h < c.Hosts()
  {
    s.clients[h] == Done(Connected) || (!s.clients[h].Done? && exists t: nat :: Connects(c, s, h, t))
  }

  /** When no two hosts can be confused that is: its server's one response is still to be written, or
      is the one that the host is waiting for. */
  lemma CanConnectAlone(c: Config, s: State, h: nat)
    requires Inv(c, s) && c.NoneConfusable() && h < c.Hosts()
    ensures CanConnect(c, s, h) <==>
            || s.clients[h] == Done(Connected)
            || (!s.clients[h].Done? && (!s.servers[h].Stopped? || s.clients[h] == Awaiting(s.servers[h].conn)))
  {
    assert HostInv(c, s, h);
    RecognisesItself(c.requests[h], c.requests[h]);
    RecognisesItself(c.responses[h], c.responses[h]);
    if s.servers[h].Stopped? {
      assert ConnInv(c, s, s.servers[h].conn);
    }
    forall t: nat | t < c.Hosts() && t != h
      ensures !Connects(c, s, h, t)
    {
      assert !c.Confusable(h, t);
    }
    assert Connects(c, s, h, h) <==> MayAnswer(s, h) || Answering(s, h, h);
  }

  lemma StaysLost(c: Config, s: State, step: Step, h: nat)
    requires Inv(c, s) && h < c.Hosts() && !CanConnect(c, s, h)
    requires Next(c, s, step).Some?
    ensures Inv(c, Next(c, s, step).value) && !CanConnect(c, Next(c, s, step).value, h)
  {
    NextInv(c, s, step);
    var s' := Next(c, s, step).value;
    if !s.clients[h].Done? {
      forall t: nat
        ensures !Connects(c, s', h, t)
      {
        if t < c.Hosts() && c.Confusable(h, t) {
          assert !Connects(c, s, h, t);
          NoLongerConnects(c, s, step, h, t);
        }
      }
      NotConnectedNow(c, s, step, h);
    }
  }

  lemma NoLongerConnects(c: Config, s: State, step: Step, h: nat, t: nat)
    requires Inv(c, s) && h < c.Hosts() && t < c.Hosts() && !MayAnswer(s, t) && !Answering(s, h, t)
    requires Next(c, s, step).Some?
    ensures var s' := Next(c, s, step).value;
            && |s'.clients| == |s'.servers| == c.Hosts()
            && !MayAnswer(s', t) && !Answering(s', h, t)
  {
    if step.Accept? || step.ReadRequest? || step.ReadRequestFails? || step.WriteResponse? {
      ServerNoLongerConnects(c, s, step, h, t);
    } else {
      ClientNoLongerConnects(c, s, step, h, t);
    }
  }

  lemma ServerNoLongerConnects(c: Config, s: State, step: Step, h: nat, t: nat)
    requires Inv(c, s) && h < c.Hosts() && t < c.Hosts() && !MayAnswer(s, t) && !Answering(s, h, t)
    requires step.host < c.Hosts() && ServerStep(c, s, step).Some?
    ensures var s' := ServerStep(c, s, step).value;
            && |s'.clients| == |s'.servers| == c.Hosts()
            && !MayAnswer(s', t) && !Answering(s', h, t)
  {
    var s' := ServerStep(c, s, step).value;
    assert s'.clients == s.clients;
    assert step.host != t ==> s'.servers[t] == s.servers[t];
  }

  lemma ClientNoLongerConnects(c: Config, s: State, step: Step, h: nat, t: nat)
    requires Inv(c, s) && h < c.Hosts() && t < c.Hosts() && !MayAnswer(s, t) && !Answering(s, h, t)
    requires step.host < c.Hosts() && ClientStep(c, s, step).Some?
    ensures var s' := ClientStep(c, s, step).value;
            && |s'.clients| == |s'.servers| == c.Hosts()
            && !MayAnswer(s', t) && !Answering(s', h, t)
  {
    var s' := ClientStep(c, s, step).value;
    assert s'.servers[t] == s.servers[t] || step == Start(t);
    assert step.host != h ==> s'.clients[h] == s.clients[h];
  }

  /** A host that nobody can connect does not become connected in this step. */
  lemma NotConnectedNow(c: Config, s: State, step: Step, h: nat)
    requires Inv(c, s) && h < c.Hosts() && !CanConnect(c, s, h)
    requires Next(c, s, step).Some? && |Next(c, s, step).value.clients| == c.Hosts()
    ensures Next(c, s, step).value.clients[h] != Done(Connected)
  {
    assert HostInv(c, s, h);
    if step == ReadReply(h) && s.clients[h].Awaiting? {
      var k := s.clients[h].conn;
      assert ConnInv(c, s, k);
      assert !Connects(c, s, h, s.conns[k].server);
    }
  }

  /** A server stops after its first response. A host that is not connected, and that no host can
      connect any more, can only time out or fail, whatever happens afterwards. */
  lemma {:induction false} LostResponseIsFinal(c: Config, s: State, schedule: seq<Step>, h: nat)
    requires Inv(c, s) && h < c.Hosts() && !CanConnect(c, s, h)
    requires Exec(c, s, schedule).Some?
    ensures var s' := Exec(c, s, schedule).value;
            |s'.clients| == c.Hosts() && s'.clients[h] != Done(Connected)
    decreases |schedule|
  {
    if schedule == [] {
    } else {
      StaysLost(c, s, schedule[0], h);
      LostResponseIsFinal(c, Next(c, s, schedule[0]).value, schedule[1..], h);
    }
  }

  lemma {:induction false} ExecAppend(c: Config, s: State, first: seq<Step>, rest: seq<Step>)
    requires Exec(c, s, first).Some?
    ensures Exec(c, s, first + rest) == Exec(c, Exec(c, s, first).value, rest)
    decreases |first|
  {
    if first == [] {
      assert first + rest == rest;
    } else {
      assert (first + rest)[1..] == first[1..] + rest;
      ExecAppend(c, Next(c, s, first[0]).value, first[1..], rest);
    }
  }

  lemma ExecTwo(c: Config, s: State, a: Step, b: Step, s': State)
    requires Next(c, s, a).Some? && Next(c, Next(c, s, a).value, b) == Some(s')
    ensures Exec(c, s, [a, b]) == Some(s')
  {
    ExecOne(c, Next(c, s, a).value, b, s');
    assert [a, b][1..] == [b];
  }

  lemma ExecOne(c: Config, s: State, a: Step, s': State)
    requires Next(c, s, a) == Some(s')
    ensures Exec(c, s, [a]) == Some(s')
  {
    assert [a][1..] == [];
  }

  /** Host h asks host t. */
  lemma Ask(c: Config, s: State, h: nat, t: nat) returns (s': State)
    requires Inv(c, s) && h < c.Hosts() && t < c.Hosts() && s.clients[h].Dialing? && Listening(s, t)
    ensures Exec(c, s, [Dial(h, t), SendRequest(h, true)]) == Some(s') && Inv(c, s')
    ensures s' == s.(clients := s.clients[h := Awaiting(|s.conns|)],
                     conns := s.conns + [Conn(h, t, false, Some(c.requests[h]), None)])
  {
    DialInv(c, s, h, t);
    var dialled := Next(c, s, Dial(h, t)).value;
    SendInv(c, dialled, h);
    s' := Next(c, dialled, SendRequest(h, true)).value;
    ExecTwo(c, s, Dial(h, t), SendRequest(h, true), s');
  }

  /** Host t answers a request that it takes for its own. */
  lemma Answer(c: Config, s: State, t: nat, k: nat) returns (s': State)
    requires Inv(c, s) && t < c.Hosts() && k < |s.conns| && s.servers[t].Accepting? && Listening(s, t)
    requires s.conns[k].server == t && !s.conns[k].accepted && s.conns[k].request.Some?
    requires Recognises(c.requests[t], s.conns[k].request.value)
    ensures Exec(c, s, [Accept(t, k), ReadRequest(t)] + [WriteResponse(t, true)]) == Some(s') && Inv(c, s')
    ensures s'.clients == s.clients && s'.servers == s.servers[t := Stopped(k)]
    ensures s'.conns == s.conns[k := s.conns[k].(accepted := true, response := Some(c.responses[t]))]
  {
    NextInv(c, s, Accept(t, k));
    var accepted := Next(c, s, Accept(t, k)).value;
    NextInv(c, accepted, ReadRequest(t));
    var read := Next(c, accepted, ReadRequest(t)).value;
    NextInv(c, read, WriteResponse(t, true));
    s' := Next(c, read, WriteResponse(t, true)).value;
    ExecTwo(c, s, Accept(t, k), ReadRequest(t), read);
    ExecOne(c, read, WriteResponse(t, true), s');
    ExecAppend(c, s, [Accept(t, k), ReadRequest(t)], [WriteResponse(t, true)]);
  }

  /** A fresh attempt of host h that is routed to a host t whose tokens it confuses with its
      own, or to itself, connects it. */
  lemma RouteConnects(c: Config, s: State, h: nat, t: nat) returns (schedule: seq<Step>, s': State)
    requires Inv(c, s) && h < c.Hosts() && t < c.Hosts()
    requires s.clients[h].Dialing? && s.servers[t].Accepting? && Listening(s, t) && c.Confusable(h, t)
    ensures Exec(c, s, schedule) == Some(s') && |s'.clients| == c.Hosts() && s'.clients[h] == Done(Connected)
    ensures |s'.conns| == |s.conns| + 1 && s'.conns[|s.conns|].server == t
    ensures forall k :: 0 <= k < |s.conns| ==> s'.conns[k] == s.conns[k]
  {
    var k := |s.conns|;
    var asked := Ask(c, s, h, t);
    var answered := Answer(c, asked, t, k);
    ReplyInv(c, answered, h);
    s' := Next(c, answered, ReadReply(h)).value;
    ExecOne(c, answered, ReadReply(h), s');
    var asking := [Dial(h, t), SendRequest(h, true)];
    var answering := [Accept(t, k), ReadRequest(t)] + [WriteResponse(t, true)];
    ExecAppend(c, asked, answering, [ReadReply(h)]);
    ExecAppend(c, s, asking, answering + [ReadReply(h)]);
    schedule := asking + (answering + [ReadReply(h)]);
  }

  /** How far host h is from a fresh attempt, and host t from answering it. */
  function Distance(s: State, h: nat, t: nat): nat
    requires h < |s.clients| && t < |s.servers|
  {
    (if s.clients[h].Dialing? then 0 else 1) + (if s.servers[t].Accepting? then 0 else 1)
  }

  /** A step that brings them closer. */
  function Closer(s: State, h: nat, t: nat): Step
    requires h < |s.clients| && t < |s.servers|
  {
    match (s.clients[h], s.servers[t])
    case (NotStarted, _) => Start(h)
    case (Sending(_), _) => SendRequest(h, false)
    case (Awaiting(_), _) => ReadReplyFails(h)
    case (_, NotListening) => Start(t)
    case (_, Reading(_)) => ReadRequestFails(t)
    case (_, _) => WriteResponse(t, false)
  }

  lemma CloserIsCloser(c: Config, s: State, h: nat, t: nat)
    requires Inv(c, s) && h < c.Hosts() && t < c.Hosts() && !s.clients[h].Done? && MayAnswer(s, t)
    requires Distance(s, h, t) > 0
    ensures Next(c, s, Closer(s, h, t)).Some?
    ensures var s' := Next(c, s, Closer(s, h, t)).value;
            && |s'.clients| == |s'.servers| == c.Hosts()
            && Distance(s', h, t) < Distance(s, h, t) && !s'.clients[h].Done? && MayAnswer(s', t)
  {
    assert HostInv(c, s, h) && HostInv(c, s, t);
  }

  /** A host that may answer can be made to. */
  lemma {:induction false} FreshAttempt(c: Config, s: State, h: nat, t: nat) returns (schedule: seq<Step>)
    requires Inv(c, s) && h < c.Hosts() && t < c.Hosts() && !s.clients[h].Done?
    requires MayAnswer(s, t) && c.Confusable(h, t)
    ensures Exec(c, s, schedule).Some? && |Exec(c, s, schedule).value.clients| == c.Hosts()
    ensures Exec(c, s, schedule).value.clients[h] == Done(Connected)
    decreases Distance(s, h, t)
  {
    assert HostInv(c, s, t);
    if Distance(s, h, t) == 0 {
      var s';
      schedule, s' := RouteConnects(c, s, h, t);
    } else {
      var step := Closer(s, h, t);
      CloserIsCloser(c, s, h, t);
      NextInv(c, s, step);
      var rest := FreshAttempt(c, Next(c, s, step).value, h, t);
      ExecOne(c, s, step, Next(c, s, step).value);
      ExecAppend(c, s, [step], rest);
      schedule := [step] + rest;
    }
  }

  /** How far a connection is from its reply. */
  function Ahead(s: State, h: nat, t: nat): nat
    requires h < |s.clients| && t < |s.servers|
  {
    (if s.clients[h].Sending? then 1 else 0)
    + (if s.servers[t].Stopped? then 0 else if s.servers[t].Writing? then 1 else 2)
  }

  /** A step towards it. */
  function Onwards(s: State, h: nat, t: nat): Step
    requires h < |s.clients| && t < |s.servers|
  {
    if s.clients[h].Sending? then SendRequest(h, true)
    else if s.servers[t].Reading? then ReadRequest(t)
    else WriteResponse(t, true)
  }

  lemma OnwardsIsOnwards(c: Config, s: State, h: nat, t: nat)
    requires Inv(c, s) && h < c.Hosts() && t < c.Hosts() && Answering(s, h, t) && c.Confusable(h, t)
    requires Ahead(s, h, t) > 0
    ensures Next(c, s, Onwards(s, h, t)).Some?
    ensures var s' := Next(c, s, Onwards(s, h, t)).value;
            && |s'.clients| == |s'.servers| == c.Hosts()
            && Ahead(s', h, t) < Ahead(s, h, t) && Answering(s', h, t)
  {
    assert HostInv(c, s, h) && HostInv(c, s, t);
    assert ConnInv(c, s, s.clients[h].conn);
  }

  lemma ReplyIsThere(c: Config, s: State, h: nat, t: nat)
    requires Inv(c, s) && h < c.Hosts() && t < c.Hosts() && Answering(s, h, t) && c.Confusable(h, t)
    requires Ahead(s, h, t) == 0
    ensures Next(c, s, ReadReply(h)).Some? && |Next(c, s, ReadReply(h)).value.clients| == c.Hosts()
    ensures Next(c, s, ReadReply(h)).value.clients[h] == Done(Connected)
  {
    assert HostInv(c, s, h) && HostInv(c, s, t);
    assert ConnInv(c, s, s.clients[h].conn);
  }

  /** A host that is answering can finish. */
  lemma {:induction false} AnswerFinishes(c: Config, s: State, h: nat, t: nat) returns (schedule: seq<Step>)
    requires Inv(c, s) && h < c.Hosts() && t < c.Hosts() && Answering(s, h, t) && c.Confusable(h, t)
    ensures Exec(c, s, schedule).Some? && |Exec(c, s, schedule).value.clients| == c.Hosts()
    ensures Exec(c, s, schedule).value.clients[h] == Done(Connected)
    decreases Ahead(s, h, t)
  {
    if Ahead(s, h, t) == 0 {
      ReplyIsThere(c, s, h, t);
      schedule := [ReadReply(h)];
      ExecOne(c, s, ReadReply(h), Next(c, s, ReadReply(h)).value);
    } else {
      var step := Onwards(s, h, t);
      OnwardsIsOnwards(c, s, h, t);
      NextInv(c, s, step);
      var rest := AnswerFinishes(c, Next(c, s, step).value, h, t);
      ExecOne(c, s, step, Next(c, s, step).value);
      ExecAppend(c, s, [step], rest);
      schedule := [step] + rest;
    }
  }

  /** The condition of LostResponseIsFinal is exact: any other host can still be connected. */
  lemma OthersCanStillConnect(c: Config, s: State, h: nat) returns (schedule: seq<Step>)
    requires Inv(c, s) && h < c.Hosts() && CanConnect(c, s, h)
    ensures Exec(c, s, schedule).Some? && |Exec(c, s, schedule).value.clients| == c.Hosts()
    ensures Exec(c, s, schedule).value.clients[h] == Done(Connected)
  {
    if s.clients[h] == Done(Connected) {
      schedule := [];
    } else {
      var t: nat :| Connects(c, s, h, t);
      if Answering(s, h, t) {
        schedule := AnswerFinishes(c, s, h, t);
      } else {
        schedule := FreshAttempt(c, s, h, t);
      }
    }
  }

  /** Confusable tokens do break the promise: some run connects a host that its own server has
      not answered. */
  lemma ConfusionBreaksThePromise(c: Config, i: nat, j: nat) returns (s: State)
    requires c.Valid() && i < c.Hosts() && j < c.Hosts() && i != j && c.Confusable(i, j)
    ensures Reachable(c, s) && |s.clients| == c.Hosts() && s.clients[i] == Done(Connected) && !Genuine(c, s, i)
  {
    var started := StartBoth(c, i, j);
    var schedule;
    schedule, s := RouteConnects(c, started, i, j);
    var start := [Start(i), Start(j)];
    ExecAppend(c, Init(c), start, schedule);
    NotByItself(c, s, i);
  }

  lemma NotByItself(c: Config, s: State, h: nat)
    requires h < |c.requests| == |c.responses| && |s.conns| == 1 && s.conns[0].server != h
    ensures !Genuine(c, s, h)
  {
  }

  /** Host h has returned "connected" in a run that leads to s. */
  ghost predicate ReturnsConnected(c: Config, s: State, h: nat) {
    Reachable(c, s) && h < c.Hosts() && |s.clients| == c.Hosts() && s.clients[h] == Done(Connected)
  }

  /** So the promise is kept in every run exactly when no two hosts can be confused. */
  lemma PromiseIff(c: Config)
    requires c.Valid()
    ensures (forall s, h: nat :: ReturnsConnected(c, s, h) ==> Genuine(c, s, h)) <==> c.NoneConfusable()
  {
    if c.NoneConfusable() {
      forall s, h: nat | ReturnsConnected(c, s, h)
        ensures Genuine(c, s, h)
      {
        ConnectedIsGenuine(c, s, h);
      }
    } else {
      var i, j :| 0 <= i < c.Hosts() && 0 <= j < c.Hosts() && i != j && c.Confusable(i, j);
      var s := ConfusionBreaksThePromise(c, i, j);
      assert ReturnsConnected(c, s, i);
    }
  }

  lemma StartBoth(c: Config, i: nat, j: nat) returns (s: State)
    requires c.Valid() && i < c.Hosts() && j < c.Hosts() && i != j
    ensures Exec(c, Init(c), [Start(i), Start(j)]) == Some(s) && Inv(c, s)
    ensures s.clients[i].Dialing? && s.servers[j].Accepting? && Listening(s, j) && s.conns == []
  {
    assert Inv(c, Init(c));
    NextInv(c, Init(c), Start(i));
    var first := Next(c, Init(c), Start(i)).value;
    NextInv(c, first, Start(j));
    s := Next(c, first, Start(j)).value;
    ExecTwo(c, Init(c), Start(i), Start(j), s);
  }
}
