/** The file-server protocol: any number of clients calling fsipc (lib/file.c) and the loop in serve (fs/serv.c). */
module FileServer {
  import opened Base

  /** What a page holds; only its identity matters to the protocol. */
  type Content = seq<int>

  /** A request: its code, the argument page as filled in by the client, and whether a page is wanted back. */
  datatype Request = Request(code: int, args: Content, wants: bool)

  /** What a handler produces: a result, the argument page as it leaves it, and perhaps a page to share. */
  datatype Reply = Reply(value: int, out: Content, page: Option<nat>)

  /** The env_ipc_* fields of an environment, and the page mapped by the last message. */
  datatype Mail = Mail(recving: bool, wants: bool, value: int, from: nat, perm: bool, got: Option<nat>)

  datatype ClientPc =
    | Idle          // outside fsipc
    | Sending       // in the retry loop of ipc_send
    | Sent          // between ipc_send and sys_ipc_recv
    | Receiving     // in sys_ipc_recv, or woken from it

  /** A client, its fsipcbuf page, and the history of its requests. */
  datatype Client = Client(pc: ClientPc, mail: Mail, buf: Content, code: int, wants: bool,
                           issued: seq<Request>, handled: seq<Reply>, received: seq<Reply>)

  datatype ServerPc =
    | ToRecv                                // about to call sys_ipc_recv
    | Listening                             // in sys_ipc_recv, or woken from it
    | Handling(whom: nat, code: int)        // in a handler
    | Replying(whom: nat, value: int, page: Option<nat>)   // in the retry loop of ipc_send
    | Unmapping                             // about to unmap fsreq

  /** The server, and whose argument page is mapped at fsreq. */
  datatype Server = Server(pc: ServerPc, mail: Mail, fsreq: Option<nat>)

  datatype State = State(server: Server, clients: seq<Client>)

  datatype Step =
    | Ask(c: nat, req: Request)             // a library call fills fsipcbuf and enters fsipc
    | ClientSend(c: nat)                    // one sys_ipc_try_send to the server
    | ClientRecv(c: nat)
    | ClientWake(c: nat)                    // ipc_recv returns, and fsipc with it
    | ServerRecv
    | ServerWake                            // ipc_recv returns in serve
    | Handle(reply: Reply)                  // a handler runs: any handler, so any reply
    | ServerSend                            // one sys_ipc_try_send to the client
    | Unmap

  // ---- steps ----

  predicate Enabled(s: State, t: Step) {
    match t
    case Ask(c, _) => c < |s.clients| && s.clients[c].pc == Idle
    case ClientSend(c) => c < |s.clients| && s.clients[c].pc == Sending
    case ClientRecv(c) => c < |s.clients| && s.clients[c].pc == Sent
    case ClientWake(c) => c < |s.clients| && s.clients[c].pc == Receiving && !s.clients[c].mail.recving
    case ServerRecv => s.server.pc == ToRecv
    case ServerWake => s.server.pc == Listening && !s.server.mail.recving
    case Handle(_) => s.server.pc.Handling?
    case ServerSend => s.server.pc.Replying?
    case Unmap => s.server.pc == Unmapping
  }

  function SetClient(s: State, c: nat, d: Client): State
    requires c < |s.clients|
  {
    s.(clients := s.clients[c := d])
  }

  function DoAsk(s: State, c: nat, req: Request): State
    requires c < |s.clients|
  {
    var d := s.clients[c];
    SetClient(s, c, d.(pc := Sending, buf := req.args, code := req.code, wants := req.wants,
      issued := d.issued + [req]))
  }

  /** sys_ipc_try_send to the server, with the argument page: nothing happens unless it is receiving. */
  function DoClientSend(s: State, c: nat): State
    requires c < |s.clients|
  {
    var d := s.clients[c];
    if !s.server.mail.recving then s
    else
      var moved := s.server.mail.wants;
      var mail := s.server.mail.(value := d.code, from := c, perm := s.server.mail.perm || moved, recving := false);
      var fsreq := if moved then Some(c) else s.server.fsreq;
      SetClient(s, c, d.(pc := Sent)).(server := s.server.(mail := mail, fsreq := fsreq))
  }

  function DoClientRecv(s: State, c: nat): State
    requires c < |s.clients|
  {
    var d := s.clients[c];
    SetClient(s, c, d.(pc := Receiving, mail := d.mail.(recving := true, wants := d.wants)))
  }

  /** fsipc returns the value received; what came back in the argument page and as a page is there to see. */
  function DoClientWake(s: State, c: nat): State
    requires c < |s.clients|
  {
    var d := s.clients[c];
    var page := if d.wants then d.mail.got else None;
    SetClient(s, c, d.(pc := Idle, received := d.received + [Reply(d.mail.value, d.buf, page)]))
  }

  function DoServerRecv(s: State): State {
    s.(server := s.server.(pc := Listening, mail := s.server.mail.(recving := true, wants := true)))
  }

  /** A message without an argument page is left hanging. */
  function DoServerWake(s: State): State {
    var m := s.server.mail;
    s.(server := s.server.(pc := if m.perm then Handling(m.from, m.value) else ToRecv))
  }

  /** The handler answers whom, through the page mapped at fsreq. */
  function DoHandle(s: State, r: Reply): State
    requires s.server.pc.Handling?
  {
    var whom := s.server.pc.whom;
    var t := s.(server := s.server.(pc := Replying(whom, r.value, r.page)));
    var u := if s.server.fsreq.Some? && s.server.fsreq.value < |t.clients|
             then SetClient(t, s.server.fsreq.value, t.clients[s.server.fsreq.value].(buf := r.out)) else t;
    if whom < |u.clients| then SetClient(u, whom, u.clients[whom].(handled := u.clients[whom].handled + [r])) else u
  }

  /** sys_ipc_try_send to the client: value, and the page if both sides want one moved. */
  function DoServerSend(s: State): State
    requires s.server.pc.Replying?
  {
    var whom := s.server.pc.whom;
    if whom >= |s.clients| || !s.clients[whom].mail.recving then s
    else
      var d := s.clients[whom];
      var moved := s.server.pc.page.Some? && d.mail.wants;
      var mail := d.mail.(value := s.server.pc.value, recving := false, perm := d.mail.perm || moved,
                          got := if moved then s.server.pc.page else None);
      SetClient(s, whom, d.(mail := mail)).(server := s.server.(pc := Unmapping))
  }

  function DoUnmap(s: State): State { s.(server := s.server.(pc := ToRecv, fsreq := None)) }

  function Do(s: State, t: Step): State
    requires Enabled(s, t)
  {
    match t
    case Ask(c, req) => DoAsk(s, c, req)
    case ClientSend(c) => DoClientSend(s, c)
    case ClientRecv(c) => DoClientRecv(s, c)
    case ClientWake(c) => DoClientWake(s, c)
    case ServerRecv => DoServerRecv(s)
    case ServerWake => DoServerWake(s)
    case Handle(r) => DoHandle(s, r)
    case ServerSend => DoServerSend(s)
    case Unmap => DoUnmap(s)
  }

  // ---- what holds between steps ----

  /** The client whose request is with the server and not yet answered. */
  ghost function Engaged(s: Server): Option<nat> {
    match s.pc
    case Listening => if s.mail.recving then None else Some(s.mail.from)
    case Handling(whom, _) => Some(whom)
    case Replying(whom, _, _) => Some(whom)
    case _ => None
  }

  /** Its handler has run. */
  predicate Answered(s: Server) { s.pc.Replying? }

  ghost predicate ServerInv(s: Server) {
    && (s.mail.recving ==> s.pc == Listening && s.mail.wants)
    && (s.pc == ToRecv || s.mail.recving ==> s.fsreq == None)
    && (s.pc == Listening && !s.mail.recving ==> s.mail.perm)
    && (Engaged(s).Some? ==> s.fsreq == Engaged(s))
  }

  /** The request at hand is the last one issued, with the arguments still in the page. */
  ghost predicate Pending(d: Client) {
    && |d.issued| == |d.received| + 1
    && d.issued[|d.received|] == Request(d.code, d.issued[|d.received|].args, d.wants)
  }

  /** What a client's history and mail look like at each point of fsipc. */
  ghost predicate ClientInv(s: State, c: nat)
    requires c < |s.clients|
  {
    var d := s.clients[c];
    && |d.received| <= |d.handled| <= |d.issued|
    && (d.mail.recving ==> d.pc == Receiving)
    && (d.pc == Idle ==> |d.issued| == |d.received|)
    && (d.pc != Idle ==> Pending(d))
    && (d.pc == Sending ==> |d.handled| == |d.received| && d.buf == d.issued[|d.received|].args)
    && (d.pc == Sent || (d.pc == Receiving && d.mail.recving) <==> Engaged(s.server) == Some(c))
    && (d.pc == Sent || (d.pc == Receiving && d.mail.recving) ==> Outstanding(s, c))
    && (d.pc == Receiving ==> d.mail.wants == d.wants)
    && (d.pc == Receiving && !d.mail.recving ==> |d.handled| == |d.issued| && Delivered(d))
    && (forall i :: 0 <= i < |d.received| ==> SameReply(d.received[i], d.handled[i], d.issued[i]))
  }

  /** With the server: before the handler the arguments are in place, after it the answer is. */
  ghost predicate Outstanding(s: State, c: nat)
    requires c < |s.clients|
  {
    var d := s.clients[c];
    && Pending(d)
    && (if Answered(s.server)
        then |d.handled| == |d.issued| && var r := d.handled[|d.received|];
             d.buf == r.out && s.server.pc.value == r.value && s.server.pc.page == r.page
        else |d.handled| == |d.received| && d.buf == d.issued[|d.received|].args)
    && (s.server.pc.Handling? ==> s.server.pc.code == d.code)
    && (s.server.pc == Listening ==> s.server.mail.value == d.code)
  }

  /** The answer has arrived. */
  ghost predicate Delivered(d: Client) {
    && Pending(d) && |d.handled| == |d.issued|
    && var r := d.handled[|d.received|];
       d.buf == r.out && d.mail.value == r.value && (d.wants ==> d.mail.got == r.page)
  }

  /** The client received what the handler produced for that request; a page only if it wanted one. */
  predicate SameReply(got: Reply, made: Reply, asked: Request) {
    got.value == made.value && got.out == made.out && got.page == if asked.wants then made.page else None
  }

  ghost predicate Inv(s: State) {
    && ServerInv(s.server)
    && (Engaged(s.server).Some? ==> Engaged(s.server).value < |s.clients|)
    && forall c: nat :: c < |s.clients| ==> ClientInv(s, c)
  }

  ghost predicate Init(s: State) {
    && s.server == Server(ToRecv, s.server.mail, None) && !s.server.mail.recving
    && forall c: nat :: c < |s.clients| ==>
         && s.clients[c].pc == Idle && !s.clients[c].mail.recving
         && s.clients[c].issued == [] && s.clients[c].handled == [] && s.clients[c].received == []
  }

  lemma ClientKeeps(s: State, t: Step)
    requires Inv(s) && Enabled(s, t) && (t.Ask? || t.ClientSend? || t.ClientRecv? || t.ClientWake?)
    ensures Inv(Do(s, t))
  {
    forall d: nat | d < |s.clients| ensures ClientInv(Do(s, t), d) {
      assert ClientInv(s, d) && ClientInv(s, t.c);
    }
  }

  lemma ServerKeeps(s: State, t: Step)
    requires Inv(s) && Enabled(s, t) && (t.ServerRecv? || t.ServerWake? || t.Unmap?)
    ensures Inv(Do(s, t))
  {
    forall d: nat | d < |s.clients| ensures ClientInv(Do(s, t), d) {
      assert ClientInv(s, d);
    }
  }

  lemma HandleKeeps(s: State, r: Reply)
    requires Inv(s) && s.server.pc.Handling?
    ensures Inv(DoHandle(s, r))
  {
    forall d: nat | d < |s.clients| ensures ClientInv(DoHandle(s, r), d) {
      assert ClientInv(s, d);
    }
  }

  lemma ServerSendKeeps(s: State)
    requires Inv(s) && s.server.pc.Replying?
    ensures Inv(DoServerSend(s))
  {
    forall d: nat | d < |s.clients| ensures ClientInv(DoServerSend(s), d) {
      assert ClientInv(s, d) && ClientInv(s, s.server.pc.whom);
    }
  }

  lemma StepKeeps(s: State, t: Step)
    requires Inv(s) && Enabled(s, t)
    ensures Inv(Do(s, t)) && |Do(s, t).clients| == |s.clients|
  {
    match t
    case Handle(r) => HandleKeeps(s, r);
    case ServerSend => ServerSendKeeps(s);
    case Ask(_, _) => ClientKeeps(s, t);
    case ClientSend(_) => ClientKeeps(s, t);
    case ClientRecv(_) => ClientKeeps(s, t);
    case ClientWake(_) => ClientKeeps(s, t);
    case ServerRecv => ServerKeeps(s, t);
    case ServerWake => ServerKeeps(s, t);
    case Unmap => ServerKeeps(s, t);
  }

  // ---- whole runs ----

  ghost predicate Runs(s: State, run: seq<Step>)
    decreases |run|
  {
    run != [] ==> Enabled(s, run[0]) && Runs(Do(s, run[0]), run[1..])
  }

  ghost function After(s: State, run: seq<Step>): State
    requires Runs(s, run)
    decreases |run|
  {
    if run == [] then s else After(Do(s, run[0]), run[1..])
  }

  lemma {:induction false} RunKeeps(s: State, run: seq<Step>)
    requires Inv(s) && Runs(s, run)
    ensures Inv(After(s, run)) && |After(s, run).clients| == |s.clients|
    decreases |run|
  {
    if run != [] {
      StepKeeps(s, run[0]);
      RunKeeps(Do(s, run[0]), run[1..]);
    }
  }

  lemma InitHolds(s: State)
    requires Init(s)
    ensures Inv(s)
  {
  }

  /** What a step asks for client c, what a handler makes for it, and whether fsipc returns to it. */
  function AskedNow(t: Step, c: nat): seq<Request> { if t.Ask? && t.c == c then [t.req] else [] }

  function MadeNow(s: State, t: Step, c: nat): seq<Reply> {
    if t.Handle? && s.server.pc.Handling? && s.server.pc.whom == c then [t.reply] else []
  }

  function ReturnsNow(t: Step, c: nat): nat { if t == ClientWake(c) then 1 else 0 }

  /** The same over a run. */
  function Asked(run: seq<Step>, c: nat): seq<Request> {
    if run == [] then [] else AskedNow(run[0], c) + Asked(run[1..], c)
  }

  ghost function Made(s: State, run: seq<Step>, c: nat): seq<Reply>
    requires Runs(s, run)
    decreases |run|
  {
    if run == [] then [] else MadeNow(s, run[0], c) + Made(Do(s, run[0]), run[1..], c)
  }

  function Returns(run: seq<Step>, c: nat): nat {
    if run == [] then 0 else ReturnsNow(run[0], c) + Returns(run[1..], c)
  }

  /** From d to e a client's history grew by these requests, these replies and so many returns. */
  ghost predicate Grew(d: Client, e: Client, asked: seq<Request>, made: seq<Reply>, n: nat) {
    e.issued == d.issued + asked && e.handled == d.handled + made && |e.received| == |d.received| + n
  }

  lemma GrewTwice(d: Client, e: Client, f: Client, a: seq<Request>, b: seq<Request>, m: seq<Reply>, n: seq<Reply>,
                  k: nat, l: nat)
    requires Grew(d, e, a, m, k) && Grew(e, f, b, n, l)
    ensures Grew(d, f, a + b, m + n, k + l)
  {
    assert d.issued + a + b == d.issued + (a + b) && d.handled + m + n == d.handled + (m + n);
  }

  lemma StepHistory(s: State, t: Step, c: nat)
    requires Inv(s) && Enabled(s, t) && c < |s.clients|
    ensures |Do(s, t).clients| == |s.clients|
    ensures Grew(s.clients[c], Do(s, t).clients[c], AskedNow(t, c), MadeNow(s, t, c), ReturnsNow(t, c))
  {}

  /** The histories are those of the run. */
  lemma {:induction false} RunHistory(s: State, run: seq<Step>, c: nat)
    requires Inv(s) && Runs(s, run) && c < |s.clients|
    ensures |After(s, run).clients| == |s.clients|
    ensures Grew(s.clients[c], After(s, run).clients[c], Asked(run, c), Made(s, run, c), Returns(run, c))
    decreases |run|
  {
    if run != [] {
      var t, rest := run[0], run[1..];
      StepHistory(s, t, c);
      StepKeeps(s, t);
      RunHistory(Do(s, t), rest, c);
      GrewTwice(s.clients[c], Do(s, t).clients[c], After(s, run).clients[c], AskedNow(t, c), Asked(rest, c),
                MadeNow(s, t, c), Made(Do(s, t), rest, c), ReturnsNow(t, c), Returns(rest, c));
    }
  }

  /** What the invariant says of one client. */
  ghost predicate InStep(d: Client) {
    && |d.received| <= |d.handled| <= |d.issued| <= |d.received| + 1
    && forall i :: 0 <= i < |d.received| ==> SameReply(d.received[i], d.handled[i], d.issued[i])
  }

  lemma ClientInStep(s: State, c: nat)
    requires Inv(s) && c < |s.clients|
    ensures InStep(s.clients[c])
  {
    assert ClientInv(s, c);
  }

  lemma HistoryFromStart(d: Client, e: Client, asked: seq<Request>, made: seq<Reply>, n: nat)
    requires d.issued == [] && d.handled == [] && d.received == [] && Grew(d, e, asked, made, n)
    ensures e.issued == asked && e.handled == made && |e.received| == n
  {}

  /**
   * In every run of any number of clients: a client has at most one request outstanding, handlers run at most once per
   * request and in order, replies never outnumber requests, and the i-th call of fsipc returns what the i-th handler
   * run for that client made, which worked on its i-th request.
   */
  lemma ProtocolSafe(s: State, run: seq<Step>, c: nat)
    requires Init(s) && Runs(s, run) && c < |s.clients|
    ensures c < |After(s, run).clients|
    ensures var d, asked, made := After(s, run).clients[c], Asked(run, c), Made(s, run, c);
            && |d.received| == Returns(run, c) <= |made| <= |asked| <= |d.received| + 1
            && forall i :: 0 <= i < |d.received| ==> SameReply(d.received[i], made[i], asked[i])
  {
    InitHolds(s);
    RunKeeps(s, run);
    RunHistory(s, run, c);
    var d := After(s, run).clients[c];
    ClientInStep(After(s, run), c);
    HistoryFromStart(s.clients[c], d, Asked(run, c), Made(s, run, c), Returns(run, c));
  }

  /**
   * No request is left hanging, no client's page stays mapped while the server receives, and the handler works on the
   * arguments of the environment it answers.
   */
  lemma HandlerSeesRequest(s: State, run: seq<Step>)
    requires Init(s) && Runs(s, run)
    ensures var t := After(s, run);
            && (t.server.pc == Listening && !t.server.mail.recving ==> t.server.mail.perm)
            && (t.server.mail.recving ==> t.server.fsreq == None)
            && (t.server.pc.Handling? ==>
                  && t.server.fsreq == Some(t.server.pc.whom) && t.server.pc.whom < |t.clients|
                  && var d, asked := t.clients[t.server.pc.whom], Asked(run, t.server.pc.whom);
                     |asked| > 0 && asked[|asked| - 1] == Request(t.server.pc.code, d.buf, d.wants))
  {
    InitHolds(s);
    RunKeeps(s, run);
    var t := After(s, run);
    if t.server.pc.Handling? {
      assert ClientInv(t, t.server.pc.whom);
      RunHistory(s, run, t.server.pc.whom);
    }
  }

  /** A reply is only ever sent to a client that has sent its request and is in, or on its way to, sys_ipc_recv. */
  lemma ReplyIsAwaited(s: State, run: seq<Step>)
    requires Init(s) && Runs(s, run)
    ensures var t := After(s, run);
            t.server.pc.Replying? ==>
              && t.server.pc.whom < |t.clients|
              && var d := t.clients[t.server.pc.whom]; d.pc == Sent || (d.pc == Receiving && d.mail.recving)
  {
    InitHolds(s);
    RunKeeps(s, run);
    var t := After(s, run);
    if t.server.pc.Replying? { assert ClientInv(t, t.server.pc.whom); }
  }

  // ---- progress ----

  /** An attempt that finds the other side not receiving, and is made again: -E_IPC_NOT_RECV in ipc_send. */
  predicate Retry(s: State, t: Step) {
    || (t.ClientSend? && !s.server.mail.recving)
    || (t.ServerSend? && s.server.pc.Replying?
        && (s.server.pc.whom >= |s.clients| || !s.clients[s.server.pc.whom].mail.recving))
  }

  /** The steps left of the eight a request takes: all of them before it is sent, then only the client's own. */
  function ClientWork(d: Client): nat {
    match d.pc
    case Idle => 0
    case Receiving => 1
    case Sent => 2
    case Sending => 8
  }

  function ServerWork(s: Server): nat {
    match s.pc
    case Listening => if s.mail.recving then 0 else 5
    case Handling(_, _) => 4
    case Replying(_, _, _) => 3
    case Unmapping => 2
    case ToRecv => 1
  }

  function ClientsWork(cs: seq<Client>): nat {
    if cs == [] then 0 else ClientWork(cs[0]) + ClientsWork(cs[1..])
  }

  /** The steps, retries apart, until every request made so far is answered and the server is receiving again. */
  function Work(s: State): nat { ServerWork(s.server) + ClientsWork(s.clients) }

  lemma {:induction false} WorkMoves(cs: seq<Client>, c: nat, d: Client)
    requires c < |cs|
    ensures ClientsWork(cs[c := d]) == ClientsWork(cs) - ClientWork(cs[c]) + ClientWork(d)
  {
    if c == 0 {
      assert cs[c := d][1..] == cs[1..];
    } else {
      assert cs[c := d][1..] == cs[1..][c - 1 := d];
      WorkMoves(cs[1..], c - 1, d);
    }
  }

  lemma HandleWork(s: State, r: Reply)
    requires Inv(s) && s.server.pc.Handling?
    ensures ClientsWork(DoHandle(s, r).clients) == ClientsWork(s.clients)
  {
    var whom := s.server.pc.whom;
    var d := s.clients[whom].(buf := r.out);
    WorkMoves(s.clients, whom, d);
    WorkMoves(s.clients[whom := d], whom, d.(handled := d.handled + [r]));
  }

  lemma ClientStepWorks(s: State, t: Step)
    requires Inv(s) && Enabled(s, t) && (t.Ask? || t.ClientSend? || t.ClientRecv? || t.ClientWake?)
    ensures Retry(s, t) ==> Do(s, t) == s
    ensures Work(Do(s, t)) == Work(s) + if t.Ask? then 8 else if Retry(s, t) then 0 else -1
  {
    WorkMoves(s.clients, t.c, if t.ClientSend? then s.clients[t.c].(pc := Sent) else Do(s, t).clients[t.c]);
  }

  lemma ServerStepWorks(s: State, t: Step)
    requires Inv(s) && Enabled(s, t) && !t.Ask? && !t.ClientSend? && !t.ClientRecv? && !t.ClientWake?
    ensures Retry(s, t) ==> Do(s, t) == s
    ensures Work(Do(s, t)) == Work(s) + if Retry(s, t) then 0 else -1
  {
    match t
    case Handle(r) => HandleWork(s, r);
    case ServerSend => WorkMoves(s.clients, s.server.pc.whom, Do(s, t).clients[s.server.pc.whom]);
    case _ =>
  }

  /** A new request adds eight steps, a retry changes nothing, and every other step takes one away. */
  lemma StepWorks(s: State, t: Step)
    requires Inv(s) && Enabled(s, t)
    ensures Retry(s, t) ==> Do(s, t) == s
    ensures Work(Do(s, t)) == Work(s) + if t.Ask? then 8 else if Retry(s, t) then 0 else -1
  {
    if t.Ask? || t.ClientSend? || t.ClientRecv? || t.ClientWake? {
      ClientStepWorks(s, t);
    } else {
      ServerStepWorks(s, t);
    }
  }

  function Asks(run: seq<Step>): nat {
    if run == [] then 0 else (if run[0].Ask? then 1 else 0) + Asks(run[1..])
  }

  /** The steps of a run that are neither new requests nor retries. */
  ghost function Progress(s: State, run: seq<Step>): nat
    requires Runs(s, run)
    decreases |run|
  {
    if run == [] then 0
    else (if run[0].Ask? || Retry(s, run[0]) then 0 else 1) + Progress(Do(s, run[0]), run[1..])
  }

  /** In every run, the work done and the work left add up to eight steps a request. */
  lemma {:induction false} WorkConserved(s: State, run: seq<Step>)
    requires Inv(s) && Runs(s, run)
    ensures Work(After(s, run)) + Progress(s, run) == Work(s) + 8 * Asks(run)
    decreases |run|
  {
    if run != [] {
      StepKeeps(s, run[0]);
      StepWorks(s, run[0]);
      WorkConserved(Do(s, run[0]), run[1..]);
    }
  }

  /** While work is left, a step that takes one unit of it away is possible. */
  lemma NextStep(s: State) returns (t: Step)
    requires Inv(s) && Work(s) > 0
    ensures Enabled(s, t) && !t.Ask? && !Retry(s, t)
  {
    match s.server.pc
    case ToRecv => t := ServerRecv;
    case Handling(_, _) => t := Handle(Reply(0, [], None));
    case Unmapping => t := Unmap;
    case Listening =>
      if !s.server.mail.recving {
        t := ServerWake;
      } else {
        var c := Busy(s.clients);
        assert ClientInv(s, c);
        t := if s.clients[c].pc == Sending then ClientSend(c) else ClientWake(c);
      }
    case Replying(whom, _, _) =>
      assert ClientInv(s, whom);
      t := if s.clients[whom].pc == Sent then ClientRecv(whom) else ServerSend;
  }

  lemma {:induction false} Busy(cs: seq<Client>) returns (c: nat)
    requires ClientsWork(cs) > 0
    ensures c < |cs| && cs[c].pc != Idle
  {
    if cs[0].pc != Idle {
      c := 0;
    } else {
      c := Busy(cs[1..]);
      c := c + 1;
    }
  }

  lemma {:induction false} NoneBusy(cs: seq<Client>, c: nat)
    requires c < |cs| && ClientsWork(cs) == 0
    ensures cs[c].pc == Idle
  {
    if c > 0 { NoneBusy(cs[1..], c - 1); }
  }

  lemma {:induction false} SomeWork(cs: seq<Client>, c: nat)
    requires c < |cs|
    ensures ClientWork(cs[c]) <= ClientsWork(cs)
  {
    if c > 0 { SomeWork(cs[1..], c - 1); }
  }

  /** While some client is inside fsipc, a step is possible that is no new request and no retry. */
  lemma NeverStuck(s: State, run: seq<Step>, c: nat) returns (t: Step)
    requires Init(s) && Runs(s, run) && c < |s.clients|
    ensures c < |After(s, run).clients|
    ensures After(s, run).clients[c].pc != Idle ==>
      && !t.Ask? && Enabled(After(s, run), t) && !Retry(After(s, run), t)
      && Work(Do(After(s, run), t)) == Work(After(s, run)) - 1
  {
    InitHolds(s);
    RunKeeps(s, run);
    var u := After(s, run);
    t := Unmap;
    if u.clients[c].pc != Idle {
      SomeWork(u.clients, c);
      t := NextStep(u);
      StepWorks(u, t);
    }
  }

  /** The requests of a client are all answered, each with what its handler produced. */
  ghost predicate AllAnswered(d: Client) {
    && d.pc == Idle && |d.received| == |d.handled| == |d.issued|
    && forall i :: 0 <= i < |d.received| ==> SameReply(d.received[i], d.handled[i], d.issued[i])
  }

  /**
   * From any reachable state, a run without new requests makes at most Work steps besides retries, and one
   * that makes so many, in whatever order, has answered every request of every client.
   */
  lemma EveryRequestAnswered(s: State, run: seq<Step>, more: seq<Step>)
    requires Init(s) && Runs(s, run) && Runs(After(s, run), more) && Asks(more) == 0
    ensures var u := After(s, run);
      && Work(u) + Progress(s, run) == 1 + 8 * Asks(run)
      && Progress(u, more) <= Work(u)
      && (Progress(u, more) == Work(u) ==>
            forall c: nat :: c < |After(u, more).clients| ==> AllAnswered(After(u, more).clients[c]))
  {
    InitHolds(s);
    IdleWork(s.clients);
    RunKeeps(s, run);
    WorkConserved(s, run);
    var u := After(s, run);
    RunKeeps(u, more);
    WorkConserved(u, more);
    var w := After(u, more);
    if Work(w) == 0 {
      forall c: nat | c < |w.clients| ensures AllAnswered(w.clients[c]) {
        NoneBusy(w.clients, c);
        assert ClientInv(w, c);
      }
    }
  }

  lemma {:induction false} IdleWork(cs: seq<Client>)
    requires forall c: nat :: c < |cs| ==> cs[c].pc == Idle
    ensures ClientsWork(cs) == 0
  {
    if cs != [] {
      assert forall c: nat :: c < |cs[1..]| ==> cs[1..][c] == cs[c + 1];
      IdleWork(cs[1..]);
    }
  }

  /** And such a run exists. */
  lemma {:induction false} AnswersExist(s: State) returns (more: seq<Step>)
    requires Inv(s)
    ensures Runs(s, more) && Asks(more) == 0 && Progress(s, more) == |more| == Work(s)
    decreases Work(s)
  {
    if Work(s) == 0 {
      more := [];
    } else {
      var t := NextStep(s);
      StepKeeps(s, t);
      StepWorks(s, t);
      var rest := AnswersExist(Do(s, t));
      more := [t] + rest;
      assert more[1..] == rest;
    }
  }
}
