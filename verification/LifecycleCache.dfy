/**
 * The cache of authorization answers: an answer is reused without asking Lifecycle while it is no
 * older than the minimum time-to-live, and, when Lifecycle fails, while it is no older than the
 * maximum. The cache is shown to behave like an append-only log of the stored answers.
 */
module LifecycleCache {
  import opened Wrappers

  // The token stands for its hash, which is taken to be free of collisions.
  datatype Request = Request(jobName: string, jobVersion: string, endpoint: string, token: string)

  type Answer = string

  datatype Entry = Entry(answer: Answer, createdAt: int) {
    predicate Expired(ttl: int, now: int) {
      createdAt + ttl < now
    }
  }

  datatype Ttl = Ttl(min: int, max: int)

  // The maximum covers the minimum, or nothing is ever stored.
  predicate Sane(ttl: Ttl) {
    ttl.min <= ttl.max || ttl.max <= 0
  }

  // ---------------------------------------------------------------------------------------------
  // The log

  datatype Stored = Stored(request: Request, entry: Entry)

  // The answer stored last for a request
  function Latest(log: seq<Stored>, request: Request): Option<Entry> {
    if log == [] then None
    else if log[|log| - 1].request == request then Some(log[|log| - 1].entry)
    else Latest(log[..|log| - 1], request)
  }

  function Young(e: Option<Entry>, ttl: int, now: int): Option<Entry> {
    if e.Some? && !e.value.Expired(ttl, now) then e else None
  }

  // The cache holds the last answer for every request, unless that has outlived the maximum.
  ghost predicate Refines(cached: map<Request, Entry>, log: seq<Stored>, ttl: Ttl, now: int) {
    forall r {:trigger r in cached} {:trigger Latest(log, r)} ::
      var last := Latest(log, r);
      && (r in cached ==> last == Some(cached[r]))
      && (last.Some? ==> last.value.createdAt <= now)
      && (last.Some? && r !in cached ==> last.value.Expired(ttl.max, now))
  }

  lemma RefinesLater(cached: map<Request, Entry>, log: seq<Stored>, ttl: Ttl, now: int, later: int)
    requires Refines(cached, log, ttl, now) && now <= later
    ensures Refines(cached, log, ttl, later)
  {
  }

  lemma PutRefines(cached: map<Request, Entry>, log: seq<Stored>, ttl: Ttl, request: Request, answer: Answer, now: int)
    requires Refines(cached, log, ttl, now)
    ensures Refines(cached[request := Entry(answer, now)], log + [Stored(request, Entry(answer, now))], ttl, now)
  {
  }

  // Dropping answers that have outlived the maximum
  lemma DropRefines(cached: map<Request, Entry>, log: seq<Stored>, ttl: Ttl, dropped: set<Request>, now: int)
    requires Refines(cached, log, ttl, now)
    requires forall r | r in dropped && r in cached :: cached[r].Expired(ttl.max, now)
    ensures Refines(cached - dropped, log, ttl, now)
  {
  }

  // ---------------------------------------------------------------------------------------------
  // The cache, and the one function that uses it

  // What Lifecycle says when asked to authorize a call. NoClient: the request could not even be made.
  datatype Reply = Granted(answer: Answer) | AuthenticationFailure | NotFound | Unavailable | OtherFailure | NoClient

  datatype Response = Served(answer: Answer) | Refused(code: int)

  function ErrorCode(reply: Reply): int
    requires !reply.Granted?
  {
    match reply
    case AuthenticationFailure => 401
    case NotFound => 404
    case Unavailable => 503
    case _ => 500
  }

  // What is answered as soon as a request comes, given the last stored answer for it, if there is one;
  // None means that Lifecycle is asked.
  function AskAnswer(last: Option<Entry>, now: int, ttl: Ttl): Option<Response> {
    if Young(last, ttl.min, now).Some? then Some(Served(last.value.answer)) else None
  }

  // What is answered when Lifecycle's reply comes, given the last answer stored by then
  function ReplyAnswer(last: Option<Entry>, reply: Reply, now: int, ttl: Ttl): Response {
    if reply.Granted? then Served(reply.answer)
    else if !reply.AuthenticationFailure? && !reply.NoClient? && Young(last, ttl.max, now).Some? then Served(last.value.answer)
    else Refused(ErrorCode(reply))
  }

  function Lookup(cached: map<Request, Entry>, r: Request): Option<Entry> {
    if r in cached then Some(cached[r]) else None
  }

  function Dropped(cached: map<Request, Entry>, request: Request, now: int, ttl: Ttl): map<Request, Entry> {
    if request in cached && cached[request].Expired(ttl.max, now) then cached - {request} else cached
  }

  function Cleaned(cached: map<Request, Entry>, now: int, ttl: Ttl): map<Request, Entry> {
    map r | r in cached && !cached[r].Expired(ttl.max, now) :: cached[r]
  }

  // The cache and the log after Lifecycle's reply
  function CacheAfterReply(cached: map<Request, Entry>, request: Request, reply: Reply, now: int, ttl: Ttl): map<Request, Entry> {
    if reply.Granted? then if ttl.max > 0 then cached[request := Entry(reply.answer, now)] else cached
    else if reply.NoClient? then cached
    else Dropped(cached, request, now, ttl)
  }

  function LogAfterReply(log: seq<Stored>, request: Request, reply: Reply, now: int, ttl: Ttl): seq<Stored> {
    if reply.Granted? && ttl.max > 0 then log + [Stored(request, Entry(reply.answer, now))] else log
  }

  class Cache {
    const ttl: Ttl
    var cached: map<Request, Entry>
    ghost var log: seq<Stored>

    ghost predicate Valid(now: int)
      reads this
    {
      Refines(cached, log, ttl, now)
    }

    constructor (ttl: Ttl)
      ensures this.ttl == ttl && cached == map[] && log == []
      ensures forall now :: Valid(now)
    {
      this.ttl := ttl;
      cached := map[];
      log := [];
    }

    method Put(request: Request, answer: Answer, now: int)
      requires Valid(now)
      modifies this
      ensures Valid(now)
      ensures log == old(log) + [Stored(request, Entry(answer, now))]
      ensures cached == old(cached)[request := Entry(answer, now)]
    {
      PutRefines(cached, log, ttl, request, answer, now);
      cached := cached[request := Entry(answer, now)];
      log := log + [Stored(request, Entry(answer, now))];
    }

    method RetrieveResponse(request: Request, now: int) returns (response: Option<Entry>)
      requires Valid(now)
      ensures response == Young(Lookup(cached, request), ttl.min, now)
      ensures ttl.min <= ttl.max || log == [] ==> response == Young(Latest(log, request), ttl.min, now)
    {
      assert request in cached || Latest(log, request).None? || Latest(log, request).value.Expired(ttl.max, now);
      if request in cached && cached[request].Expired(ttl.min, now) {
        return None;
      }
      response := if request in cached then Some(cached[request]) else None;
    }

    method RecoverFailedResponse(request: Request, now: int) returns (response: Option<Entry>)
      requires Valid(now)
      modifies this`cached
      ensures Valid(now)
      ensures response == Young(Latest(log, request), ttl.max, now) == Young(Lookup(old(cached), request), ttl.max, now)
      ensures cached == Dropped(old(cached), request, now, ttl)
    {
      assert request in cached || Latest(log, request).None? || Latest(log, request).value.Expired(ttl.max, now);
      if request in cached && cached[request].Expired(ttl.max, now) {
        DropRefines(cached, log, ttl, {request}, now);
        cached := cached - {request};
        return None;
      }
      response := if request in cached then Some(cached[request]) else None;
    }

    // One round of cleanUpRoutine
    method CleanUp(now: int)
      requires Valid(now)
      modifies this`cached
      ensures Valid(now)
      ensures forall r :: r in cached <==> r in old(cached) && now <= old(cached)[r].createdAt + ttl.max
      ensures cached == Cleaned(old(cached), now, ttl)
    {
      var unseen := cached.Keys;
      while unseen != {}
        invariant unseen <= cached.Keys
        invariant Valid(now)
        invariant cached == map r | r in old(cached) && (r in unseen || !old(cached)[r].Expired(ttl.max, now)) :: old(cached)[r]
        decreases unseen
      {
        var request :| request in unseen;
        if cached[request].Expired(ttl.max, now) {
          DropRefines(cached, log, ttl, {request}, now);
          cached := cached - {request};
        }
        unseen := unseen - {request};
      }
    }

    // getAuthorizedJobDetails up to the call to Lifecycle, which is made if there is no response yet
    method BeginAuthorization(request: Request, now: int) returns (response: Option<Response>)
      requires Valid(now)
      ensures response == AskAnswer(Lookup(cached, request), now, ttl)
    {
      var hit := RetrieveResponse(request, now);
      response := if hit.Some? then Some(Served(hit.value.answer)) else None;
    }

    // getAuthorizedJobDetails from Lifecycle's reply on; anything may have happened to the cache meanwhile
    method FinishAuthorization(request: Request, reply: Reply, now: int) returns (response: Response)
      requires Valid(now)
      modifies this
      ensures Valid(now)
      ensures response == ReplyAnswer(Latest(old(log), request), reply, now, ttl) == ReplyAnswer(Lookup(old(cached), request), reply, now, ttl)
      ensures cached == CacheAfterReply(old(cached), request, reply, now, ttl)
      ensures log == LogAfterReply(old(log), request, reply, now, ttl)
    {
      if reply.NoClient? {
        return Refused(500);
      }
      if !reply.Granted? {
        var recovered := RecoverFailedResponse(request, now);
        if recovered.Some? && !reply.AuthenticationFailure? {
          return Served(recovered.value.answer);
        }
        return Refused(ErrorCode(reply));
      }
      if ttl.max > 0 {
        Put(request, reply.answer, now);
      }
      response := Served(reply.answer);
    }
  }

  // What Latest finds is a stored answer for the request, and none was stored after it.
  lemma {:induction false} LatestIsLast(log: seq<Stored>, request: Request)
    ensures Latest(log, request).None? ==> forall s | s in log :: s.request != request
    ensures Latest(log, request).Some? ==>
      exists i | 0 <= i < |log| :: log[i] == Stored(request, Latest(log, request).value) && forall j | i < j < |log| :: log[j].request != request
  {
    if log != [] {
      var front := log[..|log| - 1];
      assert log == front + [log[|log| - 1]];
      if log[|log| - 1].request != request {
        LatestIsLast(front, request);
      }
    }
  }

  // ---------------------------------------------------------------------------------------------
  // Runs: requests are in flight while Lifecycle is asked, and other requests, replies and clean-ups
  // happen meanwhile.

  datatype Operation = Ask(id: nat, request: Request) | Hear(id: nat, reply: Reply) | Clean

  datatype Event = Event(at: int, op: Operation)

  // `waiting` are the requests that Lifecycle is being asked about, `log` is a history.
  datatype World = World(cached: map<Request, Entry>, log: seq<Stored>, waiting: map<nat, Request>)

  const START := World(map[], [], map[])

  predicate Possible(w: World, e: Event) {
    match e.op
    case Ask(id, _) => id !in w.waiting
    case Hear(id, _) => id in w.waiting
    case Clean => true
  }

  // The response an event gives, if it gives one
  function Output(w: World, e: Event, ttl: Ttl): Option<Response> {
    match e.op
    case Ask(_, r) => AskAnswer(Lookup(w.cached, r), e.at, ttl)
    case Hear(id, reply) =>
      if id in w.waiting then Some(ReplyAnswer(Lookup(w.cached, w.waiting[id]), reply, e.at, ttl)) else None
    case Clean => None
  }

  // The same as it would be with the whole log at hand
  function LogOutput(w: World, e: Event, ttl: Ttl): Option<Response> {
    match e.op
    case Ask(_, r) => AskAnswer(Latest(w.log, r), e.at, ttl)
    case Hear(id, reply) =>
      if id in w.waiting then Some(ReplyAnswer(Latest(w.log, w.waiting[id]), reply, e.at, ttl)) else None
    case Clean => None
  }

  function After(w: World, e: Event, ttl: Ttl): World {
    match e.op
    case Ask(id, r) => if Output(w, e, ttl).None? then w.(waiting := w.waiting[id := r]) else w
    case Hear(id, reply) =>
      if id in w.waiting then
        World(CacheAfterReply(w.cached, w.waiting[id], reply, e.at, ttl), LogAfterReply(w.log, w.waiting[id], reply, e.at, ttl), w.waiting - {id})
      else w
    case Clean => w.(cached := Cleaned(w.cached, e.at, ttl))
  }

  ghost predicate IsRun(run: seq<World>, events: seq<Event>, ttl: Ttl) {
    && |run| == |events| + 1
    && run[0] == START
    && (forall i | 0 <= i < |events| :: Possible(run[i], events[i]) && run[i + 1] == After(run[i], events[i], ttl))
    && (forall i, j | 0 <= i < j < |events| :: events[i].at <= events[j].at)
  }

  // The cache is in step with the log, which stays empty if nothing is to be stored.
  ghost predicate InStep(w: World, ttl: Ttl, now: int) {
    Refines(w.cached, w.log, ttl, now) && (ttl.max <= 0 ==> w.log == [])
  }

  lemma DroppedRefines(cached: map<Request, Entry>, log: seq<Stored>, request: Request, ttl: Ttl, now: int)
    requires Refines(cached, log, ttl, now)
    ensures Refines(Dropped(cached, request, now, ttl), log, ttl, now)
  {
  }

  lemma CleanedRefines(cached: map<Request, Entry>, log: seq<Stored>, ttl: Ttl, now: int)
    requires Refines(cached, log, ttl, now)
    ensures Refines(Cleaned(cached, now, ttl), log, ttl, now)
  {
  }

  lemma EventKeepsInStep(w: World, e: Event, ttl: Ttl, now: int)
    requires InStep(w, ttl, now) && now <= e.at
    ensures InStep(After(w, e, ttl), ttl, e.at)
  {
    RefinesLater(w.cached, w.log, ttl, now, e.at);
    if e.op.Clean? {
      CleanedRefines(w.cached, w.log, ttl, e.at);
    } else if e.op.Hear? && e.op.id in w.waiting {
      var request, reply := w.waiting[e.op.id], e.op.reply;
      if reply.Granted? {
        PutRefines(w.cached, w.log, ttl, request, reply.answer, e.at);
      } else {
        DroppedRefines(w.cached, w.log, request, ttl, e.at);
      }
    }
  }

  lemma {:induction false} RunKeepsInStep(run: seq<World>, events: seq<Event>, i: nat, ttl: Ttl)
    requires IsRun(run, events, ttl) && i < |events|
    ensures InStep(run[i], ttl, events[i].at)
  {
    if i > 0 {
      RunKeepsInStep(run, events, i - 1, ttl);
      EventKeepsInStep(run[i - 1], events[i - 1], ttl, events[i - 1].at);
      RefinesLater(run[i].cached, run[i].log, ttl, events[i - 1].at, events[i].at);
    }
  }

  ghost predicate IsLatest(log: seq<Stored>, request: Request, answer: Answer, maxAge: int, now: int) {
    && Latest(log, request).Some?
    && Latest(log, request).value.answer == answer
    && now - Latest(log, request).value.createdAt <= maxAge
  }

  // What a response that serves an answer may be, in terms of everything stored before it
  ghost predicate IsSound(w: World, e: Event, answer: Answer, ttl: Ttl) {
    match e.op
    case Ask(_, request) => IsLatest(w.log, request, answer, ttl.min, e.at)
    case Hear(_, Granted(own)) => answer == own
    case Hear(id, reply) =>
      id in w.waiting && !reply.AuthenticationFailure? && !reply.NoClient? && IsLatest(w.log, w.waiting[id], answer, ttl.max, e.at)
    case Clean => false
  }

  lemma CachedIsLatest(w: World, request: Request, ttl: Ttl, now: int)
    requires InStep(w, ttl, now)
    ensures Lookup(w.cached, request).Some? ==> Latest(w.log, request) == Lookup(w.cached, request)
    ensures Young(Lookup(w.cached, request), ttl.max, now) == Young(Latest(w.log, request), ttl.max, now)
    ensures Sane(ttl) ==> Young(Lookup(w.cached, request), ttl.min, now) == Young(Latest(w.log, request), ttl.min, now)
  {
    assert request in w.cached || Latest(w.log, request).None? || Latest(w.log, request).value.Expired(ttl.max, now);
  }

  // In every run, every answer that is served is Lifecycle's own reply, or the one stored last for this very
  // request when it was asked, aged at most the minimum, or, only after a failure that is no authentication
  // failure, the one stored last when the failure was handled, aged at most the maximum.
  lemma AnswersAreFreshOrRecent(run: seq<World>, events: seq<Event>, i: nat, answer: Answer, ttl: Ttl)
    requires IsRun(run, events, ttl) && i < |events| && Output(run[i], events[i], ttl) == Some(Served(answer))
    ensures IsSound(run[i], events[i], answer, ttl)
  {
    RunKeepsInStep(run, events, i, ttl);
    var e := events[i];
    CachedIsLatest(run[i], if e.op.Ask? then e.op.request else run[i].waiting[e.op.id], ttl, e.at);
  }

  // Conversely, with the limits in order a request is served at once exactly when the answer stored last for it
  // is aged at most the minimum; otherwise it waits for Lifecycle.
  lemma RecentAnswersAreServedAtOnce(run: seq<World>, events: seq<Event>, i: nat, answer: Answer, ttl: Ttl)
    requires IsRun(run, events, ttl) && i < |events| && events[i].op.Ask? && Sane(ttl)
    ensures var output := Output(run[i], events[i], ttl);
      && (output == Some(Served(answer)) <==> IsLatest(run[i].log, events[i].op.request, answer, ttl.min, events[i].at))
      && (output.Some? ==> output.value.Served?)
      && (output.None? ==> events[i].op.id in run[i + 1].waiting)
  {
    RunKeepsInStep(run, events, i, ttl);
    CachedIsLatest(run[i], events[i].op.request, ttl, events[i].at);
  }

  // The answer served after a failure, if the last one stored is young enough, and the refusal otherwise
  ghost predicate Recovers(w: World, id: nat, now: int, output: Option<Response>, code: int, ttl: Ttl)
    requires id in w.waiting
  {
    && (forall answer: Answer :: output == Some(Served(answer)) <==> IsLatest(w.log, w.waiting[id], answer, ttl.max, now))
    && (output == Some(Refused(code)) || (output.Some? && output.value.Served?))
  }

  // What a waiting request is answered, whatever the limits: Lifecycle's reply if it is one; after a failure
  // of Lifecycle the answer stored last, exactly if it is aged at most the maximum, and otherwise a refusal
  // that tells what failed; a failed authentication is always refused.
  lemma RepliesAreAnswered(run: seq<World>, events: seq<Event>, i: nat, ttl: Ttl)
    requires IsRun(run, events, ttl) && i < |events| && events[i].op.Hear?
    ensures events[i].op.id in run[i].waiting
    ensures var Hear(id, reply) := events[i].op;
      var output := Output(run[i], events[i], ttl);
      match reply
      case Granted(answer) => output == Some(Served(answer))
      case AuthenticationFailure => output == Some(Refused(401))
      case NoClient => output == Some(Refused(500))
      case NotFound => Recovers(run[i], id, events[i].at, output, 404, ttl)
      case Unavailable => Recovers(run[i], id, events[i].at, output, 503, ttl)
      case OtherFailure => Recovers(run[i], id, events[i].at, output, 500, ttl)
  {
    RunKeepsInStep(run, events, i, ttl);
    CachedIsLatest(run[i], run[i].waiting[events[i].op.id], ttl, events[i].at);
  }

  // A granted answer is the last one stored for its request from then on, unless the maximum is not positive;
  // nothing else is ever stored.
  lemma GrantedAnswersAreStored(run: seq<World>, events: seq<Event>, i: nat, r: Request, ttl: Ttl)
    requires IsRun(run, events, ttl) && i < |events|
    ensures var e := events[i];
      Latest(run[i + 1].log, r) ==
        if e.op.Hear? && e.op.reply.Granted? && r == run[i].waiting[e.op.id] && ttl.max > 0 then Some(Entry(e.op.reply.answer, e.at))
        else Latest(run[i].log, r)
  {
    var e := events[i];
    if e.op.Hear? && e.op.reply.Granted? {
      var s := Stored(run[i].waiting[e.op.id], Entry(e.op.reply.answer, e.at));
      assert (run[i].log + [s])[..|run[i].log|] == run[i].log;
    }
  }

  // The i-th event asked for the request under this number, and had nothing to answer it with.
  ghost predicate Asked(run: seq<World>, events: seq<Event>, i: nat, id: nat, request: Request, ttl: Ttl)
    requires i < |events| && i < |run|
  {
    events[i].op == Ask(id, request) && Output(run[i], events[i], ttl).None?
  }

  // Lifecycle is only asked about requests that could not be answered when they came, so a reply belongs to
  // such a request.
  lemma {:induction false} WaitingWasAsked(run: seq<World>, events: seq<Event>, i: nat, id: nat, ttl: Ttl)
    requires IsRun(run, events, ttl) && i < |run| && id in run[i].waiting
    ensures exists j: nat | j < i :: Asked(run, events, j, id, run[i].waiting[id], ttl)
  {
    var e := events[i - 1];
    if e.op.Ask? && e.op.id == id && Output(run[i - 1], e, ttl).None? {
      assert Asked(run, events, i - 1, id, e.op.request, ttl);
    } else {
      WaitingWasAsked(run, events, i - 1, id, ttl);
    }
  }

  // In every run, with the limits in order, the cache responds exactly like the log.
  lemma CacheAnswersLikeLog(run: seq<World>, events: seq<Event>, i: nat, ttl: Ttl)
    requires IsRun(run, events, ttl) && i < |events| && Sane(ttl)
    ensures Output(run[i], events[i], ttl) == LogOutput(run[i], events[i], ttl)
  {
    RunKeepsInStep(run, events, i, ttl);
    EventAnswersLikeLog(run[i], events[i], ttl, events[i].at);
  }

  lemma EventAnswersLikeLog(w: World, e: Event, ttl: Ttl, now: int)
    requires InStep(w, ttl, now) && now <= e.at && Sane(ttl)
    ensures Output(w, e, ttl) == LogOutput(w, e, ttl)
  {
    RefinesLater(w.cached, w.log, ttl, now, e.at);
    if e.op.Ask? {
      CachedIsLatest(w, e.op.request, ttl, e.at);
    } else if e.op.Hear? && e.op.id in w.waiting {
      CachedIsLatest(w, w.waiting[e.op.id], ttl, e.at);
    }
  }

  // ---------------------------------------------------------------------------------------------
  // Runs with and without clean-ups

  ghost predicate Monotone(now: int, events: seq<Event>) {
    && (forall i | 0 <= i < |events| :: now <= events[i].at)
    && (forall i, j | 0 <= i < j < |events| :: events[i].at <= events[j].at)
  }

  predicate AllPossible(w: World, events: seq<Event>, ttl: Ttl)
    decreases |events|
  {
    events == [] || (Possible(w, events[0]) && AllPossible(After(w, events[0], ttl), events[1..], ttl))
  }

  // The responses of all requests and replies, None for a request that has to wait
  function Outputs(w: World, events: seq<Event>, ttl: Ttl): seq<Option<Response>>
    decreases |events|
  {
    if events == [] then []
    else (if events[0].op.Clean? then [] else [Output(w, events[0], ttl)]) + Outputs(After(w, events[0], ttl), events[1..], ttl)
  }

  function WithoutCleanUps(events: seq<Event>): seq<Event> {
    if events == [] then [] else (if events[0].op.Clean? then [] else [events[0]]) + WithoutCleanUps(events[1..])
  }

  // Two worlds with the same log and the same requests in flight
  ghost predicate Alike(w: World, w': World) {
    w.log == w'.log && w.waiting == w'.waiting
  }

  lemma AlikeRespondAlike(w: World, w': World, e: Event, ttl: Ttl, now: int)
    requires Sane(ttl) && InStep(w, ttl, now) && InStep(w', ttl, now) && Alike(w, w') && now <= e.at
    ensures Output(w, e, ttl) == Output(w', e, ttl) && Alike(After(w, e, ttl), After(w', e, ttl))
  {
    EventAnswersLikeLog(w, e, ttl, now);
    EventAnswersLikeLog(w', e, ttl, now);
  }

  lemma {:induction false} CleanUpsAreInvisible(w: World, w': World, events: seq<Event>, ttl: Ttl, now: int)
    requires Sane(ttl) && InStep(w, ttl, now) && InStep(w', ttl, now) && Alike(w, w') && Monotone(now, events)
    ensures Outputs(w, events, ttl) == Outputs(w', WithoutCleanUps(events), ttl)
    decreases |events|
  {
    if events != [] {
      var e := events[0];
      EventKeepsInStep(w, e, ttl, now);
      assert Monotone(e.at, events[1..]);
      if e.op.Clean? {
        RefinesLater(w'.cached, w'.log, ttl, now, e.at);
        CleanUpsAreInvisible(After(w, e, ttl), w', events[1..], ttl, e.at);
        assert WithoutCleanUps(events) == WithoutCleanUps(events[1..]);
      } else {
        EventKeepsInStep(w', e, ttl, now);
        AlikeRespondAlike(w, w', e, ttl, now);
        CleanUpsAreInvisible(After(w, e, ttl), After(w', e, ttl), events[1..], ttl, e.at);
        assert WithoutCleanUps(events)[1..] == WithoutCleanUps(events[1..]);
      }
    }
  }

  ghost predicate CleanUpNeverMatters(ttl: Ttl) {
    forall now, events | Monotone(now, events) && AllPossible(START, events, ttl) ::
      Outputs(START, events, ttl) == Outputs(START, WithoutCleanUps(events), ttl)
  }

  // Clean-up never changes a later response exactly when the maximum is not below the minimum, or not
  // positive, so that nothing is stored.
  lemma CleanUpNeverMattersExactlyWhenSane(ttl: Ttl)
    ensures CleanUpNeverMatters(ttl) <==> Sane(ttl)
  {
    if Sane(ttl) {
      forall now, events | Monotone(now, events) && AllPossible(START, events, ttl)
        ensures Outputs(START, events, ttl) == Outputs(START, WithoutCleanUps(events), ttl)
      {
        CleanUpsAreInvisible(START, START, events, ttl, now);
      }
    } else {
      CleanUpHidesAYoungAnswer(ttl);
    }
  }

  // An answer is stored for a request, and after the maximum but within the minimum the request comes
  // again, with a clean-up just before it or without one.
  function StoreAndAskAgain(r: Request, late: int, clean: bool): seq<Event> {
    [Event(0, Ask(0, r)), Event(0, Hear(0, Granted("yes")))] + (if clean then [Event(late, Clean)] else []) + [Event(late, Ask(1, r))]
  }

  lemma SecondRequest(r: Request, late: int, clean: bool, ttl: Ttl)
    requires 0 < ttl.max < late <= ttl.min
    ensures var events := StoreAndAskAgain(r, late, clean);
      AllPossible(START, events, ttl) && Outputs(START, events, ttl) == [None, Some(Served("yes")), if clean then None else Some(Served("yes"))]
  {
    var events := StoreAndAskAgain(r, late, clean);
    var asked := World(map[], [], map[0 := r]);
    var full := World(map[r := Entry("yes", 0)], [Stored(r, Entry("yes", 0))], map[]);
    var rest, last := events[2..], [Event(late, Ask(1, r))];
    assert After(START, events[0], ttl) == asked && After(asked, events[1], ttl) == full;
    assert events[1..][1..] == rest && last[1..] == [];
    if clean {
      var empty := full.(cached := map[]);
      assert rest[1..] == last && After(full, rest[0], ttl) == empty;
      assert AllPossible(empty, last, ttl) && Outputs(empty, last, ttl) == [None];
    }
    var served := Some(Served("yes"));
    assert AllPossible(full, rest, ttl) && AllPossible(asked, events[1..], ttl);
    assert Outputs(full, rest, ttl) == [if clean then None else served];
    assert Outputs(asked, events[1..], ttl) == [served] + Outputs(full, rest, ttl);
    assert Outputs(START, events, ttl) == [None] + Outputs(asked, events[1..], ttl);
  }

  lemma CleanUpHidesAYoungAnswer(ttl: Ttl)
    requires !Sane(ttl)
    ensures !CleanUpNeverMatters(ttl)
  {
    var r, late := Request("job", "1.0.0", "/perform", "token"), ttl.max + 1;
    var with, without := StoreAndAskAgain(r, late, true), StoreAndAskAgain(r, late, false);
    SecondRequest(r, late, true, ttl);
    SecondRequest(r, late, false, ttl);
    assert Monotone(0, with);
    assert WithoutCleanUps(with[3..]) == with[3..] && WithoutCleanUps(with[2..]) == with[3..];
    assert with[1..][1..] == with[2..] && with[2..][1..] == with[3..];
    assert WithoutCleanUps(with) == without;
    assert Outputs(START, with, ttl)[2] != Outputs(START, without, ttl)[2];
  }
}
