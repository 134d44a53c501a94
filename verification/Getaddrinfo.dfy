/** evdns.c: the race of the A and the AAAA question of one evdns_getaddrinfo. */
module Getaddrinfo {
  import opened Octets

  type Address = seq<Byte>

  /** EVUTIL_EAI_* as far as they are passed on. */
  datatype Eai = NoData | NoName | Failed | Again | Canceled

  /** How a subrequest ends: addresses, perhaps none, an error from the resolver, or a cancel. */
  datatype Result = Answer(addrs: seq<Address>) | Error(notExist: bool) | Cancel

  /** A subrequest: its handle r is null if it is absent or has ended; a scheduled callback cannot be cancelled. */
  datatype Sub = Absent | Open | Scheduled(res: Result) | Ended(was: Result)

  /** What the user callback is given. */
  datatype Reply = Found(addrs: seq<Address>) | Fault(err: Eai)

  datatype Family = V4 | V6

  predicate Live(s: Sub) {
    s.Open? || s.Scheduled?
  }

  /** The error of a result, if it is one; a cancel maps to EAI_FAIL like other resolver errors. */
  function Err(res: Result): Option<Eai> {
    match res
    case Answer(addrs) => if addrs == [] then Some(NoData) else None
    case Error(notExist) => Some(if notExist then NoName else Failed)
    case Cancel => Some(Failed)
  }

  lemma AnswerOf(res: Result)
    ensures Err(res).None? ==> res.Answer?
  {
  }

  /** What the user hears from one result alone. */
  function Alone(res: Result): Reply {
    if Err(res).Some? then Fault(Err(res).value) else Found(res.addrs)
  }

  /** What the user hears of both: all the addresses, A before AAAA; of two errors, the later one. */
  function Both(a: Result, aaaa: Result, last: Family): Reply {
    match (Alone(a), Alone(aaaa))
    case (Found(x), Found(y)) => Found(x + y)
    case (Found(x), Fault(_)) => Found(x)
    case (Fault(_), Found(y)) => Found(y)
    case (Fault(x), Fault(y)) => Fault(if last.V4? then x else y)
  }

  /** evdns_cancel_request: nothing if the callback is already scheduled. */
  function Cancelled(s: Sub): Sub {
    if s.Open? then Scheduled(Cancel) else s
  }

  /** The fields of a request, for the invariant. */
  datatype State = State(
    v4: Sub, v6: Sub, timer: bool, pendingResult: Option<seq<Address>>, pendingError: Option<Eai>,
    userCanceled: bool, requestDone: bool, hasCallback: bool,
    replies: seq<Reply>, frees: nat, skewed: bool, last: Family)

  /** Told at most once, freed once both subrequests have ended, and the reply is the right one. */
  ghost predicate Ok(s: State) {
    && (s.hasCallback <==> s.replies == []) && |s.replies| <= 1 && s.frees <= 1
    && (s.frees == 1 <==> !Live(s.v4) && !Live(s.v6))
    && (s.frees == 0 ==> Racing(s) && Remembers(s) && !s.requestDone)
    && (s.frees == 1 ==> !s.timer && !s.hasCallback)
    && (s.skewed ==> !s.hasCallback)
    && (s.frees == 0 && !s.hasCallback ==> s.skewed)
    && (s.replies != [] ==> Told(s, s.replies[0]))
  }

  function Mine(s: State, f: Family): Sub {
    if f.V4? then s.v4 else s.v6
  }

  function Other(s: State, f: Family): Sub {
    if f.V4? then s.v6 else s.v4
  }

  /** The subrequest has ended. */
  function Closed(s: State, f: Family): (t: State)
    requires Mine(s, f).Scheduled?
    ensures t.timer == s.timer && t.pendingResult == s.pendingResult && t.pendingError == s.pendingError
    ensures t.userCanceled == s.userCanceled && t.hasCallback == s.hasCallback && t.skewed == s.skewed
    ensures t.replies == s.replies && t.frees == s.frees
  {
    var sub := Ended(Mine(s, f).res);
    (if f.V4? then s.(v4 := sub) else s.(v6 := sub)).(last := f, requestDone := !Live(Other(s, f)) || s.requestDone)
  }

  function Freed(s: State): State {
    s.(frees := s.frees + 1, timer := false, hasCallback := false)
  }

  /** The second subrequest ends after the user was told, because the timer fired. */
  lemma EndsTold(s: State, f: Family)
    requires Ok(s) && Mine(s, f).Scheduled? && (!s.hasCallback || (Mine(s, f).res.Cancel? && !s.userCanceled))
    ensures !Live(Other(s, f)) && Ok(Freed(Closed(s, f)))
  {
  }

  /** The last subrequest ends, and the user is told. */
  lemma EndsTelling(s: State, f: Family, r: Reply, result: Option<seq<Address>>)
    requires Ok(s) && Mine(s, f).Scheduled? && !Live(Other(s, f)) && s.hasCallback
    requires s.userCanceled ==> r == Fault(Canceled)
    requires !s.userCanceled ==>
      var res := Mine(s, f).res;
      r == if Err(res).Some? then if s.pendingResult.Some? then Found(s.pendingResult.value) else Fault(Err(res).value)
           else if s.pendingResult.None? then Found(res.addrs)
           else Found(if f.V4? then res.addrs + s.pendingResult.value else s.pendingResult.value + res.addrs)
    ensures Ok(Freed(Closed(s, f).(replies := s.replies + [r], pendingResult := result)))
  {
    assert (s.replies + [r])[0] == r;
  }

  /** The first subrequest ends. */
  lemma EndsFirst(s: State, f: Family)
    requires Ok(s) && Mine(s, f).Scheduled? && Live(Other(s, f))
    ensures var res := Mine(s, f).res;
      && s.hasCallback && (res.Cancel? ==> s.userCanceled)
      && (Err(res).Some? ==> Ok(Closed(s, f).(timer := true, pendingError := Err(res))))
      && (Err(res).None? && s.userCanceled ==> Ok(Closed(s, f)))
      && (Err(res).None? && !s.userCanceled ==> Ok(Closed(s, f).(timer := true, pendingResult := Some(res.addrs))))
  {
  }

  /** The skew timer fires: exactly one subrequest is out, and the user hears of the other. */
  lemma Skews(s: State)
    requires Ok(s) && s.timer
    ensures Live(s.v4) != Live(s.v6) && s.frees == 0 && s.replies == []
    ensures var r := if s.pendingResult.Some? then Found(s.pendingResult.value)
                     else Fault(if s.pendingError.Some? then s.pendingError.value else Again);
      Ok(s.(timer := false, v4 := Cancelled(s.v4), v6 := Cancelled(s.v6), pendingResult := None,
            replies := [r], hasCallback := false, skewed := true))
  {
  }

  /** The user who cancels hears so exactly if the skew timer does not fire. */
  lemma HeardCancel(s: State)
    requires Ok(s) && s.frees == 1 && s.userCanceled
    ensures s.replies == [Fault(Canceled)] <==> !s.skewed
  {
    assert |s.replies| == 1;
  }

  class Request {
    var v4: Sub
    var v6: Sub
    var timer: bool
    var pendingResult: Option<seq<Address>>
    var pendingError: Option<Eai>
    var userCanceled: bool
    var requestDone: bool
    var hasCallback: bool

    /** What happened so far: calls of the user callback, frees, whether the skew timer fired, who ended last. */
    var replies: seq<Reply>
    var frees: nat
    var skewed: bool
    var last: Family

    ghost function Now(): State
      reads this
    {
      State(v4, v6, timer, pendingResult, pendingError, userCanceled, requestDone, hasCallback, replies, frees, skewed, last)
    }

    ghost predicate Valid()
      reads this
    {
      Ok(Now())
    }

    /** evdns_getaddrinfo, once at least one question is out. */
    constructor (ask4: bool, ask6: bool)
      requires ask4 || ask6
      ensures Valid() && frees == 0 && replies == [] && !userCanceled && !skewed
      ensures v4 == (if ask4 then Open else Absent) && v6 == (if ask6 then Open else Absent)
    {
      v4, v6 := if ask4 then Open else Absent, if ask6 then Open else Absent;
      timer, pendingResult, pendingError, userCanceled, requestDone, hasCallback := false, None, None, false, false, true;
      replies, frees, skewed, last := [], 0, false, V4;
    }

    /** The resolver schedules the callback of a subrequest that is still open. */
    method Schedule(f: Family, res: Result)
      requires Valid() && (if f.V4? then v4 else v6).Open? && !res.Cancel?
      modifies this`v4, this`v6
      ensures Valid() && v4 == (if f.V4? then Scheduled(res) else old(v4)) && v6 == (if f.V6? then Scheduled(res) else old(v6))
    {
      if f.V4? { v4 := Scheduled(res); } else { v6 := Scheduled(res); }
    }

    /** evdns_getaddrinfo_gotresolve */
    method GotResolve(f: Family)
      requires Valid() && (if f.V4? then v4 else v6).Scheduled?
      modifies this
      ensures Valid() && userCanceled == old(userCanceled) && skewed == old(skewed)
      ensures var s := old(Now()); Live(Other(s, f)) && Err(Mine(s, f).res).Some? && (Mine(s, f).res.Cancel? ==> userCanceled) ==> timer
      ensures v4 == (if f.V4? then Ended(old(v4).res) else old(v4)) && v6 == (if f.V6? then Ended(old(v6).res) else old(v6))
    {
      hide Ok, Err, Closed, Live, Mine, Other;
      ghost var s := Now();
      var res, otherLive := Close(f);
      if res.Cancel? && !userCanceled {
        EndsTold(s, f);
        if !otherLive { frees, timer, hasCallback := frees + 1, false, false; }
        return;
      }
      if !hasCallback {
        EndsTold(s, f);
        frees, timer, hasCallback := frees + 1, false, false;
        return;
      }
      if Err(res).Some? {
        GotError(f, Err(res).value, otherLive, s);
      } else {
        GotAnswer(f, res, otherLive, s);
      }
    }

    /** The subrequest has ended: its handle is cleared, and with the last one the user can no longer cancel. */
    method Close(f: Family) returns (res: Result, otherLive: bool)
      requires (if f.V4? then v4 else v6).Scheduled?
      modifies this`v4, this`v6, this`last, this`requestDone
      ensures Mine(old(Now()), f) == Scheduled(res) && otherLive == Live(Other(old(Now()), f)) && Now() == Closed(old(Now()), f)
      ensures v4 == (if f.V4? then Ended(old(v4).res) else old(v4)) && v6 == (if f.V6? then Ended(old(v6).res) else old(v6))
    {
      res := (if f.V4? then v4 else v6).res;
      otherLive := Live(if f.V4? then v6 else v4);
      if !otherLive { requestDone := true; }
      if f.V4? { v4 := Ended(res); } else { v6 := Ended(res); }
      last := f;
    }

    /** The part of gotresolve for errors. */
    method GotError(f: Family, err: Eai, otherLive: bool, ghost s: State)
      requires Ok(s) && Mine(s, f).Scheduled? && Now() == Closed(s, f) && Err(Mine(s, f).res) == Some(err)
      requires hasCallback && otherLive == Live(Other(s, f))
      modifies this`timer, this`pendingResult, this`pendingError, this`hasCallback, this`replies, this`frees
      ensures Valid() && (otherLive ==> timer)
    {
      hide Ok, Err, Closed, Live, Mine, Other;
      if otherLive {
        EndsFirst(s, f);
        timer, pendingError := true, Some(err);
        return;
      }
      if userCanceled {
        replies := replies + [Fault(Canceled)];
      } else if pendingResult.Some? {
        replies := replies + [Found(pendingResult.value)];
        pendingResult := None;
      } else {
        replies := replies + [Fault(err)];
      }
      EndsTelling(s, f, replies[|replies| - 1], pendingResult);
      frees, timer, hasCallback := frees + 1, false, false;
    }

    /** The part of gotresolve for addresses. */
    method GotAnswer(f: Family, res: Result, otherLive: bool, ghost s: State)
      requires Ok(s) && Mine(s, f) == Scheduled(res) && Now() == Closed(s, f) && Err(res).None?
      requires hasCallback && otherLive == Live(Other(s, f))
      modifies this`timer, this`pendingResult, this`hasCallback, this`replies, this`frees
      ensures Valid()
    {
      hide Ok, Err, Closed, Live, Mine, Other;
      if otherLive {
        EndsFirst(s, f);
      }
      if userCanceled {
        if otherLive { return; }
        replies := replies + [Fault(Canceled)];
        EndsTelling(s, f, replies[|replies| - 1], pendingResult);
        frees, timer, hasCallback := frees + 1, false, false;
        return;
      }
      AnswerOf(res);
      var found := res.addrs;
      if otherLive {
        timer, pendingResult := true, Some(found);
        return;
      }
      if pendingResult.Some? {
        found := if f.V4? then found + pendingResult.value else pendingResult.value + found;
        pendingResult := None;
      }
      replies := replies + [Found(found)];
      EndsTelling(s, f, replies[|replies| - 1], pendingResult);
      frees, timer, hasCallback := frees + 1, false, false;
    }

    /** evdns_getaddrinfo_timeout_cb: not both timed out, and not neither, so nothing is freed here. */
    method SkewTimeout()
      requires Valid() && timer
      modifies this
      ensures Valid() && frees == 0 && skewed && !timer && |replies| == 1 && userCanceled == old(userCanceled)
      ensures v4 == Cancelled(old(v4)) && v6 == Cancelled(old(v6))
    {
      hide Ok, Err, Live, Cancelled;
      ghost var s := Now();
      Skews(s);
      timer := false;
      var v4Out, v6Out := Live(v4), Live(v6);
      v4, v6 := Cancelled(v4), Cancelled(v6);
      assert !v4Out || !v6Out;
      if pendingResult.Some? {
        replies := replies + [Found(pendingResult.value)];
        pendingResult := None;
      } else {
        replies := replies + [Fault(if pendingError.Some? then pendingError.value else Again)];
      }
      hasCallback, skewed := false, true;
      assert v4Out || v6Out;
      assert replies == [replies[0]];
    }

    /** evdns_getaddrinfo_cancel */
    method UserCancel()
      requires Valid() && frees == 0
      modifies this
      ensures Valid() && frees == 0 && !timer && userCanceled && skewed == old(skewed) && replies == old(replies)
      ensures v4 == Cancelled(old(v4)) && v6 == Cancelled(old(v6))
    {
      if requestDone { return; }
      timer, userCanceled := false, true;
      v4, v6 := Cancelled(v4), Cancelled(v6);
    }
  }

  /** The result of the subrequest that ended first, while the other is still out. */
  function First(v4: Sub, v6: Sub): Option<Result> {
    if v4.Ended? then Some(v4.was) else if v6.Ended? then Some(v6.was) else None
  }

  /** While a subrequest is out: the timer runs only if the other has ended; after an answer the last one is only awaited. */
  ghost predicate Racing(s: State) {
    && (s.timer ==> First(s.v4, s.v6).Some? && s.hasCallback)
    && (!s.hasCallback ==> First(s.v4, s.v6).Some? && !s.v4.Open? && !s.v6.Open?)
    && (s.hasCallback && !s.userCanceled ==> s.v4 != Scheduled(Cancel) && s.v6 != Scheduled(Cancel))
    && (s.userCanceled ==> !s.v4.Open? && !s.v6.Open?)
    && (First(s.v4, s.v6).Some? && s.hasCallback && !s.userCanceled ==> s.timer)
  }

  /** The outcome of the first is kept for the timer and for the second. */
  ghost predicate Remembers(s: State) {
    match First(s.v4, s.v6)
    case None => s.pendingResult.None? && s.pendingError.None? && !s.timer
    case Some(res) =>
      s.timer ==> if Err(res).Some? then s.pendingResult.None? && s.pendingError == Err(res) else s.pendingResult == Some(res.addrs)
  }

  /** The result of the subrequest that ended first. */
  function Earlier(v4: Sub, v6: Sub, last: Family): Option<Result> {
    if v4.Ended? && v6.Ended? then Some(if last.V4? then v6.was else v4.was) else First(v4, v6)
  }

  /** The reply: of the first alone if the skew timer fired, a cancel if the user did, else of all that was asked. */
  ghost predicate Told(s: State, r: Reply) {
    if s.skewed then Earlier(s.v4, s.v6, s.last).Some? && r == Alone(Earlier(s.v4, s.v6, s.last).value)
    else if s.userCanceled then r == Fault(Canceled)
    else match (s.v4, s.v6)
      case (Ended(a), Ended(aaaa)) => r == Both(a, aaaa, s.last)
      case (Ended(a), Absent) => r == Alone(a)
      case (Absent, Ended(aaaa)) => r == Alone(aaaa)
      case _ => false
  }

  // ---- Runs -----------------------------------------------------------------

  datatype Step = Arrives(f: Family, res: Result) | Runs(f: Family) | Fires | Cancels

  /** One step of the event loop or of the user, if it can happen now. */
  method Do(req: Request, step: Step)
    requires req.Valid()
    modifies req
    ensures req.Valid()
    ensures req.v4.Absent? == old(req.v4.Absent?) && req.v6.Absent? == old(req.v6.Absent?)
  {
    match step {
      case Arrives(f, res) =>
        if (if f.V4? then req.v4 else req.v6).Open? && !res.Cancel? { req.Schedule(f, res); }
      case Runs(f) =>
        if (if f.V4? then req.v4 else req.v6).Scheduled? { req.GotResolve(f); }
      case Fires => if req.timer { req.SkewTimeout(); }
      case Cancels => if req.frees == 0 { req.UserCancel(); }
    }
  }

  /** Any interleaving; once both subrequests have ended, the user has been told once and the request freed once. */
  method Run(ask4: bool, ask6: bool, steps: seq<Step>) returns (req: Request)
    requires ask4 || ask6
    ensures req.Valid() && fresh(req)
    ensures |req.replies| <= 1 && req.frees <= 1
    ensures req.frees == 1 <==> !Live(req.v4) && !Live(req.v6)
    ensures req.frees == 1 ==> |req.replies| == 1 && Told(req.Now(), req.replies[0])
  {
    req := new Request(ask4, ask6);
    for i := 0 to |steps|
      invariant req.Valid() && fresh(req)
    {
      Do(req, steps[i]);
    }
  }

  /** Whatever has happened, letting the outstanding callbacks run ends the request. */
  method Finish(req: Request, late4: Result, late6: Result)
    requires req.Valid() && !late4.Cancel? && !late6.Cancel?
    modifies req
    ensures req.Valid() && req.frees == 1 && |req.replies| == 1
  {
    if req.v4.Open? { req.Schedule(V4, late4); }
    if req.v4.Scheduled? { req.GotResolve(V4); }
    if req.v6.Open? { req.Schedule(V6, late6); }
    if req.v6.Scheduled? { req.GotResolve(V6); }
  }

  /** The first cancelled subrequest to end starts the skew timer again, so a user who cancelled can hear of a failure. */
  method CancelHeardAsFailure() returns (req: Request)
    ensures fresh(req) && req.Valid() && req.userCanceled && req.replies == [Fault(Failed)]
  {
    req := new Request(true, true);
    req.UserCancel();
    req.GotResolve(V4);
    req.SkewTimeout();
    assert req.v4 == Ended(Cancel);
  }
}
