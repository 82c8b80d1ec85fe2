/** The entry point of the booking job: its early returns, the calls it makes
    to the booking service, and the retry loop around one booking iteration. */
module Handler {
  import opened Options
  import opened Decimal
  import opened Calendar
  import opened TargetDate
  import opened Spaces
  import opened Selection

  datatype Response = Response(statusCode: int, body: string)

  /** How the handler ends: with a response, or with an exception that
      escapes it (in this model only the date overflow does). */
  datatype Result = Returned(response: Response) | Raised(error: string)

  /** A call to the booking service, in the order the handler makes them. */
  datatype Call =
    | Login
    | Search(location: string, search: SearchRequest)
    | Book(booking: BookingRequest)

  /** What the world supplies to one iteration of the loop: the search reply
      per location, whether booking a space succeeds, the index `random.choice`
      draws, and whether the time budget is spent after this iteration. */
  datatype RoundInput = RoundInput(
    search: string -> SearchReply,
    attempt: string -> bool,
    pick: nat,
    timeUp: bool)

  /** One iteration as played: what it tried and how it ended, and whether
      the stop test passed after it. */
  datatype Iteration = Iteration(round: Round, timeUp: bool)

  datatype Run = Run(result: Result, calls: seq<Call>)

  const MissingPasswordBody := "Missing PASSWORD_PARKING env variable"
  const WeekendBody := "Script not intended to run on weekends."
  const LoginFailedBody := "Login failed"
  const NoSpaceBookedBody := "No available spaces" + " could be booked after retries."

  /** The free spaces of every location, in the order of `LocationIds`. */
  function Gather(search: string -> SearchReply): (avail: seq<Available>)
    ensures |avail| == |LocationIds|
    ensures forall i :: 0 <= i < |avail| ==> avail[i].location == LocationIds[i]
    ensures forall i :: 0 <= i < |avail| ==>
      avail[i].spaces == AvailableSpaces(search(LocationIds[i]), LocationIds[i])
  {
    seq(|LocationIds|, i requires 0 <= i < |LocationIds| =>
      Available(LocationIds[i], AvailableSpaces(search(LocationIds[i]), LocationIds[i])))
  }

  predicate PickValid(input: RoundInput) {
    PickInRange(Gather(input.search), input.pick)
  }

  function PlayOne(input: RoundInput): Iteration
    requires PickValid(input)
  {
    Iteration(RunRound(Gather(input.search), input.attempt, input.pick), input.timeUp)
  }

  /** Plays every iteration the inputs describe. */
  function Play(inputs: seq<RoundInput>): (its: seq<Iteration>)
    requires forall i :: 0 <= i < |inputs| ==> PickValid(inputs[i])
    ensures |its| == |inputs|
    ensures forall i :: 0 <= i < |its| ==> its[i] == PlayOne(inputs[i])
  {
    seq(|inputs|, i requires 0 <= i < |inputs| => PlayOne(inputs[i]))
  }

  /** The iterations are exactly those the time budget allows: the stop test
      first passes after the last one. */
  predicate Deadline(its: seq<Iteration>) {
    && |its| > 0
    && forall i :: 0 <= i < |its| ==> (its[i].timeUp <==> i == |its| - 1)
  }

  predicate Schedule(inputs: seq<RoundInput>) {
    && (forall i :: 0 <= i < |inputs| ==> PickValid(inputs[i]))
    && Deadline(Play(inputs))
  }

  /** The body of a 200 answer names what was booked; only an iteration that
      booked nothing has the 404 body. */
  function BookedBody(outcome: Outcome): (r: string)
    ensures r == NoSpaceBookedBody <==> outcome.NotBooked?
    ensures outcome.Booked? ==>
      && |r| == 26 + |outcome.space| + |outcome.location|
      && r[13..13 + |outcome.space|] == outcome.space
      && r[|r| - |outcome.location|..] == outcome.location
    ensures outcome.BookedForbidden? ==>
      && |r| == 23 + |outcome.space|
      && r[23..] == outcome.space
  {
    match outcome
    case Booked(space, location) =>
      var r := "Booked space " + space + " at location " + location;
      assert r[0] == 'B' && NoSpaceBookedBody[0] == 'N';
      assert r[13..13 + |space|] == space;
      assert r[|r| - |location|..] == location;
      r
    case BookedForbidden(space) =>
      var r := "Booked forbidden space " + space;
      assert r[0] == 'B' && NoSpaceBookedBody[0] == 'N';
      assert r[23..] == space;
      r
    case NotBooked => NoSpaceBookedBody
  }

  /** The calls of one iteration: one search per location, then one booking
      per space tried. */
  function RoundCalls(date: string, attempts: seq<string>): (calls: seq<Call>)
    ensures |calls| == |LocationIds| + |attempts|
    ensures forall i :: 0 <= i < |LocationIds| ==> calls[i].Search? && calls[i].location == LocationIds[i]
    ensures forall k :: 0 <= k < |attempts| ==>
      calls[|LocationIds| + k].Book? && calls[|LocationIds| + k].booking.resources == "[" + attempts[k] + "]"
  {
    seq(|LocationIds|, i requires 0 <= i < |LocationIds| => Search(LocationIds[i], SearchRequestFor(date)))
      + seq(|attempts|, k requires 0 <= k < |attempts| => Book(BookingRequestFor(date, attempts[k])))
  }

  function CallWindow(c: Call): Option<Window> {
    match c
    case Login => None
    case Search(_, request) => Some(request.window)
    case Book(request) => Some(request.window)
  }

  predicate AllForWindow(calls: seq<Call>, w: Window) {
    forall k :: 0 <= k < |calls| ==> CallWindow(calls[k]) == Some(w)
  }

  lemma DeadlineTail(its: seq<Iteration>)
    requires Deadline(its) && !its[0].timeUp
    ensures Deadline(its[1..])
  {
    assert forall i :: 1 <= i < |its| ==> its[i] == its[1..][i - 1];
  }

  /** The retry loop: iterate until a space is booked or the time is up. */
  function Loop(date: string, its: seq<Iteration>): (r: Run)
    requires Deadline(its)
    ensures r.result.Returned?
    ensures r.result.response.statusCode == 200 || r.result.response == Response(404, NoSpaceBookedBody)
    decreases |its|
  {
    var round := its[0].round;
    var calls := RoundCalls(date, round.attempts);
    if !round.outcome.NotBooked? then
      Run(Returned(Response(200, BookedBody(round.outcome))), calls)
    else if its[0].timeUp then
      Run(Returned(Response(404, NoSpaceBookedBody)), calls)
    else
      DeadlineTail(its);
      var more := Loop(date, its[1..]);
      Run(more.result, calls + more.calls)
  }

  /** The loop answers 404 exactly when no iteration booked anything. */
  lemma {:induction false} LoopFailsOnlyIfEveryRoundFails(date: string, its: seq<Iteration>)
    requires Deadline(its)
    ensures Loop(date, its).result.response.statusCode == 404 <==>
      forall i :: 0 <= i < |its| ==> its[i].round.outcome.NotBooked?
    decreases |its|
  {
    if its[0].round.outcome.NotBooked? && !its[0].timeUp {
      var rest := its[1..];
      DeadlineTail(its);
      assert forall i :: 1 <= i < |its| ==> its[i] == rest[i - 1];
      LoopFailsOnlyIfEveryRoundFails(date, rest);
    }
  }

  lemma RoundCallsUseWindow(date: string, attempts: seq<string>)
    ensures AllForWindow(RoundCalls(date, attempts), BookingWindow(date))
  {
    var calls := RoundCalls(date, attempts);
    forall k | 0 <= k < |calls|
      ensures CallWindow(calls[k]) == Some(BookingWindow(date))
    {
      if k < |LocationIds| {
        assert calls[k] == Search(LocationIds[k], SearchRequestFor(date));
      } else {
        assert calls[k] == Book(BookingRequestFor(date, attempts[k - |LocationIds|]));
      }
    }
  }

  /** Every call the loop makes asks for the window of its date. */
  lemma {:induction false} LoopCallsUseWindow(date: string, its: seq<Iteration>)
    requires Deadline(its)
    ensures AllForWindow(Loop(date, its).calls, BookingWindow(date))
    decreases |its|
  {
    var calls := RoundCalls(date, its[0].round.attempts);
    RoundCallsUseWindow(date, its[0].round.attempts);
    if its[0].round.outcome.NotBooked? && !its[0].timeUp {
      var rest := its[1..];
      DeadlineTail(its);
      LoopCallsUseWindow(date, rest);
      var more := Loop(date, rest).calls;
      assert Loop(date, its).calls == calls + more;
      AllForWindowAppend(calls, more, BookingWindow(date));
    }
  }

  lemma AllForWindowAppend(a: seq<Call>, b: seq<Call>, w: Window)
    requires AllForWindow(a, w) && AllForWindow(b, w)
    ensures AllForWindow(a + b, w)
  {
    assert forall k :: |a| <= k < |a + b| ==> (a + b)[k] == b[k - |a|];
  }

  /** The index of the first iteration that books, or `|its|` if none does. */
  function FirstBooking(its: seq<Iteration>): (i: nat)
    ensures i <= |its|
    ensures forall j :: 0 <= j < i ==> its[j].round.outcome.NotBooked?
    ensures i < |its| ==> !its[i].round.outcome.NotBooked?
  {
    if its == [] then 0
    else if !its[0].round.outcome.NotBooked? then 0
    else
      assert forall i :: 1 <= i < |its| ==> its[i] == its[1..][i - 1];
      1 + FirstBooking(its[1..])
  }

  /** The calls of the given iterations, one after the other. */
  function CallsOf(date: string, its: seq<Iteration>): seq<Call> {
    if its == [] then [] else RoundCalls(date, its[0].round.attempts) + CallsOf(date, its[1..])
  }

  /** The loop stops at the first iteration that books, and reports what that
      iteration booked: the calls made are those of the iterations up to and
      including it, and no later iteration runs. Without a booking every
      iteration runs. */
  lemma {:induction false} LoopStopsAtFirstBooking(date: string, its: seq<Iteration>)
    requires Deadline(its)
    ensures var r, i := Loop(date, its), FirstBooking(its);
      r.result.response.statusCode == 200 ==>
        && i < |its|
        && r.result.response.body == BookedBody(its[i].round.outcome)
        && r.calls == CallsOf(date, its[..i + 1])
    ensures var r := Loop(date, its);
      r.result.response.statusCode == 404 ==> r.calls == CallsOf(date, its)
    decreases |its|
  {
    var first := RoundCalls(date, its[0].round.attempts);
    assert its[..1][1..] == [];
    assert CallsOf(date, its[..1]) == first + [];
    if its[0].round.outcome.NotBooked? && !its[0].timeUp {
      var rest := its[1..];
      DeadlineTail(its);
      LoopStopsAtFirstBooking(date, rest);
      assert FirstBooking(its) == 1 + FirstBooking(rest);
      var i := FirstBooking(rest);
      if i < |rest| {
        assert its[..i + 2][1..] == rest[..i + 1];
      }
    } else if its[0].round.outcome.NotBooked? {
      assert |its| == 1;
      assert its[1..] == [];
    }
  }

  /** `lambda_handler`: the password check, the target date, the login, then
      the booking loop. */
  function HandleRequest(
    password: Option<string>, bookingDate: Option<string>, today: int,
    loginToken: Option<string>, inputs: seq<RoundInput>): (r: Run)
    requires 1 <= today <= MaxOrdinal
    requires Schedule(inputs)
    ensures !IsSet(password) ==> r == Run(Returned(Response(500, MissingPasswordBody)), [])
    ensures IsSet(password) && !IsSet(bookingDate) && !IsWorkingDay(today) ==>
      r == Run(Returned(Response(200, WeekendBody)), [])
    ensures r.result.Raised? <==> IsSet(password) && GetTargetDate(bookingDate, today).OutOfRange?
    ensures r.result.Raised? ==> r.calls == []
    ensures IsSet(password) && GetTargetDate(bookingDate, today).Target? && !IsSet(loginToken) ==>
      r == Run(Returned(Response(500, LoginFailedBody)), [Login])
    ensures r.result.Returned? ==> r.result.response.statusCode in {200, 404, 500}
    ensures IsSet(password) && GetTargetDate(bookingDate, today).Target? && IsSet(loginToken) ==>
      var loop := Loop(GetTargetDate(bookingDate, today).date, Play(inputs));
      r.result == loop.result && r.calls == [Login] + loop.calls
  {
    if !IsSet(password) then Run(Returned(Response(500, MissingPasswordBody)), [])
    else
      match GetTargetDate(bookingDate, today)
      case Weekend => Run(Returned(Response(200, WeekendBody)), [])
      case OutOfRange => Run(Raised("OverflowError"), [])
      case Target(date) =>
        if !IsSet(loginToken) then Run(Returned(Response(500, LoginFailedBody)), [Login])
        else
          var loop := Loop(date, Play(inputs));
          Run(loop.result, [Login] + loop.calls)
  }

  /** The handler answers 404 exactly when it got past the login and no
      iteration the time budget allows booked anything. */
  lemma HandlerFailsOnlyIfEveryRoundFails(
    password: Option<string>, bookingDate: Option<string>, today: int,
    loginToken: Option<string>, inputs: seq<RoundInput>)
    requires 1 <= today <= MaxOrdinal
    requires Schedule(inputs)
    ensures var r, its := HandleRequest(password, bookingDate, today, loginToken, inputs), Play(inputs);
      r.result.Returned? && r.result.response.statusCode == 404 <==>
        && IsSet(password) && GetTargetDate(bookingDate, today).Target? && IsSet(loginToken)
        && forall i :: 0 <= i < |its| ==> its[i].round.outcome.NotBooked?
  {
    var t := GetTargetDate(bookingDate, today);
    if IsSet(password) && t.Target? && IsSet(loginToken) {
      var its := Play(inputs);
      var r := HandleRequest(password, bookingDate, today, loginToken, inputs);
      LoopFailsOnlyIfEveryRoundFails(t.date, its);
      assert r.result == Loop(t.date, its).result;
    } else {
      EarlyReturnIsNot404(password, bookingDate, today, loginToken, inputs);
    }
  }

  /** Every answer before the booking loop is something other than 404. */
  lemma EarlyReturnIsNot404(
    password: Option<string>, bookingDate: Option<string>, today: int,
    loginToken: Option<string>, inputs: seq<RoundInput>)
    requires 1 <= today <= MaxOrdinal
    requires Schedule(inputs)
    requires !(IsSet(password) && GetTargetDate(bookingDate, today).Target? && IsSet(loginToken))
    ensures var r := HandleRequest(password, bookingDate, today, loginToken, inputs);
      r.result.Returned? ==> r.result.response.statusCode != 404
  {
  }

  /** When the handler books, it reports the booking of the first iteration
      that booked, after the login and the calls of the iterations up to it. */
  lemma HandlerReportsFirstBooking(
    password: Option<string>, bookingDate: Option<string>, today: int,
    loginToken: Option<string>, inputs: seq<RoundInput>)
    requires 1 <= today <= MaxOrdinal
    requires Schedule(inputs)
    ensures var r, t, its := HandleRequest(password, bookingDate, today, loginToken, inputs),
                             GetTargetDate(bookingDate, today), Play(inputs);
      IsSet(password) && t.Target? && IsSet(loginToken) && r.result.response.statusCode == 200 ==>
        var i := FirstBooking(its);
        && i < |its|
        && r.result.response.body == BookedBody(its[i].round.outcome)
        && r.calls == [Login] + CallsOf(t.date, its[..i + 1])
  {
    var t := GetTargetDate(bookingDate, today);
    if IsSet(password) && t.Target? && IsSet(loginToken) {
      LoggedInAnswer(password, bookingDate, today, loginToken, inputs);
      LoopStopsAtFirstBooking(t.date, Play(inputs));
    }
  }

  lemma LoggedInAnswer(
    password: Option<string>, bookingDate: Option<string>, today: int,
    loginToken: Option<string>, inputs: seq<RoundInput>)
    requires 1 <= today <= MaxOrdinal
    requires Schedule(inputs)
    requires IsSet(password) && GetTargetDate(bookingDate, today).Target? && IsSet(loginToken)
    ensures var loop := Loop(GetTargetDate(bookingDate, today).date, Play(inputs));
      HandleRequest(password, bookingDate, today, loginToken, inputs) == Run(loop.result, [Login] + loop.calls)
  {
  }

  /** A forbidden space reported with a numeric id is recognised as forbidden,
      just as when it is reported as a string. */
  lemma NumericForbiddenIdsMatch()
    ensures IsForbidden(IdText(NumberId(2592))) && IsForbidden(IdText(TextId("2592")))
    ensures IsForbidden(IdText(NumberId(2591))) && IsForbidden(IdText(TextId("2591")))
  {
    NumericIdText("2592", 2592);
    NumericIdText("2591", 2591);
    assert ForbiddenSpaces["68"] == "2592";
    assert ForbiddenSpaces["69"] == "2591";
  }

  lemma NumericIdText(s: string, n: int)
    requires (s, n) == ("2592", 2592) || (s, n) == ("2591", 2591)
    ensures IdText(NumberId(n)) == s
  {
    var p3, p2, p1 := s[..3], s[..2], s[..1];
    assert p3[..2] == p2 && p2[..1] == p1 && p1[..0] == [];
    assert Value(p1) == 2 && Value(p2) == 25 && Value(p3) == 259;
    assert Value(s) == n;
    NatToStringCanonical(s);
  }

  /** The password is checked before anything else: without it the date, the
      login and the loop make no difference. */
  lemma PasswordCheckedFirst(
    password: Option<string>, bookingDate: Option<string>, today: int, loginToken: Option<string>,
    inputs: seq<RoundInput>, bookingDate': Option<string>, today': int, loginToken': Option<string>,
    inputs': seq<RoundInput>)
    requires 1 <= today <= MaxOrdinal && 1 <= today' <= MaxOrdinal
    requires Schedule(inputs) && Schedule(inputs')
    requires !IsSet(password)
    ensures HandleRequest(password, bookingDate, today, loginToken, inputs)
         == HandleRequest(password, bookingDate', today', loginToken', inputs')
  {
  }

  /** Login is the first call to the booking service and is made once; every
      later call asks for the window of the target date. */
  lemma LoginThenTargetWindow(
    password: Option<string>, bookingDate: Option<string>, today: int,
    loginToken: Option<string>, inputs: seq<RoundInput>)
    requires 1 <= today <= MaxOrdinal
    requires Schedule(inputs)
    ensures var r := HandleRequest(password, bookingDate, today, loginToken, inputs);
      r.calls != [] ==>
        && r.calls[0] == Login
        && GetTargetDate(bookingDate, today).Target?
        && AllForWindow(r.calls[1..], BookingWindow(GetTargetDate(bookingDate, today).date))
  {
    var t := GetTargetDate(bookingDate, today);
    if IsSet(password) && t.Target? && IsSet(loginToken) {
      var calls := Loop(t.date, Play(inputs)).calls;
      LoopCallsUseWindow(t.date, Play(inputs));
      assert HandleRequest(password, bookingDate, today, loginToken, inputs).calls == [Login] + calls;
      assert ([Login] + calls)[1..] == calls;
    }
  }
}
