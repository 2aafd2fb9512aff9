/**
 The lifecycle table and the retention clocks of
 `backend/src/contracts/alumniHelpFlow.ts`.
 */
module AlumniHelpFlow {
  import opened Calendar
  import opened AlumniDirectoryData
  import opened Outcomes

  // ----- Lifecycle table -----

  datatype Status =
    | Requested | NeedsInformation | AlternativeProposed | Accepted | Declined | Withdrawn
    | InProgress | Completed | Closed

  datatype Action =
    | RequestInformation | ProvideInformation | ProposeAlternative | ConfirmAlternative | RejectAlternative
    | Accept | Decline | Withdraw | Start | Complete | Close
    | OutcomeConfirm | OutcomeAutoConfirm | OutcomeReconcile

  datatype Actor = Provider | Requester | Either | System

  datatype Transition = Transition(actor: Actor, from: set<Status>, to: Status)

  const ACTIVE_STATUSES: set<Status> :=
    {Requested, NeedsInformation, AlternativeProposed, Accepted, InProgress, Completed}

  const TERMINAL_STATUSES: set<Status> := {Declined, Withdrawn, Closed}

  function TransitionOf(action: Action): Transition {
    match action
    case RequestInformation => Transition(Provider, {Requested}, NeedsInformation)
    case ProvideInformation => Transition(Requester, {NeedsInformation}, Requested)
    case ProposeAlternative => Transition(Provider, {Requested}, AlternativeProposed)
    case ConfirmAlternative => Transition(Requester, {AlternativeProposed}, Accepted)
    case RejectAlternative => Transition(Requester, {AlternativeProposed}, Requested)
    case Accept => Transition(Provider, {Requested}, Accepted)
    case Decline => Transition(Provider, {Requested, NeedsInformation, AlternativeProposed}, Declined)
    case Withdraw => Transition(Requester, {Requested, NeedsInformation, AlternativeProposed}, Withdrawn)
    case Start => Transition(Provider, {Accepted}, InProgress)
    case Complete => Transition(Provider, {Accepted, InProgress}, Completed)
    case Close => Transition(Either, {Accepted, InProgress, Completed}, Closed)
    case OutcomeConfirm => Transition(Provider, {Accepted, InProgress, Completed}, Closed)
    case OutcomeAutoConfirm => Transition(System, {Accepted, InProgress, Completed}, Closed)
    case OutcomeReconcile => Transition(System, {Accepted, InProgress, Completed}, Closed)
  }

  predicate Allowed(s: Status, a: Action) { s in TransitionOf(a).from }

  /** A run takes the actions in order, each allowed where it is taken. */
  ghost predicate IsRun(s: Status, run: seq<Action>, t: Status)
    decreases |run|
  {
    if run == [] then s == t
    else Allowed(s, run[0]) && IsRun(TransitionOf(run[0]).to, run[1..], t)
  }

  lemma AllowedSomewhere(s: Status)
    ensures s in ACTIVE_STATUSES ==> exists a :: Allowed(s, a)
  {
    match s
    case Requested => assert Allowed(s, Accept);
    case NeedsInformation => assert Allowed(s, ProvideInformation);
    case AlternativeProposed => assert Allowed(s, RejectAlternative);
    case Accepted => assert Allowed(s, Start);
    case InProgress => assert Allowed(s, Complete);
    case Completed => assert Allowed(s, Close);
    case _ =>
  }

  /** A run that meets a terminal status stops there. */
  lemma TerminalIsAbsorbing(s: Status, run: seq<Action>, t: Status)
    requires s in TERMINAL_STATUSES && IsRun(s, run, t)
    ensures run == [] && t == s
  {
  }

  ghost predicate NoRunLeaves(s: Status) { forall run, t :: IsRun(s, run, t) ==> run == [] && t == s }

  /** The two lists of statuses split all statuses, and the terminal ones are exactly those that no run leaves. */
  lemma TerminalMeansNoWayOut(s: Status)
    ensures s in ACTIVE_STATUSES <==> s !in TERMINAL_STATUSES
    ensures s in TERMINAL_STATUSES <==> NoRunLeaves(s)
  {
    if s in TERMINAL_STATUSES {
      forall run, t | IsRun(s, run, t)
        ensures run == [] && t == s
      {
        TerminalIsAbsorbing(s, run, t);
      }
    } else {
      AllowedSomewhere(s);
      var a :| Allowed(s, a);
      assert IsRun(s, [], s);
      RunAppend(s, [], s, a);
    }
  }

  lemma {:induction false} RunAppend(s: Status, run: seq<Action>, m: Status, a: Action)
    requires IsRun(s, run, m) && Allowed(m, a)
    ensures IsRun(s, run + [a], TransitionOf(a).to)
    decreases |run|
  {
    if run == [] {
      assert [a][1..] == [];
    } else {
      assert (run + [a])[1..] == run[1..] + [a];
      RunAppend(TransitionOf(run[0]).to, run[1..], m, a);
    }
  }

  /** Splits off the last action of a run. */
  lemma {:induction false} RunLast(s: Status, run: seq<Action>, t: Status) returns (m: Status)
    requires IsRun(s, run, t) && run != []
    ensures IsRun(s, run[..|run| - 1], m) && Allowed(m, run[|run| - 1]) && TransitionOf(run[|run| - 1]).to == t
    decreases |run|
  {
    if |run| == 1 {
      m := s;
      assert run[1..] == [];
    } else {
      m := RunLast(TransitionOf(run[0]).to, run[1..], t);
      assert run[1..][..|run| - 2] == run[..|run| - 1][1..];
    }
  }

  function Count(run: seq<Action>, actions: set<Action>): nat
    decreases |run|
  {
    if run == [] then 0
    else Count(run[..|run| - 1], actions) + if run[|run| - 1] in actions then 1 else 0
  }

  const ACCEPTANCES: set<Action> := {Accept, ConfirmAlternative}
  const CLOSINGS: set<Action> := {Close, OutcomeConfirm, OutcomeAutoConfirm, OutcomeReconcile}
  const REFUSALS: set<Action> := {Decline, Withdraw}
  const AFTER_ACCEPTANCE: set<Action> := {Start, Complete, Close, OutcomeConfirm, OutcomeAutoConfirm, OutcomeReconcile}

  predicate Open(s: Status) { s in {Requested, NeedsInformation, AlternativeProposed} }
  predicate Agreed(s: Status) { s in {Accepted, InProgress, Completed, Closed} }

  function Progress(s: Status): nat {
    match s
    case InProgress => 1
    case Completed => 2
    case Closed => 3
    case _ => 0
  }

  function Unit(b: bool): nat { if b then 1 else 0 }

  /** One step moves the status and the books together. */
  lemma AcceptanceStep(m: Status, a: Action)
    requires Allowed(m, a)
    ensures Unit(Agreed(TransitionOf(a).to)) == Unit(Agreed(m)) + Unit(a in ACCEPTANCES)
    ensures Unit(TransitionOf(a).to == Closed) == Unit(m == Closed) + Unit(a in CLOSINGS)
    ensures Unit(TransitionOf(a).to == Declined) == Unit(m == Declined) + Unit(a in {Decline})
    ensures Unit(TransitionOf(a).to == Withdrawn) == Unit(m == Withdrawn) + Unit(a in {Withdraw})
  {
  }

  lemma ExchangeStep(m: Status, a: Action)
    requires Allowed(m, a) && a !in REFUSALS
    ensures Unit(TransitionOf(a).to == NeedsInformation) + Unit(a in {ProvideInformation})
         == Unit(m == NeedsInformation) + Unit(a in {RequestInformation})
    ensures Unit(TransitionOf(a).to == AlternativeProposed) + Unit(a in {ConfirmAlternative, RejectAlternative})
         == Unit(m == AlternativeProposed) + Unit(a in {ProposeAlternative})
    ensures m !in {Declined, Withdrawn}
  {
  }

  lemma RefusalStep(m: Status, a: Action)
    requires Allowed(m, a)
    ensures a in REFUSALS <==> TransitionOf(a).to in {Declined, Withdrawn}
  {
  }

  /**
   What every run from `requested` keeps: acceptance is booked exactly once in the agreed
   statuses and never elsewhere; closing, declining and withdrawing exactly in their statuses.
   */
  lemma {:induction false} AcceptanceIsBookedOnce(run: seq<Action>, t: Status)
    requires IsRun(Requested, run, t)
    ensures Count(run, ACCEPTANCES) == Unit(Agreed(t))
    ensures Count(run, CLOSINGS) == Unit(t == Closed)
    ensures Count(run, {Decline}) == Unit(t == Declined)
    ensures Count(run, {Withdraw}) == Unit(t == Withdrawn)
    decreases |run|
  {
    hide TransitionOf, Allowed, Agreed;
    if run == [] {
      assert !Agreed(Requested) by { NotAgreed(); }
    } else {
      var m := RunLast(Requested, run, t);
      AcceptanceIsBookedOnce(run[..|run| - 1], m);
      AcceptanceStep(m, run[|run| - 1]);
    }
  }

  lemma NotAgreed()
    ensures !Agreed(Requested)
  {
  }

  /**
   In every run that is not refused, each request for information and each proposed
   alternative has been answered, save one, exactly while its own status holds.
   */
  lemma {:induction false} ExchangesAreAnswered(run: seq<Action>, t: Status)
    requires IsRun(Requested, run, t) && t !in {Declined, Withdrawn}
    ensures Count(run, {RequestInformation}) == Count(run, {ProvideInformation}) + Unit(t == NeedsInformation)
    ensures Count(run, {ProposeAlternative}) ==
            Count(run, {ConfirmAlternative, RejectAlternative}) + Unit(t == AlternativeProposed)
    decreases |run|
  {
    hide TransitionOf, Allowed;
    if run != [] {
      var m := RunLast(Requested, run, t);
      RefusalStep(m, run[|run| - 1]);
      ExchangeStep(m, run[|run| - 1]);
      ExchangesAreAnswered(run[..|run| - 1], m);
    }
  }

  /** An acceptance is followed only by the steps after acceptance, at most three of them, and never by a refusal. */
  lemma {:induction false} AfterAcceptance(s: Status, run: seq<Action>, t: Status)
    requires Agreed(s) && IsRun(s, run, t)
    ensures Agreed(t) && |run| + Progress(s) <= Progress(t) <= 3
    ensures forall a :: a in run ==> a in AFTER_ACCEPTANCE && a !in REFUSALS && a !in ACCEPTANCES
    decreases |run|
  {
    if run != [] {
      AfterAcceptance(TransitionOf(run[0]).to, run[1..], t);
      assert run == [run[0]] + run[1..];
    }
  }

  /** The status after each prefix of a run. */
  lemma {:induction false} RunSplit(s: Status, run: seq<Action>, t: Status, i: nat) returns (m: Status)
    requires IsRun(s, run, t) && i <= |run|
    ensures IsRun(s, run[..i], m) && IsRun(m, run[i..], t)
    decreases |run|
  {
    if i == 0 {
      m := s;
    } else {
      m := RunSplit(TransitionOf(run[0]).to, run[1..], t, i - 1);
      assert run[1..][..i - 1] == run[..i][1..];
      assert run[1..][i - 1..] == run[i..];
    }
  }

  /** No run refuses a request after accepting it, or accepts twice, and none takes more than three steps after accepting. */
  lemma AcceptanceIsFinal(run: seq<Action>, t: Status, i: nat)
    requires IsRun(Requested, run, t) && i < |run| && run[i] in ACCEPTANCES
    ensures forall j :: i < j < |run| ==> run[j] !in REFUSALS && run[j] !in ACCEPTANCES && run[j] in AFTER_ACCEPTANCE
    ensures |run| - i - 1 <= 3
    ensures t in {Accepted, InProgress, Completed, Closed}
  {
    var m := RunSplit(Requested, run, t, i);
    assert run[i..][0] == run[i];
    assert run[i..][1..] == run[i + 1..];
    AfterAcceptance(TransitionOf(run[i]).to, run[i + 1..], t);
    forall j | i < j < |run|
      ensures run[j] !in REFUSALS && run[j] !in ACCEPTANCES && run[j] in AFTER_ACCEPTANCE
    {
      assert run[j] == run[i + 1..][j - i - 1];
    }
  }

  /** Every status can still be reached: the table has no dead entry. */
  lemma EveryStatusIsReachable(t: Status)
    ensures exists run :: IsRun(Requested, run, t)
  {
    assert IsRun(Requested, [], Requested);
    RunAppend(Requested, [], Requested, RequestInformation);
    RunAppend(Requested, [], Requested, ProposeAlternative);
    RunAppend(Requested, [], Requested, Decline);
    RunAppend(Requested, [], Requested, Withdraw);
    RunAppend(Requested, [], Requested, Accept);
    RunAppend(Requested, [] + [Accept], Accepted, Start);
    RunAppend(Requested, [] + [Accept], Accepted, Complete);
    RunAppend(Requested, [] + [Accept], Accepted, Close);
  }

  // ----- Turns -----

  // ----- Which steps are open -----

  /** Some action leads from the one status to the other. */
  ghost predicate Leads(s: Status, t: Status) { exists a :: Allowed(s, a) && TransitionOf(a).to == t }

  /** Status by status: what can come next. */
  function NextOf(s: Status): set<Status> {
    match s
    case Requested => {NeedsInformation, AlternativeProposed, Accepted, Declined, Withdrawn}
    case NeedsInformation => {Requested, Declined, Withdrawn}
    case AlternativeProposed => {Requested, Accepted, Declined, Withdrawn}
    case Accepted => {InProgress, Completed, Closed}
    case InProgress => {Completed, Closed}
    case Completed => {Closed}
    case _ => {}
  }

  lemma StepIsListed(s: Status, a: Action)
    requires Allowed(s, a)
    ensures TransitionOf(a).to in NextOf(s)
  {
  }

  /** An action that leads there. */
  function StepTo(s: Status, t: Status): Action {
    match t
    case Requested => if s == NeedsInformation then ProvideInformation else RejectAlternative
    case NeedsInformation => RequestInformation
    case AlternativeProposed => ProposeAlternative
    case Accepted => if s == Requested then Accept else ConfirmAlternative
    case Declined => Decline
    case Withdrawn => Withdraw
    case InProgress => Start
    case Completed => Complete
    case Closed => Close
  }

  lemma StepIsThere(s: Status, t: Status)
    requires t in NextOf(s)
    ensures Allowed(s, StepTo(s, t)) && TransitionOf(StepTo(s, t)).to == t
  {
  }

  /** Some action leads on to exactly what can come next. */
  lemma StepsAreOpen(s: Status, t: Status)
    ensures Leads(s, t) <==> t in NextOf(s)
  {
    hide Allowed, TransitionOf, NextOf, StepTo;
    if Leads(s, t) {
      var a :| Allowed(s, a) && TransitionOf(a).to == t;
      StepIsListed(s, a);
    }
    if t in NextOf(s) {
      StepIsThere(s, t);
    }
  }

  /** Every open status can be refused by either side, and closed in every way what is agreed and not yet closed. */
  lemma RefusalsAndClosingsAreOpen(s: Status, a: Action)
    ensures a in REFUSALS ==> (Allowed(s, a) <==> Open(s))
    ensures a in CLOSINGS ==> (Allowed(s, a) <==> Agreed(s) && s != Closed)
    ensures a == Accept ==> (Allowed(s, a) <==> s == Requested)
    ensures a == ConfirmAlternative ==> (Allowed(s, a) <==> s == AlternativeProposed)
  {
  }

  /** How far a request has come; exchanges before agreement go back and forth. */
  predicate ComesBefore(s: Status, t: Status) {
    Open(s) || s == t || (Agreed(s) && Agreed(t) && Progress(s) < Progress(t))
  }

  lemma {:induction false} RunsComeLater(s: Status, run: seq<Action>, t: Status)
    requires IsRun(s, run, t)
    ensures ComesBefore(s, t)
    decreases |run|
  {
    if run != [] {
      RunsComeLater(TransitionOf(run[0]).to, run[1..], t);
    }
  }

  lemma OneStepRun(s: Status, a: Action)
    requires Allowed(s, a)
    ensures IsRun(s, [] + [a], TransitionOf(a).to)
  {
    RunAppend(s, [], s, a);
  }

  /** From every open status a run leads back to `requested`. */
  lemma BackToRequested(s: Status) returns (run: seq<Action>)
    requires Open(s)
    ensures IsRun(s, run, Requested)
  {
    match s
    case Requested => run := [];
    case NeedsInformation => run := [] + [ProvideInformation]; OneStepRun(s, ProvideInformation);
    case AlternativeProposed => run := [] + [RejectAlternative]; OneStepRun(s, RejectAlternative);
  }

  lemma {:induction false} RunsChain(s: Status, run: seq<Action>, m: Status, more: seq<Action>, t: Status)
    requires IsRun(s, run, m) && IsRun(m, more, t)
    ensures IsRun(s, run + more, t)
    decreases |run|
  {
    hide Allowed, TransitionOf;
    if run == [] {
      assert run + more == more;
    } else {
      assert (run + more)[1..] == run[1..] + more;
      RunsChain(TransitionOf(run[0]).to, run[1..], m, more, t);
    }
  }

  ghost predicate CanReach(s: Status, t: Status) { exists run :: IsRun(s, run, t) }

  /**
   Which status can still follow which: everything follows an open status, and after
   agreement exactly what comes later in the course of the work.
   */
  lemma ReachesExactlyWhen(s: Status, t: Status)
    ensures CanReach(s, t) <==> ComesBefore(s, t)
  {
    if CanReach(s, t) {
      var run :| IsRun(s, run, t);
      RunsComeLater(s, run, t);
    }
    if ComesBefore(s, t) {
      if s == t {
        assert IsRun(s, [], t);
      } else if Open(s) {
        var back := BackToRequested(s);
        EveryStatusIsReachable(t);
        var run :| IsRun(Requested, run, t);
        RunsChain(s, back, Requested, run, t);
      } else {
        StepsAreOpen(s, t);
        var a :| Allowed(s, a) && TransitionOf(a).to == t;
        OneStepRun(s, a);
      }
    }
  }

  /**
   Before agreement each status waits for one side: the provider while requested, the
   requester while information or an answer is due; the other side can only refuse.
   After it the system may close, either side may close, and the provider does the rest.
   */
  lemma EachStatusWaitsForOneSide(s: Status, a: Action)
    requires Allowed(s, a)
    ensures a == Decline ==> TransitionOf(a).actor == Provider
    ensures a == Withdraw ==> TransitionOf(a).actor == Requester
    ensures a !in REFUSALS ==>
              TransitionOf(a).actor ==
              if s == Requested then Provider
              else if s in {NeedsInformation, AlternativeProposed} then Requester
              else if a == Close then Either
              else if a in {OutcomeAutoConfirm, OutcomeReconcile} then System
              else Provider
  {
  }

  /** Exchanges before agreement lead from `requested` and back to it. */
  lemma OpenStep(s: Status, a: Action)
    requires Open(s) && Allowed(s, a) && a !in REFUSALS && a !in ACCEPTANCES
    ensures Open(TransitionOf(a).to) && (TransitionOf(a).to == Requested <==> s != Requested)
  {
  }

  /** A run without an acceptance that can go on is open, and at `requested` after an even number of steps. */
  lemma {:induction false} OpenAfter(run: seq<Action>, t: Status)
    requires IsRun(Requested, run, t) && t !in TERMINAL_STATUSES
    requires forall i :: 0 <= i < |run| ==> run[i] !in ACCEPTANCES
    ensures Open(t) && (t == Requested <==> |run| % 2 == 0)
    decreases |run|
  {
    hide TransitionOf, Allowed;
    if run != [] {
      var m := RunLast(Requested, run, t);
      var a := run[|run| - 1];
      NothingFromTerminal(m, a);
      RefusalStep(m, a);
      OpenAfter(run[..|run| - 1], m);
      OpenStep(m, a);
    }
  }

  lemma NothingFromTerminal(s: Status, a: Action)
    requires Allowed(s, a)
    ensures s !in TERMINAL_STATUSES
  {
  }

  /**
   In every run, up to and including the first acceptance, the two sides take turns: but
   for a refusal, the provider takes the even steps and the requester the odd ones. So the
   provider's `accept` falls on an even step, the requester's `confirm_alternative` on an odd one.
   */
  lemma SidesTakeTurns(run: seq<Action>, t: Status, i: nat)
    requires IsRun(Requested, run, t) && i < |run| && run[i] !in REFUSALS
    requires forall j :: 0 <= j < i ==> run[j] !in ACCEPTANCES
    ensures TransitionOf(run[i]).actor == if i % 2 == 0 then Provider else Requester
    ensures run[i] in ACCEPTANCES ==> (run[i] == Accept <==> i % 2 == 0)
  {
    hide Allowed;
    var m := RunSplit(Requested, run, t, i);
    assert run[i..][0] == run[i];
    NothingFromTerminal(m, run[i]);
    OpenAfter(run[..i], m);
    EachStatusWaitsForOneSide(m, run[i]);
  }

  // ----- Retention clocks -----

  const ALUMNI_HELP_OUTCOME_CONFIRMATION_HOURS := 480
  const ALUMNI_HELP_ROOM_GRACE_DAYS := 7
  const ALUMNI_HELP_NEVER_ACCEPTED_RETENTION_MONTHS := 2
  const ALUMNI_HELP_ACCEPTED_RETENTION_MONTHS := 12
  const ALUMNI_HELP_OUTCOME_RETENTION_SAFETY_DAYS := 30

  function AddFixedHours(t: TimeValue, hours: int): TimeValue {
    match t
    case Invalid => Invalid
    case At(ms) => TimeClip(ms + hours * (MS_PER_DAY / 24))
  }

  function HelpOutcomeDueAt(submittedAt: TimeValue): TimeValue {
    AddFixedHours(submittedAt, ALUMNI_HELP_OUTCOME_CONFIRMATION_HOURS)
  }

  function RoomGraceEndsAt(closedAt: TimeValue): TimeValue {
    AddFixedDays(closedAt, ALUMNI_HELP_ROOM_GRACE_DAYS)
  }

  function NeverAcceptedPurgeAt(endedAt: TimeValue): TimeValue {
    AddUtcCalendarMonths(endedAt, ALUMNI_HELP_NEVER_ACCEPTED_RETENTION_MONTHS)
  }

  function AcceptedPurgeAt(closedAt: TimeValue, latestOutcomeDueAt: Option<TimeValue>): TimeValue {
    var closedRetention := AddUtcCalendarMonths(closedAt, ALUMNI_HELP_ACCEPTED_RETENTION_MONTHS);
    match latestOutcomeDueAt
    case None => closedRetention
    case Some(due) =>
      var outcomeRetention := AddFixedDays(due, ALUMNI_HELP_OUTCOME_RETENTION_SAFETY_DAYS);
      if IsAfter(outcomeRetention, closedRetention) then outcomeRetention else closedRetention
  }

  /**
   An accepted request is kept at least 365 days after closing, so past the room's grace
   week; and at least 30 days past the latest outcome's due date, exactly when that
   instant is representable.
   */
  lemma AcceptedRequestOutlivesItsDuties(closed: int, due: Option<TimeValue>)
    requires InRange(closed) && Faithful(closed, 12)
    ensures
      var purge := AcceptedPurgeAt(At(closed), due);
      && purge.At?
      && closed + 365 * MS_PER_DAY <= purge.ms
      && RoomGraceEndsAt(At(closed)) == At(closed + 7 * MS_PER_DAY)
      && IsAfter(purge, RoomGraceEndsAt(At(closed)))
      && (purge == At(MonthsLater(closed, 12)) || (due.Some? && due.value.At? && purge == At(due.value.ms + 30 * MS_PER_DAY)))
      && (due.Some? && due.value.At? ==>
            (due.value.ms + 30 * MS_PER_DAY <= purge.ms <==> due.value.ms + 30 * MS_PER_DAY <= MAX_TIME))
    ensures due.Some? ==> IsDateValue(AcceptedPurgeAt(At(closed), due))
  {
    hide AddUtcCalendarMonths, MonthsLater, Faithful;
    AddMonthsIsExactWhenFaithful(closed, 12);
    YearSpan(closed);
    FaithfulIsInRange(closed, 12);
  }

  /**
   The outcome clock moves the purge exactly if the outcome came in more than 315 days
   after closing, or 316 with a leap day ahead, and early enough to have a date itself.
   */
  lemma OutcomeExtendsExactlyWhen(closed: int, submitted: TimeValue)
    requires Faithful(closed, 12) && IsDateValue(submitted)
    ensures AcceptedPurgeAt(At(closed), Some(HelpOutcomeDueAt(submitted))) != AcceptedPurgeAt(At(closed), None) <==>
              && submitted.At?
              && submitted.ms > closed + (315 + if LeapDayAhead(closed) then 1 else 0) * MS_PER_DAY
              && submitted.ms + 50 * MS_PER_DAY <= MAX_TIME
  {
    hide AddUtcCalendarMonths, MonthsLater, Faithful, LeapDayAhead;
    AddMonthsIsExactWhenFaithful(closed, 12);
    OneYearTakes(closed);
    FaithfulIsInRange(closed, 12);
  }

  /** One millisecond past 315 days can suffice: closed on 1 January 2025. */
  lemma OutcomeJustLateEnough()
    ensures
      var closed := InstantOf(Civil(2025, 1, 1), 0);
      var submitted := At(closed + 315 * MS_PER_DAY + 1);
      AcceptedPurgeAt(At(closed), Some(HelpOutcomeDueAt(submitted))) != AcceptedPurgeAt(At(closed), None)
  {
    hide FirstDay, MonthOfDay, MonthIndex, DateOf, TimeInDay, YearOf, AddUtcCalendarMonths;
    var closed := InstantOf(Civil(2025, 1, 1), 0);
    InstantFields(Civil(2025, 1, 1), 0);
    MonthOfYear(2025, 0);
    MonthOfYear(2026, 0);
    AddMonthsIsExactWhenFaithful(closed, 12);
    assert closed == 20_089 * MS_PER_DAY;
    assert MonthsLater(closed, 12) == 20_454 * MS_PER_DAY;
  }

  /** Two months take 59 to 62 days, whatever is cut off at the end. */
  lemma TwoMonthSpan(t: int)
    ensures t + 59 * MS_PER_DAY <= MonthsLater(t, 2) <= t + 62 * MS_PER_DAY
  {
    hide FirstDay, MonthLength, MonthIndex, DateOf, MonthsLater;
    var k := MonthIndex(t);
    MonthsLaterSpan(t, 2);
    NoMonths(t);
    NextMonth(k);
    NextMonth(k + 1);
    NeighbouringMonths(k);
  }

  lemma NeighbouringMonths(k: int)
    ensures 59 <= MonthLength(k) + MonthLength(k + 1) <= 62
    ensures MonthLength(k + 2) < MonthLength(k) ==> MonthLength(k + 1) + MonthLength(k + 2) >= 59
  {
    var y, m := k / 12, k % 12;
    if m <= 9 {
      Quotient(k + 1, 12, y);
      Quotient(k + 2, 12, y);
    } else {
      Quotient(k + 1, 12, if m == 11 then y + 1 else y);
      Quotient(k + 2, 12, y + 1);
    }
  }

  /** A request never accepted is kept two calendar months, so 59 to 62 days. */
  lemma NeverAcceptedRequestIsKeptTwoMonths(ended: int)
    requires Faithful(ended, 2)
    ensures NeverAcceptedPurgeAt(At(ended)) == At(MonthsLater(ended, 2))
    ensures ended + 59 * MS_PER_DAY <= NeverAcceptedPurgeAt(At(ended)).ms <= ended + 62 * MS_PER_DAY
  {
    hide AddUtcCalendarMonths, MonthsLater, Faithful;
    AddMonthsIsExactWhenFaithful(ended, 2);
    TwoMonthSpan(ended);
  }
}
