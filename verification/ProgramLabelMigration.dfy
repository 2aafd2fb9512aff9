/**
 The migration from `programId` to `programLabels`
 (`backend/scripts/migrate-program-to-labels.ts`) and its verifier
 (`backend/scripts/verify-program-labels.ts`).
 */
module ProgramLabelMigration {
  import opened Outcomes

  type ObjectId = string

  /** The fields of a stored event that the scripts read; either may be missing. */
  datatype Event = Event(id: ObjectId, programId: Option<ObjectId>, programLabels: Option<seq<ObjectId>>)

  /** What becomes of a write: it may also fail after having taken effect. */
  datatype WriteOutcome = Applied | FailedWithoutEffect | FailedAfterWrite

  function CurrentLabels(e: Event): seq<ObjectId> {
    match e.programLabels
    case None => []
    case Some(labels) => labels
  }

  function NewLabels(e: Event): seq<ObjectId> {
    match e.programId
    case None => []
    case Some(p) => [p]
  }

  predicate NeedsUpdate(e: Event) { CurrentLabels(e) != NewLabels(e) }

  predicate HasEffect(w: WriteOutcome) { w != FailedWithoutEffect }

  /** An event after its turn in a live run. */
  function Processed(e: Event, w: WriteOutcome): Event {
    if NeedsUpdate(e) && HasEffect(w) then e.(programLabels := Some(NewLabels(e))) else e
  }

  function ProcessedAll(events: seq<Event>, writes: nat -> WriteOutcome): (r: seq<Event>)
    ensures |r| == |events| && forall i :: 0 <= i < |events| ==> r[i] == Processed(events[i], writes(i))
  {
    seq(|events|, i requires 0 <= i < |events| => Processed(events[i], writes(i)))
  }

  // ----- Counting -----

  /** How many of the first `n` events satisfy `p`, which may look at the event's place. */
  function Count(events: seq<Event>, n: nat, p: (nat, Event) -> bool): nat
    requires n <= |events|
  {
    if n == 0 then 0 else Count(events, n - 1, p) + if p(n - 1, events[n - 1]) then 1 else 0
  }

  /** Event by event implication bounds the count. */
  lemma {:induction false} CountAtMost(
      events: seq<Event>, others: seq<Event>, n: nat, p: (nat, Event) -> bool, q: (nat, Event) -> bool)
    requires n <= |events| && n <= |others|
    requires forall i :: 0 <= i < n && p(i, events[i]) ==> q(i, others[i])
    ensures Count(events, n, p) <= Count(others, n, q)
  {
    if n > 0 { CountAtMost(events, others, n - 1, p, q); }
  }

  lemma {:induction false} CountNone(events: seq<Event>, n: nat, p: (nat, Event) -> bool)
    requires n <= |events|
    ensures Count(events, n, p) == 0 <==> forall i :: 0 <= i < n ==> !p(i, events[i])
  {
    if n > 0 { CountNone(events, n - 1, p); }
  }

  lemma {:induction false} CountEither(
      events: seq<Event>, n: nat, p: (nat, Event) -> bool, q: (nat, Event) -> bool, r: (nat, Event) -> bool)
    requires n <= |events|
    requires forall i :: 0 <= i < n ==> !(p(i, events[i]) && q(i, events[i]))
    requires forall i :: 0 <= i < n ==> (r(i, events[i]) <==> p(i, events[i]) || q(i, events[i]))
    ensures Count(events, n, p) + Count(events, n, q) == Count(events, n, r)
  {
    if n > 0 { CountEither(events, n - 1, p, q, r); }
  }

  lemma {:induction false} CountAll(events: seq<Event>, n: nat, p: (nat, Event) -> bool)
    requires n <= |events|
    ensures Count(events, n, p) <= n
    ensures Count(events, n, p) == n <==> forall i :: 0 <= i < n ==> p(i, events[i])
  {
    if n > 0 { CountAll(events, n - 1, p); }
  }

  // ----- The store -----

  ghost predicate DistinctIds(docs: seq<Event>) {
    forall i, j :: 0 <= i < j < |docs| ==> docs[i].id != docs[j].id
  }

  /** The collection of events. */
  class EventStore {
    var docs: seq<Event>

    ghost predicate Valid()
      reads this
    {
      DistinctIds(docs)
    }

    /** `updateOne` by id: sets the labels of that document, or throws, with or without effect. */
    method UpdateOne(id: ObjectId, labels: seq<ObjectId>, w: WriteOutcome) returns (threw: bool)
      requires Valid()
      modifies this
      ensures Valid()
      ensures threw <==> w != Applied
      ensures |docs| == |old(docs)|
      ensures forall i :: 0 <= i < |docs| ==>
                docs[i] == if old(docs[i].id) == id && HasEffect(w) then old(docs[i]).(programLabels := Some(labels))
                           else old(docs[i])
    {
      if HasEffect(w) {
        var before := docs;
        docs := seq(|before|, i requires 0 <= i < |before| =>
          if before[i].id == id then before[i].(programLabels := Some(labels)) else before[i]);
      }
      threw := w != Applied;
    }
  }

  // ----- Migration -----

  datatype MigrationStats = MigrationStats(total: int, withProgramId: int, withoutProgramId: int, updated: int, errors: int)

  function HasProgram(i: nat, e: Event): bool { e.programId.Some? }

  function HasNoProgram(i: nat, e: Event): bool { e.programId.None? }

  function IsUpdated(writes: nat -> WriteOutcome): (nat, Event) -> bool {
    (i: nat, e: Event) => NeedsUpdate(e) && writes(i) == Applied
  }

  function IsError(writes: nat -> WriteOutcome): (nat, Event) -> bool {
    (i: nat, e: Event) => NeedsUpdate(e) && writes(i) != Applied
  }

  /** What a run reports; a dry run counts every event as one that would be updated. */
  function StatsAfter(events: seq<Event>, n: nat, dryRun: bool, writes: nat -> WriteOutcome): MigrationStats
    requires n <= |events|
  {
    MigrationStats(
      |events|,
      Count(events, n, HasProgram),
      Count(events, n, HasNoProgram),
      if dryRun then n else Count(events, n, IsUpdated(writes)),
      if dryRun then 0 else Count(events, n, IsError(writes)))
  }

  /** What one more event adds to the report. */
  lemma StatsStep(events: seq<Event>, i: nat, dryRun: bool, writes: nat -> WriteOutcome)
    requires i < |events|
    ensures
      var e, s, r := events[i], StatsAfter(events, i, dryRun, writes), StatsAfter(events, i + 1, dryRun, writes);
      && r.total == s.total
      && r.withProgramId == s.withProgramId + (if e.programId.Some? then 1 else 0)
      && r.withoutProgramId == s.withoutProgramId + (if e.programId.None? then 1 else 0)
      && r.updated == s.updated + (if dryRun || (NeedsUpdate(e) && writes(i) == Applied) then 1 else 0)
      && r.errors == s.errors + (if !dryRun && NeedsUpdate(e) && writes(i) != Applied then 1 else 0)
  {
    hide NeedsUpdate;
  }

  lemma NoStatsYet(events: seq<Event>, dryRun: bool, writes: nat -> WriteOutcome)
    ensures StatsAfter(events, 0, dryRun, writes) == MigrationStats(|events|, 0, 0, 0, 0)
  {
  }

  method MigratePrograms(store: EventStore, dryRun: bool, writes: nat -> WriteOutcome) returns (stats: MigrationStats)
    requires store.Valid()
    modifies store
    ensures store.Valid()
    ensures store.docs == if dryRun then old(store.docs) else ProcessedAll(old(store.docs), writes)
    ensures stats == StatsAfter(old(store.docs), |old(store.docs)|, dryRun, writes)
  {
    hide StatsAfter, DistinctIds;
    var events := store.docs;
    stats := MigrationStats(|events|, 0, 0, 0, 0);
    NoStatsYet(events, dryRun, writes);
    for i := 0 to |events|
      invariant store.Valid() && DistinctIds(events) && |store.docs| == |events|
      invariant forall j :: 0 <= j < |events| ==>
                  store.docs[j] == if j < i && !dryRun then Processed(events[j], writes(j)) else events[j]
      invariant stats == StatsAfter(events, i, dryRun, writes)
    {
      StatsStep(events, i, dryRun, writes);
      OthersKeepTheirIds(events, i);
      var event := events[i];
      var currentLabels := CurrentLabels(event);
      var newLabels: seq<ObjectId>;
      if event.programId.Some? {
        newLabels := [event.programId.value];
        stats := stats.(withProgramId := stats.withProgramId + 1);
      } else {
        newLabels := [];
        stats := stats.(withoutProgramId := stats.withoutProgramId + 1);
      }
      if !dryRun {
        if currentLabels != newLabels {
          var threw := store.UpdateOne(event.id, newLabels, writes(i));
          if threw {
            stats := stats.(errors := stats.errors + 1);
          } else {
            stats := stats.(updated := stats.updated + 1);
          }
        }
      } else {
        stats := stats.(updated := stats.updated + 1);
      }
    }
    assert store.docs == if dryRun then events else ProcessedAll(events, writes);
  }

  lemma OthersKeepTheirIds(events: seq<Event>, i: nat)
    requires DistinctIds(events) && i < |events|
    ensures forall j :: 0 <= j < |events| && events[j].id == events[i].id ==> j == i
  {
  }

  // ----- Verification -----

  datatype VerificationStats = VerificationStats(
    total: int, migrated: int, needsMigration: int, validationErrors: int, inconsistent: int)

  function LacksLabels(i: nat, e: Event): bool { e.programId.Some? && CurrentLabels(e) == [] }

  function Disagrees(i: nat, e: Event): bool {
    e.programId.Some? && CurrentLabels(e) != [] && e.programId.value !in CurrentLabels(e)
  }

  function IsMigrated(i: nat, e: Event): bool { !LacksLabels(i, e) && !Disagrees(i, e) }

  function VerdictOn(events: seq<Event>, n: nat): VerificationStats
    requires n <= |events|
  {
    VerificationStats(|events|, Count(events, n, IsMigrated), Count(events, n, LacksLabels), 0, Count(events, n, Disagrees))
  }

  /** Counts the events by state, and lists the ids of those at issue. */
  method VerifyMigration(store: EventStore) returns (stats: VerificationStats, issues: seq<ObjectId>)
    ensures stats == VerdictOn(store.docs, |store.docs|)
    ensures |issues| == stats.needsMigration + stats.inconsistent
    ensures forall id :: id in issues <==>
              exists i :: 0 <= i < |store.docs| && store.docs[i].id == id && !IsMigrated(i, store.docs[i])
  {
    var events := store.docs;
    stats := VerificationStats(|events|, 0, 0, 0, 0);
    issues := [];
    for i := 0 to |events|
      invariant stats == VerdictOn(events, i)
      invariant |issues| == stats.needsMigration + stats.inconsistent
      invariant forall id :: id in issues <==> exists j :: 0 <= j < i && events[j].id == id && !IsMigrated(j, events[j])
    {
      var event := events[i];
      var programLabels := CurrentLabels(event);
      if event.programId.Some? && |programLabels| == 0 {
        stats := stats.(needsMigration := stats.needsMigration + 1);
        issues := issues + [event.id];
      } else if event.programId.Some? && |programLabels| > 0 {
        var hasMatchingLabel := exists l :: l in programLabels && l == event.programId.value;
        if hasMatchingLabel {
          stats := stats.(migrated := stats.migrated + 1);
        } else {
          stats := stats.(inconsistent := stats.inconsistent + 1);
          issues := issues + [event.id];
        }
      } else if event.programId.None? && |programLabels| == 0 {
        stats := stats.(migrated := stats.migrated + 1);
      } else if event.programId.None? && |programLabels| > 0 {
        stats := stats.(migrated := stats.migrated + 1);
      } else {
        stats := stats.(validationErrors := stats.validationErrors + 1);
        issues := issues + [event.id];
      }
    }
  }

  // ----- The two scripts together -----

  /** The verifier's counters share out all events, and its last branch is never taken. */
  lemma VerdictsAddUp(events: seq<Event>)
    ensures
      var v := VerdictOn(events, |events|);
      v.migrated + v.needsMigration + v.inconsistent + v.validationErrors == v.total && v.validationErrors == 0
  {
    var n := |events|;
    var unsettled := (i: nat, e: Event) => LacksLabels(i, e) || Disagrees(i, e);
    CountEither(events, n, LacksLabels, Disagrees, unsettled);
    CountEither(events, n, IsMigrated, unsettled, (i: nat, e: Event) => true);
    CountAll(events, n, (i: nat, e: Event) => true);
  }

  /** The labels an event has in the store; a missing list holds none. */
  predicate Holds(e: Event, tag: ObjectId) { e.programLabels.Some? && tag in e.programLabels.value }

  predicate HoldsNone(e: Event) { e.programLabels == None || e.programLabels == Some([]) }

  /**
   What the counters count: events with a program and no label, events with labels none of
   which is the program's, and the rest.
   */
  lemma CountersCountWhatTheySay(events: seq<Event>)
    ensures
      var n, v := |events|, VerdictOn(events, |events|);
      && v.total == n && v.validationErrors == 0
      && v.needsMigration == Count(events, n, (i: nat, e: Event) => e.programId.Some? && HoldsNone(e))
      && v.inconsistent ==
         Count(events, n, (i: nat, e: Event) => e.programId.Some? && !HoldsNone(e) && !Holds(e, e.programId.value))
      && v.migrated == Count(events, n, (i: nat, e: Event) => e.programId.Some? ==> Holds(e, e.programId.value))
  {
    var n := |events|;
    CountSame(events, events, n, LacksLabels, (i: nat, e: Event) => e.programId.Some? && HoldsNone(e));
    CountSame(events, events, n, Disagrees,
              (i: nat, e: Event) => e.programId.Some? && !HoldsNone(e) && !Holds(e, e.programId.value));
    CountSame(events, events, n, IsMigrated, (i: nat, e: Event) => e.programId.Some? ==> Holds(e, e.programId.value));
  }

  /** What a live run leaves behind, and how it counts, in terms of the stored fields. */
  lemma RunsWriteTheProgram(events: seq<Event>, writes: nat -> WriteOutcome, i: nat)
    requires i < |events|
    ensures
      var e, after := events[i], ProcessedAll(events, writes)[i];
      var wanted := match e.programId case None => [] case Some(p) => [p];
      var settled := e.programLabels == Some(wanted) || (HoldsNone(e) && wanted == []);
      && after.id == e.id && after.programId == e.programId
      && (writes(i) == FailedWithoutEffect ==> after == e)
      && (writes(i) != FailedWithoutEffect ==> after.programLabels == Some(wanted) || (settled && after == e))
      && (IsUpdated(writes)(i, e) <==> writes(i) == Applied && !settled)
      && (IsError(writes)(i, e) <==> writes(i) != Applied && !settled)
  {
  }

  function IsAtIssue(i: nat, e: Event): bool { !IsMigrated(i, e) }

  /** At issue, and left as it was by a write without effect. */
  function StaysAtIssue(writes: nat -> WriteOutcome): (nat, Event) -> bool {
    (i: nat, e: Event) => !IsMigrated(i, e) && writes(i) == FailedWithoutEffect
  }

  /** Events that correspond under two criteria count alike. */
  lemma {:induction false} CountSame(
      events: seq<Event>, others: seq<Event>, n: nat, p: (nat, Event) -> bool, q: (nat, Event) -> bool)
    requires n <= |events| && n <= |others|
    requires forall i :: 0 <= i < n ==> (p(i, events[i]) <==> q(i, others[i]))
    ensures Count(events, n, p) == Count(others, n, q)
  {
    if n > 0 { CountSame(events, others, n - 1, p, q); }
  }

  lemma AtIssueAfterItsTurn(i: nat, e: Event, w: WriteOutcome)
    ensures IsAtIssue(i, Processed(e, w)) <==> !IsMigrated(i, e) && w == FailedWithoutEffect
    ensures !IsMigrated(i, e) ==> NeedsUpdate(e)
  {
  }

  lemma AtIssueMeansEither(i: nat, e: Event)
    ensures IsAtIssue(i, e) <==> LacksLabels(i, e) || Disagrees(i, e)
    ensures !(LacksLabels(i, e) && Disagrees(i, e))
  {
  }

  /**
   After a live run, the verifier finds at issue exactly the events that were so before and
   whose write had no effect: at most as many as the run had errors.
   */
  lemma VerifierFindsTheLostWrites(events: seq<Event>, writes: nat -> WriteOutcome)
    ensures
      var v := VerdictOn(ProcessedAll(events, writes), |events|);
      && v.needsMigration + v.inconsistent == Count(events, |events|, StaysAtIssue(writes))
      && v.needsMigration + v.inconsistent <= StatsAfter(events, |events|, false, writes).errors
  {
    var n := |events|;
    var after := ProcessedAll(events, writes);
    hide IsAtIssue, IsMigrated, LacksLabels, Disagrees, NeedsUpdate, Processed;
    forall i | 0 <= i < n
      ensures IsAtIssue(i, after[i]) <==> LacksLabels(i, after[i]) || Disagrees(i, after[i])
      ensures !(LacksLabels(i, after[i]) && Disagrees(i, after[i]))
      ensures IsAtIssue(i, after[i]) <==> !IsMigrated(i, events[i]) && writes(i) == FailedWithoutEffect
      ensures !IsMigrated(i, events[i]) ==> NeedsUpdate(events[i])
    {
      AtIssueMeansEither(i, after[i]);
      AtIssueAfterItsTurn(i, events[i], writes(i));
    }
    CountEither(after, n, LacksLabels, Disagrees, IsAtIssue);
    CountSame(after, events, n, IsAtIssue, StaysAtIssue(writes));
    CountAtMost(events, events, n, StaysAtIssue(writes), IsError(writes));
  }

  /** A run without errors leaves every event as it should be: verified, and nothing for another run to do. */
  lemma ErrorFreeRunsSettle(events: seq<Event>, writes: nat -> WriteOutcome, again: nat -> WriteOutcome)
    requires StatsAfter(events, |events|, false, writes).errors == 0
    ensures
      var after := ProcessedAll(events, writes);
      && (forall i :: 0 <= i < |after| ==> CurrentLabels(after[i]) == NewLabels(events[i]))
      && VerdictOn(after, |after|).migrated == |events|
      && ProcessedAll(after, again) == after
      && StatsAfter(after, |after|, false, again).updated == 0
      && StatsAfter(after, |after|, false, again).errors == 0
  {
    hide NeedsUpdate, HasEffect;
    var after := ProcessedAll(events, writes);
    CountNone(events, |events|, IsError(writes));
    forall i | 0 <= i < |events|
      ensures CurrentLabels(after[i]) == NewLabels(events[i]) && NewLabels(after[i]) == NewLabels(events[i])
      ensures !NeedsUpdate(after[i]) && IsMigrated(i, after[i])
    {
      assert !(NeedsUpdate(events[i]) && writes(i) != Applied);
      ProcessedIsSettled(events[i], writes(i));
      SettledIsMigrated(i, after[i]);
    }
    CountNone(after, |after|, IsUpdated(again));
    CountNone(after, |after|, IsError(again));
    CountAll(after, |after|, IsMigrated);
    assert ProcessedAll(after, again) == after;
  }

  lemma ProcessedIsSettled(e: Event, w: WriteOutcome)
    requires NeedsUpdate(e) ==> w == Applied
    ensures CurrentLabels(Processed(e, w)) == NewLabels(e) == NewLabels(Processed(e, w)) && !NeedsUpdate(Processed(e, w))
  {
  }

  lemma SettledIsMigrated(i: nat, e: Event)
    requires CurrentLabels(e) == NewLabels(e)
    ensures IsMigrated(i, e)
  {
  }

  /** Of an event, a live write keeps everything but the labels; a tag goes exactly when it is not the program's. */
  lemma WhatAWriteChanges(e: Event, w: WriteOutcome, tag: ObjectId)
    ensures Processed(e, w).id == e.id && Processed(e, w).programId == e.programId
    ensures tag in CurrentLabels(e) && tag !in CurrentLabels(Processed(e, w)) <==>
            tag in CurrentLabels(e) && e.programId != Some(tag) && HasEffect(w)
  {
  }

  /** The event has a label that is not its program's, and its write takes effect. */
  ghost predicate LosesALabel(e: Event, w: WriteOutcome) {
    HasEffect(w) && exists tag :: tag in CurrentLabels(e) && e.programId != Some(tag)
  }

  /** A live run keeps every label of every event exactly if no write takes effect on an event with a foreign label. */
  lemma RunsKeepAllLabelsExactlyWhen(events: seq<Event>, writes: nat -> WriteOutcome)
    ensures
      var after := ProcessedAll(events, writes);
      (forall i, tag :: 0 <= i < |events| && tag in CurrentLabels(events[i]) ==> tag in CurrentLabels(after[i])) <==>
      forall i :: 0 <= i < |events| ==> !LosesALabel(events[i], writes(i))
  {
    hide CurrentLabels, HasEffect;
    var after := ProcessedAll(events, writes);
    forall i, tag | 0 <= i < |events|
      ensures tag in CurrentLabels(events[i]) && tag !in CurrentLabels(after[i]) <==>
              tag in CurrentLabels(events[i]) && events[i].programId != Some(tag) && HasEffect(writes(i))
    {
      WhatAWriteChanges(events[i], writes(i), tag);
    }
  }

  function HasMoreLabels(i: nat, e: Event): bool { |CurrentLabels(e)| > |NewLabels(e)| }

  /** An event the verifier calls migrated is still rewritten exactly when it has labels besides its program's. */
  lemma MigratedEventsMayStillChange(i: nat, e: Event)
    requires IsMigrated(i, e)
    ensures NeedsUpdate(e) <==> HasMoreLabels(i, e)
  {
  }

  lemma LeftAloneExactlyWhen(e: Event, w: WriteOutcome)
    ensures Processed(e, w) == e && !(NeedsUpdate(e) && w != Applied) <==> !NeedsUpdate(e)
  {
  }

  /** A live run changes nothing, and fails at nothing, exactly if no event needs an update. */
  lemma IdleExactlyWhenNothingNeedsUpdate(events: seq<Event>, writes: nat -> WriteOutcome)
    ensures ProcessedAll(events, writes) == events && StatsAfter(events, |events|, false, writes).errors == 0 <==>
              forall i :: 0 <= i < |events| ==> !NeedsUpdate(events[i])
  {
    hide NeedsUpdate, Processed;
    var after := ProcessedAll(events, writes);
    CountNone(events, |events|, IsError(writes));
    forall i | 0 <= i < |events|
      ensures after[i] == events[i] && !IsError(writes)(i, events[i]) <==> !NeedsUpdate(events[i])
    {
      LeftAloneExactlyWhen(events[i], writes(i));
    }
    assert after == events <==> forall i :: 0 <= i < |events| ==> after[i] == events[i];
  }

  /**
   When the verifier is satisfied with all events, a live run still tries to rewrite exactly
   those with more labels than their program gives; so it has nothing to do only if there are none.
   */
  lemma SatisfiedVerifierMayLeaveWork(events: seq<Event>, writes: nat -> WriteOutcome)
    requires VerdictOn(events, |events|).migrated == |events|
    ensures
      var live := StatsAfter(events, |events|, false, writes);
      && live.updated + live.errors == Count(events, |events|, HasMoreLabels)
      && (ProcessedAll(events, writes) == events && live.errors == 0 <==>
            forall i :: 0 <= i < |events| ==> !HasMoreLabels(i, events[i]))
  {
    hide NeedsUpdate, IsMigrated, HasMoreLabels, HasEffect;
    var n := |events|;
    CountAll(events, n, IsMigrated);
    forall i | 0 <= i < n
      ensures NeedsUpdate(events[i]) <==> HasMoreLabels(i, events[i])
    {
      MigratedEventsMayStillChange(i, events[i]);
    }
    CountEither(events, n, IsUpdated(writes), IsError(writes), HasMoreLabels);
    IdleExactlyWhenNothingNeedsUpdate(events, writes);
  }

  /** Labels of an event without a program count as migrated, yet a live run erases them. */
  lemma LabelsOfEventsWithoutProgramAreErased()
    ensures
      var events := [Event("e", None, Some(["label"]))];
      && VerdictOn(events, 1).migrated == 1
      && CurrentLabels(ProcessedAll(events, _ => Applied)[0]) == []
  {
  }

  /** Every event is counted once, as one with a program or one without. */
  lemma ProgramsAreCounted(events: seq<Event>, dryRun: bool, writes: nat -> WriteOutcome)
    ensures
      var s := StatsAfter(events, |events|, dryRun, writes);
      s.withProgramId + s.withoutProgramId == s.total
  {
    CountEither(events, |events|, HasProgram, HasNoProgram, (i: nat, e: Event) => true);
    CountAll(events, |events|, (i: nat, e: Event) => true);
  }

  /**
   A dry run reports the programs a live run would, but announces all events as updates; a
   live run's updates reach that number only if each needs one and gets it.
   */
  lemma DryRunAnnouncesEverything(events: seq<Event>, writes: nat -> WriteOutcome)
    ensures
      var dry, live := StatsAfter(events, |events|, true, writes), StatsAfter(events, |events|, false, writes);
      && dry.withProgramId == live.withProgramId && dry.withProgramId + dry.withoutProgramId == dry.total == |events|
      && dry.updated == |events| && live.updated + live.errors <= dry.updated
      && (live.updated == dry.updated <==> forall i :: 0 <= i < |events| ==> NeedsUpdate(events[i]) && writes(i) == Applied)
  {
    var n := |events|;
    ProgramsAreCounted(events, true, writes);
    CountAll(events, n, IsUpdated(writes));
    var attempted := (i: nat, e: Event) => NeedsUpdate(e);
    CountEither(events, n, IsUpdated(writes), IsError(writes), attempted);
    CountAll(events, n, attempted);
  }
}
