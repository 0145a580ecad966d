/**
 The `events` outbox and the dispatcher that fans each event out to jobs: the
 claim of an event and the jobs it implies are one transaction.
 */
module EventRepo {
  import opened Prelude

  type EventId = nat

  datatype EventRow = EventRow(payload: string, occurredAt: int, processedAt: Option<int>)

  /** A queued job, with the event it was fanned out from. */
  datatype Queued = Queued(origin: EventId, payload: string)

  datatype Store = Store(events: map<EventId, EventRow>, jobs: seq<Queued>)

  const EMPTY := Store(map[], [])

  /** `UPDATE events SET processed_at = now WHERE id = ? AND processed_at IS NULL`. */
  function Marked(s: Store, id: EventId, now: int): (Store, bool) {
    if id in s.events && s.events[id].processedAt.None?
    then (s.(events := s.events[id := s.events[id].(processedAt := Some(now))]), true)
    else (s, false)
  }

  function FannedOut(id: EventId, payloads: seq<string>): seq<Queued> {
    seq(|payloads|, k requires 0 <= k < |payloads| => Queued(id, payloads[k]))
  }

  /** An append, or one dispatcher handling one event; `commits` is false when it crashes before its commit. */
  datatype Step =
    | Append(id: EventId, payload: string, now: int)
    | ProcessOne(id: EventId, payloads: seq<string>, now: int, commits: bool)

  function Apply(s: Store, e: Step): Store {
    match e
    case Append(id, payload, now) =>
      if id in s.events then s else s.(events := s.events[id := EventRow(payload, now, None)])
    case ProcessOne(id, payloads, now, commits) =>
      var (marked, claimed) := Marked(s, id, now);
      if claimed && commits then marked.(jobs := marked.jobs + FannedOut(id, payloads)) else s
  }

  function Run(es: seq<Step>): Store {
    if es == [] then EMPTY else Apply(Run(es[..|es| - 1]), es[|es| - 1])
  }

  /** The payloads queued for `id`, in order. */
  function JobsOf(jobs: seq<Queued>, id: EventId): seq<string> {
    if jobs == [] then []
    else
      var last := jobs[|jobs| - 1];
      JobsOf(jobs[..|jobs| - 1], id) + if last.origin == id then [last.payload] else []
  }

  lemma {:induction false} JobsOfConcat(a: seq<Queued>, b: seq<Queued>, id: EventId)
    ensures JobsOf(a + b, id) == JobsOf(a, id) + JobsOf(b, id)
    decreases |b|
  {
    if b == [] {
      assert a + b == a;
    } else {
      assert (a + b)[..|a + b| - 1] == a + b[..|b| - 1];
      JobsOfConcat(a, b[..|b| - 1], id);
    }
  }

  lemma {:induction false} JobsOfFanOut(id: EventId, payloads: seq<string>, other: EventId)
    ensures JobsOf(FannedOut(id, payloads), other) == if other == id then payloads else []
  {
    if payloads != [] {
      var n := |payloads| - 1;
      assert FannedOut(id, payloads)[..n] == FannedOut(id, payloads[..n]);
      JobsOfFanOut(id, payloads[..n], other);
      assert payloads == payloads[..n] + [payloads[n]];
    }
  }

  lemma JobsAfter(s: Store, e: Step, id: EventId)
    ensures JobsOf(Apply(s, e).jobs, id)
            == JobsOf(s.jobs, id)
               + if e.ProcessOne? && e.id == id && Marked(s, id, e.now).1 && e.commits then e.payloads else []
  {
    if e.ProcessOne? {
      JobsOfConcat(s.jobs, FannedOut(e.id, e.payloads), id);
      JobsOfFanOut(e.id, e.payloads, id);
    }
  }

  predicate Processed(s: Store, id: EventId) {
    id in s.events && s.events[id].processedAt.Some?
  }

  lemma ProcessedAfter(s: Store, e: Step, id: EventId)
    ensures Processed(Apply(s, e), id)
            <==> Processed(s, id) || (e.ProcessOne? && e.id == id && e.commits && id in s.events)
    ensures e.ProcessOne? && e.id == id ==> (Marked(s, id, e.now).1 <==> id in s.events && !Processed(s, id))
  {
    hide FannedOut;
  }

  /** What the first dispatcher to commit the handling of `id` fans it out to, if any has. */
  function FirstHandling(es: seq<Step>, id: EventId): Option<seq<string>> {
    if es == [] then None
    else
      var before, e := es[..|es| - 1], es[|es| - 1];
      if FirstHandling(before, id).Some? then FirstHandling(before, id)
      else if e.ProcessOne? && e.id == id && e.commits && id in Run(before).events then Some(e.payloads)
      else None
  }

  /**
   For any number of dispatchers, in any order, with crashes anywhere: the jobs
   of an event are those of the first dispatcher that committed, once, and the
   event is marked processed exactly when there is one.
   */
  lemma {:induction false} FannedOutExactlyOnce(es: seq<Step>, id: EventId)
    ensures var first := FirstHandling(es, id);
            && JobsOf(Run(es).jobs, id) == (if first.Some? then first.value else [])
            && (first.Some? <==> Processed(Run(es), id))
  {
    if es != [] {
      var before, e := es[..|es| - 1], es[|es| - 1];
      FannedOutExactlyOnce(before, id);
      JobsAfter(Run(before), e, id);
      ProcessedAfter(Run(before), e, id);
      hide JobsOf, FannedOut, Apply, Marked, Processed;
    }
  }

  /** The first append of `id` in the run. */
  ghost predicate FirstAppend(es: seq<Step>, id: EventId, i: nat) {
    && i < |es| && es[i].Append? && es[i].id == id
    && forall j :: 0 <= j < i ==> !(es[j].Append? && es[j].id == id)
  }

  /** The first commit of a handling of `id` behind its append. */
  ghost predicate FirstCommit(es: seq<Step>, id: EventId, i: nat, k: nat) {
    && i < k < |es| && Commits(es[k], id)
    && forall j :: i < j < k ==> !Commits(es[j], id)
  }

  predicate Commits(e: Step, id: EventId) {
    e.ProcessOne? && e.id == id && e.commits
  }

  ghost predicate NeverCommitted(es: seq<Step>, id: EventId, i: nat) {
    forall k :: i < k < |es| ==> !Commits(es[k], id)
  }

  lemma {:induction false} UnknownUntilAppended(es: seq<Step>, id: EventId)
    requires forall j :: 0 <= j < |es| ==> !(es[j].Append? && es[j].id == id)
    ensures id !in Run(es).events
  {
    hide FannedOut;
    if es != [] { UnknownUntilAppended(es[..|es| - 1], id); }
  }

  /**
   An event keeps the payload and the time of its first append, and the time it was
   processed is that of the first dispatcher that committed its handling.
   */
  lemma {:induction false} RowTellsItsEvent(es: seq<Step>, id: EventId, i: nat)
    requires FirstAppend(es, id, i)
    ensures id in Run(es).events
    ensures Run(es).events[id].payload == es[i].payload && Run(es).events[id].occurredAt == es[i].now
    ensures forall k: nat :: FirstCommit(es, id, i, k) ==> Run(es).events[id].processedAt == Some(es[k].now)
    ensures NeverCommitted(es, id, i) ==> Run(es).events[id].processedAt == None
  {
    var before, e := es[..|es| - 1], es[|es| - 1];
    assert es == before + [e];
    if i == |before| {
      UnknownUntilAppended(before, id);
      hide FannedOut;
    } else {
      RowTellsItsEvent(before, id, i);
      RowStep(Run(before), e, id);
      OneMoreCommit(before, e, id, i);
      hide Apply, FirstCommit, Commits;
      if !NeverCommitted(before, id, i) {
        var k := FirstOfAll(before, id, i);
      }
    }
  }

  lemma RowStep(s: Store, e: Step, id: EventId)
    requires id in s.events
    ensures id in Apply(s, e).events
    ensures Apply(s, e).events[id]
            == if Commits(e, id) && s.events[id].processedAt.None? then s.events[id].(processedAt := Some(e.now))
               else s.events[id]
  {
    hide FannedOut;
  }

  lemma OneMoreCommit(before: seq<Step>, e: Step, id: EventId, i: nat)
    requires i < |before|
    ensures var es := before + [e];
            && (NeverCommitted(es, id, i) <==> NeverCommitted(before, id, i) && !Commits(e, id))
            && forall k: nat :: FirstCommit(es, id, i, k)
                 <==> FirstCommit(before, id, i, k)
                      || (k == |before| && NeverCommitted(before, id, i) && Commits(e, id))
  {
    hide Commits;
    var es := before + [e];
    forall j | 0 <= j < |before| ensures es[j] == before[j] {}
    assert es[|before|] == e;
    if NeverCommitted(es, id, i) {
      forall k | i < k < |before| ensures !Commits(before[k], id) { assert es[k] == before[k]; }
    }
  }

  lemma {:induction false} FirstOfAll(es: seq<Step>, id: EventId, i: nat) returns (k: nat)
    requires !NeverCommitted(es, id, i)
    ensures FirstCommit(es, id, i, k)
  {
    k := i + 1;
    while !Commits(es[k], id)
      invariant i < k < |es| && forall j :: i < j < k ==> !Commits(es[j], id)
      decreases |es| - k
    {
      k := k + 1;
    }
  }

  class EventTable {
    var store: Store

    constructor ()
      ensures store == EMPTY
    {
      store := EMPTY;
    }

    method AppendEvent(id: EventId, payload: string, now: int) returns (ok: bool)
      modifies this
      ensures ok <==> id !in old(store).events
      ensures store == Apply(old(store), Append(id, payload, now))
    {
      ok := id !in store.events;
      if ok {
        store := store.(events := store.events[id := EventRow(payload, now, None)]);
      }
    }

    /** Whether this call is the one that claimed the event. */
    method MarkProcessed(id: EventId, now: int) returns (claimed: bool)
      modifies this
      ensures claimed <==> id in old(store).events && !Processed(old(store), id)
      ensures id in old(store).events ==> Processed(store, id)
      ensures forall e :: e != id && e in old(store).events ==>
                e in store.events && store.events[e] == old(store).events[e]
      ensures store.jobs == old(store).jobs && store.events.Keys == old(store).events.Keys
      ensures (store, claimed) == Marked(old(store), id, now)
    {
      claimed := id in store.events && store.events[id].processedAt.None?;
      if claimed {
        store := store.(events := store.events[id := store.events[id].(processedAt := Some(now))]);
      }
    }

    /** The dispatcher's transaction; a crash before the commit leaves the store as it was. */
    method Dispatch(id: EventId, payloads: seq<string>, now: int, commits: bool)
      modifies this
      ensures store == Apply(old(store), ProcessOne(id, payloads, now, commits))
    {
      var before := store;
      var claimed := MarkProcessed(id, now);
      if !claimed {
        store := before;
        return;
      }
      ghost var marked := store;
      for k := 0 to |payloads|
        invariant store == marked.(jobs := marked.jobs + FannedOut(id, payloads[..k]))
      {
        assert FannedOut(id, payloads[..k + 1]) == FannedOut(id, payloads[..k]) + [Queued(id, payloads[k])];
        store := store.(jobs := store.jobs + [Queued(id, payloads[k])]);
      }
      assert payloads[..|payloads|] == payloads;
      if !commits {
        store := before;
      }
    }
  }
}
