/** The client's buffer of proctoring events: persisted on every change, sent in batches, dropped only on an answer. */
module ProctoringQueue {
  import opened Extended
  import opened ProctoringRules

  const MAX_STORED := 200
  const MAX_SENT := 50
  const FLUSH_AT := 10

  /** slice(-200) */
  function Stored(events: seq<Event>): seq<Event> {
    if |events| > MAX_STORED then events[|events| - MAX_STORED..] else events
  }

  /** slice(0, 50) */
  function FirstBatch(events: seq<Event>): seq<Event> {
    if |events| > MAX_SENT then events[..MAX_SENT] else events
  }

  predicate Mentions(batch: seq<Event>, id: string) {
    exists k :: 0 <= k < |batch| && batch[k].id == id
  }

  /** The events whose ids are not in the batch, in order. */
  function Remaining(events: seq<Event>, batch: seq<Event>): seq<Event> {
    if events == [] then []
    else
      var front, last := Remaining(events[..|events| - 1], batch), events[|events| - 1];
      if Mentions(batch, last.id) then front else front + [last]
  }

  ghost predicate UniqueIds(events: seq<Event>) {
    forall i, j :: 0 <= i < j < |events| ==> events[i].id != events[j].id
  }

  /** A batch taken from the front is removed from the front, whatever was pushed behind it meanwhile. */
  lemma RemovesFront(batch: seq<Event>, rest: seq<Event>)
    requires UniqueIds(batch + rest)
    ensures Remaining(batch + rest, batch) == rest
  {
    RemovesAll(batch, batch);
    forall k | 0 <= k < |rest|
      ensures !Mentions(batch, rest[k].id)
    {
      assert (batch + rest)[|batch| + k] == rest[k];
      assert forall j :: 0 <= j < |batch| ==> (batch + rest)[j] == batch[j];
    }
    KeepsUnmentioned(batch, rest, batch);
  }

  lemma RemainingLast(front: seq<Event>, last: Event, batch: seq<Event>)
    ensures Remaining(front + [last], batch) ==
            if Mentions(batch, last.id) then Remaining(front, batch) else Remaining(front, batch) + [last]
  {
    assert (front + [last])[..|front|] == front;
  }

  lemma {:induction false} KeepsUnmentioned(events: seq<Event>, rest: seq<Event>, batch: seq<Event>)
    requires forall k :: 0 <= k < |rest| ==> !Mentions(batch, rest[k].id)
    ensures Remaining(events + rest, batch) == Remaining(events, batch) + rest
    decreases |rest|
  {
    if rest == [] {
      assert events + rest == events;
    } else {
      var front, last := rest[..|rest| - 1], rest[|rest| - 1];
      assert events + rest == (events + front) + [last] && rest == front + [last];
      KeepsUnmentioned(events, front, batch);
      RemainingLast(events + front, last, batch);
      assert (Remaining(events, batch) + front) + [last] == Remaining(events, batch) + rest;
    }
  }

  lemma {:induction false} RemovesAll(events: seq<Event>, batch: seq<Event>)
    requires forall k :: 0 <= k < |events| ==> Mentions(batch, events[k].id)
    ensures Remaining(events, batch) == []
  {
    if events != [] { RemovesAll(events[..|events| - 1], batch); }
  }

  /** The buffer after k batches were sent and answered one after the other, with nothing pushed meanwhile. */
  function Drained(events: seq<Event>, k: nat): seq<Event> {
    if k == 0 then events else Remaining(Drained(events, k - 1), FirstBatch(Drained(events, k - 1)))
  }

  /** How many events k answers take off a buffer of n. */
  function Taken(k: nat, n: nat): nat {
    if 50 * k < n then 50 * k else n
  }

  lemma FirstBatchSplits(events: seq<Event>)
    ensures FirstBatch(events) + events[Taken(1, |events|)..] == events
  {
  }

  lemma AnswerTakes(events: seq<Event>, batch: seq<Event>, rest: seq<Event>)
    requires UniqueIds(events) && events == batch + rest
    ensures Remaining(events, batch) == rest
  {
    RemovesFront(batch, rest);
  }

  lemma SuffixOfSuffix(events: seq<Event>, i: nat, j: nat)
    requires UniqueIds(events) && i + j <= |events|
    ensures events[i..][j..] == events[i + j..] && UniqueIds(events[i..])
  {
  }

  lemma DrainStep(events: seq<Event>, from: nat, before: seq<Event>)
    requires UniqueIds(events) && from <= |events| && before == events[from..]
    ensures Remaining(before, FirstBatch(before)) == events[from + Taken(1, |before|)..]
  {
    SuffixOfSuffix(events, from, Taken(1, |before|));
    FirstBatchSplits(before);
    AnswerTakes(before, FirstBatch(before), before[Taken(1, |before|)..]);
  }

  /** Every answer takes the next 50 events off the buffer, so one answer for every 50 events empties it. */
  lemma {:induction false} AnswersDrain(events: seq<Event>, k: nat)
    requires UniqueIds(events)
    ensures Drained(events, k) == events[Taken(k, |events|)..]
    ensures 50 * k >= |events| ==> Drained(events, k) == []
  {
    if k > 0 {
      AnswersDrain(events, k - 1);
      DrainStep(events, Taken(k - 1, |events|), Drained(events, k - 1));
    }
  }

  lemma StoredKeepsUnique(events: seq<Event>)
    requires UniqueIds(events)
    ensures UniqueIds(Stored(events)) && Stored(Stored(events)) == Stored(events)
  {
  }

  // ------------------------------------------------------------ the queue

  /** What the browser keeps across page loads. */
  class LocalStorage {
    var items: seq<Event>

    constructor ()
      ensures items == []
    {
      items := [];
    }
  }

  /** A response that settles a batch: it was stored, or it never will be. None stands for a failed network. */
  predicate Settles(status: Option<int>) {
    status.Some? && (200 <= status.value <= 299 || status.value == 400 || status.value == 404 || status.value == 409)
  }

  class Queue {
    const storage: LocalStorage
    var events: seq<Event>
    var sending: bool
    var stopped: bool

    /** A page load. */
    constructor (storage: LocalStorage)
      ensures this.storage == storage && events == Stored(storage.items) && !sending && !stopped
    {
      this.storage := storage;
      events := Stored(storage.items);
      sending, stopped := false, false;
    }

    method Persist()
      modifies storage
      ensures storage.items == Stored(events)
    {
      storage.items := Stored(events);
    }

    /** Returns the batch of the request that is sent, if any. */
    method BeginFlush() returns (batch: Option<seq<Event>>)
      modifies this`sending
      ensures sending == (old(sending) || events != [])
      ensures batch == if old(sending) || events == [] then None else Some(FirstBatch(events))
    {
      if sending || |events| == 0 { return None; }
      sending := true;
      batch := Some(FirstBatch(events));
    }

    /** From now on a finished request may be followed by the next one at once; the first is sent right away. */
    method Start() returns (batch: Option<seq<Event>>)
      modifies this`stopped, this`sending
      ensures !stopped && sending == (old(sending) || events != [])
      ensures batch == if old(sending) || events == [] then None else Some(FirstBatch(events))
    {
      stopped := false;
      batch := BeginFlush();
    }

    method Stop()
      modifies this`stopped
      ensures stopped
    {
      stopped := true;
    }

    method Push(event: Event) returns (batch: Option<seq<Event>>)
      modifies this, storage
      ensures events == old(events) + [event] && storage.items == Stored(events) && stopped == old(stopped)
      ensures batch.Some? <==> !old(sending) && |events| >= 10
      ensures batch.Some? ==> batch.value == FirstBatch(events)
      ensures sending == (old(sending) || batch.Some?)
    {
      events := events + [event];
      Persist();
      batch := None;
      if |events| >= FLUSH_AT { batch := BeginFlush(); }
    }

    /** The response to a batch arrives, or the request fails. */
    method EndFlush(batch: seq<Event>, status: Option<int>) returns (next: Option<seq<Event>>)
      modifies this, storage
      ensures var settled := status.Some? && (status.value / 100 == 2 || status.value in {400, 404, 409});
        events == (if settled then Remaining(old(events), batch) else old(events)) &&
        storage.items == if settled then Stored(events) else old(storage.items)
      ensures stopped == old(stopped)
      ensures next == if !stopped && |events| >= 10 then Some(FirstBatch(events)) else None
      ensures sending == next.Some?
    {
      if Settles(status) {
        var left: seq<Event> := [];
        for i := 0 to |events|
          invariant left == Remaining(events[..i], batch)
        {
          assert events[..i + 1][..i] == events[..i];
          if !Mentions(batch, events[i].id) { left := left + [events[i]]; }
        }
        assert events[..|events|] == events;
        events := left;
        Persist();
      }
      sending := false;
      next := None;
      if !stopped && |events| > 0 && |events| >= FLUSH_AT { next := BeginFlush(); }
    }

    /** Last-chance delivery, whether or not a request is under way. */
    method Beacon() returns (batch: Option<seq<Event>>)
      ensures batch == if events == [] then None else Some(FirstBatch(events))
    {
      if |events| == 0 { return None; }
      batch := Some(FirstBatch(events));
    }
  }
}
