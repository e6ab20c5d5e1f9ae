// DoH lookups in flight: at most MAX_ACTIVE at once, a bounded queue behind
// them, idle connections kept for reuse, one retry, cancellation, and
// callbacks that start or cancel lookups while one is being finished.
module DohScheduler {
  import opened Bytes

  const MAX_ACTIVE: nat := 32
  const MAX_PENDING: nat := 256
  const MAX_IDLE: nat := 32

  // No place to start in and none to wait in.
  predicate Full(active: nat, waiting: nat) {
    active >= MAX_ACTIVE && waiting >= MAX_PENDING
  }

  // One lookup that has not been finished or cancelled.
  datatype Ctx = Ctx(active: bool, queued: bool, reused: bool, retried: bool, started: bool)

  const FreshCtx := Ctx(false, false, false, false, false)

  // What the outside decides, one decision after another; Silence is a
  // connection that just takes its time and a callback that does nothing.
  datatype Choice =
    | Silence
    | Refuse
    | ConnectNow
    | HandshakeFails
    | Sick
    | SendSome
    | SendFails
    | Reusable
    | LookUp
    | Withdraw(id: nat)

  datatype Event =
    | Sent(id: nat)
    | Retried(id: nat)
    | Called(id: nat)
    | Cancelled(id: nat)
    | Refused(id: nat)

  predicate Final(e: Event) {
    e.Called? || e.Cancelled? || e.Refused?
  }

  // Nothing happens to a lookup after its end; a retry comes once and never
  // after an octet of the request was sent.
  predicate MayFollow(a: Event, b: Event) {
    a.id == b.id ==> !Final(a) && (b.Retried? ==> !a.Sent? && !a.Retried?)
  }

  ghost predicate Orderly(log: seq<Event>) {
    forall i, j :: 0 <= i < j < |log| ==> MayFollow(log[i], log[j])
  }

  ghost predicate Ended(log: seq<Event>, id: nat) {
    exists i :: 0 <= i < |log| && log[i].id == id && Final(log[i])
  }

  ghost predicate Happened(log: seq<Event>, e: Event) {
    exists i :: 0 <= i < |log| && log[i] == e
  }

  // In an orderly log a lookup ends once, and that is the last of it.
  lemma LastOfIt(log: seq<Event>, i: nat, j: nat)
    requires Orderly(log) && i < j < |log| && log[i].id == log[j].id
    ensures !Final(log[i])
  {
    assert MayFollow(log[i], log[j]);
  }

  // What is known of a lookup from its record.
  ghost predicate Live(log: seq<Event>, id: nat, c: Ctx) {
    && !Ended(log, id)
    && (Happened(log, Retried(id)) ==> c.retried)
    && (Happened(log, Sent(id)) ==> c.started)
  }

  lemma Logged(log: seq<Event>, e: Event)
    requires Orderly(log) && !Ended(log, e.id)
    requires e.Retried? ==> !Happened(log, Retried(e.id)) && !Happened(log, Sent(e.id))
    ensures Orderly(log + [e])
  {
    var l := log + [e];
    forall i, j | 0 <= i < j < |l|
      ensures MayFollow(l[i], l[j])
    {
      if j < |log| { assert MayFollow(log[i], log[j]); }
    }
  }

  lemma EndedAfter(log: seq<Event>, e: Event, id: nat)
    ensures Ended(log + [e], id) <==> Ended(log, id) || (id == e.id && Final(e))
  {
    var l := log + [e];
    if Ended(log, id) {
      var i :| 0 <= i < |log| && log[i].id == id && Final(log[i]);
      assert l[i] == log[i];
    }
    if id == e.id && Final(e) { assert l[|log|] == e; }
  }

  lemma HappenedAfter(log: seq<Event>, e: Event, f: Event)
    ensures Happened(log + [e], f) <==> Happened(log, f) || f == e
  {
    var l := log + [e];
    if Happened(log, f) {
      var i :| 0 <= i < |log| && log[i] == f;
      assert l[i] == f;
    }
    if f == e { assert l[|log|] == f; }
  }

  // The record of other lookups does not change.
  lemma LiveAfter(log: seq<Event>, e: Event, id: nat, c: Ctx)
    requires Live(log, id, c)
    requires id == e.id ==> !Final(e) && (e.Retried? ==> c.retried) && (e.Sent? ==> c.started)
    ensures Live(log + [e], id, c)
  {
    hide Ended, Happened;
    EndedAfter(log, e, id);
    HappenedAfter(log, e, Retried(id));
    HappenedAfter(log, e, Sent(id));
  }

  // No lookup known before is refused any more.
  ghost predicate Grew(log: seq<Event>, n: nat, log': seq<Event>, n': nat) {
    n <= n' && forall k: nat {:trigger Happened(log', Refused(k))} ::
      k < n && Happened(log', Refused(k)) ==> Happened(log, Refused(k))
  }

  lemma GrewBy(log: seq<Event>, e: Event, n: nat)
    requires e.Refused? ==> e.id >= n
    ensures Grew(log, n, log + [e], n)
  {
    hide Happened;
    forall k: nat | k < n && Happened(log + [e], Refused(k))
      ensures Happened(log, Refused(k))
    {
      HappenedAfter(log, e, Refused(k));
    }
  }

  // ---- The queue ----

  ghost predicate Distinct(q: seq<nat>) {
    forall i, j :: 0 <= i < j < |q| ==> q[i] != q[j]
  }

  function Removed(q: seq<nat>, id: nat): (r: seq<nat>)
    ensures |r| <= |q|
  {
    if q == [] then [] else if q[0] == id then q[1..] else [q[0]] + Removed(q[1..], id)
  }

  lemma {:induction false} RemovedOne(q: seq<nat>, id: nat)
    requires Distinct(q)
    ensures Distinct(Removed(q, id)) && (id in q ==> |Removed(q, id)| == |q| - 1)
    ensures forall k :: k in Removed(q, id) <==> k in q && k != id
  {
    if q != [] {
      assert forall i :: 0 < i < |q| ==> q[i] == q[1..][i - 1];
      assert forall k :: k in q <==> k == q[0] || k in q[1..];
      assert Distinct(q[1..]) && q[0] !in q[1..];
      RemovedOne(q[1..], id);
    }
  }

  // ---- What holds between any two steps, even in the middle of a callback ----

  datatype State = State(
    contexts: map<nat, Ctx>, active: nat, pending: seq<nat>, pendingN: nat, idle: seq<nat>, idleN: nat,
    nextId: nat, log: seq<Event>)

  ghost function ActiveIds(contexts: map<nat, Ctx>): set<nat> {
    set id | id in contexts && contexts[id].active
  }

  ghost predicate Inv(s: State) {
    && s.active == |ActiveIds(s.contexts)| <= MAX_ACTIVE
    && s.pendingN == |s.pending| <= MAX_PENDING && Distinct(s.pending)
    && (forall id :: id in s.pending <==> id in s.contexts && s.contexts[id].queued)
    && (forall id :: id in s.contexts ==> !(s.contexts[id].active && s.contexts[id].queued))
    && s.idleN == |s.idle| <= MAX_IDLE
    && Orderly(s.log)
    && (forall id :: id in s.contexts ==> id < s.nextId && Live(s.log, id, s.contexts[id]))
    && (forall id: nat :: id < s.nextId && id !in s.contexts ==> Ended(s.log, id))
    && (forall i :: 0 <= i < |s.log| ==> s.log[i].id < s.nextId)
  }

  // A waiting lookup means that all places are taken.
  predicate Settled(s: State) {
    s.pending == [] || s.active == MAX_ACTIVE
  }

  // ---- Single steps ----

  // A live lookup's flags change.
  lemma Flagged(s: State, id: nat, c: Ctx)
    requires Inv(s) && id in s.contexts && c.active == s.contexts[id].active && c.queued == s.contexts[id].queued
    requires (s.contexts[id].retried ==> c.retried) && (s.contexts[id].started ==> c.started)
    ensures Inv(s.(contexts := s.contexts[id := c]))
  {
    hide Orderly, Ended, Happened, Distinct;
    var t := s.(contexts := s.contexts[id := c]);
    assert ActiveIds(t.contexts) == ActiveIds(s.contexts);
    forall k | k in t.contexts
      ensures k < t.nextId && Live(t.log, k, t.contexts[k])
    {
      assert Live(s.log, k, s.contexts[k]);
    }
  }

  // Something short of its end is recorded of a live lookup.
  lemma Recorded(s: State, e: Event)
    requires Inv(s) && e.id in s.contexts && !Final(e)
    requires e.Sent? ==> s.contexts[e.id].started
    requires e.Retried? ==>
               s.contexts[e.id].retried && !Happened(s.log, Retried(e.id)) && !Happened(s.log, Sent(e.id))
    ensures Inv(s.(log := s.log + [e]))
  {
    hide Orderly, Ended, Happened, Distinct, ActiveIds;
    assert Live(s.log, e.id, s.contexts[e.id]);
    Logged(s.log, e);
    var t := s.(log := s.log + [e]);
    forall k | k in t.contexts
      ensures k < t.nextId && Live(t.log, k, t.contexts[k])
    {
      LiveAfter(s.log, e, k, s.contexts[k]);
    }
    forall k: nat | k < t.nextId && k !in t.contexts
      ensures Ended(t.log, k)
    {
      EndedAfter(s.log, e, k);
    }
  }

  // A place is taken.
  lemma Activated(s: State, id: nat)
    requires Inv(s) && id in s.contexts && !s.contexts[id].active && !s.contexts[id].queued && s.active < MAX_ACTIVE
    ensures Inv(s.(contexts := s.contexts[id := s.contexts[id].(active := true)], active := s.active + 1))
  {
    hide Orderly, Ended, Happened, Distinct;
    var c := s.contexts[id].(active := true);
    var t := s.(contexts := s.contexts[id := c], active := s.active + 1);
    assert ActiveIds(t.contexts) == ActiveIds(s.contexts) + {id};
    forall k | k in t.contexts
      ensures k < t.nextId && Live(t.log, k, t.contexts[k])
    {
      assert Live(s.log, k, s.contexts[k]);
    }
  }

  lemma Unheard(log: seq<Event>, id: nat)
    requires forall i :: 0 <= i < |log| ==> log[i].id < id
    ensures Live(log, id, FreshCtx)
  {
  }

  // A lookup joins the record.
  lemma Created(s: State)
    requires Inv(s)
    ensures Inv(s.(contexts := s.contexts[s.nextId := FreshCtx], nextId := s.nextId + 1))
  {
    hide Orderly, Ended, Happened, Distinct;
    var t := s.(contexts := s.contexts[s.nextId := FreshCtx], nextId := s.nextId + 1);
    assert s.nextId !in s.contexts;
    assert ActiveIds(t.contexts) == ActiveIds(s.contexts);
    Unheard(s.log, s.nextId);
    forall k | k in t.contexts
      ensures k < t.nextId && Live(t.log, k, t.contexts[k])
    {
      if k != s.nextId { assert Live(s.log, k, s.contexts[k]); }
    }
  }

  lemma Queued(s: State, id: nat)
    requires Inv(s) && id in s.contexts && !s.contexts[id].active && !s.contexts[id].queued && s.pendingN < MAX_PENDING
    ensures Inv(s.(contexts := s.contexts[id := s.contexts[id].(queued := true)],
                   pending := s.pending + [id], pendingN := s.pendingN + 1))
  {
    var c := s.contexts[id].(queued := true);
    var t := s.(contexts := s.contexts[id := c], pending := s.pending + [id], pendingN := s.pendingN + 1);
    assert Distinct(t.pending);
    hide Orderly, Ended, Happened, Distinct;
    assert ActiveIds(t.contexts) == ActiveIds(s.contexts);
    forall k | k in t.contexts
      ensures k < t.nextId && Live(t.log, k, t.contexts[k])
    {
      assert Live(s.log, k, s.contexts[k]);
    }
  }

  lemma Dequeued(s: State, id: nat)
    requires Inv(s) && id in s.contexts && s.contexts[id].queued
    ensures s.pendingN > 0 && id in s.pending && |Removed(s.pending, id)| == |s.pending| - 1
    ensures Inv(s.(contexts := s.contexts[id := s.contexts[id].(queued := false)],
                   pending := Removed(s.pending, id), pendingN := s.pendingN - 1))
  {
    RemovedOne(s.pending, id);
    hide Orderly, Ended, Happened, Distinct, Removed;
    var c := s.contexts[id].(queued := false);
    var t := s.(contexts := s.contexts[id := c], pending := Removed(s.pending, id), pendingN := s.pendingN - 1);
    assert ActiveIds(t.contexts) == ActiveIds(s.contexts);
    forall k | k in t.contexts
      ensures k < t.nextId && Live(t.log, k, t.contexts[k])
    {
      assert Live(s.log, k, s.contexts[k]);
    }
  }

  // A lookup leaves, one way or another, and gives its place back.
  lemma Gone(s: State, id: nat, e: Event)
    requires Inv(s) && id in s.contexts && !s.contexts[id].queued && e.id == id && Final(e)
    ensures s.contexts[id].active ==> s.active > 0
    ensures Inv(s.(contexts := s.contexts - {id}, log := s.log + [e],
                   active := if s.contexts[id].active then s.active - 1 else s.active))
  {
    hide Orderly, Ended, Happened, Distinct;
    assert Live(s.log, id, s.contexts[id]);
    Logged(s.log, e);
    ActiveWithout(s.contexts, id);
    var t := s.(contexts := s.contexts - {id}, log := s.log + [e],
                active := if s.contexts[id].active then s.active - 1 else s.active);
    forall k | k in t.contexts
      ensures k < t.nextId && Live(t.log, k, t.contexts[k])
    {
      LiveAfter(s.log, e, k, s.contexts[k]);
    }
    forall k: nat | k < t.nextId && k !in t.contexts
      ensures Ended(t.log, k)
    {
      EndedAfter(s.log, e, k);
    }
  }

  lemma ActiveWithout(contexts: map<nat, Ctx>, id: nat)
    requires id in contexts
    ensures |ActiveIds(contexts - {id})| == |ActiveIds(contexts)| - if contexts[id].active then 1 else 0
  {
    if contexts[id].active {
      assert id in ActiveIds(contexts);
    }
    assert ActiveIds(contexts - {id}) == ActiveIds(contexts) - {id};
  }

  // ---- The scheduler ----

  datatype Answer = Accepted | Busy | Failed

  // What can happen from outside any callback.
  datatype Outside =
    | NewLookUp
    | Withdrawn(id: nat)
    | Connects(id: nat)
    | Writable(id: nat)
    | Answered(id: nat, good: bool)
    | Breaks(id: nat)
    | IdleLost(place: nat)

  // The fate of every lookup that ever was: still in flight, or ended once.
  // Retries come once and before the first octet of the request.
  lemma Fates(s: State, id: nat)
    requires Inv(s) && id < s.nextId
    ensures id in s.contexts <==> !Ended(s.log, id)
    ensures forall i, j :: 0 <= i < j < |s.log| && s.log[i].id == s.log[j].id == id ==>
              && !Final(s.log[i])
              && (s.log[j].Retried? ==> !s.log[i].Retried? && !s.log[i].Sent?)
  {
    if id in s.contexts {
      assert Live(s.log, id, s.contexts[id]);
    }
    forall i, j | 0 <= i < j < |s.log| && s.log[i].id == s.log[j].id == id
      ensures MayFollow(s.log[i], s.log[j])
    {
    }
  }

  class Scheduler {
    var contexts: map<nat, Ctx>
    var active: nat
    var pending: seq<nat>
    var pendingN: nat
    var idle: seq<nat>
    var idleN: nat
    var nextId: nat
    var script: seq<Choice>
    ghost var log: seq<Event>

    ghost function Now(): State
      reads this
    {
      State(contexts, active, pending, pendingN, idle, idleN, nextId, log)
    }

    constructor ()
      ensures Inv(Now()) && Settled(Now()) && script == []
    {
      contexts := map[];
      active, pendingN, idleN, nextId := 0, 0, 0, 0;
      pending, idle := [], [];
      script := [];
      log := [];
      new;
      assert ActiveIds(contexts) == {};
    }

    // The next decision of the outside; when none is left, nothing happens.
    method Next() returns (c: Choice)
      modifies this`script
      ensures if c == Silence then |script| <= |old(script)| else |script| < |old(script)|
    {
      if script == [] {
        return Silence;
      }
      c := script[0];
      script := script[1..];
    }

    // The write handler until the connection blocks: octets of the request go
    // out, or the write fails, which a reused connection may survive once.
    method StartHttp(id: nat)
      requires Inv(Now()) && id in contexts && contexts[id].active
      modifies this
      ensures Inv(Now()) && (old(Settled(Now())) ==> Settled(Now()))
      ensures |script| <= |old(script)| && (|script| == |old(script)| ==> |pending| <= |old(pending)|)
      ensures Grew(old(log), old(nextId), log, nextId)
      decreases |script|, 0
    {
      hide Inv, Happened, Orderly, Ended;
      var c := Next();
      while c == SendSome
        invariant Inv(Now()) && id in contexts && contexts[id].active && (old(Settled(Now())) ==> Settled(Now()))
        invariant pending == old(pending)
        invariant |script| <= |old(script)| && (c != Silence ==> |script| < |old(script)|)
        invariant Grew(old(log), old(nextId), log, nextId)
        decreases |script|, if c == SendSome then 1 else 0
      {
        SendOctets(id);
        c := Next();
      }
      if c == SendFails {
        Broken(id);
      }
    }

    // n octets of the request went out.
    method SendOctets(id: nat)
      requires Inv(Now()) && id in contexts
      modifies this`contexts, this`log
      ensures Inv(Now()) && contexts == old(contexts)[id := old(contexts[id]).(started := true)]
      ensures Grew(old(log), nextId, log, nextId)
    {
      hide Inv, Happened, Orderly, Ended;
      Flagged(Now(), id, contexts[id].(started := true));
      contexts := contexts[id := contexts[id].(started := true)];
      InvLive(Now(), id);
      Recorded(Now(), Sent(id));
      GrewBy(log, Sent(id), nextId);
      log := log + [Sent(id)];
    }

    lemma Known(s: State, id: nat)
      requires Inv(s) && id in s.contexts
      ensures id < s.nextId
    {
    }

    lemma InvLive(s: State, id: nat)
      requires Inv(s) && id in s.contexts
      ensures Live(s.log, id, s.contexts[id]) && !(s.contexts[id].active && s.contexts[id].queued)
    {
    }

    // A failure under an active lookup: retry, or finish with an error.
    method Broken(id: nat)
      requires Inv(Now()) && id in contexts && contexts[id].active
      modifies this
      ensures Inv(Now()) && (old(Settled(Now())) ==> Settled(Now()))
      ensures |script| <= |old(script)| && (|script| == |old(script)| ==> |pending| <= |old(pending)|)
      ensures Grew(old(log), old(nextId), log, nextId)
      decreases |script|, 5
    {
      hide Inv, Happened, Orderly, Ended;
      var retried := Retry(id);
      if !retried {
        Finish(id, false);
      }
    }

    // doh_retry: only over a reused connection, once, before any octet.
    method Retry(id: nat) returns (ok: bool)
      requires Inv(Now()) && id in contexts && contexts[id].active
      modifies this
      ensures Inv(Now()) && (old(Settled(Now())) ==> Settled(Now()))
      ensures |script| <= |old(script)| && (|script| == |old(script)| ==> |pending| <= |old(pending)|)
      ensures Grew(old(log), old(nextId), log, nextId)
      ensures !ok ==> id in contexts && contexts[id].active && pending == old(pending)
      ensures old(contexts[id].retried || contexts[id].started || !contexts[id].reused) ==>
                !ok && Now() == old(Now())
      decreases |script|, 3
    {
      hide Inv, Happened, Orderly, Ended;
      var ctx := contexts[id];
      if !ctx.reused || ctx.retried || ctx.started {
        return false;
      }
      InvLive(Now(), id);
      Flagged(Now(), id, ctx.(retried := true, reused := false));
      contexts := contexts[id := ctx.(retried := true, reused := false)];
      Recorded(Now(), Retried(id));
      GrewBy(log, Retried(id), nextId);
      log := log + [Retried(id)];
      ok := StartRequest(id);
    }

    // doh_start_request: an idle connection that is still well, or a new one.
    // It fails before anything else happens or not at all.
    method StartRequest(id: nat) returns (ok: bool)
      requires Inv(Now()) && id in contexts && !contexts[id].queued
      requires contexts[id].active || active < MAX_ACTIVE
      modifies this
      ensures Inv(Now()) && (old(Settled(Now())) ==> Settled(Now()))
      ensures |script| <= |old(script)| && (|script| == |old(script)| ==> |pending| <= |old(pending)|)
      ensures Grew(old(log), old(nextId), log, nextId)
      ensures !ok ==>
                |script| < |old(script)| && contexts == old(contexts) && pending == old(pending)
                && active == old(active)
      decreases |script|, 2
    {
      hide Inv, Happened, Orderly, Ended;
      if !contexts[id].retried {
        var found := GetKeepalive();
        if found {
          TakePlace(id, true);
          StartHttp(id);
          return true;
        }
      }
      var c := Next();
      if c == Refuse {
        return false;
      }
      TakePlace(id, false);
      if c == ConnectNow {
        Connected(id);
      }
      return true;
    }

    // doh_get_keepalive: sick connections are closed on the way.
    method GetKeepalive() returns (found: bool)
      requires Inv(Now())
      modifies this`idle, this`idleN, this`script
      ensures Inv(Now()) && |script| <= |old(script)|
    {
      while idle != []
        invariant Inv(Now()) && |script| <= |old(script)|
        decreases |idle|
      {
        idle := idle[1..];
        if idleN > 0 {
          idleN := idleN - 1;
        }
        var c := Next();
        if c != Sick {
          return true;
        }
      }
      return false;
    }

    // The lookup counts as active from here on.
    method TakePlace(id: nat, reused: bool)
      requires Inv(Now()) && id in contexts && !contexts[id].queued && (contexts[id].active || active < MAX_ACTIVE)
      modifies this`contexts, this`active
      ensures Inv(Now()) && id in contexts && contexts[id].active && !contexts[id].queued
      ensures active == old(active) + if old(contexts[id].active) then 0 else 1
    {
      hide Inv, Happened, Orderly, Ended;
      if reused {
        Flagged(Now(), id, contexts[id].(reused := true));
        contexts := contexts[id := contexts[id].(reused := true)];
      }
      if !contexts[id].active {
        Activated(Now(), id);
        contexts := contexts[id := contexts[id].(active := true)];
        active := active + 1;
      }
    }

    // doh_connected: the handshake, if any, and the request.
    method Connected(id: nat)
      requires Inv(Now()) && id in contexts && contexts[id].active
      modifies this
      ensures Inv(Now()) && (old(Settled(Now())) ==> Settled(Now()))
      ensures |script| <= |old(script)| && (|script| == |old(script)| ==> |pending| <= |old(pending)|)
      ensures Grew(old(log), old(nextId), log, nextId)
      decreases |script|, 1
    {
      hide Inv, Happened, Orderly, Ended;
      var c := Next();
      if c == HandshakeFails {
        Finish(id, false);
        return;
      }
      StartHttp(id);
    }

    // doh_finish: the place is given back, the caller told exactly once, then
    // waiting lookups move up.
    method Finish(id: nat, good: bool)
      requires Inv(Now()) && id in contexts
      modifies this
      ensures Inv(Now()) && (old(Settled(Now()) || contexts[id].active) ==> Settled(Now()))
      ensures |script| <= |old(script)| && (|script| == |old(script)| ==> |pending| <= |old(pending)|)
      ensures Grew(old(log), old(nextId), log, nextId)
      decreases |script|, 4
    {
      hide Inv, Happened, Orderly, Ended;
      Unqueue(id);
      var wasActive := contexts[id].active;
      Leave(id, Called(id));
      if good {
        SaveKeepalive(id);
      }
      Callback();
      if wasActive {
        RunPending();
      }
    }

    // A queued lookup leaves the queue.
    method Unqueue(id: nat)
      requires Inv(Now()) && id in contexts
      modifies this`contexts, this`pending, this`pendingN
      ensures Inv(Now()) && id in contexts && !contexts[id].queued
      ensures contexts[id].active == old(contexts[id].active) && |pending| <= |old(pending)|
      ensures old(Settled(Now())) ==> Settled(Now())
    {
      hide Inv, Happened, Orderly, Ended;
      if contexts[id].queued {
        Dequeued(Now(), id);
        pending := Removed(pending, id);
        contexts := contexts[id := contexts[id].(queued := false)];
        if pendingN > 0 {
          pendingN := pendingN - 1;
        }
      }
    }

    method Leave(id: nat, ghost e: Event)
      requires Inv(Now()) && id in contexts && !contexts[id].queued && e.id == id && Final(e)
      modifies this`contexts, this`active, this`log
      ensures Inv(Now()) && contexts == old(contexts) - {id} && log == old(log) + [e]
      ensures active == old(active) - if old(contexts[id].active) then 1 else 0
      ensures Grew(old(log), if e.Refused? then id else nextId, log, nextId)
    {
      hide Inv, Happened, Orderly, Ended;
      Gone(Now(), id, e);
      Known(Now(), id);
      GrewBy(log, e, if e.Refused? then id else nextId);
      if contexts[id].active && active > 0 {
        active := active - 1;
      }
      contexts := contexts - {id};
      log := log + [e];
    }

    // doh_save_keepalive.
    method SaveKeepalive(id: nat)
      requires Inv(Now())
      modifies this`idle, this`idleN, this`script
      ensures Inv(Now()) && |script| <= |old(script)|
    {
      var c := Next();
      if c == Reusable && idleN < MAX_IDLE {
        idle := idle + [id];
        idleN := idleN + 1;
      }
    }

    // What a caller does when told: it may start lookups and cancel others.
    method Callback()
      requires Inv(Now())
      modifies this
      ensures Inv(Now()) && (old(Settled(Now())) ==> Settled(Now()))
      ensures |script| <= |old(script)| && (|script| == |old(script)| ==> |pending| <= |old(pending)|)
      ensures Grew(old(log), old(nextId), log, nextId)
      decreases |script|, 0
    {
      hide Inv, Happened, Orderly, Ended;
      var c := Next();
      while c.LookUp? || c.Withdraw?
        invariant Inv(Now()) && (old(Settled(Now())) ==> Settled(Now()))
        invariant |script| <= |old(script)| && (c != Silence ==> |script| < |old(script)|)
        invariant Grew(old(log), old(nextId), log, nextId)
        invariant |script| == |old(script)| ==> |pending| <= |old(pending)|
        decreases |script|, if c.LookUp? || c.Withdraw? then 1 else 0
      {
        if c.LookUp? {
          var rc := Resolve();
        } else if c.id in contexts {
          Cancel(c.id);
        }
        c := Next();
      }
    }

    // doh_run_pending.
    method RunPending()
      requires Inv(Now())
      modifies this
      ensures Inv(Now()) && Settled(Now())
      ensures |script| <= |old(script)| && (|script| == |old(script)| ==> |pending| <= |old(pending)|)
      ensures Grew(old(log), old(nextId), log, nextId)
      decreases |script|, 3
    {
      hide Inv, Happened, Orderly, Ended;
      while active < MAX_ACTIVE && pending != []
        invariant Inv(Now())
        invariant |script| <= |old(script)| && (|script| == |old(script)| ==> |pending| <= |old(pending)|)
        invariant Grew(old(log), old(nextId), log, nextId)
        decreases |script|, |pending|
      {
        var id := pending[0];
        PopHead();
        var ok := StartRequest(id);
        if !ok {
          Finish(id, false);
        }
      }
      Counts(Now());
    }

    lemma Counts(s: State)
      requires Inv(s)
      ensures s.active <= MAX_ACTIVE && s.pendingN == |s.pending| <= MAX_PENDING && s.idleN == |s.idle| <= MAX_IDLE
      ensures !Happened(s.log, Refused(s.nextId))
    {
    }

    method PopHead()
      requires Inv(Now()) && pending != []
      modifies this`contexts, this`pending, this`pendingN
      ensures Inv(Now()) && pending == old(pending[1..]) && old(pending[0]) in contexts
      ensures !contexts[old(pending[0])].queued && !contexts[old(pending[0])].active
    {
      hide Ended, Happened, Orderly, Live;
      var id := pending[0];
      assert id in pending;
      Dequeued(Now(), id);
      assert Removed(pending, id) == pending[1..];
      pending := pending[1..];
      pendingN := pendingN - 1;
      contexts := contexts[id := contexts[id].(queued := false)];
    }

    // doh_resolve for a name that is not cached: started, queued, or refused
    // without a callback.
    method Resolve() returns (rc: Answer)
      requires Inv(Now())
      modifies this
      ensures Inv(Now()) && (old(Settled(Now())) ==> Settled(Now()))
      ensures |script| <= |old(script)|
      ensures rc == Accepted <==> !Happened(log, Refused(old(nextId)))
      ensures Grew(old(log), old(nextId), log, nextId)
      ensures rc == Busy <==> Full(old(active), |old(pending)|)
      decreases |script|, 3
    {
      hide Inv, Happened, Orderly, Ended;
      var id := nextId;
      Counts(Now());
      Created(Now());
      contexts := contexts[id := FreshCtx];
      nextId := nextId + 1;
      if active >= MAX_ACTIVE {
        if pendingN >= MAX_PENDING {
          ghost var before := log;
          Leave(id, Refused(id));
          HappenedAfter(before, Refused(id), Refused(id));
          return Busy;
        }
        Queued(Now(), id);
        contexts := contexts[id := contexts[id].(queued := true)];
        pending := pending + [id];
        pendingN := pendingN + 1;
        return Accepted;
      }
      var ok := StartRequest(id);
      if !ok {
        ghost var before := log;
        Leave(id, Refused(id));
        HappenedAfter(before, Refused(id), Refused(id));
        return Failed;
      }
      return Accepted;
    }

    // doh_cancel: no callback, and the place goes to a waiting lookup.
    method Cancel(id: nat)
      requires Inv(Now()) && id in contexts
      modifies this
      ensures Inv(Now()) && (old(Settled(Now()) || contexts[id].active) ==> Settled(Now()))
      ensures |script| <= |old(script)| && (|script| == |old(script)| ==> |pending| <= |old(pending)|)
      ensures Grew(old(log), old(nextId), log, nextId)
      decreases |script|, 4
    {
      hide Inv, Happened, Orderly, Ended;
      Unqueue(id);
      var wasActive := contexts[id].active;
      Leave(id, Cancelled(id));
      if wasActive {
        RunPending();
      }
    }

    // One event, whatever the outside decides along the way.
    method Handle(event: Outside, choices: seq<Choice>)
      requires Inv(Now()) && Settled(Now())
      modifies this
      ensures Inv(Now()) && Settled(Now())
      ensures Grew(old(log), old(nextId), log, nextId)
    {
      hide Inv, Settled, Happened, Orderly, Ended;
      script := choices;
      match event {
        case NewLookUp =>
          var rc := Resolve();
        case Withdrawn(id) =>
          if id in contexts {
            Cancel(id);
          }
        case Connects(id) =>
          if id in contexts && contexts[id].active {
            Connected(id);
          }
        case Writable(id) =>
          if id in contexts && contexts[id].active {
            StartHttp(id);
          }
        case Answered(id, good) =>
          if id in contexts && contexts[id].active {
            Finish(id, good);
          }
        case Breaks(id) =>
          if id in contexts && contexts[id].active {
            Broken(id);
          }
        case IdleLost(place) =>
          if place < |idle| {
            CloseIdle(place);
          }
      }
    }

    // doh_close_keepalive on an idle connection.
    method CloseIdle(place: nat)
      requires Inv(Now()) && place < |idle|
      modifies this`idle, this`idleN
      ensures Inv(Now()) && (old(Settled(Now())) ==> Settled(Now()))
    {
      hide Orderly, Ended, Live;
      idle := idle[..place] + idle[place + 1..];
      if idleN > 0 {
        idleN := idleN - 1;
      }
    }
  }
}
