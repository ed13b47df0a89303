// The MessagePack-RPC side of the client: the table that matches each
// response to the handler of the request that asked for it (with an
// optional timer racing the response), the envelope tests for incoming
// messages, request framing, and the reading of a mode query's reply.

module Rpc {
  import opened Common
  import opened Wire
  import opened Decoding
  import opened Packing
  import opened RoundTrip

  // ---------------------------------------------------------------------
  // The response handler table

  /**
   * A pending request's record. The handler stands for the callback moved
   * in by store_handler, an opaque value supplied by the caller.
   */
  datatype Context = Context(handler: Option<nat>, complete: bool, hasTimeout: bool, timedOut: bool)

  /** A call of a handler: what it is passed. */
  datatype Invocation = Invocation(handler: nat, error: Object, result: Object, timedOut: bool)

  /** The message id of requests whose response nobody waits for. */
  const NULL_MSGID: nat := TWO_32 - 1

  const INITIAL_SLOTS: nat := 16

  /**
   * The fields of the table, and three logs that only the proof reads: the
   * store_handler call each context was last set up for, the number of
   * store_handler calls so far, and, in order, the requests whose handler
   * was called and those whose context was freed.
   */
  datatype TableState = TableState(
    contexts: seq<Context>, freelist: seq<nat>, slots: seq<Option<nat>>, lastIndex: nat, timers: set<nat>,
    owner: seq<nat>, issued: nat, calls: seq<nat>, frees: seq<nat>)

  predicate NoDup<T(==)>(s: seq<T>)
  {
    forall i, j :: 0 <= i < j < |s| ==> s[i] != s[j]
  }

  /** No context is in two slots. */
  predicate SlotsDistinct(slots: seq<Option<nat>>)
  {
    forall i, j :: 0 <= i < j < |slots| && slots[i].Some? ==> slots[i] != slots[j]
  }

  /**
   * The life of a context. A free one is on the free list, in no slot and
   * has no timer. Otherwise it is in one of three phases, told apart by
   * whether a slot still refers to it and by its timed-out flag:
   *   waiting  - in a slot, holding the handler of the request it was set up for;
   *              its timer is pending exactly when it has a timeout;
   *   answered - the response came first: no slot, handler called and cleared,
   *              complete, its timer still pending;
   *   expired  - the timer came first: still in its slot, handler called and
   *              cleared, timed out, no timer pending.
   * A context that is not free has not been freed for its request.
   */
  predicate Allowed(ctx: Context, free: bool, slotted: bool, timed: bool, called: bool, freed: bool)
  {
    if free then
      !slotted && !timed
    else if freed then
      false
    else if !slotted then
      ctx.handler.None? && ctx.hasTimeout && ctx.complete && !ctx.timedOut && timed && called
    else if ctx.timedOut then
      ctx.handler.None? && ctx.hasTimeout && !ctx.complete && !timed && called
    else
      ctx.handler.Some? && !ctx.complete && timed == ctx.hasTimeout && !called
  }

  ghost predicate AllowedAt(s: TableState, c: nat)
    requires c < |s.contexts| && c < |s.owner|
  {
    Allowed(s.contexts[c], c in s.freelist, Some(c) in s.slots, c in s.timers,
            s.owner[c] in s.calls, s.owner[c] in s.frees)
  }

  /**
   * The table's invariant. Besides the phases: the free list and the slots
   * refer to existing contexts, each at most once; the requests that are
   * still live belong to different contexts; no handler was called twice
   * and no request's context was freed twice; a request is freed only after
   * its handler was called.
   */
  ghost predicate Coherent(s: TableState)
  {
    |s.owner| == |s.contexts| && 0 < |s.slots| && s.lastIndex < |s.slots| &&
    (forall i :: 0 <= i < |s.freelist| ==> s.freelist[i] < |s.contexts|) &&
    (forall i :: 0 <= i < |s.slots| && s.slots[i].Some? ==> s.slots[i].value < |s.contexts|) &&
    (forall c :: c in s.timers ==> c < |s.contexts|) &&
    NoDup(s.freelist) && SlotsDistinct(s.slots) && NoDup(s.calls) && NoDup(s.frees) &&
    (forall k :: 0 <= k < |s.calls| ==> s.calls[k] < s.issued) &&
    (forall k :: 0 <= k < |s.frees| ==> s.frees[k] in s.calls) &&
    (forall c :: 0 <= c < |s.contexts| ==> s.owner[c] < s.issued) &&
    (forall c, d ::
       0 <= c < |s.contexts| && 0 <= d < |s.contexts| && c != d && c !in s.freelist && d !in s.freelist
       ==> s.owner[c] != s.owner[d]) &&
    (forall c :: 0 <= c < |s.contexts| ==> AllowedAt(s, c))
  }

  /** The first empty slot among lo..hi-1, or hi if they are all taken. */
  function FirstEmpty(slots: seq<Option<nat>>, lo: nat, hi: nat): (r: nat)
    requires lo <= hi <= |slots|
    ensures lo <= r <= hi
    ensures r < hi ==> slots[r].None?
    ensures forall i :: lo <= i < r ==> slots[i].Some?
    decreases hi - lo
  {
    if lo == hi then hi else if slots[lo].None? then lo else FirstEmpty(slots, lo + 1, hi)
  }

  /**
   * The slot store_context picks: the first empty one after last, else the
   * first empty one before last, else the old size (the table then
   * doubles). Slot last itself is never considered.
   */
  function EmptySlot(slots: seq<Option<nat>>, last: nat): (r: nat)
    requires last < |slots|
    ensures r <= |slots| && r != last
    ensures r < |slots| ==> slots[r].None?
    ensures last < r < |slots| ==> forall i :: last < i < r ==> slots[i].Some?
    ensures r < last ==> (forall i :: last < i < |slots| ==> slots[i].Some?) && (forall i :: 0 <= i < r ==> slots[i].Some?)
    ensures r == |slots| ==> forall i :: 0 <= i < |slots| && i != last ==> slots[i].Some?
  {
    var after := FirstEmpty(slots, last + 1, |slots|);
    if after < |slots| then after
    else
      var before := FirstEmpty(slots, 0, last);
      if before < last then before else |slots|
  }

  /** A fresh table starts with last_index 0, so the first message id it hands out is 1. */
  lemma FirstIdIsOne()
    ensures EmptySlot(seq(INITIAL_SLOTS, _ => None), 0) == 1
  {
  }

  /** The slots after store_context has placed c in slot id, doubling the table if id is past its end. */
  function Placed(slots: seq<Option<nat>>, id: nat, c: nat): (r: seq<Option<nat>>)
    requires id <= |slots| && 0 < |slots|
    ensures |r| == (if id == |slots| then 2 * |slots| else |slots|) && id < |r|
  {
    (if id == |slots| then slots + seq(|slots|, _ => None) else slots)[id := Some(c)]
  }

  class ResponseHandlerTable {
    var contexts: seq<Context>
    var freelist: seq<nat>
    var slots: seq<Option<nat>>
    var lastIndex: nat
    /** The contexts whose timer callback is scheduled and has not run yet. */
    var timers: set<nat>
    ghost var owner: seq<nat>
    ghost var issued: nat
    ghost var calls: seq<nat>
    ghost var frees: seq<nat>

    ghost function State(): TableState
      reads this
    {
      TableState(contexts, freelist, slots, lastIndex, timers, owner, issued, calls, frees)
    }

    ghost predicate Valid()
      reads this
    {
      Coherent(State())
    }

    /** A new table has 16 empty slots and last index 0. */
    constructor ()
      ensures Valid()
      ensures slots == seq(INITIAL_SLOTS, _ => None) && lastIndex == 0
      ensures contexts == [] && freelist == [] && timers == {} && issued == 0 && calls == [] && frees == []
    {
      contexts := [];
      freelist := [];
      slots := seq(INITIAL_SLOTS, _ => None);
      lastIndex := 0;
      timers := {};
      owner := [];
      issued := 0;
      calls := [];
      frees := [];
    }

    /** has_handler: the id names a slot of the table and that slot refers to a context. */
    predicate HasHandler(msgid: nat)
      reads this
    {
      msgid < |slots| && slots[msgid].Some?
    }

    /** get: hands out the context of a slot and empties the slot. */
    method Get(msgid: nat) returns (c: Option<nat>)
      requires msgid < |slots|
      modifies this
      ensures c == old(slots[msgid]) && !HasHandler(msgid)
      ensures State() == old(State()).(slots := old(slots)[msgid := None])
    {
      c := slots[msgid];
      slots := slots[msgid := None];
    }

    /** free_context: only pushes the context on the free list; no slot is touched. */
    method FreeContext(c: nat)
      requires c < |owner|
      modifies this
      ensures State() == old(State()).(freelist := old(freelist) + [c], frees := old(frees) + [old(owner)[c]])
    {
      freelist := freelist + [c];
      frees := frees + [owner[c]];
    }

    /** alloc_context: the most recently freed context, else a new one at the end of the store. */
    method AllocContext() returns (c: nat)
      modifies this
      ensures |old(freelist)| > 0 ==>
        c == old(freelist)[|old(freelist)| - 1] &&
        State() == old(State()).(freelist := old(freelist)[..|old(freelist)| - 1])
      ensures |old(freelist)| == 0 ==>
        c == |old(contexts)| &&
        State() == old(State()).(contexts := old(contexts) + [Context(None, false, false, false)],
                                 owner := old(owner) + [0])
    {
      if |freelist| > 0 {
        c := freelist[|freelist| - 1];
        freelist := freelist[..|freelist| - 1];
      } else {
        c := |contexts|;
        contexts := contexts + [Context(None, false, false, false)];
        owner := owner + [0];
      }
    }

    /** The search for an empty slot that store_context starts with. */
    method FindEmptySlot() returns (r: nat)
      requires lastIndex < |slots|
      ensures r == EmptySlot(slots, lastIndex)
    {
      var size := |slots|;
      var i := lastIndex + 1;
      while i < size
        invariant lastIndex + 1 <= i <= size
        invariant FirstEmpty(slots, lastIndex + 1, size) == FirstEmpty(slots, i, size)
      {
        if slots[i].None? {
          return i;
        }
        i := i + 1;
      }
      i := 0;
      while i < lastIndex
        invariant i <= lastIndex
        invariant FirstEmpty(slots, 0, lastIndex) == FirstEmpty(slots, i, lastIndex)
      {
        if slots[i].None? {
          return i;
        }
        i := i + 1;
      }
      return size;
    }

    /** store_context: puts c in the slot EmptySlot picks, doubling the table when there is none. */
    method StoreContext(c: nat) returns (id: nat)
      requires lastIndex < |slots|
      modifies this
      ensures id == EmptySlot(old(slots), old(lastIndex))
      ensures State() == old(State()).(slots := Placed(old(slots), id, c), lastIndex := id)
    {
      var size := |slots|;
      id := FindEmptySlot();
      if id == size {
        slots := slots + seq(size, _ => None);
      }
      lastIndex := id;
      slots := slots[id := Some(c)];
    }

    /**
     * store_handler, with or without a timeout: a context from
     * alloc_context gets the new handler and cleared flags, its timer is
     * scheduled when there is a timeout, and store_context files it.
     */
    method StoreHandler(handler: nat, timeout: bool) returns (id: nat)
      requires Valid()
      modifies this
      ensures Valid()
      ensures id == EmptySlot(old(slots), old(lastIndex)) && lastIndex == id
      ensures var c := if |old(freelist)| > 0 then old(freelist)[|old(freelist)| - 1] else |old(contexts)|;
        c < |contexts| && |contexts| >= |old(contexts)| && slots == Placed(old(slots), id, c) &&
        contexts[c] == Context(Some(handler), false, timeout, false) &&
        timers == old(timers) + (if timeout then {c} else {}) &&
        freelist == (if |old(freelist)| > 0 then old(freelist)[..|old(freelist)| - 1] else old(freelist)) &&
        (forall d :: 0 <= d < |old(contexts)| && d != c ==> contexts[d] == old(contexts)[d])
      ensures issued == old(issued) + 1 && calls == old(calls) && frees == old(frees)
    {
      ghost var s := State();
      var c := AllocContext();
      contexts := contexts[c := Context(Some(handler), false, timeout, false)];
      owner := owner[c := issued];
      issued := issued + 1;
      if timeout {
        timers := timers + {c};
      }
      id := StoreContext(c);
      StoreKeepsCoherent(s, State(), c, id, handler, timeout);
    }

    /** on_rpc_response: the new state and the handler call ResponseOf describes. */
    method OnRpcResponse(message: seq<Object>) returns (call: Option<Invocation>)
      requires Valid() && IsResponse(message)
      modifies this
      ensures Valid()
      ensures (State(), call) == ResponseOf(old(State()), message)
    {
      var msgid := message[1].bits;
      if msgid == NULL_MSGID {
        return None;
      }
      if !HasHandler(msgid) {
        return None;
      }
      ghost var s := State();
      var slot := Get(msgid);
      var c := slot.value;
      ReplyPhase(s, msgid);
      if contexts[c].timedOut {
        FreeContext(c);
        ExpiredReplyKeepsCoherent(s, msgid);
        return None;
      }
      var ctx := contexts[c];
      call := Some(Invocation(ctx.handler.value, message[2], message[3], false));
      calls := calls + [owner[c]];
      if ctx.hasTimeout {
        contexts := contexts[c := ctx.(handler := None, complete := true)];
        AnsweredKeepsCoherent(s, msgid);
      } else {
        contexts := contexts[c := ctx.(handler := None)];
        FreeContext(c);
        FreedReplyKeepsCoherent(s, msgid);
      }
    }

    /**
     * The timer callback of a context: a complete context is freed; any
     * other is marked timed out and its handler is called once with two
     * invalid objects and timed_out set, then cleared. The context then
     * waits in its slot for the late response.
     */
    method TimerFires(c: nat) returns (call: Option<Invocation>)
      requires Valid() && c in timers
      modifies this
      ensures Valid()
      ensures var s := old(State()); var ctx := s.contexts[c];
        if ctx.complete then
          call.None? &&
          State() == s.(timers := s.timers - {c}, freelist := s.freelist + [c], frees := s.frees + [s.owner[c]])
        else
          ctx.handler.Some? && call == Some(Invocation(ctx.handler.value, Invalid, Invalid, true)) &&
          State() == s.(timers := s.timers - {c},
                        contexts := s.contexts[c := ctx.(timedOut := true, handler := None)],
                        calls := s.calls + [s.owner[c]])
    {
      ghost var s := State();
      TimerPhase(s, c);
      timers := timers - {c};
      if contexts[c].complete {
        FreeContext(c);
        AnsweredTimerKeepsCoherent(s, c);
        return None;
      }
      var ctx := contexts[c];
      call := Some(Invocation(ctx.handler.value, Invalid, Invalid, true));
      calls := calls + [owner[c]];
      contexts := contexts[c := ctx.(timedOut := true, handler := None)];
      WaitingTimerKeepsCoherent(s, c);
    }
  }

  // ---------------------------------------------------------------------
  // The invariant across each transition

  lemma PopLast(s: seq<nat>)
    requires NoDup(s) && |s| > 0
    ensures NoDup(s[..|s| - 1])
    ensures forall d :: d in s[..|s| - 1] <==> d in s && d != s[|s| - 1]
  {
    forall d ensures d in s[..|s| - 1] <==> d in s && d != s[|s| - 1] {
      if d in s && d != s[|s| - 1] {
        var i :| 0 <= i < |s| && s[i] == d;
        assert s[..|s| - 1][i] == d;
      }
    }
  }

  lemma Snoc(s: seq<nat>, x: nat)
    requires NoDup(s) && x !in s
    ensures NoDup(s + [x])
    ensures forall d :: d in s + [x] <==> d in s || d == x
  {
  }

  lemma ClearSlot(slots: seq<Option<nat>>, m: nat)
    requires m < |slots| && slots[m].Some? && SlotsDistinct(slots)
    ensures SlotsDistinct(slots[m := None])
    ensures forall d :: Some(d) in slots[m := None] <==> Some(d) in slots && Some(d) != slots[m]
  {
    forall d ensures Some(d) in slots[m := None] <==> Some(d) in slots && Some(d) != slots[m] {
      if Some(d) in slots && Some(d) != slots[m] {
        var i :| 0 <= i < |slots| && slots[i] == Some(d);
        assert slots[m := None][i] == Some(d);
      }
    }
  }

  lemma PlaceSlot(slots: seq<Option<nat>>, last: nat, c: nat)
    requires last < |slots| && SlotsDistinct(slots) && Some(c) !in slots
    ensures var r := Placed(slots, EmptySlot(slots, last), c);
      SlotsDistinct(r) && forall d :: Some(d) in r <==> Some(d) in slots || d == c
  {
    var id := EmptySlot(slots, last);
    var g := if id == |slots| then slots + seq(|slots|, _ => None) else slots;
    var r := Placed(slots, id, c);
    assert r == g[id := Some(c)];
    assert g[id].None?;
    forall d ensures Some(d) in r <==> Some(d) in slots || d == c {
      if Some(d) in slots {
        var i :| 0 <= i < |slots| && slots[i] == Some(d);
        assert g[i] == Some(d) && i != id;
        assert r[i] == Some(d);
      }
      if d == c {
        assert r[id] == Some(c);
      }
      if Some(d) in r && d != c {
        var i :| 0 <= i < |r| && r[i] == Some(d);
        assert i != id && g[i] == Some(d);
        assert slots[i] == Some(d);
      }
    }
  }

  /** Where the context of a reply's slot stands: a waiting or an expired one. */
  lemma ReplyPhase(s: TableState, m: nat)
    requires Coherent(s) && m < |s.slots| && s.slots[m].Some?
    ensures var c := s.slots[m].value;
      c < |s.contexts| && c !in s.freelist && s.owner[c] !in s.frees &&
      (s.contexts[c].timedOut ==> s.owner[c] in s.calls) &&
      (!s.contexts[c].timedOut ==> s.contexts[c].handler.Some? && s.owner[c] !in s.calls)
  {
    var c := s.slots[m].value;
    assert AllowedAt(s, c);
  }

  /** Where a context with a pending timer stands: a waiting or an answered one. */
  lemma TimerPhase(s: TableState, c: nat)
    requires Coherent(s) && c in s.timers
    ensures c < |s.contexts| && c !in s.freelist && s.owner[c] !in s.frees && s.contexts[c].hasTimeout
    ensures s.contexts[c].complete ==> Some(c) !in s.slots && s.owner[c] in s.calls
    ensures !s.contexts[c].complete ==>
      Some(c) in s.slots && !s.contexts[c].timedOut && s.contexts[c].handler.Some? && s.owner[c] !in s.calls
  {
    assert AllowedAt(s, c);
  }

  lemma StoreKeepsCoherent(s: TableState, t: TableState, c: nat, id: nat, handler: nat, timeout: bool)
    requires Coherent(s)
    requires c == if |s.freelist| > 0 then s.freelist[|s.freelist| - 1] else |s.contexts|
    requires id == EmptySlot(s.slots, s.lastIndex)
    requires t == TableState(
      (if |s.freelist| > 0 then s.contexts else s.contexts + [Context(None, false, false, false)])
        [c := Context(Some(handler), false, timeout, false)],
      if |s.freelist| > 0 then s.freelist[..|s.freelist| - 1] else s.freelist,
      Placed(s.slots, id, c), id,
      s.timers + (if timeout then {c} else {}),
      (if |s.freelist| > 0 then s.owner else s.owner + [0])[c := s.issued],
      s.issued + 1, s.calls, s.frees)
    ensures Coherent(t)
  {
    var ctx := Context(Some(handler), false, timeout, false);
    var timers := s.timers + (if timeout then {c} else {});
    if |s.freelist| > 0 {
      StoreReusedKeepsCoherent(s, ctx, id, timers);
    } else {
      assert (s.contexts + [Context(None, false, false, false)])[c := ctx] == s.contexts + [ctx];
      assert (s.owner + [0])[c := s.issued] == s.owner + [s.issued];
      StoreNewKeepsCoherent(s, ctx, id, timers);
    }
  }

  /** store_handler on a context taken back from the free list. */
  lemma StoreReusedKeepsCoherent(s: TableState, ctx: Context, id: nat, timers: set<nat>)
    requires Coherent(s) && |s.freelist| > 0
    requires id == EmptySlot(s.slots, s.lastIndex)
    requires var c := s.freelist[|s.freelist| - 1];
      ctx.handler.Some? && !ctx.complete && !ctx.timedOut && timers == s.timers + (if ctx.hasTimeout then {c} else {})
    ensures var c := s.freelist[|s.freelist| - 1];
      Coherent(TableState(s.contexts[c := ctx], s.freelist[..|s.freelist| - 1], Placed(s.slots, id, c), id,
                          timers, s.owner[c := s.issued], s.issued + 1, s.calls, s.frees))
  {
    var c := s.freelist[|s.freelist| - 1];
    var t := TableState(s.contexts[c := ctx], s.freelist[..|s.freelist| - 1], Placed(s.slots, id, c), id,
                        timers, s.owner[c := s.issued], s.issued + 1, s.calls, s.frees);
    PopLast(s.freelist);
    assert AllowedAt(s, c);
    PlaceSlot(s.slots, s.lastIndex, c);
    forall d | 0 <= d < |t.contexts| ensures AllowedAt(t, d) {
      if d != c {
        assert AllowedAt(s, d);
      }
    }
  }

  /** store_handler on a context added at the end of the store. */
  lemma StoreNewKeepsCoherent(s: TableState, ctx: Context, id: nat, timers: set<nat>)
    requires Coherent(s) && |s.freelist| == 0
    requires id == EmptySlot(s.slots, s.lastIndex)
    requires var c := |s.contexts|;
      ctx.handler.Some? && !ctx.complete && !ctx.timedOut && timers == s.timers + (if ctx.hasTimeout then {c} else {})
    ensures var c := |s.contexts|;
      Coherent(TableState(s.contexts + [ctx], s.freelist, Placed(s.slots, id, c), id,
                          timers, s.owner + [s.issued], s.issued + 1, s.calls, s.frees))
  {
    var c := |s.contexts|;
    var t := TableState(s.contexts + [ctx], s.freelist, Placed(s.slots, id, c), id,
                        timers, s.owner + [s.issued], s.issued + 1, s.calls, s.frees);
    assert Some(c) !in s.slots;
    PlaceSlot(s.slots, s.lastIndex, c);
    forall d | 0 <= d < |t.contexts| ensures AllowedAt(t, d) {
      if d != c {
        assert AllowedAt(s, d);
      }
    }
  }

  /**
   * on_rpc_response on a message IsResponse accepts: the new state and the
   * handler call. The null id and ids without a handler change nothing.
   * Otherwise the slot is emptied; a timed-out context is freed without a
   * call; any other context's handler is called once with the message's
   * error and result and cleared, and the context is freed if it has no
   * timeout, else marked complete for its timer to free. Every case keeps
   * the table coherent, and a call is made exactly when the call log grows.
   */
  ghost function ResponseOf(s: TableState, message: seq<Object>): (r: (TableState, Option<Invocation>))
    requires Coherent(s) && IsResponse(message)
    ensures Coherent(r.0)
    ensures r.0.issued == s.issued && |r.0.contexts| == |s.contexts|
    ensures |s.calls| <= |r.0.calls| <= |s.calls| + 1 && r.0.calls[..|s.calls|] == s.calls
    ensures r.1.Some? <==> |r.0.calls| == |s.calls| + 1
    ensures r.1.Some? ==> !r.1.value.timedOut && r.1.value.error == message[2] && r.1.value.result == message[3]
  {
    var m := message[1].bits;
    if m == NULL_MSGID || !(m < |s.slots| && s.slots[m].Some?) then
      (s, None)
    else
      var c := s.slots[m].value;
      var ctx := s.contexts[c];
      ReplyPhase(s, m);
      if ctx.timedOut then
        ExpiredReplyKeepsCoherent(s, m);
        (s.(slots := s.slots[m := None], freelist := s.freelist + [c], frees := s.frees + [s.owner[c]]), None)
      else if ctx.hasTimeout then
        AnsweredKeepsCoherent(s, m);
        (s.(slots := s.slots[m := None],
            contexts := s.contexts[c := ctx.(handler := None, complete := true)],
            calls := s.calls + [s.owner[c]]),
         Some(Invocation(ctx.handler.value, message[2], message[3], false)))
      else
        FreedReplyKeepsCoherent(s, m);
        (s.(slots := s.slots[m := None],
            contexts := s.contexts[c := ctx.(handler := None)],
            calls := s.calls + [s.owner[c]],
            freelist := s.freelist + [c], frees := s.frees + [s.owner[c]]),
         Some(Invocation(ctx.handler.value, message[2], message[3], false)))
  }

  lemma ExpiredReplyKeepsCoherent(s: TableState, m: nat)
    requires Coherent(s) && m < |s.slots| && s.slots[m].Some? && s.contexts[s.slots[m].value].timedOut
    ensures var c := s.slots[m].value;
      Coherent(s.(slots := s.slots[m := None], freelist := s.freelist + [c], frees := s.frees + [s.owner[c]]))
  {
    var c := s.slots[m].value;
    var t := s.(slots := s.slots[m := None], freelist := s.freelist + [c], frees := s.frees + [s.owner[c]]);
    ReplyPhase(s, m);
    ClearSlot(s.slots, m);
    Snoc(s.freelist, c);
    forall d | 0 <= d < |t.contexts| ensures AllowedAt(t, d) {
      assert AllowedAt(s, d);
    }
  }

  lemma AnsweredKeepsCoherent(s: TableState, m: nat)
    requires Coherent(s) && m < |s.slots| && s.slots[m].Some?
    requires var ctx := s.contexts[s.slots[m].value]; !ctx.timedOut && ctx.hasTimeout
    ensures var c := s.slots[m].value; var ctx := s.contexts[c];
      Coherent(s.(slots := s.slots[m := None],
                  contexts := s.contexts[c := ctx.(handler := None, complete := true)],
                  calls := s.calls + [s.owner[c]]))
  {
    var c := s.slots[m].value;
    var ctx := s.contexts[c];
    var t := s.(slots := s.slots[m := None],
                contexts := s.contexts[c := ctx.(handler := None, complete := true)],
                calls := s.calls + [s.owner[c]]);
    ReplyPhase(s, m);
    assert AllowedAt(s, c);
    ClearSlot(s.slots, m);
    Snoc(s.calls, s.owner[c]);
    forall d | 0 <= d < |t.contexts| ensures AllowedAt(t, d) {
      assert AllowedAt(s, d);
    }
  }

  lemma FreedReplyKeepsCoherent(s: TableState, m: nat)
    requires Coherent(s) && m < |s.slots| && s.slots[m].Some?
    requires var ctx := s.contexts[s.slots[m].value]; !ctx.timedOut && !ctx.hasTimeout
    ensures var c := s.slots[m].value; var ctx := s.contexts[c];
      Coherent(s.(slots := s.slots[m := None],
                  contexts := s.contexts[c := ctx.(handler := None)],
                  calls := s.calls + [s.owner[c]],
                  freelist := s.freelist + [c], frees := s.frees + [s.owner[c]]))
  {
    var c := s.slots[m].value;
    var ctx := s.contexts[c];
    var t := s.(slots := s.slots[m := None],
                contexts := s.contexts[c := ctx.(handler := None)],
                calls := s.calls + [s.owner[c]],
                freelist := s.freelist + [c], frees := s.frees + [s.owner[c]]);
    ReplyPhase(s, m);
    assert AllowedAt(s, c);
    ClearSlot(s.slots, m);
    Snoc(s.calls, s.owner[c]);
    Snoc(s.freelist, c);
    Snoc(s.frees, s.owner[c]);
    forall d | 0 <= d < |t.contexts| ensures AllowedAt(t, d) {
      assert AllowedAt(s, d);
    }
  }

  lemma AnsweredTimerKeepsCoherent(s: TableState, c: nat)
    requires Coherent(s) && c in s.timers && c < |s.contexts| && s.contexts[c].complete
    ensures Coherent(s.(timers := s.timers - {c}, freelist := s.freelist + [c], frees := s.frees + [s.owner[c]]))
  {
    var t := s.(timers := s.timers - {c}, freelist := s.freelist + [c], frees := s.frees + [s.owner[c]]);
    TimerPhase(s, c);
    Snoc(s.freelist, c);
    Snoc(s.frees, s.owner[c]);
    forall d | 0 <= d < |t.contexts| ensures AllowedAt(t, d) {
      assert AllowedAt(s, d);
    }
  }

  lemma WaitingTimerKeepsCoherent(s: TableState, c: nat)
    requires Coherent(s) && c in s.timers && c < |s.contexts| && !s.contexts[c].complete
    ensures var ctx := s.contexts[c];
      Coherent(s.(timers := s.timers - {c},
                  contexts := s.contexts[c := ctx.(timedOut := true, handler := None)],
                  calls := s.calls + [s.owner[c]]))
  {
    var ctx := s.contexts[c];
    var t := s.(timers := s.timers - {c},
                contexts := s.contexts[c := ctx.(timedOut := true, handler := None)],
                calls := s.calls + [s.owner[c]]);
    TimerPhase(s, c);
    Snoc(s.calls, s.owner[c]);
    forall d | 0 <= d < |t.contexts| ensures AllowedAt(t, d) {
      assert AllowedAt(s, d);
    }
  }

  // ---------------------------------------------------------------------
  // Incoming messages

  /** A notification: [2, method name, arguments]. */
  predicate IsNotification(message: seq<Object>)
  {
    |message| == 3 && message[0].Integer? && message[1].Str? && message[2].Array? && message[0].bits == 2
  }

  /** A response: [1, message id, error, result]. */
  predicate IsResponse(message: seq<Object>)
  {
    |message| == 4 && message[0].Integer? && message[1].Integer? && message[0].bits == 1
  }
  /** What became of an incoming message. */
  datatype Delivery =
    | Redraw(args: seq<Object>)      // a redraw notification, handed to the UI
    | Unhandled(name: string)        // another notification, logged
    | Replied(call: Option<Invocation>)
    | Dropped                        // neither envelope, logged

  /** on_rpc_message: an array is tried as a notification, then as a response; anything else is dropped. */
  method OnRpcMessage(table: ResponseHandlerTable, obj: Object) returns (d: Delivery)
    requires table.Valid()
    modifies table
    ensures table.Valid()
    ensures !(obj.Array? && (IsNotification(obj.items) || IsResponse(obj.items))) ==>
      d == Dropped && table.State() == old(table.State())
    ensures obj.Array? && IsNotification(obj.items) ==>
      table.State() == old(table.State()) &&
      d == (if obj.items[1].text == "redraw" then Redraw(obj.items[2].items) else Unhandled(obj.items[1].text))
    ensures obj.Array? && IsResponse(obj.items) ==>
      var (t, call) := ResponseOf(old(table.State()), obj.items);
      d == Replied(call) && table.State() == t
  {
    if obj.Array? {
      var message := obj.items;
      if IsNotification(message) {
        if message[1].text == "redraw" {
          return Redraw(message[2].items);
        }
        return Unhandled(message[1].text);
      } else if IsResponse(message) {
        var call := table.OnRpcResponse(message);
        return Replied(call);
      }
    }
    return Dropped;
  }

  /**
   * The two orders in which a response and the timer of a request with a
   * timeout can arrive. Either way the handler is called exactly once (by
   * the response when it comes first, by the timer otherwise) and the
   * context is freed exactly once.
   */
  method RaceScenario(replyFirst: bool, handler: nat, error: Object, result: Object)
    returns (first: Option<Invocation>, second: Option<Invocation>)
    ensures replyFirst ==> first == Some(Invocation(handler, error, result, false)) && second.None?
    ensures !replyFirst ==> first == Some(Invocation(handler, Invalid, Invalid, true)) && second.None?
  {
    var table := new ResponseHandlerTable();
    var id := table.StoreHandler(handler, true);
    assert id == 1 by { FirstIdIsOne(); }
    assert table.calls == [] && table.frees == [] && table.owner[0] == 0;
    var response := [Integer(1), Integer(id), error, result];
    if replyFirst {
      first := table.OnRpcResponse(response);
      assert table.calls == [0] && table.frees == [];
      second := table.TimerFires(0);
    } else {
      first := table.TimerFires(0);
      assert table.calls == [0] && table.frees == [];
      second := table.OnRpcResponse(response);
    }
    assert table.calls == [0] && table.frees == [0];
  }

  // ---------------------------------------------------------------------
  // Outgoing requests

  /** A request: [0, message id, method name, [arguments]]. */
  function Request(msgid: nat, name: seq<byte>, args: seq<Value>): (v: Value)
    requires msgid < TWO_32
    ensures v.List? && |v.items| == 4
  {
    List([Uint(0), Uint(msgid), Bytes(name), List(args)])
  }

  /** The bytes of a request, in the order rpc_request packs them. */
  lemma RequestBytes(msgid: nat, name: seq<byte>, args: seq<Value>)
    requires msgid < TWO_32
    ensures Encode(Request(msgid, name, args)) ==
      ContainerHeader(false, 4) + EncodeUint(0) + EncodeUint(msgid) + EncodeStr(name) + Encode(List(args))
  {
    var items := Request(msgid, name, args).items;
    assert items == [Uint(0)] + ([Uint(msgid)] + ([Bytes(name)] + [List(args)]));
    EncodeAllCons(List(args), []);
    assert [List(args)] + [] == [List(args)];
    EncodeAllCons(Bytes(name), [List(args)]);
    EncodeAllCons(Uint(msgid), [Bytes(name)] + [List(args)]);
    EncodeAllCons(Uint(0), [Uint(msgid)] + ([Bytes(name)] + [List(args)]));
    assert 4 % TWO_32 == 4;
  }

  lemma EncodeAllCons(x: Value, xs: seq<Value>)
    ensures EncodeAll([x] + xs) == Encode(x) + EncodeAll(xs)
  {
    assert ([x] + xs)[1..] == xs;
  }

  lemma Assoc5(a: seq<byte>, b: seq<byte>, c: seq<byte>, d: seq<byte>, e: seq<byte>, f: seq<byte>)
    ensures a + (b + c + d + e + f) == a + b + c + d + e + f
  {
  }

  /**
   * rpc_request: appends the request's four-element array to the packer and
   * tells the caller to resume the writer exactly when nothing was waiting
   * to be written before.
   */
  method RpcRequest(packer: Packer, msgid: nat, name: seq<byte>, args: seq<Value>) returns (resume: bool)
    requires msgid < TWO_32 && |args| < TWO_32
    requires packer.Valid() && |packer.Contents()| + |Encode(Request(msgid, name, args))| <= PACK_LIMIT
    modifies packer.Repr
    ensures packer.Valid() && fresh(packer.Repr - old(packer.Repr))
    ensures packer.Contents() == old(packer.Contents()) + Encode(Request(msgid, name, args))
    ensures resume <==> old(packer.Contents()) == []
  {
    var oldsize := packer.Size();
    ghost var start, r0 := packer.Contents(), packer.Repr;
    ghost var h, a, b, c, d := ContainerHeader(false, 4), EncodeUint(0), EncodeUint(msgid), EncodeStr(name), Encode(List(args));
    RequestBytes(msgid, name, args);
    assert |start| + |h| + |a| + |b| + |c| + |d| <= PACK_LIMIT;
    packer.StartArray(4);
    assert packer.Contents() == start + h;
    assert fresh(packer.Repr - r0);
    packer.PackUint64(0);
    assert packer.Contents() == start + h + a;
    assert fresh(packer.Repr - r0);
    packer.PackUint64(msgid);
    assert packer.Contents() == start + h + a + b;
    assert fresh(packer.Repr - r0);
    packer.PackString(name);
    assert packer.Contents() == start + h + a + b + c;
    assert fresh(packer.Repr - r0);
    // start_array with the argument count, then each argument
    packer.PackArray(List(args));
    Assoc5(start, h, a, b, c, d);
    resume := oldsize == 0;
  }

  /** A packed array reads back as the array of its elements' objects. */
  lemma ArrayDecodes(items: seq<Value>)
    requires |items| < TWO_32 && forall k :: 0 <= k < |items| ==> Encodable(items[k])
    ensures DecodeObject(Encode(List(items))) == Done(Array(Objects(items)), |Encode(List(items))|)
  {
    EncodeDecodes(List(items), []);
    assert Encode(List(items)) + [] == Encode(List(items));
  }

  /** A packed request reads back as a four-element array that is neither a notification nor a response. */
  lemma RequestDecodes(msgid: nat, name: seq<byte>, args: seq<Value>)
    requires msgid < TWO_32 && |name| < TWO_32 && |args| < TWO_32
    requires forall k :: 0 <= k < |args| ==> Encodable(args[k])
    ensures var bytes := Encode(Request(msgid, name, args));
      var message := [Integer(0), Integer(msgid), Str(Chars(name)), Array(Objects(args))];
      DecodeObject(bytes) == Done(Array(message), |bytes|) &&
      !IsNotification(message) && !IsResponse(message)
  {
    var items := Request(msgid, name, args).items;
    assert Encodable(items[3]);
    ArrayDecodes(items);
    assert items == [Uint(0)] + ([Uint(msgid)] + ([Bytes(name)] + ([List(args)] + [])));
    ObjectsCons(List(args), []);
    ObjectsCons(Bytes(name), [List(args)] + []);
    ObjectsCons(Uint(msgid), [Bytes(name)] + ([List(args)] + []));
    ObjectsCons(Uint(0), [Uint(msgid)] + ([Bytes(name)] + ([List(args)] + [])));
    assert Objects([]) == [];
    assert Objects(items) == [Integer(0), Integer(msgid), Str(Chars(name)), Array(Objects(args))];
    assert Request(msgid, name, args) == List(items);
  }

  /** A packed notification [2, name, [args]] reads back as one IsNotification accepts. */
  lemma NotificationDecodes(name: seq<byte>, args: seq<Value>)
    requires |name| < TWO_32 && |args| < TWO_32
    requires forall k :: 0 <= k < |args| ==> Encodable(args[k])
    ensures var bytes := Encode(List([Uint(2), Bytes(name), List(args)]));
      var message := [Integer(2), Str(Chars(name)), Array(Objects(args))];
      DecodeObject(bytes) == Done(Array(message), |bytes|) && IsNotification(message)
  {
    var items := [Uint(2), Bytes(name), List(args)];
    assert Encodable(items[2]);
    ArrayDecodes(items);
    assert items == [Uint(2)] + ([Bytes(name)] + ([List(args)] + []));
    ObjectsCons(List(args), []);
    ObjectsCons(Bytes(name), [List(args)] + []);
    ObjectsCons(Uint(2), [Bytes(name)] + ([List(args)] + []));
    assert Objects([]) == [];
    assert Objects(items) == [Integer(2), Str(Chars(name)), Array(Objects(args))];
  }

  /** A packed response [1, id, error, result] reads back as one IsResponse accepts, with the same id. */
  lemma ResponseDecodes(msgid: u64, error: Value, result: Value)
    requires Encodable(error) && Encodable(result)
    ensures var bytes := Encode(List([Uint(1), Uint(msgid), error, result]));
      var message := [Integer(1), Integer(msgid), ToObject(error), ToObject(result)];
      DecodeObject(bytes) == Done(Array(message), |bytes|) && IsResponse(message) && message[1].bits == msgid
  {
    var items := [Uint(1), Uint(msgid), error, result];
    ArrayDecodes(items);
    assert items == [Uint(1)] + ([Uint(msgid)] + ([error] + ([result] + [])));
    ObjectsCons(result, []);
    ObjectsCons(error, [result] + []);
    ObjectsCons(Uint(msgid), [error] + ([result] + []));
    ObjectsCons(Uint(1), [Uint(msgid)] + ([error] + ([result] + [])));
    assert Objects([]) == [];
    assert Objects(items) == [Integer(1), Integer(msgid), ToObject(error), ToObject(result)];
  }

  lemma ObjectsCons(x: Value, xs: seq<Value>)
    ensures Objects([x] + xs) == [ToObject(x)] + Objects(xs)
  {
    assert ([x] + xs)[1..] == xs;
  }

  // ---------------------------------------------------------------------
  // The reply to a mode query

  /** The mode a reply names, or unknown. Turning the name into a mode is not part of this model. */
  datatype ModeReply = UnknownMode | ModeNamed(name: string)

  predicate IsModePair(p: Pair)
  {
    p.key == Str("mode") && p.value.Str?
  }

  /** The value of the first pair with key "mode" whose value is a string. */
  function FirstModeName(pairs: seq<Pair>): (r: ModeReply)
    ensures r.UnknownMode? <==> forall i :: 0 <= i < |pairs| ==> !IsModePair(pairs[i])
    ensures r.ModeNamed? ==> exists i :: 0 <= i < |pairs| && IsModePair(pairs[i]) && pairs[i].value.text == r.name &&
                                         forall j :: 0 <= j < i ==> !IsModePair(pairs[j])
  {
    if |pairs| == 0 then UnknownMode
    else if IsModePair(pairs[0]) then ModeNamed(pairs[0].value.text)
    else
      var r := FirstModeName(pairs[1..]);
      assert forall i :: 1 <= i < |pairs| ==> pairs[i] == pairs[1..][i - 1];
      if r.ModeNamed? then
        ghost var i :| 0 <= i < |pairs[1..]| && IsModePair(pairs[1..][i]) && pairs[1..][i].value.text == r.name &&
                       forall j :: 0 <= j < i ==> !IsModePair(pairs[1..][j]);
        assert IsModePair(pairs[i + 1]) && pairs[i + 1].value.text == r.name;
        assert forall j :: 0 <= j < i + 1 ==> !IsModePair(pairs[j]) by {
          forall j | 0 <= j < i + 1 ensures !IsModePair(pairs[j]) {
            if j > 0 { assert pairs[j] == pairs[1..][j - 1]; }
          }
        }
        r
      else r
  }

  /** to_neovim_mode: unknown for an error or a result that is not a map, else the first string under "mode". */
  function ToNeovimMode(error: Object, result: Object): (r: ModeReply)
    ensures !error.Null? || !result.Map? ==> r.UnknownMode?
  {
    if !error.Null? || !result.Map? then UnknownMode else FirstModeName(result.pairs)
  }

  /** When map lookup of "mode" finds a string, the reply names that mode. */
  lemma ModeAgreesWithLookup(pairs: seq<Pair>, name: string)
    requires MapGet(pairs, Str("mode")) == Some(Str(name))
    ensures ToNeovimMode(Null, Map(pairs)) == ModeNamed(name)
  {
    var i :| 0 <= i < |pairs| && pairs[i].key == Str("mode") && pairs[i].value == Str(name) &&
             forall j :: 0 <= j < i ==> pairs[j].key != Str("mode");
    var r := FirstModeName(pairs);
    assert IsModePair(pairs[i]);
    var k :| 0 <= k < |pairs| && IsModePair(pairs[k]) && pairs[k].value.text == r.name &&
             forall j :: 0 <= j < k ==> !IsModePair(pairs[j]);
  }
}
