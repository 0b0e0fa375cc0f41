/** The deeplink manager: an ordered registry of handlers, one pending link
    and a flag saying whether some handler is still handling it. */
module Manager {
  import opened Optional
  import opened HandlerResults
  import opened DispatchPolicy

  /** A registered handler: its id and the function that judges a link. */
  datatype Entry<-Link> = Entry(id: string, handler: Link -> DeeplinkHandlerResult)

  /** One call of a handler: which handler ran, on which link. */
  datatype Invocation<Link> = Invocation(id: string, link: Link)

  /** The ids of the registry, in registration order. */
  function Ids<Link>(hs: seq<Entry<Link>>): seq<string> {
    seq(|hs|, i requires 0 <= i < |hs| => hs[i].id)
  }

  /** What every handler of the registry returns for `link`, in registration order. */
  function Results<Link>(hs: seq<Entry<Link>>, link: Link): seq<DeeplinkHandlerResult> {
    seq(|hs|, i requires 0 <= i < |hs| => hs[i].handler(link))
  }

  /** One call per handler of the registry, in registration order, all on `link`. */
  function Invocations<Link>(hs: seq<Entry<Link>>, link: Link): seq<Invocation<Link>> {
    seq(|hs|, i requires 0 <= i < |hs| => Invocation(hs[i].id, link))
  }

  /** No two entries of the registry share an id. */
  predicate UniqueIds<Link>(hs: seq<Entry<Link>>) {
    forall i, j :: 0 <= i < j < |hs| ==> hs[i].id != hs[j].id
  }

  /** The position of the first entry whose id is `id`, if any. */
  function FirstIndexOf<Link>(hs: seq<Entry<Link>>, id: string): (r: Option<nat>)
    ensures r.Some? ==>
      && r.value < |hs|
      && hs[r.value].id == id
      && forall j :: 0 <= j < r.value ==> hs[j].id != id
    ensures r.None? <==> id !in Ids(hs)
    decreases |hs|
  {
    if hs == [] then None
    else if hs[0].id == id then
      assert Ids(hs)[0] == id;
      Some(0)
    else
      assert Ids(hs) == [hs[0].id] + Ids(hs[1..]);
      match FirstIndexOf(hs[1..], id)
      case None => None
      case Some(k) => Some(k + 1)
  }

  /** The registry with the entry at position `i` taken out; the entries
      before it stay in place and the ones after it move down by one. */
  function RemoveAt<Link>(hs: seq<Entry<Link>>, i: nat): (r: seq<Entry<Link>>)
    requires i < |hs|
    ensures |r| == |hs| - 1
    ensures forall k :: 0 <= k < i ==> r[k] == hs[k]
    ensures forall k :: i <= k < |r| ==> r[k] == hs[k + 1]
  {
    hs[..i] + hs[i + 1..]
  }

  /** Taking out the first entry with `id` from a registry without duplicate
      ids leaves a registry without duplicate ids that has lost exactly `id`. */
  lemma RemoveFirstMatch<Link>(hs: seq<Entry<Link>>, id: string, i: nat)
    requires UniqueIds(hs)
    requires FirstIndexOf(hs, id) == Some(i)
    ensures UniqueIds(RemoveAt(hs, i))
    ensures id !in Ids(RemoveAt(hs, i))
    ensures forall x :: x != id ==> (x in Ids(RemoveAt(hs, i)) <==> x in Ids(hs))
  {
    var rest := RemoveAt(hs, i);
    forall a, b | 0 <= a < b < |rest|
      ensures rest[a].id != rest[b].id
    {
      var a' := if a < i then a else a + 1;
      var b' := if b < i then b else b + 1;
      assert rest[a] == hs[a'] && rest[b] == hs[b'];
    }
    forall x
      ensures x in Ids(rest) <==> x in Ids(hs) && x != id
    {
      KeptId(hs, id, i, x);
    }
  }

  /** In a registry without duplicate ids, an id survives the removal of
      position `i`, which holds `id`, exactly when it was there and is not `id`. */
  lemma KeptId<Link>(hs: seq<Entry<Link>>, id: string, i: nat, x: string)
    requires UniqueIds(hs)
    requires i < |hs| && hs[i].id == id
    ensures x in Ids(RemoveAt(hs, i)) <==> x in Ids(hs) && x != id
  {
    var rest := RemoveAt(hs, i);
    if x in Ids(rest) {
      var k :| 0 <= k < |rest| && Ids(rest)[k] == x;
      var k' := if k < i then k else k + 1;
      assert rest[k] == hs[k'] && k' != i;
      assert Ids(hs)[k'] == x;
    }
    if x in Ids(hs) && x != id {
      var k :| 0 <= k < |hs| && Ids(hs)[k] == x;
      if k < i {
        assert Ids(rest)[k] == x;
      } else {
        assert Ids(rest)[k - 1] == x;
      }
    }
  }

  /** A handler registered while a link is still pending ends up in the same
      state as if it had been registered before that link was dispatched. */
  lemma {:induction false} LateRegistrationMatchesEarly<Link>(hs: seq<Entry<Link>>, link: Link, e: Entry<Link>)
    requires AfterHandle(link, Results(hs, link)).pending.Some?
    ensures AfterReplay(AfterHandle(link, Results(hs, link)), e.handler(link)) ==
            AfterHandle(link, Results(hs + [e], link))
  {
    assert Results(hs + [e], link) == Results(hs, link) + [e.handler(link)];
    ReplayMatchesDispatch(link, Results(hs, link), e.handler(link));
  }

  class DeeplinkManager<Link> {
    var pendingDeeplink: Option<Link>
    var isHandlingPendingDeeplink: bool
    var handlers: seq<Entry<Link>>

    /** Every call of a handler the manager has made, oldest first. */
    ghost var invocations: seq<Invocation<Link>>

    /** A link is pending exactly while some handler is still handling it,
        and no two registered handlers share an id. */
    ghost predicate Valid()
      reads this
    {
      State().Consistent() && UniqueIds(handlers)
    }

    /** The pending link and the flag, as one value. */
    function State(): PendingState<Link>
      reads this
    {
      PendingState(pendingDeeplink, isHandlingPendingDeeplink)
    }

    constructor ()
      ensures Valid()
      ensures pendingDeeplink == None && !isHandlingPendingDeeplink
      ensures handlers == [] && invocations == []
    {
      pendingDeeplink := None;
      isHandlingPendingDeeplink := false;
      handlers := [];
      invocations := [];
    }

    /** Runs `link` through every handler in registration order and keeps it
        pending only if the last handler that took a position handled it
        partially. */
    method Handle(link: Link)
      requires Valid()
      modifies this
      ensures Valid()
      ensures handlers == old(handlers)
      ensures State() == AfterHandle(link, Results(handlers, link))
      ensures invocations == old(invocations) + Invocations(handlers, link)
    {
      pendingDeeplink := Some(link);
      isHandlingPendingDeeplink := false;
      var entries := handlers;
      ghost var rs := Results(entries, link);
      for i := 0 to |entries|
        invariant handlers == entries
        invariant pendingDeeplink == Some(link)
        invariant isHandlingPendingDeeplink == FoldFlag(false, rs[..i])
        invariant invocations == old(invocations) + Invocations(handlers, link)[..i]
      {
        var result := entries[i].handler(link);
        invocations := invocations + [Invocation(entries[i].id, link)];
        assert rs[..i + 1][..i] == rs[..i];
        match result
        case FullyHandled =>
          isHandlingPendingDeeplink := false;
        case PartiallyHandled =>
          isHandlingPendingDeeplink := true;
        case NotHandled =>
      }
      assert rs[..|entries|] == rs;
      assert Invocations(entries, link)[..|entries|] == Invocations(entries, link);
      if !isHandlingPendingDeeplink {
        pendingDeeplink := None;
      }
    }

    /** Appends `handler` under the fresh `id` and, if a link is pending,
        replays it to the new handler once. */
    method Register(id: string, handler: Link -> DeeplinkHandlerResult) returns (registered: string)
      requires Valid()
      requires id !in Ids(handlers)
      modifies this
      ensures Valid()
      ensures registered == id
      ensures handlers == old(handlers) + [Entry(id, handler)]
      ensures old(pendingDeeplink).None? ==>
        State() == old(State()) && invocations == old(invocations)
      ensures old(pendingDeeplink).Some? ==>
        && State() == AfterReplay(old(State()), handler(old(pendingDeeplink).value))
        && invocations == old(invocations) + [Invocation(id, old(pendingDeeplink).value)]
    {
      handlers := handlers + [Entry(id, handler)];
      assert forall k :: 0 <= k < |old(handlers)| ==> handlers[k].id == Ids(old(handlers))[k];
      if pendingDeeplink.Some? {
        var deeplink := pendingDeeplink.value;
        var result := handler(deeplink);
        invocations := invocations + [Invocation(id, deeplink)];
        match result
        case FullyHandled =>
          isHandlingPendingDeeplink := false;
          pendingDeeplink := None;
        case PartiallyHandled =>
          isHandlingPendingDeeplink := true;
        case NotHandled =>
      }
      registered := id;
    }

    /** Removes the first handler registered under `id`. An unknown id leaves
        the registry as it was and is reported by `found == false`. */
    method Unregister(id: string) returns (found: bool)
      requires Valid()
      modifies this
      ensures Valid()
      ensures found <==> id in Ids(old(handlers))
      ensures found ==>
        && handlers == RemoveAt(old(handlers), FirstIndexOf(old(handlers), id).value)
        && id !in Ids(handlers)
      ensures !found ==> handlers == old(handlers)
      ensures State() == old(State()) && invocations == old(invocations)
    {
      var index := FirstIndexOf(handlers, id);
      if index.None? {
        found := false;
        return;
      }
      RemoveFirstMatch(handlers, id, index.value);
      handlers := RemoveAt(handlers, index.value);
      found := true;
    }
  }
}
