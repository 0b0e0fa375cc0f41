/** The policy a deeplink manager follows when it dispatches a link to its
    handlers and when it replays a pending link to a late registrant, stated
    over the sequence of results the handlers returned. */
module DispatchPolicy {
  import opened Optional
  import opened HandlerResults

  /** The update of the "still handling" flag after one handler returned `r`:
      a full handle clears it, a partial handle sets it, no handle leaves it. */
  function Step(handling: bool, r: DeeplinkHandlerResult): bool {
    match r
    case FullyHandled => false
    case PartiallyHandled => true
    case NotHandled => handling
  }

  /** The flag after every result of `rs` has been applied, in order, starting
      from `handling`; no result stops the iteration early. */
  function FoldFlag(handling: bool, rs: seq<DeeplinkHandlerResult>): bool
    decreases |rs|
  {
    if rs == [] then handling
    else Step(FoldFlag(handling, rs[..|rs| - 1]), rs[|rs| - 1])
  }

  /** The position of the last definitive result in `rs`, if there is one. */
  function LastDefinitive(rs: seq<DeeplinkHandlerResult>): (r: Option<nat>)
    ensures r.Some? ==>
      && r.value < |rs|
      && IsDefinitive(rs[r.value])
      && forall j :: r.value < j < |rs| ==> !IsDefinitive(rs[j])
    ensures r.None? <==> forall j :: 0 <= j < |rs| ==> !IsDefinitive(rs[j])
    decreases |rs|
  {
    if rs == [] then None
    else if IsDefinitive(rs[|rs| - 1]) then Some(|rs| - 1)
    else LastDefinitive(rs[..|rs| - 1])
  }

  /** The flag is decided by the last definitive result alone; when there is
      none, it keeps its starting value. */
  lemma {:induction false} FlagIsLastDefinitive(handling: bool, rs: seq<DeeplinkHandlerResult>)
    ensures FoldFlag(handling, rs) ==
      match LastDefinitive(rs)
      case None => handling
      case Some(i) => rs[i] == PartiallyHandled
    decreases |rs|
  {
    if rs != [] && !IsDefinitive(rs[|rs| - 1]) {
      FlagIsLastDefinitive(handling, rs[..|rs| - 1]);
    }
  }

  /** Folding over two runs of handlers is folding over the first and then,
      from the flag it left, over the second. */
  lemma {:induction false} FoldFlagAppend(handling: bool, a: seq<DeeplinkHandlerResult>, b: seq<DeeplinkHandlerResult>)
    ensures FoldFlag(handling, a + b) == FoldFlag(FoldFlag(handling, a), b)
    decreases |b|
  {
    if b == [] {
      assert a + b == a;
    } else {
      assert (a + b)[..|a + b| - 1] == a + b[..|b| - 1];
      FoldFlagAppend(handling, a, b[..|b| - 1]);
    }
  }

  /** The pending link and the "still handling" flag of a manager. */
  datatype PendingState<Link> = PendingState(pending: Option<Link>, handling: bool) {

    /** A link is pending exactly while some handler is still handling it. */
    predicate Consistent() {
      pending.Some? <==> handling
    }
  }

  /** The state after `link` was dispatched to handlers that returned `rs`:
      the link stays pending only if the flag ended up set. */
  function AfterHandle<Link>(link: Link, rs: seq<DeeplinkHandlerResult>): (st: PendingState<Link>)
    ensures st.Consistent()
    ensures st.pending.Some? ==> st.pending.value == link
  {
    var handling := FoldFlag(false, rs);
    PendingState(if handling then Some(link) else None, handling)
  }

  /** The state after the pending link was replayed to a newly registered
      handler that returned `r`. */
  function AfterReplay<Link>(st: PendingState<Link>, r: DeeplinkHandlerResult): (st': PendingState<Link>)
    requires st.pending.Some?
    ensures st.Consistent() ==> st'.Consistent()
    ensures st'.pending.None? <==> r == FullyHandled
    ensures st'.pending.Some? ==> st'.pending == st.pending
  {
    match r
    case FullyHandled => PendingState(None, false)
    case PartiallyHandled => PendingState(st.pending, true)
    case NotHandled => st
  }

  /** After a dispatch, the link is still pending if and only if some handler
      returned PartiallyHandled and every handler after it returned
      NotHandled. When no handler took a position, nothing is pending. */
  lemma HandleOutcome<Link>(link: Link, rs: seq<DeeplinkHandlerResult>)
    ensures AfterHandle(link, rs).handling <==>
      exists i :: 0 <= i < |rs| && rs[i] == PartiallyHandled &&
        forall j :: i < j < |rs| ==> rs[j] == NotHandled
    ensures (forall j :: 0 <= j < |rs| ==> rs[j] == NotHandled) ==>
      AfterHandle(link, rs) == PendingState(None, false)
  {
    FlagIsLastDefinitive(false, rs);
    var last := LastDefinitive(rs);
    if AfterHandle(link, rs).handling {
      assert rs[last.value] == PartiallyHandled;
    }
    if exists i :: 0 <= i < |rs| && rs[i] == PartiallyHandled &&
         forall j :: i < j < |rs| ==> rs[j] == NotHandled
    {
      var i :| 0 <= i < |rs| && rs[i] == PartiallyHandled &&
                forall j :: i < j < |rs| ==> rs[j] == NotHandled;
      assert last == Some(i);
    }
  }

  /** The last definitive result wins: once a later run of handlers holds a
      definitive result, nothing the earlier handlers returned matters, even
      a FullyHandled. */
  lemma LastDefinitiveWins<Link>(link: Link, earlier: seq<DeeplinkHandlerResult>, later: seq<DeeplinkHandlerResult>)
    requires exists j :: 0 <= j < |later| && IsDefinitive(later[j])
    ensures AfterHandle(link, earlier + later) == AfterHandle(link, later)
  {
    FoldFlagAppend(false, earlier, later);
    FlagIsLastDefinitive(FoldFlag(false, earlier), later);
    FlagIsLastDefinitive(false, later);
  }

  /** Replaying a still-pending link to a late registrant leaves the same
      state as dispatching the link with that handler already at the end of
      the registry. */
  lemma ReplayMatchesDispatch<Link>(link: Link, rs: seq<DeeplinkHandlerResult>, r: DeeplinkHandlerResult)
    requires AfterHandle(link, rs).pending.Some?
    ensures AfterReplay(AfterHandle(link, rs), r) == AfterHandle(link, rs + [r])
  {
  }
}
