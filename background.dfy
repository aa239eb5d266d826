/**
 * `entrypoints/background.ts`: the tab listing filter and the message listener, which
 * validates an untyped message, talks to the host's tab API and answers with at most one
 * typed response.
 */
module Background {
  import opened Wrappers
  import opened JsString
  import opened Seqs
  import opened Protocol

  // ---------------------------------------------------------------- getAllTabs

  /** The listing policy: a web page (`url` starting with `"http"`) or an unloaded tab. */
  predicate Listed(t: Tab) {
    (t.url.Some? && t.url.value != "" && StartsWith(t.url.value, "http")) || t.discarded
  }

  /** `getAllTabs`: the host's tabs that the listing policy admits, in the host's order. */
  function GetAllTabs(hostTabs: seq<Tab>): seq<Tab> {
    Keep(hostTabs, Listed)
  }

  /** The listing is an order-preserving selection of exactly the admitted tabs. */
  lemma GetAllTabsSpec(hostTabs: seq<Tab>)
    ensures IsSubseq(GetAllTabs(hostTabs), hostTabs)
    ensures forall t :: t in GetAllTabs(hostTabs) <==>
      t in hostTabs && ((t.url.Some? && StartsWith(t.url.value, "http")) || t.discarded)
    ensures forall t :: multiset(GetAllTabs(hostTabs))[t] == (if Listed(t) then multiset(hostTabs)[t] else 0)
  {
    KeepIsSubseq(hostTabs, Listed);
    KeepCount(hostTabs, Listed);
    forall t ensures t in GetAllTabs(hostTabs) <==> t in hostTabs && Listed(t) {
      KeepMember(hostTabs, Listed, t);
    }
  }

  // ---------------------------------------------------------------- validation

  /** Why a message was dropped; `NothingToClose` is the silent empty `closeTabs`. */
  datatype DropReason = NoType | NoTabId | NoTabs | NothingToClose | InvalidTabIds | UnknownType

  /** The listener's decision for one message. */
  datatype Action =
    | Drop(reason: DropReason)
    | ListTabs
    | Activate(tabId: int)
    | CloseAll(tabIds: seq<int>)

  predicate AllNumbers(items: seq<Value>) {
    forall i :: 0 <= i < |items| ==> items[i].Num?
  }

  function Numbers(items: seq<Value>): (r: seq<int>)
    requires AllNumbers(items)
    ensures |r| == |items| && forall i :: 0 <= i < |items| ==> items[i] == Num(r[i])
  {
    seq(|items|, i requires 0 <= i < |items| => items[i].n)
  }

  /** The guards of the `onMessage` listener, in the order the listener tests them. */
  function Decide(msg: Value): (a: Action)
    ensures a.Activate? ==> a.tabId != 0
    ensures a.CloseAll? ==> |a.tabIds| > 0
  {
    var ty := Get(msg, "type");
    if !Truthy(ty) || !ty.Str? then Drop(NoType)
    else if ty.s == "getTabs" then ListTabs
    else if ty.s == "openTab" then
      var d := Get(msg, "data");
      if !Truthy(d) || !d.Num? then Drop(NoTabId) else Activate(d.n)
    else if ty.s == "closeTabs" then
      var d := Get(msg, "data");
      if !Truthy(d) || !d.Arr? then Drop(NoTabs)
      else if |d.items| == 0 then Drop(NothingToClose)
      else if !AllNumbers(d.items) then Drop(InvalidTabIds)
      else CloseAll(Numbers(d.items))
    else Drop(UnknownType)
  }

  /** A message without a non-empty string `type` is dropped, and only such a message is dropped for that reason. */
  lemma DecideRejectsType(msg: Value)
    ensures Decide(msg) == Drop(NoType) <==> !Get(msg, "type").Str? || Get(msg, "type") == Str("")
  {
  }

  /** A string `type` the listener does not know is dropped; the three known ones never are for that reason. */
  lemma DecideUnknownType(msg: Value)
    requires Get(msg, "type").Str? && Get(msg, "type") != Str("")
    ensures Decide(msg) == Drop(UnknownType) <==> Get(msg, "type").s !in {"getTabs", "openTab", "closeTabs"}
  {
  }

  /** `openTab` is accepted exactly for a non-zero number `data`. */
  lemma DecideOpenTab(msg: Value)
    requires Get(msg, "type") == Str("openTab")
    ensures Decide(msg).Activate? <==> Get(msg, "data").Num? && Get(msg, "data").n != 0
    ensures Decide(msg).Activate? ==> Get(msg, "data") == Num(Decide(msg).tabId)
    ensures !Decide(msg).Activate? ==> Decide(msg) == Drop(NoTabId)
  {
  }

  /**
   * `closeTabs` is accepted exactly for a non-empty array of numbers, zero included; the
   * empty array and an array with any non-number are dropped.
   */
  lemma DecideCloseTabs(msg: Value)
    requires Get(msg, "type") == Str("closeTabs")
    ensures Decide(msg).CloseAll? <==>
      Get(msg, "data").Arr? && |Get(msg, "data").items| > 0 && AllNumbers(Get(msg, "data").items)
    ensures Decide(msg).CloseAll? ==>
      |Decide(msg).tabIds| == |Get(msg, "data").items| &&
      forall i :: 0 <= i < |Decide(msg).tabIds| ==> Get(msg, "data").items[i] == Num(Decide(msg).tabIds[i])
    ensures Get(msg, "data") == Arr([]) ==> Decide(msg) == Drop(NothingToClose)
    ensures !Decide(msg).CloseAll? ==> Decide(msg).Drop?
  {
  }

  // ---------------------------------------------------------------- dispatch

  /**
   * The host's tab API as the listener sees it: the tabs `query({})` reports (`None` when it
   * rejects), whether `update(id, {active: true})` resolves, and for `remove(id)` either
   * success (`None`) or the text of the error it rejects with.
   */
  datatype Host = Host(tabs: Option<seq<Tab>>, update: int -> bool, remove: int -> Option<string>)

  /** A call the listener makes into the host's tab API. */
  datatype HostCall = Query | Update(tabId: int) | Remove(tabId: int)

  /** The error of the first removal, in id order, that fails; `None` when all succeed. */
  function FirstFailure(ids: seq<int>, remove: int -> Option<string>): Option<string> {
    if ids == [] then None
    else
      var before := FirstFailure(ids[..|ids| - 1], remove);
      if before.Some? then before else remove(ids[|ids| - 1])
  }

  predicate AllRemoved(ids: seq<int>, remove: int -> Option<string>) {
    forall i :: 0 <= i < |ids| ==> remove(ids[i]).None?
  }

  /** No failure is reported iff every removal succeeded; a reported failure is the earliest one. */
  lemma {:induction false} FirstFailureSpec(ids: seq<int>, remove: int -> Option<string>)
    ensures FirstFailure(ids, remove).None? <==> AllRemoved(ids, remove)
    ensures FirstFailure(ids, remove).Some? ==>
      exists i :: 0 <= i < |ids| && remove(ids[i]) == FirstFailure(ids, remove) && AllRemoved(ids[..i], remove)
  {
    if ids != [] {
      var front := ids[..|ids| - 1];
      FirstFailureSpec(front, remove);
      if FirstFailure(front, remove).Some? {
        var i :| 0 <= i < |front| && remove(front[i]) == FirstFailure(front, remove) && AllRemoved(front[..i], remove);
        assert ids[..i] == front[..i];
      } else {
        assert ids[..|ids| - 1] == front;
        assert AllRemoved(ids[..|ids| - 1], remove);
      }
    }
  }

  /** The `closed_tabs` response for a batch whose first failure (if any) is `failure`. */
  function ClosedResponse(failure: Option<string>): (r: Response)
    ensures r.kind == ClosedTabs
    ensures r.data == Flag(failure.None?) && r.error == failure
  {
    match failure
    case None => Response(ClosedTabs, Flag(true), None)
    case Some(e) => Response(ClosedTabs, Flag(false), Some(e))
  }

  function RemoveCalls(ids: seq<int>): (r: seq<HostCall>)
    ensures |r| == |ids| && forall i :: 0 <= i < |ids| ==> r[i] == Remove(ids[i])
  {
    seq(|ids|, i requires 0 <= i < |ids| => Remove(ids[i]))
  }

  /**
   * One run of the `onMessage` listener: `keepOpen` is its return value (`true` keeps the
   * reply channel open), `response` what `sendRes` eventually receives, `calls` the host
   * calls it makes.
   */
  method Handle(msg: Value, host: Host) returns (keepOpen: bool, response: Option<Response>, calls: seq<HostCall>)
    ensures keepOpen <==> !Decide(msg).Drop?
    ensures response.Some? ==> keepOpen
    ensures Decide(msg).Drop? ==> response == None && calls == []
    ensures Decide(msg) == ListTabs ==>
      calls == [Query] &&
      response == (if host.tabs.Some? then Some(Response(Tabs, TabList(GetAllTabs(host.tabs.value)), None)) else None)
    ensures Decide(msg).Activate? ==>
      calls == [Update(Decide(msg).tabId)] &&
      response == (if host.update(Decide(msg).tabId) then Some(Response(Success, Flag(true), None)) else None)
    ensures Decide(msg).CloseAll? ==>
      var ids := Decide(msg).tabIds;
      calls == RemoveCalls(ids) && response == Some(ClosedResponse(FirstFailure(ids, host.remove))) &&
      response.value.kind == ClosedTabs && response.value.data == Flag(AllRemoved(ids, host.remove)) &&
      (response.value.error.None? <==> AllRemoved(ids, host.remove)) &&
      (!AllRemoved(ids, host.remove) ==>
         exists i :: 0 <= i < |ids| && host.remove(ids[i]) == response.value.error && AllRemoved(ids[..i], host.remove))
    ensures response.Some? && response.value.kind == Success ==> response.value.data == Flag(true)
  {
    match Decide(msg)
    case Drop(_) =>
      keepOpen, response, calls := false, None, [];
    case ListTabs =>
      calls := [Query];
      // `getAllTabs().then(...)` has no `.catch`: a rejected query answers nothing
      response := if host.tabs.Some? then Some(Response(Tabs, TabList(GetAllTabs(host.tabs.value)), None)) else None;
      keepOpen := true;
    case Activate(id) =>
      calls := [Update(id)];
      // `openTab(tabid).then(...)` has no `.catch`: a rejected update answers nothing
      response := if host.update(id) then Some(Response(Success, Flag(true), None)) else None;
      keepOpen := true;
    case CloseAll(ids) =>
      // every `remove` is started before any settles; `Promise.all` reports the first failure
      calls := [];
      var failure: Option<string> := None;
      var i := 0;
      while i < |ids|
        invariant 0 <= i <= |ids|
        invariant calls == RemoveCalls(ids[..i])
        invariant failure == FirstFailure(ids[..i], host.remove)
      {
        assert ids[..i + 1][..i] == ids[..i];
        calls := calls + [Remove(ids[i])];
        if failure.None? {
          failure := host.remove(ids[i]);
        }
        i := i + 1;
      }
      assert ids[..|ids|] == ids;
      FirstFailureSpec(ids, host.remove);
      response := Some(ClosedResponse(failure));
      keepOpen := true;
  }
}
