/**
 * `entrypoints/popup/App.tsx`, the rest of the popup's logic: the count labels, the list
 * truncation, the requests the popup sends to the background (and what the background
 * decides on each), and the markdown text "copy filtered" produces.
 */
module Popup {
  import opened Wrappers
  import opened JsString
  import opened Protocol
  import opened Background
  import opened Grouping

  // ---------------------------------------------------------------- labels

  /** `numStr(num, singular, plural)`: the number, a space, and the word for that count. */
  function NumStr(n: int, singular: string, plural: string): string {
    IntToString(n) + " " + (if n == 1 then singular else plural)
  }

  /** The label reads back as its number, then one space, then the singular word exactly for one. */
  lemma NumStrParts(n: int, singular: string, plural: string)
    ensures var r := NumStr(n, singular, plural);
      var k := |IntToString(n)|;
      k < |r| && ParseInt(r[..k]) == n && r[k] == ' ' &&
      r[k + 1..] == (if n == 1 then singular else plural)
  {
    var r := NumStr(n, singular, plural);
    var k := |IntToString(n)|;
    assert r[..k] == IntToString(n);
    IntToStringRoundTrip(n);
  }

  /** Two labels for the same words are equal only for the same number. */
  lemma NumStrInjective(n: int, m: int, singular: string, plural: string)
    ensures NumStr(n, singular, plural) == NumStr(m, singular, plural) <==> n == m
  {
    if NumStr(n, singular, plural) == NumStr(m, singular, plural) {
      var r, a, b := NumStr(n, singular, plural), IntToString(n), IntToString(m);
      IntToStringNoSpace(n);
      IntToStringNoSpace(m);
      assert r[|a|] == ' ' && r[|b|] == ' ';
      assert a == r[..|a|] == b;
      IntToStringInjective(n, m);
    }
  }

  /** The text of a number has no space in it. */
  lemma IntToStringNoSpace(n: int)
    ensures ' ' !in IntToString(n)
  {
    if n < 0 {
      NatToStringRoundTrip(-n);
      assert IntToString(n) == "-" + NatToString(-n);
    } else {
      NatToStringRoundTrip(n);
      assert IntToString(n) == NatToString(n);
    }
  }

  // ---------------------------------------------------------------- truncation

  /** `arr.slice(0, limit)`: the end position, counted from the back when negative, clamped. */
  function SliceEnd(len: nat, limit: int): (e: nat)
    ensures e <= len
  {
    if limit < 0 then (if len + limit < 0 then 0 else len + limit)
    else if limit < len then limit
    else len
  }

  /** `sliceTabs(sliced, arr, limit)`: the whole list, or its first `limit` entries. */
  function SliceTabs<T>(sliced: bool, arr: seq<T>, limit: int): (r: seq<T>)
    ensures |r| <= |arr| && r == arr[..|r|]
    ensures !sliced ==> r == arr
    ensures sliced && 0 <= limit ==> |r| == (if limit < |arr| then limit else |arr|)
  {
    if !sliced then arr else arr[..SliceEnd(|arr|, limit)]
  }

  /** Truncating a truncated list again to the same non-negative limit changes nothing. */
  lemma SliceTabsIdempotent<T>(sliced: bool, arr: seq<T>, limit: int)
    requires 0 <= limit
    ensures SliceTabs(sliced, SliceTabs(sliced, arr, limit), limit) == SliceTabs(sliced, arr, limit)
  {
  }

  // ---------------------------------------------------------------- requests

  /** A tab's `id` as a message value: `undefined` when the tab has none. */
  function IdValue(id: Option<int>): (v: Value)
    ensures v.Num? <==> id.Some?
    ensures id.Some? ==> v == Num(id.value)
  {
    if id.Some? then Num(id.value) else Undefined
  }

  /** `tabs.map((tab) => tab.id)`. */
  function Ids(tabs: seq<Tab>): (r: seq<Option<int>>)
    ensures |r| == |tabs| && forall i :: 0 <= i < |tabs| ==> r[i] == tabs[i].id
  {
    seq(|tabs|, i requires 0 <= i < |tabs| => tabs[i].id)
  }

  /** `{ type: "getTabs" }`, the request of `tabsDataFecther`. */
  function GetTabsMessage(): Value {
    Obj(map["type" := Str("getTabs")])
  }

  /** `{ type: "openTab", data: tab.id }`, sent when a tab row is clicked. */
  function OpenTabMessage(t: Tab): Value {
    Obj(map["type" := Str("openTab"), "data" := IdValue(t.id)])
  }

  /** `{ type: "closeTabs", data: ids }`. */
  function CloseTabsMessage(ids: seq<Option<int>>): Value {
    Obj(map["type" := Str("closeTabs"), "data" := Arr(seq(|ids|, i requires 0 <= i < |ids| => IdValue(ids[i])))])
  }

  /** The close button of one tab row. */
  function CloseTabMessage(t: Tab): Value {
    CloseTabsMessage([t.id])
  }

  /** "Close All" of a group: every member's id. */
  function CloseAllMessage(g: Group): Value {
    CloseTabsMessage(Ids(g.members))
  }

  /** `array.slice(1)`: everything after the first entry; nothing for an empty array. */
  function DropFirst<T>(s: seq<T>): (r: seq<T>)
    ensures s == [] ==> r == []
    ensures s != [] ==> [s[0]] + r == s
  {
    if s == [] then [] else s[1..]
  }

  /** "Close All but one" of a duplicate group: every member's id but the first. */
  function CloseAllButOneMessage(g: Group): Value {
    CloseTabsMessage(DropFirst(Ids(g.members)))
  }

  /** `closeFiltered()`: no request at all for an empty filtered list. */
  function CloseFilteredMessage(filtered: seq<Tab>): (m: Option<Value>)
    ensures m.None? <==> filtered == []
  {
    if |filtered| == 0 then None else Some(CloseTabsMessage(Ids(filtered)))
  }

  predicate AllPresent(ids: seq<Option<int>>) {
    forall i :: 0 <= i < |ids| ==> ids[i].Some?
  }

  predicate HaveIds(tabs: seq<Tab>) {
    forall i :: 0 <= i < |tabs| ==> tabs[i].id.Some?
  }

  /** The background lists the tabs for the popup's fetch request. */
  lemma DecideGetTabs()
    ensures Decide(GetTabsMessage()) == ListTabs
  {
    assert Get(GetTabsMessage(), "type") == Str("getTabs");
  }

  /** Clicking a tab activates it, unless it has no id or the id `0`. */
  lemma DecideOpenTabMessage(t: Tab)
    ensures Decide(OpenTabMessage(t)) ==
      if t.id.Some? && t.id.value != 0 then Activate(t.id.value) else Drop(NoTabId)
  {
    var m := OpenTabMessage(t);
    assert Get(m, "type") == Str("openTab");
    assert Get(m, "data") == IdValue(t.id);
  }

  /**
   * A close request is dropped silently when it names no tab and as a whole when any tab has
   * no id; otherwise the background closes exactly the listed ids, in order.
   */
  lemma DecideCloseTabsMessage(ids: seq<Option<int>>)
    ensures ids == [] ==> Decide(CloseTabsMessage(ids)) == Drop(NothingToClose)
    ensures ids != [] && !AllPresent(ids) ==> Decide(CloseTabsMessage(ids)) == Drop(InvalidTabIds)
    ensures ids != [] && AllPresent(ids) ==>
      Decide(CloseTabsMessage(ids)).CloseAll? &&
      |Decide(CloseTabsMessage(ids)).tabIds| == |ids| &&
      forall i :: 0 <= i < |ids| ==> Some(Decide(CloseTabsMessage(ids)).tabIds[i]) == ids[i]
  {
    var m := CloseTabsMessage(ids);
    var items := seq(|ids|, i requires 0 <= i < |ids| => IdValue(ids[i]));
    assert Get(m, "type") == Str("closeTabs");
    assert Get(m, "data") == Arr(items);
    assert forall i :: 0 <= i < |ids| ==> items[i] == IdValue(ids[i]);
    assert AllNumbers(items) <==> AllPresent(ids);
    if ids != [] && AllPresent(ids) {
      var a := Decide(m);
      forall i | 0 <= i < |ids| ensures Some(a.tabIds[i]) == ids[i] {
        assert items[i] == Num(a.tabIds[i]);
      }
    }
  }

  /** A row's close button closes exactly that tab. */
  lemma DecideCloseTab(t: Tab)
    ensures Decide(CloseTabMessage(t)) == if t.id.Some? then CloseAll([t.id.value]) else Drop(InvalidTabIds)
  {
    DecideCloseTabsMessage([t.id]);
    if t.id.Some? {
      assert Decide(CloseTabMessage(t)).tabIds == [t.id.value];
    } else {
      var ids := [t.id];
      assert ids[0].None?;
    }
  }

  /** "Close All" closes every member of the group, in member order. */
  lemma DecideCloseAll(g: Group)
    requires g.members != [] && HaveIds(g.members)
    ensures Decide(CloseAllMessage(g)).CloseAll?
    ensures |Decide(CloseAllMessage(g)).tabIds| == |g.members|
    ensures forall i :: 0 <= i < |g.members| ==> Some(Decide(CloseAllMessage(g)).tabIds[i]) == g.members[i].id
  {
    DecideCloseTabsMessage(Ids(g.members));
  }

  /**
   * "Close All but one" closes every member but the first in member (scan) order, which is
   * kept open; for a group of one there is nothing to close.
   */
  lemma DecideCloseAllButOne(g: Group)
    requires g.members != [] && HaveIds(g.members)
    ensures |g.members| == 1 ==> Decide(CloseAllButOneMessage(g)) == Drop(NothingToClose)
    ensures |g.members| > 1 ==>
      Decide(CloseAllButOneMessage(g)).CloseAll? &&
      |Decide(CloseAllButOneMessage(g)).tabIds| == |g.members| - 1 &&
      forall i :: 0 <= i < |g.members| - 1 ==> Some(Decide(CloseAllButOneMessage(g)).tabIds[i]) == g.members[i + 1].id
  {
    var ids := DropFirst(Ids(g.members));
    assert |ids| == |g.members| - 1;
    assert forall i :: 0 <= i < |ids| ==> ids[i] == g.members[i + 1].id;
    DecideCloseTabsMessage(ids);
  }

  /** "Close filtered" sends nothing for an empty list and otherwise closes every filtered tab. */
  lemma DecideCloseFiltered(filtered: seq<Tab>)
    requires HaveIds(filtered)
    ensures CloseFilteredMessage(filtered).None? <==> filtered == []
    ensures filtered != [] ==>
      var a := Decide(CloseFilteredMessage(filtered).value);
      a.CloseAll? && |a.tabIds| == |filtered| && forall i :: 0 <= i < |filtered| ==> Some(a.tabIds[i]) == filtered[i].id
  {
    DecideCloseTabsMessage(Ids(filtered));
  }

  // ---------------------------------------------------------------- copy as markdown

  /** `- [${tab.title ?? 'Title'}](${tab.url ?? 'url'})`. */
  function CopyLine(t: Tab): (line: string)
    ensures StartsWith(line, "- [") && line[|line| - 1] == ')'
  {
    "- [" + t.title.GetOr("Title") + "](" + t.url.GetOr("url") + ")"
  }

  /** The markdown list line by line, `\n`-joined; nothing is copied for an empty list. */
  function CopyText(filtered: seq<Tab>): (r: Option<string>)
    ensures r.None? <==> filtered == []
  {
    if |filtered| == 0 then None
    else Some(JoinLines(seq(|filtered|, i requires 0 <= i < |filtered| => CopyLine(filtered[i]))))
  }

  /** A line holds the title and the url at fixed offsets. */
  lemma CopyLineFields(t: Tab)
    ensures var title, url := t.title.GetOr("Title"), t.url.GetOr("url");
      var line := CopyLine(t);
      |line| == |title| + |url| + 6 &&
      line[3..3 + |title|] == title && line[3 + |title|..5 + |title|] == "](" &&
      line[5 + |title|..|line| - 1] == url
  {
  }

  /** Splitting the copied text at line breaks gives back one line per tab, in order. */
  lemma CopyTextLines(filtered: seq<Tab>)
    requires filtered != []
    requires forall i :: 0 <= i < |filtered| ==>
      NoNewline(filtered[i].title.GetOr("Title")) && NoNewline(filtered[i].url.GetOr("url"))
    ensures var lines := SplitLines(CopyText(filtered).value);
      |lines| == |filtered| && forall i :: 0 <= i < |filtered| ==> lines[i] == CopyLine(filtered[i])
  {
    var lines := seq(|filtered|, i requires 0 <= i < |filtered| => CopyLine(filtered[i]));
    forall i | 0 <= i < |lines| ensures NoNewline(lines[i]) {
      var t := filtered[i];
      assert lines[i] == "- [" + t.title.GetOr("Title") + "](" + t.url.GetOr("url") + ")";
    }
    SplitJoin(lines);
  }
}
