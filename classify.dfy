/**
 * `entrypoints/popup/App.tsx`, the classification side: the text filter over the cached
 * snapshot and the table of classifiers (`groupBy`), each a key function on tabs with an
 * optional filter on the groups it forms.
 */
module Classify {
  import opened Wrappers
  import opened JsString
  import opened Seqs
  import opened Protocol

  // ---------------------------------------------------------------- text filter

  /** A tab matches a query when its lower-cased title or url contains the lower-cased query. */
  predicate Matches(t: Tab, query: string) {
    (t.title.Some? && Includes(ToLower(t.title.value), ToLower(query))) ||
    (t.url.Some? && Includes(ToLower(t.url.value), ToLower(query)))
  }

  /**
   * `filtered()`: `snapshot` is the fetched tab list (`None` while it is not loaded),
   * `query` the filter text.
   */
  function Filtered(snapshot: Option<seq<Tab>>, query: string): seq<Tab> {
    if query == "" then snapshot.GetOr([])
    else if snapshot.None? then []
    else Keep(snapshot.value, t => Matches(t, query))
  }

  /** An empty query shows the snapshot as it is, or nothing before it is loaded. */
  lemma FilteredEmptyQuery(snapshot: Option<seq<Tab>>)
    ensures Filtered(snapshot, "") == if snapshot.Some? then snapshot.value else []
  {
  }

  /**
   * A non-empty query keeps, in snapshot order, exactly the tabs whose lower-cased title or
   * url contains the lower-cased query.
   */
  lemma FilteredSpec(snapshot: seq<Tab>, query: string)
    requires query != ""
    ensures IsSubseq(Filtered(Some(snapshot), query), snapshot)
    ensures forall t :: t in Filtered(Some(snapshot), query) <==> t in snapshot && Matches(t, query)
    ensures forall t ::
      multiset(Filtered(Some(snapshot), query))[t] == (if Matches(t, query) then multiset(snapshot)[t] else 0)
    ensures Filtered(None, query) == []
  {
    var p := t => Matches(t, query);
    KeepIsSubseq(snapshot, p);
    KeepCount(snapshot, p);
    forall t ensures t in Keep(snapshot, p) <==> t in snapshot && p(t) {
      KeepMember(snapshot, p, t);
    }
  }

  /** Filtering the filtered list again with the same query changes nothing. */
  lemma FilteredIdempotent(snapshot: Option<seq<Tab>>, query: string)
    ensures Filtered(Some(Filtered(snapshot, query)), query) == Filtered(snapshot, query)
  {
    if query != "" && snapshot.Some? {
      KeepIdempotent(snapshot.value, t => Matches(t, query));
    }
  }

  /** The query's letter case does not matter. */
  lemma FilteredIgnoresCase(snapshot: Option<seq<Tab>>, query: string)
    ensures Filtered(snapshot, ToLower(query)) == Filtered(snapshot, query)
  {
    ToLowerIdempotent(query);
    if query != "" && snapshot.Some? {
      KeepCongruent(snapshot.value, t => Matches(t, ToLower(query)), t => Matches(t, query));
    }
  }

  // ---------------------------------------------------------------- classifiers

  /** The entries of the `groupBy` table. */
  datatype Classifier = Domain | Window | Article | Pinned | Active | Time | Audio | Duplicate

  /** The `type` string naming each classifier. */
  function Name(c: Classifier): string {
    match c
    case Domain => "domain"
    case Window => "window"
    case Article => "article"
    case Pinned => "pinned"
    case Active => "active"
    case Time => "time"
    case Audio => "audio"
    case Duplicate => "duplicate"
  }

  /** `groupBy.find(group => group.type === name)`. */
  function Lookup(name: string): (r: Option<Classifier>)
    ensures r.Some? ==> Name(r.value) == name
  {
    if name == "domain" then Some(Domain)
    else if name == "window" then Some(Window)
    else if name == "article" then Some(Article)
    else if name == "pinned" then Some(Pinned)
    else if name == "active" then Some(Active)
    else if name == "time" then Some(Time)
    else if name == "audio" then Some(Audio)
    else if name == "duplicate" then Some(Duplicate)
    else None
  }

  /** Every classifier is found under its own name, and under no other. */
  lemma LookupName(c: Classifier, name: string)
    ensures Lookup(Name(c)) == Some(c)
    ensures Lookup(name) == Some(c) <==> name == Name(c)
  {
  }

  /**
   * The host-side services the key functions call and that are not modelled here:
   * `new URL(url).hostname`, and for a `lastAccessed` time stamp the zero-based month and
   * the year `new Date(...)` gives in the local time zone (`None` for an invalid date).
   */
  datatype Env = Env(hostname: string -> string, monthYear: int -> Option<(int, int)>)

  /** `groupKey` of each classifier. */
  function GroupKey(c: Classifier, env: Env, t: Tab): string {
    match c
    case Domain => if t.url.None? || t.url.value == "" then "No URL" else env.hostname(t.url.value)
    case Window => if t.windowId.Some? then IntToString(t.windowId.value) else "No Window"
    case Article => if t.isArticle then "Article" else "Not Article"
    case Pinned => if t.pinned then "Pinned" else "Unpinned"
    case Active => if t.active || !t.discarded then "Active" else "Inactive"
    case Time =>
      var date := if t.lastAccessed.Some? then env.monthYear(t.lastAccessed.value) else None;
      if date.Some? then IntToString(date.value.0) + "-" + IntToString(date.value.1) else "NaN-NaN"
    case Audio => if t.muted then "Muted" else if t.audible then "Audible" else "Silent"
    case Duplicate => t.url.GetOr("No URL")
  }

  /** Only the duplicate classifier has a `groupFilter`. */
  predicate HasGroupFilter(c: Classifier) { c == Duplicate }

  /** `groupFilter` of the duplicate classifier: a group of one tab is no duplicate. */
  predicate GroupFilter(key: string, members: seq<Tab>) { |members| > 1 }

  /** The labels each classifier gives, as the table defines them. */
  lemma ClassifierLabels(env: Env, t: Tab)
    ensures GroupKey(Active, env, t) == "Active" <==> t.active || !t.discarded
    ensures GroupKey(Active, env, t) in {"Active", "Inactive"}
    ensures GroupKey(Audio, env, t) == (if t.muted then "Muted" else if t.audible then "Audible" else "Silent")
    ensures GroupKey(Pinned, env, t) == (if t.pinned then "Pinned" else "Unpinned")
    ensures GroupKey(Article, env, t) == (if t.isArticle then "Article" else "Not Article")
    ensures t.url.None? ==> GroupKey(Domain, env, t) == "No URL" && GroupKey(Duplicate, env, t) == "No URL"
    ensures t.url.Some? ==> GroupKey(Duplicate, env, t) == t.url.value
    ensures t.windowId.None? ==> GroupKey(Window, env, t) == "No Window"
  {
  }

  /** Two tabs share a window group exactly when they have the same window id (or both none). */
  lemma WindowKeyInjective(env: Env, t: Tab, u: Tab)
    ensures GroupKey(Window, env, t) == GroupKey(Window, env, u) <==> t.windowId == u.windowId
  {
    if t.windowId.Some? {
      IntToStringRoundTrip(t.windowId.value);
    }
    if u.windowId.Some? {
      IntToStringRoundTrip(u.windowId.value);
    }
    if t.windowId.Some? && u.windowId.Some? {
      IntToStringInjective(t.windowId.value, u.windowId.value);
    }
  }
}
