/**
 * The data exchanged between the popup and the background: the browser's tab record,
 * the untyped message values the background receives, and the typed responses of
 * `src/types.ts`.
 */
module Protocol {
  import opened Wrappers

  /**
   * A tab as the host reports it. Optional fields are `Option`s; the optional booleans
   * (`discarded`, `audible`, `isArticle`, `mutedInfo.muted`) behave as `false` when absent
   * in every test the core makes, so they are plain booleans here.
   */
  datatype Tab = Tab(
    id: Option<int>,
    url: Option<string>,
    title: Option<string>,
    windowId: Option<int>,
    pinned: bool,
    active: bool,
    discarded: bool,
    audible: bool,
    muted: bool,
    isArticle: bool,
    lastAccessed: Option<int>)

  /** A structured-clone value as a message listener receives it; numbers are integers. */
  datatype Value =
    | Undefined
    | Null
    | Bool(b: bool)
    | Num(n: int)
    | Str(s: string)
    | Arr(items: seq<Value>)
    | Obj(fields: map<string, Value>)

  /** `v?.[name]`: a property of an object, `undefined` for a missing one or a non-object. */
  function Get(v: Value, name: string): (r: Value)
    ensures !v.Obj? ==> r == Undefined
  {
    if v.Obj? && name in v.fields then v.fields[name] else Undefined
  }

  /** JavaScript truthiness: `undefined`, `null`, `false`, `0` and `""` are falsy. */
  predicate Truthy(v: Value) {
    match v
    case Undefined => false
    case Null => false
    case Bool(b) => b
    case Num(n) => n != 0
    case Str(s) => s != ""
    case Arr(_) => true
    case Obj(_) => true
  }

  /** `MessageType`, the `type` strings of `src/types.ts` (which leaves out `"openTab"`). */
  datatype MessageType = GetTabs | CloseTabs | Tabs | ClosedTabs | Success

  /** The `data` of a response: a tab list or a flag. */
  datatype Payload = TabList(tabs: seq<Tab>) | Flag(flag: bool)

  /** `ResponseType<T>`: a type, its data and an optional error text. */
  datatype Response = Response(kind: MessageType, data: Payload, error: Option<string>)
}
