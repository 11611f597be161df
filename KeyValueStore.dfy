/** The browser's local storage as the services see it: text stored under string
    keys, and list values written as serialized text that may fail to parse back. */
module KeyValueStore {
  import opened Types

  /** Serialization of a list of records (`JSON.stringify`) and parsing it back
      (`JSON.parse`), which fails on text that is not a serialized list. */
  datatype Codec<!T> = Codec(encode: seq<T> -> string, decode: string -> Option<seq<T>>)

  /** What the services rely on from serialization: a written list parses back as
      itself, and its text is never the empty string. */
  ghost predicate RoundTrips<T(!new)>(c: Codec<T>)
  {
    forall xs :: c.decode(c.encode(xs)) == Some(xs) && c.encode(xs) != ""
  }

  /** `localStorage`: one map from key to text, shared by every service. */
  class LocalStore {
    var items: map<string, string>

    constructor ()
      ensures items == map[]
    {
      items := map[];
    }

    /** `getItem`: the text under `key`, or nothing. */
    function GetItem(key: string): (r: Option<string>)
      reads this
      ensures r.Some? <==> key in items
      ensures r.Some? ==> r.value == items[key]
    {
      if key in items then Some(items[key]) else None
    }

    /** `setItem`: replaces the text under `key`. */
    method SetItem(key: string, value: string)
      modifies this
      ensures items == old(items)[key := value]
    {
      items := items[key := value];
    }

    /** `removeItem`: drops `key`; no effect when it is absent. */
    method RemoveItem(key: string)
      modifies this
      ensures items == old(items) - {key}
    {
      items := items - {key};
    }
  }

  /** `text ? JSON.parse(text) : []` inside a `try` whose `catch` returns `[]`:
      missing text, empty text and text that does not parse all read as the empty
      list, and reading never fails. */
  function ReadList<T>(stored: Option<string>, c: Codec<T>): (r: seq<T>)
    ensures stored.None? ==> r == []
    ensures stored.Some? && c.decode(stored.value).None? ==> r == []
    ensures stored.Some? && stored.value != "" && c.decode(stored.value).Some? ==> r == c.decode(stored.value).value
    ensures r == [] || (stored.Some? && c.decode(stored.value) == Some(r))
  {
    match stored
    case None => []
    case Some(text) =>
      if text == "" then []
      else
        match c.decode(text)
        case Some(xs) => xs
        case None => []
  }

  /** A list just written is read back unchanged. */
  lemma ReadWritten<T(!new)>(c: Codec<T>, xs: seq<T>)
    requires RoundTrips(c)
    ensures ReadList(Some(c.encode(xs)), c) == xs
  {
  }
}
