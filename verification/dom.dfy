/**
 The rendered page as plain values. Every awaited browser call the crawler
 makes (query a selector, read inner text, read an attribute, click, wait)
 either answers or raises; the model records only which, and the answer.
 */
module Dom {

  datatype Option<+T> = None | Some(value: T)

  /** The outcome of one awaited browser call: its value, or an exception it raised. */
  datatype Fetch<+T> = Got(value: T) | Raised

  /** Python truthiness of an optional string: present and non-empty. */
  predicate Truthy(s: Option<string>) {
    s.Some? && s.value != ""
  }

  /** The attributes of a matched element, by name. */
  type Attrs = map<string, string>

  /** `element.get_attribute(name)`: the value, or None when the element has no such attribute. */
  function Attribute(attrs: Attrs, name: string): Option<string> {
    if name in attrs then Some(attrs[name]) else None
  }

  /** The sentinel the crawler stores for text whose element is missing. */
  const Unknown := "Unknown"

  /** `elem.inner_text() if elem else "Unknown"`. */
  function TextOrUnknown(text: Option<string>): string {
    if text.Some? then text.value else Unknown
  }

  /**
   A loop that reads every element in turn and lets the first exception
   escape: all the values when no read raises, `Raised` otherwise.
   */
  function AllGot<T>(calls: seq<Fetch<T>>): (r: Fetch<seq<T>>)
    ensures r.Got? <==> forall j :: 0 <= j < |calls| ==> calls[j].Got?
    ensures r.Got? ==> |r.value| == |calls| && forall j :: 0 <= j < |calls| ==> r.value[j] == calls[j].value
  {
    if calls == [] then Got([])
    else match calls[0]
      case Raised => Raised
      case Got(x) =>
        match AllGot(calls[1..])
        case Raised => Raised
        case Got(xs) => Got([x] + xs)
  }
}
