/** The few JavaScript value conventions the table and the preview rely on:
    optional fields, the nullish-coalescing operator `??`, truthiness of
    strings with the `||` operator, and how a template literal prints an
    absent value. */
module Js {

  /** An optional field of a content-store document: `None` is `undefined`
      (or `null`), `Some(v)` a present value. Under `??` and `||` the two
      behave alike; inside a template literal a `null` would print as `null`,
      which is not modelled. */
  datatype Option<+T> = None | Some(value: T)

  /** `o ?? d`: only a missing value is replaced; a present one, even an
      empty string, is kept. */
  function Coalesce<T>(o: Option<T>, d: T): (r: T)
    ensures r == d || Some(r) == o
  {
    match o
    case Some(v) => v
    case None => d
  }

  /** A string value is truthy when it is present and not the empty string. */
  predicate Truthy(o: Option<string>)
  {
    o.Some? && o.value != ""
  }

  /** `o || d` on an optional string: every falsy value is replaced. */
  function Or(o: Option<string>, d: string): (r: string)
    ensures r == d || Some(r) == o
    ensures d != "" ==> r != ""
  {
    if Truthy(o) then o.value else d
  }

  /** `${o}` inside a template literal: an absent value prints as the text
      `undefined`. */
  function Interpolate(o: Option<string>): (r: string)
    ensures r == "undefined" || Some(r) == o
    ensures r == "undefined" <==> o.None? || o == Some("undefined")
  {
    Coalesce(o, "undefined")
  }

  /** `??` shows its default exactly when the value is missing or is itself
      the default: a present empty string is kept. */
  lemma CoalesceShowsDefault(o: Option<string>, d: string)
    ensures Coalesce(o, d) == d <==> o.None? || o == Some(d)
    ensures o == Some("") ==> Coalesce(o, d) == ""
  {
  }

  /** `||` and `??` differ on one value only: a present empty string, which
      `||` replaces by the default and `??` keeps. */
  lemma OrVersusCoalesce(o: Option<string>, d: string)
    ensures Or(o, d) == if o == Some("") then d else Coalesce(o, d)
    ensures d != "" ==> Or(o, d) != ""
  {
  }

  /** A template literal prints `undefined` exactly for an absent value or
      for that very text; otherwise it prints the value itself. */
  lemma InterpolateUndefined(o: Option<string>)
    ensures Interpolate(o) == "undefined" <==> o.None? || o == Some("undefined")
    ensures o.Some? ==> Interpolate(o) == Coalesce(o, "")
  {
  }
}
