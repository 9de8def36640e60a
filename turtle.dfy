/** The turtle colours of the web client (web/app/helpers/turtle.ts): the fixed list
    `turtles` and the type guard `isTurtle`, modelled as decoding a string into the
    `Turtle` type. */
module Turtles {

  datatype Option<T> = None | Some(value: T)

  /** The five pieces; the client's `Turtle` type is the union of their names. */
  datatype Turtle = Blue | Red | Green | Purple | Yellow

  /** The wire name of each turtle. */
  function Name(t: Turtle): string
  {
    match t
    case Blue => "blue"
    case Red => "red"
    case Green => "green"
    case Purple => "purple"
    case Yellow => "yellow"
  }

  /** `turtles`: the five names, in the order the client lists them. */
  const TurtleNames: seq<string> := ["blue", "red", "green", "purple", "yellow"]

  /** `turtles` lists every turtle exactly once, in the order blue, red, green,
      purple, yellow. */
  lemma TurtleNamesListEachTurtleOnce()
    ensures |TurtleNames| == 5
    ensures TurtleNames == [Name(Blue), Name(Red), Name(Green), Name(Purple), Name(Yellow)]
    ensures forall i, j :: 0 <= i < j < |TurtleNames| ==> TurtleNames[i] != TurtleNames[j]
  {
  }

  /** `isTurtle(s)`: `turtles.includes(s)`, an exact string comparison. */
  function IsTurtle(s: string): (b: bool)
    ensures b <==> s == "blue" || s == "red" || s == "green" || s == "purple" || s == "yellow"
  {
    s in TurtleNames
  }

  /** The type guard as a decoder: the turtle a string names, if any. */
  function Parse(s: string): (r: Option<Turtle>)
    ensures r.Some? <==> IsTurtle(s)
    ensures r.Some? ==> Name(r.value) == s
  {
    if s == "blue" then Some(Blue)
    else if s == "red" then Some(Red)
    else if s == "green" then Some(Green)
    else if s == "purple" then Some(Purple)
    else if s == "yellow" then Some(Yellow)
    else None
  }

  /** Decoding the name of a turtle gives that turtle back: names are distinct. */
  lemma ParseName(t: Turtle)
    ensures Parse(Name(t)) == Some(t)
  {
  }

  /** The guard accepts exactly the names of turtles: it is the type guard of the
      `Turtle` union. */
  lemma IsTurtleExactlyNames(s: string)
    ensures IsTurtle(s) <==> exists t :: Name(t) == s
  {
    if IsTurtle(s) {
      ParseName(Parse(s).value);
    } else {
      forall t ensures Name(t) != s {
        ParseName(t);
      }
    }
  }

  /** Every entry of `turtles` passes the guard. */
  lemma EveryListedNameIsTurtle()
    ensures forall i :: 0 <= i < |TurtleNames| ==> IsTurtle(TurtleNames[i])
  {
  }

  /** Matching is case- and content-exact. */
  lemma NearMissesAreRejected()
    ensures !IsTurtle("Red") && !IsTurtle("") && !IsTurtle("any") && !IsTurtle("blue ")
  {
  }
}
