// What several components share: optional values, the ends of a sequence, no repetition.

module Common {
  datatype Option<+T> = None | Some(value: T) {
    /** The value that was there first. */
    function Or(other: Option<T>): Option<T> {
      if Some? then this else other
    }
  }

  function Last<T>(xs: seq<T>): T
    requires xs != []
  {
    xs[|xs| - 1]
  }

  function Init<T>(xs: seq<T>): seq<T>
    requires xs != []
  {
    xs[..|xs| - 1]
  }

  ghost predicate Distinct<T>(xs: seq<T>) {
    forall i, j | 0 <= i < j < |xs| :: xs[i] != xs[j]
  }
}
