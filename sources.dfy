/** Pull-based sources of elements, as `allthesame` consumes them: a series is
    read once, left to right, through an iterator that either yields the next
    element or signals exhaustion. */
module Sources {

  datatype Option<T> = None | Some(value: T)

  /** The logical contents of an iterable: a finite series (a tuple or a
      string) or an infinite one (a generator that never stops), given by the
      element it produces at each index. */
  datatype Series<T> = Finite(elems: seq<T>) | Infinite(gen: nat -> T)
  {
    /** Whether the series produces an element at index `i`. */
    predicate Has(i: nat) {
      Finite? ==> i < |elems|
    }

    /** The element produced at index `i`. */
    function At(i: nat): T
      requires Has(i)
    {
      if Finite? then elems[i] else gen(i)
    }
  }

  /** An iterator over a series. The series itself is a constant: pulling
      only advances the cursor `pos`, the number of elements pulled so far. */
  class Iterator<T> {
    const data: Series<T>
    var pos: nat

    ghost predicate Valid()
      reads this
    {
      data.Finite? ==> pos <= |data.elems|
    }

    /** Whether every element has been pulled. */
    ghost predicate Exhausted()
      reads this
    {
      !data.Has(pos)
    }

    /** `iterable.__iter__()` on a container: a fresh cursor at the start. */
    constructor (data: Series<T>)
      ensures Valid() && this.data == data && pos == 0
    {
      this.data := data;
      pos := 0;
    }

    /** `next(iterator)`: the element at the cursor, or `None` in place of
        `StopIteration` once the series is exhausted (and on every later
        call, the cursor staying where it is). */
    method Next() returns (o: Option<T>)
      requires Valid()
      modifies this`pos
      ensures Valid()
      ensures old(data.Has(pos)) ==> o == Some(data.At(old(pos))) && pos == old(pos) + 1
      ensures !old(data.Has(pos)) ==> o == None && pos == old(pos)
    {
      if data.Has(pos) {
        o := Some(data.At(pos));
        pos := pos + 1;
      } else {
        o := None;
      }
    }
  }
}
