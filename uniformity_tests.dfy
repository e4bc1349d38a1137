/** The scenarios the repository's tests exercise, stated as properties of the
    model. */
module UniformityTests {
  import opened Sources
  import opened Uniformity

  /** Tuples and strings: the empty and one-element inputs and the constant
      ones are uniform, and any with a differing element is not. */
  lemma {:induction false} TuplesAndStrings()
    ensures Uniform<int>([]) && Uniform([3]) && Uniform([3, 3]) && Uniform([3, 3, 3])
    ensures Uniform([3, 3, 3, 3, 3, 3])
    ensures !Uniform([3, 4]) && !Uniform([3, 4, 3]) && !Uniform([3, 3, 3, 3, 3, 4])
    ensures Uniform("") && Uniform("wwww") && !Uniform("bad")
  {
    assert [3, 4][1] != [3, 4][0];
    assert [3, 4, 3][1] != [3, 4, 3][0];
    assert [3, 3, 3, 3, 3, 4][5] != [3, 3, 3, 3, 3, 4][0];
    assert "bad"[1] != "bad"[0];
  }

  /** An infinite source holding one value for its first `k` elements and
      another from index `k` on, in place of the generator of the infinite
      test: the call returns `false` having pulled exactly `k + 1` elements. */
  method ChangingInfiniteSource(k: nat) returns (r: bool, pulled: nat)
    requires k > 0
    ensures !r && pulled == k + 1
  {
    var s: Series<int> := Infinite((i: nat) => if i < k then 0 else 1);
    assert IsMismatch(s, 0, k);
    var it := new Iterator(s);
    r := AllTheSameFrom(it);
    pulled := it.pos;
    assert IsFirstMismatch(s, 0, k);
    FirstMismatchUnique(s, 0, k, pulled - 1);
  }

  /** Two independent sources carrying the same data give the same answer. */
  method SameDataSameAnswer<T(==)>(xs: seq<T>) returns (r1: bool, r2: bool)
    ensures r1 == r2 == Uniform(xs)
  {
    r1 := AllTheSame(Finite(xs));
    r2 := AllTheSame(Finite(xs));
  }
}
