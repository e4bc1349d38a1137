# allthesame in Dafny

A model of the `allthesame` predicate of py-allthesame. The predicate reads an
iterable once, from left to right. It keeps the first element as the reference
value `x0` and compares every later element with `x0`. It returns `False` at the
first element that differs. It returns `True` when the input runs out, and an
empty input also gives `True`.

- `sources.dfy` (module `Sources`): the iterator protocol. `Series` is the
  logical content of an iterable: a finite sequence (a tuple or a string) or an
  infinite generator, given as a function from index to element. `Iterator` is a
  class with the series as a constant and a cursor `pos` as its only mutable
  field. `Next` models `next()`: it returns `None` where Python raises
  `StopIteration`.
- `uniformity.dfy` (module `Uniformity`): the specification and the predicate.
  `Uniform` is the specification on sequences ("empty, or every element equals
  the first"). Two reference definitions sit beside it: `AllMatch` compares
  against the retained first element, one element at a time, and `Chained`
  compares adjacent elements. `IsMismatch`, `UniformFrom` and `IsFirstMismatch`
  state the same specification on a series read from a given index.
  `AllTheSameFrom` is the loop of the source, with a cursor and `x0`.
  `AllTheSame` is the entry point: it creates a fresh iterator and runs the loop.
- `uniformity_tests.dfy` (module `UniformityTests`): the scenarios of the
  repository's tests, stated as properties of the model.

The input is never changed. A series is a value, and an iterator's series is a
`const`. The only state the loop changes is the iterator's cursor (`modifies
it`pos`).

## Model

| member | source | states |
|---|---|---|
| Uniformity.AllTheSame | allthesame.py:41-49 | the result is true exactly when no element after the first differs from the first; on a finite input, exactly when the sequence is empty or all its elements equal the first |
| Uniformity.AllTheSameFrom | allthesame.py:43-49 | the result is true iff no later element differs from the first one pulled; on true the iterator is exhausted; on false the cursor stands just past the first mismatch, so exactly the elements up to and including it were pulled; only the cursor changes |
| Sources.Iterator.Next | allthesame.py:44-45 | yields the element at the cursor and advances by one, or signals exhaustion (StopIteration) and leaves the cursor where it is |
| Sources.Iterator.constructor | allthesame.py:42 | a fresh iterator over the series starts at index 0 |
| Uniformity.UniformIffAllMatchFirst | allthesame.py:44-47 | keeping the first element and matching each later one against it decides uniformity, both directions |
| Uniformity.AllMatchAll | allthesame.py:45-46 | the element-by-element loop against `x0` accepts exactly when every element equals `x0` |
| Uniformity.ChainedIffUniform | allthesame.py:45-46 | with built-in equality, comparing with the retained first element and comparing with the previous element agree, both directions |
| Uniformity.FiniteUniformFrom | allthesame.py:41-49 | reading a finite sequence from its start, the series specification and the sequence specification agree |
| Uniformity.FirstMismatchUnique | allthesame.py:45-46 | there is at most one first mismatch, so the number of pulled elements on a false result is determined |
| Uniformity.EarliestMismatch | allthesame.py:45-46 | every mismatch is at or after a first mismatch, so a source that ever changes value makes the loop stop |
| Uniformity.UniformStreamPrefixes | allthesame.py:36-38 | on an infinite source that never changes value, no finite prefix holds a mismatch, so the loop never returns false |
| UniformityTests.TuplesAndStrings | allthesame.py:9-17 | (), (3,), (3,3), (3,3,3), (3,3,3,3,3,3), '' and 'wwww' are uniform; (3,4), (3,4,3), (3,3,3,3,3,4) and 'bad' are not |
| UniformityTests.ChangingInfiniteSource | allthesame.py:34 | an infinite source that holds one value for k elements and then changes gives false after pulling exactly k + 1 elements |
| UniformityTests.SameDataSameAnswer | allthesame.py:41-49 | two independent calls on the same data give the same answer, the one `Uniform` gives |

## Left out

- `AllTheSameFrom` and `AllTheSame` require that reading comes to an end (`Terminates`: the input is finite, or it holds an element that differs from the first). On an infinite input that never changes value the source loops forever. The model leaves that case out of the method. `UniformStreamPrefixes` states instead that no finite prefix of such a source ever yields false.
- The test `test_allthesame_nonterminate` (allthesame.py:36-38) is skipped in the repository. It calls `repeat`, which is never imported, so it would raise `NameError` if it ran. It is modelled only by `UniformStreamPrefixes`.
- The generator `intgenerator` (allthesame.py:20-27) counts in floating-point steps of 0.01 and truncates them with `int()`. Floating point is not modelled. `ChangingInfiniteSource` uses an abstract source in its place: 0 below index k and 1 from index k on.
- The `islice` sanity check (allthesame.py:31-32) is not modelled. It checks the floating-point generator and calls a library function.
- The pytest scaffolding (allthesame.py:1-2) is not modelled.
- Python's iterator protocol is reduced to a cursor over a series. `__iter__` on a container becomes a fresh `Iterator` at index 0. `StopIteration` becomes `None`. An iterable whose `__iter__` returns itself, such as a generator, is covered by `AllTheSameFrom`, which starts at the iterator's current cursor.
- Equality is Dafny's built-in equality on an equality-supporting type. User-defined `__eq__`/`__ne__` are not modelled, and neither are exceptions raised by a faulty source, which the source lets propagate.
- Python's `True`/`False` identity checks (`is True`) become Dafny's `bool`, which has no other values.
