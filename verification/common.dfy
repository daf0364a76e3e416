/** Vocabulary shared by the enumerator, the scheduler and the reporter. */
module Common {

  datatype Option<+T> = None | Some(value: T)

  /** A computation that either produced a value or raised an error. */
  datatype Result<+T, +E> = Success(value: T) | Failure(error: E)

  /** A chunk coordinate, the `[$x, $z]` pair the enumerator yields. */
  datatype Point = Point(x: int, z: int)

  /** The `InvalidArgumentException`s of the core, one per validation. */
  datatype ArgError =
    | XRange(x1: int, x2: int)    // x2 must be >= x1
    | ZRange(z1: int, z2: int)    // z2 must be >= z1
    | BatchSize(nBatch: int)      // n_batch must be > 0

  /** A progress value yielded by the scheduler: `[completed, count(failed), count]`. */
  datatype Snapshot = Snapshot(completed: int, failed: int, count: int)

  /** How the scheduler's generator ends, seen from the traverser that drives it. */
  datatype End =
    | Exhausted              // the generator returned
    | Threw(error: ArgError) // the generator raised a validation error
    | Blocked                // the generator waits on its channel for a completion that never comes

  /** Everything the scheduler yields, in order, and how it ends. */
  datatype Run = Run(values: seq<Snapshot>, end: End)

  /** No element occurs twice. */
  predicate Distinct<T(==)>(s: seq<T>) {
    forall i, j :: 0 <= i < j < |s| ==> s[i] != s[j]
  }

  function Min(a: int, b: int): int {
    if a <= b then a else b
  }

  /** Concatenating two distinct sequences with no common element gives a distinct sequence. */
  lemma DistinctConcat<T>(a: seq<T>, b: seq<T>)
    requires Distinct(a) && Distinct(b)
    requires forall p :: p in a ==> p !in b
    ensures Distinct(a + b)
  {
    forall i, j | 0 <= i < j < |a + b|
      ensures (a + b)[i] != (a + b)[j]
    {
      if j < |a| {
      } else if i < |a| {
        assert (a + b)[i] in a;
        assert (a + b)[j] == b[j - |a|];
      } else {
        assert (a + b)[i] == b[i - |a|];
      }
    }
  }

  /** In a distinct sequence every member occurs exactly once. */
  lemma {:induction false} DistinctMultiplicity<T>(s: seq<T>, p: T)
    requires Distinct(s)
    ensures multiset(s)[p] == if p in s then 1 else 0
  {
    if |s| > 0 {
      assert s == [s[0]] + s[1..];
      assert Distinct(s[1..]) by {
        forall i, j | 0 <= i < j < |s[1..]| ensures s[1..][i] != s[1..][j] {
          assert s[1..][i] == s[i + 1] && s[1..][j] == s[j + 1];
        }
      }
      DistinctMultiplicity(s[1..], p);
      assert s[0] !in s[1..] by {
        forall k | 0 <= k < |s[1..]| ensures s[1..][k] != s[0] {
          assert s[1..][k] == s[k + 1];
        }
      }
      assert multiset(s) == multiset{s[0]} + multiset(s[1..]);
    }
  }

  /** Two distinct sequences with the same members are permutations of each other. */
  lemma SameMembersPermutation<T>(a: seq<T>, b: seq<T>)
    requires Distinct(a) && Distinct(b)
    requires forall p :: p in a <==> p in b
    ensures multiset(a) == multiset(b)
    ensures |a| == |b|
  {
    forall p
      ensures multiset(a)[p] == multiset(b)[p]
    {
      DistinctMultiplicity(a, p);
      DistinctMultiplicity(b, p);
    }
    assert multiset(a) == multiset(b);
    assert |multiset(a)| == |a| && |multiset(b)| == |b|;
  }
}
