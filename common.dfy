/** Small shared vocabulary: an optional value, a success-or-error result,
    and facts about maps and sequences used by several modules. */
module Common {

  /** A value that may be absent (the role C#'s null plays in the source). */
  datatype Option<+T> = None | Some(value: T)

  /** A computation that either succeeds with a value or fails with an error
      (the role a thrown exception plays in the source). */
  datatype Result<+R, +E> = Success(value: R) | Failure(error: E)

  /** No element occurs twice. */
  predicate NoDuplicates<T(==)>(s: seq<T>)
  {
    forall i, j :: 0 <= i < j < |s| ==> s[i] != s[j]
  }

  /** A set of numbers is empty or has a member (set extensionality, spelled
      out so that an element can be picked from a non-empty set). */
  lemma EmptyOrMember(s: set<int>)
    ensures s == {} || exists x :: x in s
  {
    if forall x :: x !in s {
      assert forall x :: x in s <==> x in {};
    }
  }

  /** Assigning to a key of a map (C# `dict[k] = v`) adds one entry when the
      key is new and keeps the number of entries when it overwrites. */
  lemma UpdateSize<K, V>(m: map<K, V>, k: K, v: V)
    ensures |m[k := v]| == if k in m then |m| else |m| + 1
  {
  }
}
