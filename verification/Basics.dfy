/** What several components share: optional values, bytes, lists without duplicates. */
module Basics {

  datatype Option<+T> = None | Some(value: T) {
    predicate IsFailure() { None? }

    function PropagateFailure<U>(): Option<U>
      requires None?
    {
      None
    }

    function Extract(): T
      requires Some?
    {
      value
    }
  }

  newtype Byte = b: int | 0 <= b < 256

  function Min(a: nat, b: nat): nat {
    if a < b then a else b
  }

  ghost predicate NoDup<T>(s: seq<T>) {
    forall i, j :: 0 <= i < j < |s| ==> s[i] != s[j]
  }

  /** The list with the elements of `drop` taken out */
  function Without<T(==, !new)>(list: seq<T>, drop: set<T>): (r: seq<T>)
    ensures forall x :: x in r <==> x in list && x !in drop
  {
    if list == [] then [] else (if list[0] in drop then [] else [list[0]]) + Without(list[1..], drop)
  }

  lemma {:induction false} WithoutNoDup<T(!new)>(list: seq<T>, drop: set<T>)
    requires NoDup(list)
    ensures NoDup(Without(list, drop))
  {
    if list != [] {
      assert forall x :: x in list[1..] ==> x != list[0];
      WithoutNoDup(list[1..], drop);
    }
  }

  lemma {:induction false} WithoutNone<T(!new)>(list: seq<T>, drop: set<T>)
    requires forall x :: x in list ==> x !in drop
    ensures Without(list, drop) == list
  {
    if list != [] {
      WithoutNone(list[1..], drop);
    }
  }

  lemma WithoutFirst<T(!new)>(list: seq<T>)
    requires NoDup(list) && list != []
    ensures Without(list, {list[0]}) == list[1..]
  {
    WithoutNone(list[1..], {list[0]});
  }
}
