/** Datatypes shared by the models. */
module Common {

  datatype Option<+T> = None | Some(value: T)

  datatype Result<+T, +E> = Ok(value: T) | Err(error: E)

  function Least(a: nat, b: nat): nat {
    if a < b then a else b
  }

  lemma Regroup<T>(a: seq<T>, b: seq<T>, c: seq<T>)
    ensures (a + b) + c == a + (b + c)
  {
  }

  /** Where the first element of a list with a mark in it stands. */
  lemma FirstOfMarked<T>(first: T, rest: seq<T>, a: seq<T>, mark: T, b: seq<T>)
    requires [first] + rest == a + [mark] + b
    ensures a == [] ==> first == mark && rest == b
    ensures a != [] ==> a == [first] + a[1..] && rest == a[1..] + [mark] + b
  {
    var all := [first] + rest;
    assert all[0] == first && all[1..] == rest;
    if a == [] {
      assert a + [mark] + b == [mark] + b;
    } else {
      assert all[0] == a[0] && (a + [mark] + b)[1..] == a[1..] + [mark] + b;
    }
  }
}
