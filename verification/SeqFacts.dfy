/** Lists without duplicates, and facts about editing sequences at the boundary between a finished and
    a pending part. */
module SeqFacts {

  /** The list without the first `x`. */
  function Without<T(==)>(list: seq<T>, x: T): seq<T> {
    if list == [] then []
    else if list[0] == x then list[1..]
    else [list[0]] + Without(list[1..], x)
  }

  predicate NoDuplicates<T(==)>(list: seq<T>) {
    list == [] || (list[0] !in list[1..] && NoDuplicates(list[1..]))
  }

  lemma {:induction false} WithoutIs<T>(list: seq<T>, x: T)
    requires NoDuplicates(list)
    ensures forall y :: y in Without(list, x) <==> y in list && y != x
    ensures NoDuplicates(Without(list, x))
  {
    if list != [] && list[0] != x {
      WithoutIs(list[1..], x);
    }
  }

  lemma {:induction false} WithoutFirst<T>(list: seq<T>, i: nat, x: T)
    requires i < |list| && list[i] == x && x !in list[..i]
    ensures Without(list, x) == list[..i] + list[i + 1..]
  {
    if i > 0 {
      assert list[0] in list[..i];
      assert list[1..][..i - 1] == list[..i][1..];
      WithoutFirst(list[1..], i - 1, x);
    }
  }

  lemma {:induction false} WithoutNone<T>(list: seq<T>, x: T)
    requires x !in list
    ensures Without(list, x) == list
  {
    if list != [] {
      WithoutNone(list[1..], x);
    }
  }

  lemma DropFirst<T>(done: seq<T>, rest: seq<T>)
    requires rest != []
    ensures (done + rest)[..|done|] + (done + rest)[|done| + 1..] == done + rest[1..]
  {
  }

  lemma ReplaceFirst<T>(done: seq<T>, rest: seq<T>, x: T)
    requires rest != []
    ensures (done + rest)[|done| := x] == done + [x] + rest[1..]
  {
  }

  lemma TakeNext<T>(s: seq<T>, i: nat)
    requires i < |s|
    ensures s[..i] + [s[i]] == s[..i + 1]
    ensures s[i..][1..] == s[i + 1..]
    ensures s[i..] == [s[i]] + s[i + 1..]
  {
  }
}
