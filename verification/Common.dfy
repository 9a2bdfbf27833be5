/** A few facts that several modules need. */
module Common {

  function Pow2(n: nat): (r: nat)
    ensures r > 0
  {
    if n == 0 then 1 else 2 * Pow2(n - 1)
  }

  lemma AppendTwice<T>(a: seq<T>, b: seq<T>, c: seq<T>)
    ensures a + b + c == a + (b + c)
  {
  }

  /** The descriptors a program has open, and what each of them holds. */
  class Descriptors<T> {
    var held: map<nat, T>
    var next: nat

    ghost predicate Valid()
      reads this
    {
      forall fd :: fd in held ==> fd < next
    }

    constructor ()
      ensures Valid() && held == map[]
    {
      held, next := map[], 0;
    }

    method Open(what: T) returns (fd: nat)
      requires Valid()
      modifies this
      ensures Valid() && fd !in old(held) && held == old(held)[fd := what]
    {
      fd := next;
      held, next := held[fd := what], next + 1;
    }

    method Close(fd: nat)
      requires Valid() && fd in held
      modifies this
      ensures Valid() && held == old(held) - {fd}
    {
      held := held - {fd};
    }
  }
}
