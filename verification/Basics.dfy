/** Two notions that several parts of the model share. */
module Basics {

  datatype Option<+T> = None | Some(value: T)

  /** Every element of the list is there once. */
  ghost predicate NoRepeats<T>(s: seq<T>) {
    s != [] ==> NoRepeats(s[..|s| - 1]) && s[|s| - 1] !in s[..|s| - 1]
  }

  lemma {:induction false} NoRepeatsAt<T>(s: seq<T>, i: nat)
    requires NoRepeats(s) && i < |s|
    ensures s[i] !in s[..i]
  {
    if i < |s| - 1 {
      NoRepeatsAt(s[..|s| - 1], i);
      assert s[..|s| - 1][..i] == s[..i];
    }
  }

  lemma {:induction false} NoRepeatsConcat<T>(a: seq<T>, b: seq<T>)
    requires NoRepeats(a) && NoRepeats(b) && forall x :: x in a ==> x !in b
    ensures NoRepeats(a + b)
  {
    if b == [] {
      assert a + b == a;
    } else {
      NoRepeatsConcat(a, b[..|b| - 1]);
      assert (a + b)[..|a + b| - 1] == a + b[..|b| - 1];
    }
  }
}
