/** Finite sets of packet numbers. */
module Counting {

  function UpTo(n: nat): (all: set<nat>)
    ensures |all| == n && forall i :: i in all <==> 0 <= i < n
  {
    if n == 0 then {} else UpTo(n - 1) + {n - 1}
  }

  lemma {:induction false} SubsetSize<T>(a: set<T>, b: set<T>)
    requires a <= b
    ensures |a| <= |b| && (|a| == |b| <==> a == b)
    decreases |a|
  {
    if a == {} {
      assert |b| == 0 <==> b == {};
    } else {
      var x :| x in a;
      assert a == (a - {x}) + {x} && b == (b - {x}) + {x};
      SubsetSize(a - {x}, b - {x});
    }
  }
}
