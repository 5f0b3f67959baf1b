/** Following a partial successor function: chains that end, and chains that come back. */
module Chains {
  import opened Options

  /** The element after `n` steps, if the chain is that long. */
  ghost function Steps<T>(next: T -> Option<T>, x: T, n: nat): Option<T> {
    if n == 0 then Some(x)
    else
      match Steps(next, x, n - 1)
      case None => None
      case Some(y) => next(y)
  }

  /** The chain from `x` ends at `y` after `n` steps. */
  ghost predicate EndsIn<T(!new)>(next: T -> Option<T>, x: T, n: nat, y: T) {
    Steps(next, x, n) == Some(y) && next(y) == None
  }

  lemma {:induction false} StepsAdd<T>(next: T -> Option<T>, x: T, m: nat, n: nat)
    ensures Steps(next, x, m + n) ==
            match Steps(next, x, m) case None => None case Some(y) => Steps(next, y, n)
  {
    if n > 0 {
      StepsAdd(next, x, m, n - 1);
      assert m + n - 1 == m + (n - 1);
    }
  }

  lemma PastTheEnd<T(!new)>(next: T -> Option<T>, x: T, n: nat, y: T, m: nat)
    requires EndsIn(next, x, n, y)
    ensures Steps(next, x, m).Some? <==> m <= n
  {
    if m > n {
      StepsAdd(next, x, n + 1, m - n - 1);
    } else {
      StepsAdd(next, x, m, n - m);
    }
  }

  /** A chain has at most one end. */
  lemma EndIsUnique<T(!new)>(next: T -> Option<T>, x: T, n: nat, y: T, m: nat, z: T)
    requires EndsIn(next, x, n, y) && EndsIn(next, x, m, z)
    ensures n == m && y == z
  {
    PastTheEnd(next, x, n, y, m);
    PastTheEnd(next, x, m, z, n);
  }

  /** A chain that ends never visits an element twice. */
  lemma EndingChainNeverRevisits<T(!new)>(next: T -> Option<T>, x: T, n: nat, y: T, i: nat, j: nat)
    requires EndsIn(next, x, n, y) && i < j <= n
    ensures Steps(next, x, i) != Steps(next, x, j)
  {
    PastTheEnd(next, x, n, y, i);
    PastTheEnd(next, x, n, y, j);
    if Steps(next, x, i) == Steps(next, x, j) {
      // From either visit the rest of the chain is the same, so it would end earlier too.
      var z := Steps(next, x, i).value;
      StepsAdd(next, x, j, n - j);
      StepsAdd(next, x, i, n - j);
      EndIsUnique(next, x, n, y, i + (n - j), y);
    }
  }
}
