// Result-like datatypes shared by every module.
module Wrappers {
  datatype Option<+T> = None | Some(value: T)

  datatype Result<+T, +E> = Ok(value: T) | Err(error: E)

  // A check that returns nothing on success.
  datatype Check<+E> = Pass | Fail(error: E)

  // A log after a step that appends an entry when one is due.
  function Noted<T>(log: seq<T>, due: bool, entry: T): seq<T> {
    if due then log + [entry] else log
  }

  function Once(b: bool): nat {
    if b then 1 else 0
  }

  function Mapped<A, B>(xs: seq<A>, f: A -> B): seq<B> {
    seq(|xs|, i requires 0 <= i < |xs| => f(xs[i]))
  }

  // The answers f has for the elements, in order.
  function Collected<A, B>(xs: seq<A>, f: A -> Option<B>): seq<B> {
    if xs == [] then []
    else
      var before, last := Collected(xs[..|xs| - 1], f), f(xs[|xs| - 1]);
      if last.Some? then before + [last.value] else before
  }

  lemma {:induction false} CollectedMembers<A, B>(xs: seq<A>, f: A -> Option<B>, y: B)
    ensures y in Collected(xs, f) <==> exists x :: x in xs && f(x) == Some(y)
  {
    if xs != [] {
      var init, last := xs[..|xs| - 1], xs[|xs| - 1];
      CollectedMembers(init, f, y);
      assert xs == init + [last];
    }
  }

  lemma {:induction false} NothingCollected<A, B>(xs: seq<A>, f: A -> Option<B>)
    ensures Collected(xs, f) == [] <==> forall x :: x in xs ==> f(x).None?
  {
    if xs != [] {
      var init, last := xs[..|xs| - 1], xs[|xs| - 1];
      NothingCollected(init, f);
      assert xs == init + [last];
    }
  }

  // Where the collected answers come from: every place with an answer, in order.
  ghost predicate ComesFrom<A, B>(ys: seq<B>, xs: seq<A>, f: A -> Option<B>, at: seq<nat>) {
    && |at| == |ys|
    && (forall i :: 0 <= i < |at| ==> at[i] < |xs| && f(xs[at[i]]) == Some(ys[i]))
    && (forall i, j :: 0 <= i < j < |at| ==> at[i] < at[j])
    && (forall k: nat :: k < |xs| && f(xs[k]).Some? ==> k in at)
  }

  lemma {:induction false} CollectedInOrder<A, B>(xs: seq<A>, f: A -> Option<B>) returns (at: seq<nat>)
    ensures ComesFrom(Collected(xs, f), xs, f, at)
  {
    at := [];
    if xs != [] {
      var init, last := xs[..|xs| - 1], xs[|xs| - 1];
      at := CollectedInOrder(init, f);
      assert xs == init + [last];
      if f(last).Some? {
        OneMoreAnswer(Collected(init, f), init, f, at, last);
        at := at + [|init|];
      } else {
        NoMoreAnswer(Collected(init, f), init, f, at, last);
      }
    }
  }

  lemma OneMoreAnswer<A, B>(ys: seq<B>, xs: seq<A>, f: A -> Option<B>, at: seq<nat>, x: A)
    requires ComesFrom(ys, xs, f, at) && f(x).Some?
    ensures ComesFrom(ys + [f(x).value], xs + [x], f, at + [|xs|])
  {
    var longer := at + [|xs|];
    forall k: nat | k < |xs| + 1 && f((xs + [x])[k]).Some? ensures k in longer {
      assert k == |xs| ==> longer[|at|] == k;
      assert k < |xs| ==> k in at;
    }
  }

  lemma NoMoreAnswer<A, B>(ys: seq<B>, xs: seq<A>, f: A -> Option<B>, at: seq<nat>, x: A)
    requires ComesFrom(ys, xs, f, at) && f(x).None?
    ensures ComesFrom(ys, xs + [x], f, at)
  {
  }

  lemma {:induction false} FromZero(holds: nat -> bool, n: nat)
    requires holds(0) && forall i: nat :: holds(i) ==> holds(i + 1)
    ensures holds(n)
  {
    if n > 0 {
      FromZero(holds, n - 1);
    }
  }

  // ---------- Multiplicities ----------

  lemma {:induction false} MappedCount<A, B>(xs: seq<A>, f: A -> B, x: A)
    requires forall z :: f(z) == f(x) ==> z == x
    ensures multiset(Mapped(xs, f))[f(x)] == multiset(xs)[x]
  {
    if xs != [] {
      var init, last := xs[..|xs| - 1], xs[|xs| - 1];
      MappedCount(init, f, x);
      assert xs == init + [last] && Mapped(xs, f) == Mapped(init, f) + [f(last)];
    }
  }

  // Where f answers y.
  ghost function Positions<A, B>(xs: seq<A>, f: A -> Option<B>, y: B): set<int> {
    set i | 0 <= i < |xs| && f(xs[i]) == Some(y)
  }

  lemma {:induction false} CollectedCount<A, B>(xs: seq<A>, f: A -> Option<B>, y: B)
    ensures multiset(Collected(xs, f))[y] == |Positions(xs, f, y)|
  {
    if xs != [] {
      var last := |xs| - 1;
      CollectedCount(xs[..last], f, y);
      assert Positions(xs, f, y)
          == Positions(xs[..last], f, y) + if f(xs[last]) == Some(y) then {last} else {};
    }
  }
}
