/** Result types shared by the models, and small facts about sequences. */
module Prelude {

  datatype Option<+T> = None | Some(value: T)

  datatype Result<+T, +E> = Ok(value: T) | Err(error: E)

  /** Moves an offset found in a suffix back to the sequence it was cut from. */
  function Shift(found: Option<nat>, offset: nat): Option<nat> {
    match found
    case None => None
    case Some(k) => Some(offset + k)
  }

  /** The first index of `x` in `s`, or `|s|` when it does not occur. */
  function IndexOf<T(==)>(s: seq<T>, x: T): (k: nat)
    ensures k <= |s|
    ensures x !in s[..k]
    ensures k < |s| ==> s[k] == x
    ensures k == |s| <==> x !in s
  {
    if s == [] || s[0] == x then 0 else
      assert s == [s[0]] + s[1..];
      var rest := IndexOf(s[1..], x);
      assert s[..rest + 1] == [s[0]] + s[1..][..rest];
      rest + 1
  }

  /** The first occurrence is the only index with these two properties. */
  lemma {:induction false} IndexOfUnique<T>(s: seq<T>, x: T, k: nat)
    requires k < |s| && s[k] == x && x !in s[..k]
    ensures IndexOf(s, x) == k
  {
    if k > 0 {
      assert s[0] in s[..k];
      assert s[..k] == [s[0]] + s[1..][..k - 1];
      IndexOfUnique(s[1..], x, k - 1);
    }
  }

  lemma Assoc<T>(a: seq<T>, b: seq<T>, c: seq<T>)
    ensures a + b + c == a + (b + c)
  {
  }

  lemma SplitAt<T>(s: seq<T>, k: nat)
    requires k < |s|
    ensures s == s[..k] + [s[k]] + s[k + 1..]
  {
  }

  lemma Member<T>(s: set<T>) returns (x: T)
    requires s != {}
    ensures x in s
  {
    x :| x in s;
  }

  function Concat<T>(parts: seq<seq<T>>): seq<T> {
    if parts == [] then [] else parts[0] + Concat(parts[1..])
  }

  lemma ConcatSplit<T>(a: seq<seq<T>>, b: seq<seq<T>>)
    ensures Concat(a + b) == Concat(a) + Concat(b)
  {
    if a == [] {
      assert a + b == b;
    } else {
      assert (a + b)[1..] == a[1..] + b;
      ConcatSplit(a[1..], b);
    }
  }

  /** The state after the actions of a run, when every step is possible. */
  function Runs<S, A>(step: (S, A) -> Option<S>, s: S, actions: seq<A>): Option<S>
    decreases |actions|
  {
    if actions == [] then Some(s) else
    match step(s, actions[0])
    case None => None
    case Some(t) => Runs(step, t, actions[1..])
  }

  lemma RunsNone<S, A>(step: (S, A) -> Option<S>, s: S)
    ensures Runs(step, s, []) == Some(s)
  {
  }

  lemma RunsFirst<S, A>(step: (S, A) -> Option<S>, s: S, actions: seq<A>)
    requires actions != []
    ensures Runs(step, s, actions) ==
            match step(s, actions[0]) case None => None case Some(t) => Runs(step, t, actions[1..])
  {
  }

  lemma RunsOne<S, A>(step: (S, A) -> Option<S>, s: S, a: A)
    ensures Runs(step, s, [a]) == step(s, a)
  {
    assert [a][1..] == [];
  }

  lemma {:induction false} RunsAppend<S, A>(step: (S, A) -> Option<S>, s: S, xs: seq<A>, ys: seq<A>)
    ensures Runs(step, s, xs + ys) == match Runs(step, s, xs) case None => None case Some(t) => Runs(step, t, ys)
    decreases |xs|
  {
    if xs == [] {
      assert xs + ys == ys;
    } else {
      assert (xs + ys)[1..] == xs[1..] + ys;
      if step(s, xs[0]).Some? {
        RunsAppend(step, step(s, xs[0]).value, xs[1..], ys);
      }
    }
  }
}
