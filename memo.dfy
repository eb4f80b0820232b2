/**
 A memoization wrapper: a callable `f` is wrapped together with one table
 that maps argument tuples to results already computed. A call looks the
 tuple up; on a hit it returns the stored value, on a miss it invokes `f`,
 stores a successful result under the tuple and returns it. A failure of `f`
 is handed back to the caller and nothing is stored.

 The wrapped callable is a pure Dafny function (determinism is the accepted
 precondition of memoization), and an exception raised by it is a `Failure`.
 */
module Memo {

  datatype Result<+V, +E> = Success(value: V) | Failure(error: E)

  /** What one call of the wrapper hands back and the table it leaves behind. */
  datatype Outcome<K, V, E> = Outcome(result: Result<V, E>, table: map<K, V>)

  /** What a sequence of calls hands back, the final table, and the keys on which `f` ran. */
  datatype Trace<K, V, E> = Trace(results: seq<Result<V, E>>, table: map<K, V>, invoked: seq<K>)

  /** Every entry of the table is what `f` yields for its key. */
  ghost predicate Coherent<K, V, E>(f: K -> Result<V, E>, table: map<K, V>)
  {
    forall k | k in table :: f(k) == Success(table[k])
  }

  /** The keys on which a call with `args` invokes `f`: none on a hit, `args` on a miss. */
  function Invoked<K, V>(table: map<K, V>, args: K): seq<K>
  {
    if args in table then [] else [args]
  }

  /** One call of the wrapper on the table `table`. */
  function Invoke<K, V, E>(f: K -> Result<V, E>, table: map<K, V>, args: K): (o: Outcome<K, V, E>)
    // a hit hands back the stored value and leaves the table as it was
    ensures args in table ==> o.result == Success(table[args]) && o.table == table
    // a miss hands back exactly what `f` produced, success or failure
    ensures args !in table ==> o.result == f(args)
    // afterwards `args` is in the table exactly when the call succeeded, holding the value returned
    ensures o.result.Success? <==> args in o.table
    ensures o.result.Success? ==> o.table[args] == o.result.value
    // the table gains at most the one key `args`, and no existing entry changes
    ensures o.table.Keys == table.Keys + (if o.result.Success? then {args} else {})
    ensures forall k | k in table :: k in o.table && o.table[k] == table[k]
    // memoization is transparent: over a coherent table, the answer is `f(args)`
    ensures Coherent(f, table) ==> Coherent(f, o.table) && o.result == f(args)
  {
    if args in table then
      Outcome(Success(table[args]), table)
    else
      match f(args)
      case Success(v) => Outcome(Success(v), table[args := v])
      case Failure(e) => Outcome(Failure(e), table)
  }

  /** The calls `calls`, made one after the other on one wrapper whose table starts as `table`. */
  function Run<K, V, E>(f: K -> Result<V, E>, table: map<K, V>, calls: seq<K>): (t: Trace<K, V, E>)
    ensures |t.results| == |calls|
    // the table only grows, and `f` runs at most once per call
    ensures table.Keys <= t.table.Keys
    ensures forall k | k in table :: t.table[k] == table[k]
    ensures |t.invoked| <= |calls|
    decreases |calls|
  {
    if calls == [] then
      Trace([], table, [])
    else
      var o := Invoke(f, table, calls[0]);
      var rest := Run(f, o.table, calls[1..]);
      Trace([o.result] + rest.results, rest.table, Invoked(table, calls[0]) + rest.invoked)
  }

  /** Over a coherent table, every call of a run answers what `f` answers, and the table stays coherent. */
  lemma {:induction false} RunTransparent<K, V, E>(f: K -> Result<V, E>, table: map<K, V>, calls: seq<K>)
    requires Coherent(f, table)
    ensures Coherent(f, Run(f, table, calls).table)
    ensures forall i | 0 <= i < |calls| :: Run(f, table, calls).results[i] == f(calls[i])
    decreases |calls|
  {
    if calls != [] {
      var o := Invoke(f, table, calls[0]);
      RunTransparent(f, o.table, calls[1..]);
      var t := Run(f, table, calls);
      forall i | 0 <= i < |calls| ensures t.results[i] == f(calls[i]) {
        if i > 0 {
          assert t.results[i] == Run(f, o.table, calls[1..]).results[i - 1];
          assert calls[i] == calls[1..][i - 1];
        }
      }
    }
  }

  /** After a run the table holds the keys it held before and every called key on which `f` succeeds. */
  lemma {:induction false} RunStores<K, V, E>(f: K -> Result<V, E>, table: map<K, V>, calls: seq<K>)
    ensures Run(f, table, calls).table.Keys == table.Keys + (set k | k in calls && f(k).Success?)
    decreases |calls|
  {
    if calls != [] {
      var o := Invoke(f, table, calls[0]);
      RunStores(f, o.table, calls[1..]);
      var added := set k | k in calls && f(k).Success?;
      var addedRest := set k | k in calls[1..] && f(k).Success?;
      assert added == addedRest + (if f(calls[0]).Success? then {calls[0]} else {}) by {
        forall k | k in added ensures k in addedRest || k == calls[0] {
          if k != calls[0] {
            var i :| 0 <= i < |calls| && calls[i] == k;
            assert calls[1..][i - 1] == k;
          }
        }
      }
      if calls[0] in table {
        assert f(calls[0]).Success? ==> calls[0] in table.Keys;
      }
    }
  }

  /**
   At most once: for a key on which `f` succeeds, `f` runs on it once in a whole
   run of calls if the run calls it and the table did not hold it, and never otherwise.
   */
  lemma {:induction false} RunAtMostOnce<K, V, E>(f: K -> Result<V, E>, table: map<K, V>, calls: seq<K>, k: K)
    requires f(k).Success?
    ensures multiset(Run(f, table, calls).invoked)[k] == if k in table || k !in calls then 0 else 1
    decreases |calls|
  {
    if calls != [] {
      var o := Invoke(f, table, calls[0]);
      RunAtMostOnce(f, o.table, calls[1..], k);
      var rest := Run(f, o.table, calls[1..]);
      assert Run(f, table, calls).invoked == Invoked(table, calls[0]) + rest.invoked;
      if calls[0] != k {
        assert k in calls <==> k in calls[1..] by {
          if k in calls {
            var i :| 0 <= i < |calls| && calls[i] == k;
            assert calls[1..][i - 1] == k;
          }
        }
      }
    }
  }

  /**
   A failure is never cached: for a key on which `f` fails and that the table
   does not hold, `f` runs on it at every call with it, and it never enters the table.
   */
  lemma {:induction false} RunRetriesFailure<K, V, E>(f: K -> Result<V, E>, table: map<K, V>, calls: seq<K>, k: K)
    requires f(k).Failure? && k !in table
    ensures multiset(Run(f, table, calls).invoked)[k] == multiset(calls)[k]
    ensures k !in Run(f, table, calls).table
    decreases |calls|
  {
    if calls != [] {
      var o := Invoke(f, table, calls[0]);
      RunRetriesFailure(f, o.table, calls[1..], k);
      assert calls == [calls[0]] + calls[1..];
      assert Run(f, table, calls).invoked == Invoked(table, calls[0]) + Run(f, o.table, calls[1..]).invoked;
    }
  }

  /**
   A wrapped callable: `f` together with the one table made for it when the
   wrapper was built. The table is a public field, as the wrapper exposes it.
   `invoked` logs, in order, the keys on which `f` was run.
   */
  class Memoized<K(==), V, E> {
    const f: K -> Result<V, E>
    var table: map<K, V>
    ghost var invoked: seq<K>

    /**
     Every entry is `f`'s value for its key, every key on which `f` ran and
     succeeded was stored, and every stored key came from exactly one run of `f`.
     */
    ghost predicate Valid()
      reads this
    {
      Coherent(f, table) &&
      (forall k | k in invoked && f(k).Success? :: k in table) &&
      (forall k | k in table :: multiset(invoked)[k] == 1)
    }

    /** Wrapping `f` creates its table, empty, once and for all. */
    constructor Wrap(f: K -> Result<V, E>)
      ensures Valid()
      ensures this.f == f && table == map[] && invoked == []
    {
      this.f := f;
      table := map[];
      invoked := [];
    }

    /** Calls the wrapped callable on the argument tuple `args`. */
    method Call(args: K) returns (r: Result<V, E>)
      requires Valid()
      modifies this
      ensures Valid()
      ensures Invoke(f, old(table), args) == Outcome(r, table)
      ensures invoked == old(invoked) + Invoked(old(table), args)
      ensures r == f(args)
    {
      if args in table {
        r := Success(table[args]);
      } else {
        r := f(args);
        invoked := invoked + [args];
        if r.Success? {
          table := table[args := r.value];
        }
      }
    }
  }
}
