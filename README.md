# Memoization wrapper, modelled in Dafny

This project models the memoization decorator of `memo.py`. Wrapping a callable `f` creates one table, once, and exposes it as the wrapper's `table` attribute. A call of the wrapper looks up its positional-argument tuple in that table:

- On a hit it returns the stored value and does not run `f`.
- On a miss it runs `f`, stores the result under the tuple and returns it.
- If `f` raises, the exception reaches the caller and nothing is stored.

Modules:

- `Memo` (`memo.dfy`) holds the model of the wrapper.
  - `Invoke` is one call as a pure function, and `Run` is a sequence of calls on one wrapper. Lemmas about `Run` state the lifetime guarantees: at most one run of `f` per argument tuple, failures not cached, and results transparent.
  - The class `Memoized` is the wrapper itself. It has the wrapped `f`, the `table` field (a `map`), a ghost log `invoked` of the tuples on which `f` ran, and a `Call` method proved against `Invoke`.
  - `f` is a total Dafny function `K -> Result<V, E>`. Determinism is the accepted precondition of memoization. A raised exception is a `Failure`.
- `MemoizeTest` (`memoize_test.dfy`) holds the scenarios of the file's test case.
  - The repeated call.
  - The recursive Fibonacci. Its body recurses through its own wrapper, so it is modelled as the class `FibMemo`. In that class, `Fib` is the wrapper, `Body` is the decorated function, and `calls` is the test's counter.
  - Plain, class and static methods. The receiver's binding is modelled by what it puts in the argument tuple: the instance, the instance's class, or nothing. An instance is compared by its identity only, as a Python object without its own equality is. Its field `n` lives in a separate map that the wrapped method reads.

## Model

| member | source | states |
|---|---|---|
| `Memo.Invoke` | memo.py:30-36 | A hit returns the stored value and leaves the table unchanged. A miss returns exactly `f(args)`. Afterwards `args` is in the table iff the call succeeded, and then it holds the returned value. The table gains at most the key `args`, and no other entry changes. Over a table coherent with `f`, the table stays coherent and the answer is `f(args)`. |
| `Memo.Run` | memo.py:30-36 | Over a sequence of calls, there is one result per call. The table only grows. Existing entries never change. `f` runs at most once per call. |
| `Memo.RunTransparent` | memo.py:30-36 | Starting from a coherent table, every call of a run returns what `f` itself returns for that tuple, and the table stays coherent. |
| `Memo.RunStores` | memo.py:33-35 | After a run, the table's keys are the old keys plus exactly the called tuples on which `f` succeeds. |
| `Memo.RunAtMostOnce` | memo.py:31-36 | Take a tuple on which `f` succeeds. Over a whole run, `f` runs on it once if the run calls it and the table did not already hold it, and zero times otherwise. |
| `Memo.RunRetriesFailure` | memo.py:33-35 | Take a tuple on which `f` fails and that the table does not hold. `f` runs on it at every call with it, and it never enters the table. (A table coherent with `f` never holds such a tuple.) |
| `Memo.Memoized.Wrap` | memo.py:28-41 | Building the wrapper creates its table once, empty. The table is the field the wrapper exposes, and the wrapper's invariant holds from the start. |
| `Memo.Memoized.Call` | memo.py:30-36 | The result and the new table are those of `Invoke` on the old table. `f` is logged as run exactly on a miss. The result is `f(args)`. The invariant is kept: every entry is `f`'s value, every succeeded run was stored, and each stored tuple came from exactly one run. |
| `MemoizeTest.RepeatExample` | memo.py:45-56 | Two calls of the memoized `example_fun` both return "fred", and the function runs once. |
| `MemoizeTest.InstanceMethodExample` | memo.py:70-103 | A plain memoized method called on two instances, twice each, gives 1, 2, 1, 2. It runs twice, once per instance, because the receiver is the first element of the key. |
| `MemoizeTest.ClassMethodExample` | memo.py:83-109 | A class method memoized under the binding, called through the class and through two instances, returns "quux" each time and runs once. |
| `MemoizeTest.StaticMethodExample` | memo.py:90-115 | A static method memoized under the binding, called through the class and through two instances, returns "quuxley" each time and runs once. |
| `MemoizeTest.ExampleFun` | memo.py:48-53 | Definition of the test's `example_fun`: `Success(Str("fred"))` on the empty tuple, otherwise `TypeError`. Its memoized behaviour is proved by `RepeatExample`. |
| `MemoizeTest.Fred` | memo.py:77-81 | Definition of `George.fred`: on a one-element tuple holding an instance, the instance's field `n`, looked up by identity in `fields`. Any other single argument has no field `n`, giving `AttributeError`. Any other number of arguments gives `TypeError`. Its memoized behaviour is proved by `InstanceMethodExample`. |
| `MemoizeTest.Quux` | memo.py:83-88 | Definition of `George.quux`: `Success(Str("quux"))` on any one-element tuple, since the class it receives is unused; otherwise `TypeError`. Its memoized behaviour is proved by `ClassMethodExample`. |
| `MemoizeTest.Quuxley` | memo.py:90-95 | Definition of `George.quuxley`: `Success(Str("quuxley"))` on the empty tuple, otherwise `TypeError`. Its memoized behaviour is proved by `StaticMethodExample`. |
| `MemoizeTest.ClassOf` | memo.py:83-88 | Definition: an instance's class object is `Class(cls)`, a class is its own, and a number or string has the built-in class `int` or `str`. That an instance and its class then share a class method's entry is proved by `ClassMethodKeyPerClass` and `ClassMethodExample`. |
| `MemoizeTest.PlainMethodKey` | memo.py:77-81 | Definition: a plain method's key is `[receiver] + args`. That the cache is then per instance is proved by `PlainMethodKeyPerInstance` and `InstanceMethodExample`. |
| `MemoizeTest.ClassMethodKey` | memo.py:83-88 | Definition: a class method's key is `[ClassOf(receiver)] + args`. That all instances of a class share its entry is proved by `ClassMethodKeyPerClass` and `ClassMethodExample`. |
| `MemoizeTest.StaticMethodKey` | memo.py:90-95 | Definition: a static method's key is `args`, without the receiver. That every receiver shares its entry is proved by `StaticMethodKeyShared` and `StaticMethodExample`. |
| `MemoizeTest.PlainMethodKeyPerInstance` | memo.py:77-81 | Two calls of a plain method share a table entry iff they have the same receiver and the same arguments, so the cache is per instance. |
| `MemoizeTest.ClassMethodKeyPerClass` | memo.py:83-88 | Two calls of a class method share an entry iff the receivers' classes and the arguments agree, so all instances of a class share it. |
| `MemoizeTest.StaticMethodKeyShared` | memo.py:90-95 | Two calls of a static method share an entry iff the arguments agree, whatever the receivers. |
| `MemoizeTest.FibSpec` | memo.py:65 | Definition of the reference recursion, `1 if n <= 1 else fib(n-1) + fib(n-2)`. `FibMemo.Fib` and `FibMemo.Body` are proved to return it, and every entry of the `fib` table equals it. |
| `MemoizeTest.ClosedHoldsPrefix` | memo.py:65 | Consider a key set where every key from 2 up has both predecessors stored, as the recursion of `fib` leaves it. If it holds some `n >= 2`, it holds every key from 0 to `n`. |
| `MemoizeTest.FibMemo.constructor` | memo.py:60-61 | The test's setup: the `fib` wrapper starts with an empty table (the one `dict` made when `fib` is decorated) and a zero counter, and its invariant `Valid({})` holds. |
| `MemoizeTest.FibMemo.Fib` | memo.py:58-68 | The memoized `fib(n)` returns the value of the naive recursion, and afterwards `n` is stored with it. The table only grows, and only by keys at most `n`. A hit changes neither the table nor the counter. The invariant is kept: every entry is the recursion's value, and the body's run count equals the table size plus the runs still in progress. |
| `MemoizeTest.FibMemo.Body` | memo.py:62-65 | The decorated `fib` counts its run and returns the recursion's value. It leaves both predecessors of `n` (from 2 up) stored, and it stores no key at or above `n`. |
| `MemoizeTest.FibOfFive` | memo.py:67-68 | On a fresh wrapper, `fib(5)` is 8 and the body runs exactly 6 times. |

## Left out

- `functools.update_wrapper` (memo.py:38): copying the name and docstring is introspection metadata, with no behaviour to state.
- `memoize` (memo.py:11-25): it only curries the table factory with `functools.partial`. The model wraps `f` directly with `Memoized.Wrap`.
- Table factories other than `dict`: the table is always a Dafny `map` that starts empty. Other factories are not modelled. That covers list-like stores, whose miss signal is `IndexError`, and pre-filled or evicting stores. So are store failures other than a missing key, which the source lets propagate.
- Callers writing to the exposed `table` attribute (for example, clearing it) are not modelled. The model's only writer of the table is `Call`.
- Keyword arguments are not modelled: the key is the positional-argument tuple only.
- Python's `classmethod`/`staticmethod` descriptor binding and the decorator-ordering convention (memo.py:22-23) are not modelled as such. Only their effect is modelled: what the argument tuple holds (`PlainMethodKey`, `ClassMethodKey`, `StaticMethodKey`).
- `MemoizeTest.Fred`: the fields of instances are fixed for the wrapper's lifetime, because the wrapped function is pure. So the model cannot show a cached entry going stale after a receiver's field changes; in the source the entry, keyed by identity, would keep the old value.
- The tests' `global` flags and counters are replaced. The generic wrapper gets the ghost log `invoked`. The Fibonacci example gets the field `calls`.
- `MemoizeTest.FibMemo.Fib` and `MemoizeTest.FibMemo.Body` take a ghost set `pending` of arguments whose bodies are still running. It is bookkeeping for the proof: a call from outside passes the empty set.
- Thread safety: the model is single-threaded, and the source makes no concurrency claim.
