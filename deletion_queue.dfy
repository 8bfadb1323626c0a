/** The engine's deferred-cleanup list (`DeletionQueue` in src/vk_engine.h).
    Each cleanup closure is modelled by an opaque identifier; calling a closure
    is modelled by appending its identifier to the queue's `executed` record.
    Cleanup actions are assumed never to touch the queue themselves. */
module DeletionQueues {

  /** An opaque cleanup action (a `std::function<void()>` in the engine). */
  datatype Cleanup = Cleanup(id: nat)

  /** The order in which `flush` runs a queue's contents: back to front. */
  function Reversed<T>(s: seq<T>): (r: seq<T>)
    ensures |r| == |s|
  {
    if s == [] then [] else Reversed(s[1..]) + [s[0]]
  }

  /** Position k of the run order is the action registered k places from the back. */
  lemma {:induction false} ReversedAt<T>(s: seq<T>, k: nat)
    requires k < |s|
    ensures Reversed(s)[k] == s[|s| - 1 - k]
  {
    if k < |s| - 1 {
      ReversedAt(s[1..], k);
    }
  }

  /** Running in reverse order runs every queued action exactly as many times
      as it was queued: the run order is a permutation of the queue. */
  lemma {:induction false} ReversedIsPermutation<T>(s: seq<T>)
    ensures multiset(Reversed(s)) == multiset(s)
  {
    if s != [] {
      ReversedIsPermutation(s[1..]);
      assert s == [s[0]] + s[1..];
    }
  }

  /** Reversing a concatenation: the later batch runs before the earlier one. */
  lemma {:induction false} ReversedAppend<T>(a: seq<T>, b: seq<T>)
    ensures Reversed(a + b) == Reversed(b) + Reversed(a)
  {
    if a == [] {
      assert a + b == b;
    } else {
      assert (a + b)[1..] == a[1..] + b;
      ReversedAppend(a[1..], b);
    }
  }

  /** Last registered, first executed: an action pushed onto a queue holding
      `s` runs before everything in `s`. */
  lemma {:induction false} LastRegisteredRunsFirst<T>(s: seq<T>, x: T)
    ensures Reversed(s + [x]) == [x] + Reversed(s)
  {
    ReversedAppend(s, [x]);
    assert [x][1..] == [];
  }

  /** The run order determines the registration order: reversing twice gives
      the queue back. */
  lemma {:induction false} ReversedInvolution<T>(s: seq<T>)
    ensures Reversed(Reversed(s)) == s
  {
    if s != [] {
      ReversedAppend(Reversed(s[1..]), [s[0]]);
      ReversedInvolution(s[1..]);
      assert [s[0]][1..] == [];
      assert s == [s[0]] + s[1..];
    }
  }

  class DeletionQueue {
    /** The pending actions, oldest first (the `deletors` deque). */
    var deletors: seq<Cleanup>
    /** Every action this queue has called so far, in call order. */
    var executed: seq<Cleanup>

    constructor ()
      ensures deletors == [] && executed == []
    {
      deletors := [];
      executed := [];
    }

    /** `push_function`: append an action at the back; nothing is run. */
    method PushFunction(f: Cleanup)
      modifies this
      ensures deletors == old(deletors) + [f]
      ensures |deletors| == |old(deletors)| + 1 && deletors[|deletors| - 1] == f
      ensures deletors[..|old(deletors)|] == old(deletors)
      ensures executed == old(executed)
    {
      deletors := deletors + [f];
    }

    /** `flush`: call every pending action from the back to the front, then
        clear the queue. */
    method Flush()
      modifies this
      ensures executed == old(executed) + Reversed(old(deletors))
      ensures deletors == []
    {
      var i := |deletors|;
      while i > 0
        invariant 0 <= i <= |deletors|
        invariant deletors == old(deletors)
        invariant executed == old(executed) + Reversed(deletors[i..])
      {
        i := i - 1;
        assert deletors[i..][1..] == deletors[i + 1..];
        executed := executed + [deletors[i]];
      }
      deletors := [];
    }
  }

  /** Push every action of `fs` in order, as the engine's init code does
      while it creates resources. */
  method PushAll(q: DeletionQueue, fs: seq<Cleanup>)
    modifies q
    ensures q.deletors == old(q.deletors) + fs
    ensures q.executed == old(q.executed)
  {
    var j := 0;
    while j < |fs|
      invariant 0 <= j <= |fs|
      invariant q.deletors == old(q.deletors) + fs[..j]
      invariant q.executed == old(q.executed)
    {
      q.PushFunction(fs[j]);
      assert fs[..j + 1] == fs[..j] + [fs[j]];
      j := j + 1;
    }
    assert fs[..|fs|] == fs;
  }

  /** A queue is reusable: on a fresh queue, registering `first`, flushing,
      flushing again, registering `second` and flushing once more runs
      `first` in reverse, then nothing, then only `second` in reverse. */
  method FlushReuse(first: seq<Cleanup>, second: seq<Cleanup>)
    returns (run1: seq<Cleanup>, run2: seq<Cleanup>, run3: seq<Cleanup>)
    ensures run1 == Reversed(first)
    ensures run2 == []
    ensures run3 == Reversed(second)
  {
    var q := new DeletionQueue();
    PushAll(q, first);
    assert q.deletors == first;
    q.Flush();
    run1 := q.executed;
    q.Flush();
    run2 := q.executed[|run1|..];
    PushAll(q, second);
    assert q.deletors == second;
    var before := q.executed;
    q.Flush();
    run3 := q.executed[|before|..];
  }
}
