/**
 * A set that remembers only the newest ids: the relay's `Forwarded`, the gateway's `Seen` and the mesh's replay memory.
 */
module FifoMemory {

  function Last<T>(s: seq<T>, n: nat): (r: seq<T>)
    ensures |r| <= n && |r| <= |s|
  {
    if |s| <= n then s else s[|s| - n..]
  }

  /** The history of newly accepted ids after one more is offered. */
  function Record<T(==)>(history: seq<T>, x: T, limit: nat): seq<T> {
    if x in Last(history, limit) then history else history + [x]
  }

  function RecordAll<T(==)>(history: seq<T>, xs: seq<T>, limit: nat): seq<T>
    decreases |xs|
  {
    if xs == [] then history else RecordAll(Record(history, xs[0], limit), xs[1..], limit)
  }

  lemma RecordNext<T>(history: seq<T>, xs: seq<T>, i: nat, limit: nat)
    requires i < |xs|
    ensures RecordAll(history, xs[i..], limit) == RecordAll(Record(history, xs[i], limit), xs[i + 1..], limit)
  {
    assert xs[i..][0] == xs[i] && xs[i..][1..] == xs[i + 1..];
  }

  /** Two acceptances of one id have at least `limit` others between them. */
  ghost predicate Spaced<T(!new)>(history: seq<T>, limit: nat) {
    forall i, j :: 0 <= i < j < |history| && history[i] == history[j] ==> j - i > limit
  }

  lemma RecordKeepsSpacing<T(!new)>(history: seq<T>, x: T, limit: nat)
    requires Spaced(history, limit)
    ensures Spaced(Record(history, x, limit), limit)
  {
    if x !in Last(history, limit) {
      forall i | 0 <= i < |history| && |history| - i <= limit ensures history[i] != x {
        var r := Last(history, limit);
        assert history[i] == r[i - (|history| - |r|)];
      }
    }
  }

  /** Over any run of offers, an id is accepted again only after `limit` newer ids were accepted. */
  lemma {:induction false} RunsAreSpaced<T(!new)>(history: seq<T>, xs: seq<T>, limit: nat)
    requires Spaced(history, limit)
    ensures Spaced(RecordAll(history, xs, limit), limit)
    ensures history <= RecordAll(history, xs, limit)
    decreases |xs|
  {
    if xs != [] {
      RecordKeepsSpacing(history, xs[0], limit);
      RunsAreSpaced(Record(history, xs[0], limit), xs[1..], limit);
    }
  }

  /** An id in a spaced history is still refused as long as fewer than `limit` ids followed it. */
  lemma RefusedUntilCrowdedOut<T>(history: seq<T>, i: nat, limit: nat)
    requires i < |history|
    ensures |history| - i <= limit ==> history[i] in Last(history, limit)
  {
    if |history| - i <= limit {
      var r := Last(history, limit);
      assert history[i] == r[i - (|history| - |r|)];
    }
  }

  class Memory<T(==,!new)> {
    const limit: nat
    var seen: set<T>
    var order: seq<T>
    /** Every id ever newly accepted, in order. */
    ghost var history: seq<T>

    ghost predicate Valid()
      reads this
    {
      && limit > 0
      && order == Last(history, limit)
      && seen == (set x | x in order)
      && Spaced(history, limit)
    }

    constructor (limit: nat)
      requires limit > 0
      ensures Valid() && this.limit == limit && history == []
    {
      this.limit := limit;
      seen, order, history := {}, [], [];
    }

    method Contains(x: T) returns (b: bool)
      requires Valid()
      ensures b <==> x in Last(history, limit)
    {
      b := x in seen;
    }

    method Insert(x: T) returns (isNew: bool)
      requires Valid()
      modifies this
      ensures Valid()
      ensures isNew <==> x !in Last(old(history), limit)
      ensures history == Record(old(history), x, limit)
    {
      if x in seen {
        return false;
      }
      RecordKeepsSpacing(history, x, limit);
      seen := seen + {x};
      order := order + [x];
      history := history + [x];
      if |order| > limit {
        var oldest := order[0];
        OldestIsAlone(order, history, limit);
        order := order[1..];
        seen := seen - {oldest};
      }
      isNew := true;
    }
  }

  /** Forgetting the oldest id cannot forget a newer copy of it: there is none in the window. */
  lemma OldestIsAlone<T(!new)>(order: seq<T>, history: seq<T>, limit: nat)
    requires Spaced(history, limit) && |order| == limit + 1
    requires |order| <= |history| && order == history[|history| - |order|..]
    ensures order[0] !in order[1..]
    ensures (set x | x in order) - {order[0]} == (set x | x in order[1..])
  {
    var base := |history| - |order|;
    forall k | 1 <= k < |order| ensures order[k] != order[0] {
      assert order[k] == history[base + k] && order[0] == history[base];
    }
    assert order == [order[0]] + order[1..];
  }
}
