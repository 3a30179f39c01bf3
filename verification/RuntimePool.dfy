/**
 The runtime pool: a queue of idle runtimes and a count of those that exist,
 under one mutex, with a condition variable for checkouts that find neither an
 idle runtime nor room for a new one. The class holds the locked sections.
 */
module RuntimePool {

  /** A runtime, by the number in its identifier. */
  type Id = nat

  datatype Pool = Pool(queue: seq<Id>, total: nat, nextId: Id)

  const NEW_POOL := Pool([], 0, 1)

  /** What one locked round of a checkout comes to. */
  datatype Outcome = Took(id: Id) | MayConstruct(id: Id) | MustWait

  function Round(p: Pool, max: nat): (Pool, Outcome) {
    if p.queue != [] then (p.(queue := p.queue[1..]), Took(p.queue[0]))
    else if p.total < max then (Pool(p.queue, p.total + 1, p.nextId + 1), MayConstruct(p.nextId))
    else (p, MustWait)
  }

  function GiveBack(p: Pool, id: Id): Pool {
    p.(queue := p.queue + [id])
  }

  /** `total.saturating_sub(1)`. */
  function GiveUp(p: Pool): Pool {
    p.(total := if p.total == 0 then 0 else p.total - 1)
  }

  class PyRuntimePool {
    const maxRuntimes: nat
    var queue: seq<Id>
    var total: nat
    var nextId: Id

    ghost function Value(): Pool
      reads this
    {
      Pool(queue, total, nextId)
    }

    constructor (maxRuntimes: nat)
      ensures Value() == NEW_POOL && this.maxRuntimes == maxRuntimes
    {
      this.maxRuntimes := maxRuntimes;
      queue, total, nextId := [], 0, 1;
    }

    /** One turn of the loop in `checkout`, up to where it unlocks or waits. */
    method CheckoutRound() returns (outcome: Outcome)
      modifies this
      ensures (Value(), outcome) == Round(old(Value()), maxRuntimes)
      ensures old(queue) != [] ==>
                outcome == Took(old(queue)[0]) && queue == old(queue)[1..] && total == old(total) && nextId == old(nextId)
      ensures old(queue) == [] && old(total) < maxRuntimes ==>
                outcome == MayConstruct(old(nextId)) && queue == [] && total == old(total) + 1 && nextId == old(nextId) + 1
      ensures old(queue) == [] && old(total) >= maxRuntimes ==> outcome == MustWait && Value() == old(Value())
    {
      if queue != [] {
        outcome := Took(queue[0]);
        queue := queue[1..];
        return;
      }
      if total < maxRuntimes {
        total := total + 1;
        outcome := MayConstruct(nextId);
        nextId := nextId + 1;
        return;
      }
      return MustWait;
    }

    /** Dropping a handle whose runtime is fit for reuse. */
    method Return(id: Id)
      modifies this
      ensures Value() == GiveBack(old(Value()), id)
      ensures queue == old(queue) + [id] && total == old(total) && nextId == old(nextId)
    {
      queue := queue + [id];
    }

    /** Dropping a handle whose runtime could not be reset. */
    method Discard()
      modifies this
      ensures Value() == GiveUp(old(Value()))
      ensures queue == old(queue) && nextId == old(nextId)
      ensures if old(total) == 0 then total == 0 else total + 1 == old(total)
    {
      if total > 0 {
        total := total - 1;
      }
    }
  }
}
