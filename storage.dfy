/**
 * The server's in-memory store: a map from ids to stored facts, kept in
 * insertion order like a JavaScript `Map`, and the next id to hand out.
 */
module Storage {

  /** Milliseconds since the epoch, as read from the clock when a fact is added. */
  type Timestamp = int

  /** A stored fact, `{id, content, source, timestamp}`. */
  datatype Fact = Fact(id: int, content: string, source: string, timestamp: Timestamp)

  /** What a client submits: the content and its source. */
  datatype InsertFact = InsertFact(content: string, source: string)

  class MemStorage {
    var facts: map<int, Fact>
    /** The map's keys in insertion order. */
    var order: seq<int>
    var currentId: int

    /**
     * The ids handed out so far are exactly 1 .. currentId - 1, in the
     * order they were handed out, and each is the key of its own record.
     */
    ghost predicate Valid()
      reads this
    {
      && currentId >= 1
      && |order| == currentId - 1
      && (forall i :: 0 <= i < |order| ==> order[i] == i + 1)
      && (forall k :: k in facts <==> 1 <= k < currentId)
      && (forall k :: k in facts ==> facts[k].id == k)
    }

    constructor ()
      ensures Valid()
      ensures facts == map[] && order == [] && currentId == 1
    {
      facts := map[];
      order := [];
      currentId := 1;
    }

    /** `getFacts`: every stored record in insertion order; nothing changes. */
    method GetFacts() returns (r: seq<Fact>)
      requires Valid()
      ensures |r| == |facts| == currentId - 1
      ensures forall i :: 0 <= i < |r| ==> order[i] in facts && r[i] == facts[order[i]]
      ensures forall i :: 0 <= i < |r| ==> r[i].id == i + 1
    {
      CountIds(currentId - 1, facts.Keys);
      var keys, m := order, facts;
      r := seq(|keys|, i requires 0 <= i < |keys| && keys[i] in m => m[keys[i]]);
    }

    /**
     * `addFact`: the record gets the current id, which is then advanced by
     * one; `now` is what `new Date()` reads. Nothing already stored changes.
     */
    method AddFact(insert: InsertFact, now: Timestamp) returns (f: Fact)
      requires Valid()
      modifies this
      ensures Valid()
      ensures f == Fact(old(currentId), insert.content, insert.source, now)
      ensures currentId == old(currentId) + 1
      ensures f.id !in old(facts)
      ensures facts == old(facts)[f.id := f]
      ensures order == old(order) + [f.id]
      ensures |facts| == |old(facts)| + 1
    {
      var id := currentId;
      currentId := currentId + 1;
      f := Fact(id, insert.content, insert.source, now);
      facts := facts[id := f];
      order := order + [id];
    }
  }

  /** A set holding exactly the ids 1 .. n has n elements. */
  lemma {:induction false} CountIds(n: nat, ids: set<int>)
    requires forall k :: k in ids <==> 1 <= k <= n
    ensures |ids| == n
    decreases n
  {
    if n == 0 {
      assert forall k :: k !in ids;
      assert ids == {};
    } else {
      assert n in ids;
      var rest := ids - {n};
      assert |rest| == |ids| - 1;
      CountIds(n - 1, rest);
    }
  }

  /**
   * A fresh store handed two facts gives them ids 1 and 2 and lists them
   * in that order.
   */
  method TwoAdds(a: InsertFact, b: InsertFact, t1: Timestamp, t2: Timestamp)
    returns (first: Fact, second: Fact, listed: seq<Fact>)
    ensures first.id == 1 && second.id == 2
    ensures first.content == a.content && first.source == a.source
    ensures second.content == b.content && second.source == b.source
    ensures listed == [first, second]
  {
    var store := new MemStorage();
    first := store.AddFact(a, t1);
    second := store.AddFact(b, t2);
    listed := store.GetFacts();
  }
}
