/** Session: the entry point that asserts facts into a network through its root. */
module Sessions {
  import opened Values
  import opened Conditions
  import opened Graph
  import opened Network

  /** Session.insert as written: the raw dict goes to RootNode.notify, whose first step
      reads `payload.match`, which a dict does not have. */
  function InsertAsWritten(item: Fact): (r: Outcome)
    ensures r == Raised(AttributeError)
  {
    RootNotifyAsWritten(DictObject(item))
  }

  class Session {
    /** The network whose root the session notifies. */
    const net: Network

    constructor (net: Network)
      ensures this.net == net
    {
      this.net := net;
    }

    /** Session.build(rules): a session on the root of the network. The rules are not
        read. */
    static method Build(net: Network) returns (s: Session)
      requires net.Valid()
      ensures fresh(s) && s.net == net
    {
      var root := net.GetRoot();
      s := new Session(net);
    }

    /** Session.insert(item), with the item wrapped as a Payload with an empty binding
        table, the form RootNode.notify reads: a fact inserted before changes nothing; a
        new fact is stored at the root and taken by exactly the Alpha nodes whose
        condition it meets. */
    method Insert(item: Fact)
      requires net.Valid()
      modifies net
      ensures net.Valid() && net.kinds == old(net.kinds) && net.children == old(net.children)
      ensures Grown(old(net.memory), net.memory)
      ensures item in old(net.memory[0]) ==> net.memory == old(net.memory)
      ensures net.memory[0] == old(net.memory[0]) + {item}
      ensures item !in old(net.memory[0]) ==> forall a :: 0 <= a < |net.kinds| && net.kinds[a].Alpha? ==>
        net.memory[a] == old(net.memory[a]) + (if MetBy(net.kinds[a].cond, item) then {item} else {})
      ensures AlphasExact(old(net.kinds), old(net.memory)) ==> AlphasExact(net.kinds, net.memory)
      ensures JoinsComplete(old(net.kinds), old(net.memory), {}) ==> JoinsComplete(net.kinds, net.memory, {})
    {
      net.RootNotify(Payload(item, map[]));
    }
  }
}
