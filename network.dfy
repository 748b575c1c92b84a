/** The discrimination network: RootNode, AlphaNode, BetaNode and LeafNode, each with a
    memory of the matches it has seen and the set of its children. The nodes live in one
    heap object and are named by ids. A node is built only from nodes that already exist,
    so every parent has a smaller id than its child, and the notification cascade, which
    only ever goes from a node to its children, ends. */
module Network {
  import opened Values
  import opened Conditions
  import opened Interning
  import opened Graph

  /** Python truthiness of the objects a join sees: None and the empty dict are falsy, a
      Payload tuple (two fields) never is. */
  function Truthy(obj: Subject): (r: bool)
    ensures r <==> obj != NoneObject && obj != DictObject(map[])
  {
    match obj
    case NoneObject => false
    case DictObject(f) => f != map[]
    case PayloadObject(_) => true
  }

  /** RootNode.notify as written, on the object it is handed: `payload.match` is read,
      then looked up in the memory, a Python set, which hashes it. */
  function RootNotifyAsWritten(obj: Subject): (r: Outcome)
    // A Payload has `.match`, but the match is a dict, which is unhashable.
    ensures obj.PayloadObject? ==> r == Raised(TypeError)
    // Anything else has no `.match`.
    ensures !obj.PayloadObject? ==> r == Raised(AttributeError)
  {
    match MatchOf(obj)
    case Err(e) => Raised(e)
    case Ok(m) => HashAsWritten(DictObject(m))
  }

  /** The input that shows it: the first Payload ever inserted raises. */
  lemma RootNotifyAsWrittenRaises()
    ensures RootNotifyAsWritten(PayloadObject(Payload(map["k1" := Str("v1")], map[]))) == Raised(TypeError)
  {
  }

  /** BetaNode._notify as written, on the objects it is actually handed: the test on the
      left object, `left_payload or right_payload`, `.match` on the result, then the
      lookup of that match in the memory, a Python set, which hashes it. The answer is
      the set of matches that would be stored, or the exception. A memory holds bare
      matches (dicts), so the entries a Beta node reads back from a parent's memory are
      dicts, not Payloads. */
  function JoinAsWritten(c: Condition, left: Subject, right: Subject): (r: Result<set<Fact>>)
    // From the left parent: the payload tuple is tested, and no condition is met by it.
    ensures left.PayloadObject? ==> r == Ok({})
    // From the right parent: a non-empty left entry that meets the condition is a dict
    // without `.match`.
    ensures left.DictObject? && left.fact != map[] && MetBy(c, left.fact) ==> r == Err(AttributeError)
    // An empty left entry is falsy, so the joined payload is the right one; its match is
    // a dict, and hashing it raises.
    ensures left == DictObject(map[]) && MetBy(c, map[]) && right.PayloadObject? ==> r == Err(TypeError)
    // Nothing is ever stored.
    ensures r.Ok? ==> r.value == {}
  {
    match IsMet(c, left)
    case Err(e) => Err(e)
    case Ok(met) =>
      if !met then Ok({})
      else
        match MatchOf(if Truthy(left) then left else right)
        case Err(e) => Err(e)
        case Ok(m) =>
          match HashAsWritten(DictObject(m))
          case Raised(e) => Err(e)
          case Done => Ok({m})
  }

  /** The input that shows it: with HasKey("k1"), a Payload arriving from the right
      parent and the entry {"k1": "v1"} in the left parent's memory, the join raises. */
  lemma RightJoinAsWrittenRaises(p: Payload)
    ensures JoinAsWritten(HasKey("k1"), DictObject(map["k1" := Str("v1")]), PayloadObject(p)) == Err(AttributeError)
  {
    assert MetBy(HasKey("k1"), map["k1" := Str("v1")]);
  }

  class Network {
    /** The node with id i is kinds[i], its memory is memory[i], its children children[i]. */
    var kinds: seq<Kind>
    var memory: seq<set<Fact>>
    var children: seq<set<nat>>
    /** The Singleton registry shared by conditions and nodes. */
    const registry: Registry

    ghost predicate Valid()
      reads this, registry
    {
      && Wired(kinds, children)
      && |memory| == |kinds| && AllSound(kinds, memory) && Derived(kinds, memory) && Guarded(kinds, memory)
      && RootSignature in registry.instances
      && RegistryConsistent(kinds, registry.instances)
    }

    /** The root of a fresh network, with a fresh registry that holds RootNode(). */
    constructor ()
      ensures Valid() && fresh(registry)
      ensures kinds == [Root] && memory == [{}] && children == [{}]
      ensures registry.instances == map[RootSignature := NodeInstance(0)]
    {
      kinds, memory, children := [Root], [{}], [{}];
      registry := new Registry();
      new;
      var root := registry.Intern(RootSignature, NodeInstance(0));
    }

    /** RootNode(): the one root, whatever the number of calls. */
    method GetRoot() returns (id: nat)
      requires Valid()
      ensures id == 0
    {
      var inst := registry.instances[RootSignature];
      assert Registered(kinds, RootSignature, inst);
      if inst.CondInstance? {
        assert false;
      }
      id := inst.id;
      assert kinds[id].Root?;
      assert WellWired(kinds, id);
    }

    /** A condition constructor call, interned: the stored condition when one was made
        under the same signature, otherwise c, now stored. */
    method MakeCondition(c: Condition) returns (r: Condition)
      requires Valid()
      modifies registry
      ensures Valid()
      ensures ConditionSignature(r) == ConditionSignature(c)
      ensures ConditionSignature(c) in old(registry.instances) ==>
        registry.instances == old(registry.instances) && old(registry.instances)[ConditionSignature(c)] == CondInstance(r)
      ensures ConditionSignature(c) !in old(registry.instances) ==>
        r == c && registry.instances == old(registry.instances)[ConditionSignature(c) := CondInstance(c)]
    {
      var sig := ConditionSignature(c);
      if sig in registry.instances {
        assert Registered(kinds, sig, registry.instances[sig]);
      }
      var inst := registry.Intern(sig, CondInstance(c));
      assert Registered(kinds, sig, inst);
      if inst.NodeInstance? {
        assert false;
      }
      r := inst.cond;
      assert forall s :: s in registry.instances ==> Registered(kinds, s, registry.instances[s]);
    }

    /** The creation half of Singleton.__call__ for a node: the node is appended with an
        empty memory, joins the children of its parents, and is stored under its signature. */
    method AppendNode(k: Kind) returns (id: nat)
      requires Valid() && !k.Root? && WellWired(kinds + [k], |kinds|)
      requires KindSignature(k) !in registry.instances
      modifies this, registry
      ensures Valid()
      ensures id == old(|kinds|) && kinds == old(kinds) + [k] && memory == old(memory) + [{}]
      ensures children == WithChild(old(children), k)
      ensures registry.instances == old(registry.instances)[KindSignature(k) := NodeInstance(id)]
    {
      AppendKeepsWired(kinds, children, k);
      AppendKeepsRegistry(kinds, registry.instances, k);
      AppendKeepsInvariants(kinds, memory, k);
      id := |kinds|;
      kinds, memory, children := kinds + [k], memory + [{}], WithChild(children, k);
      var inst := registry.Intern(KindSignature(k), NodeInstance(id));
    }

    /** Looking up a node signature that is present: the stored node, of the same class. */
    method StoredNode(k: Kind) returns (id: nat)
      requires Valid() && KindSignature(k) in registry.instances
      ensures id < |kinds| && registry.instances[KindSignature(k)] == NodeInstance(id)
      ensures Initial(kinds[id]) == Initial(k)
    {
      var inst := registry.instances[KindSignature(k)];
      assert Registered(kinds, KindSignature(k), inst);
      if inst.CondInstance? {
        assert false;
      }
      id := inst.id;
    }

    /** AlphaNode(cond, parent[, name]): the stored node when the signature is known
        (nothing changes), otherwise a new node under the root. */
    method AddAlpha(cond: Condition, parent: nat, name: NameArg) returns (id: nat)
      requires Valid() && parent < |kinds| && kinds[parent].Root?
      // cond is a condition object, so it was interned under its own signature.
      requires ConditionSignature(cond) in registry.instances && registry.instances[ConditionSignature(cond)] == CondInstance(cond)
      modifies this, registry
      ensures Valid() && id < |kinds| && kinds[id].Alpha?
      ensures AlphaSignature(cond, parent, name) in old(registry.instances) ==>
        && old(registry.instances)[AlphaSignature(cond, parent, name)] == NodeInstance(id)
        && registry.instances == old(registry.instances)
        && kinds == old(kinds) && memory == old(memory) && children == old(children)
      ensures AlphaSignature(cond, parent, name) !in old(registry.instances) ==>
        && id == old(|kinds|)
        && registry.instances == old(registry.instances)[AlphaSignature(cond, parent, name) := NodeInstance(id)]
        && kinds == old(kinds) + [Alpha(cond, parent, name)]
        && memory == old(memory) + [{}]
        && children == WithChild(old(children), Alpha(cond, parent, name))
    {
      var k := Alpha(cond, parent, name);
      if KindSignature(k) in registry.instances {
        id := StoredNode(k);
      } else {
        id := AppendNode(k);
      }
    }

    /** BetaNode(cond, left, right[, name]); a new node joins the children of both
        parents. */
    method AddBeta(cond: Condition, left: nat, right: nat, name: NameArg) returns (id: nat)
      requires Valid() && left < |kinds| && right < |kinds|
      requires (kinds[left].Alpha? || kinds[left].Beta?) && kinds[right].Alpha?
      requires ConditionSignature(cond) in registry.instances && registry.instances[ConditionSignature(cond)] == CondInstance(cond)
      modifies this, registry
      ensures Valid() && id < |kinds| && kinds[id].Beta?
      ensures BetaSignature(cond, left, right, name) in old(registry.instances) ==>
        && old(registry.instances)[BetaSignature(cond, left, right, name)] == NodeInstance(id)
        && registry.instances == old(registry.instances)
        && kinds == old(kinds) && memory == old(memory) && children == old(children)
      ensures BetaSignature(cond, left, right, name) !in old(registry.instances) ==>
        && id == old(|kinds|)
        && registry.instances == old(registry.instances)[BetaSignature(cond, left, right, name) := NodeInstance(id)]
        && kinds == old(kinds) + [Beta(cond, left, right, name)]
        && memory == old(memory) + [{}]
        && children == WithChild(old(children), Beta(cond, left, right, name))
    {
      var k := Beta(cond, left, right, name);
      if KindSignature(k) in registry.instances {
        id := StoredNode(k);
      } else {
        id := AppendNode(k);
      }
    }

    /** LeafNode(parent). */
    method AddLeaf(parent: nat) returns (id: nat)
      requires Valid() && parent < |kinds| && (kinds[parent].Alpha? || kinds[parent].Beta?)
      modifies this, registry
      ensures Valid() && id < |kinds| && kinds[id].Leaf?
      ensures LeafSignature(parent) in old(registry.instances) ==>
        && old(registry.instances)[LeafSignature(parent)] == NodeInstance(id)
        && registry.instances == old(registry.instances)
        && kinds == old(kinds) && memory == old(memory) && children == old(children)
      ensures LeafSignature(parent) !in old(registry.instances) ==>
        && id == old(|kinds|)
        && registry.instances == old(registry.instances)[LeafSignature(parent) := NodeInstance(id)]
        && kinds == old(kinds) + [Leaf(parent)]
        && memory == old(memory) + [{}]
        && children == WithChild(old(children), Leaf(parent))
    {
      var k := Leaf(parent);
      if KindSignature(k) in registry.instances {
        id := StoredNode(k);
      } else {
        id := AppendNode(k);
      }
    }

    /** `self.memory.add(payload.match)` at node i: a match an Alpha or Beta node stores
        meets its condition, and one a Beta node stores is held by its left parent. */
    method Store(i: nat, f: Fact)
      requires Valid() && i < |kinds| && !kinds[i].Leaf?
      requires Sound(kinds[i], memory[i] + {f})
      requires kinds[i].Beta? ==>
        kinds[i].left < |kinds| && f in memory[kinds[i].left] && kinds[i].right < |kinds| && memory[kinds[i].right] != {}
      modifies this
      ensures Valid() && kinds == old(kinds) && children == old(children)
      ensures memory == old(memory)[i := old(memory)[i] + {f}]
    {
      StoreKeepsInvariants(kinds, memory, i, f);
      memory := memory[i := memory[i] + {f}];
    }

    /** RootNode.notify: a match seen before changes nothing and reaches no child; a new
        match is stored and handed to every child, each an Alpha node. */
    method RootNotify(p: Payload)
      requires Valid()
      modifies this
      ensures Valid() && kinds == old(kinds) && children == old(children)
      ensures Grown(old(memory), memory)
      ensures p.matched in old(memory[0]) ==> memory == old(memory)
      ensures memory[0] == old(memory[0]) + {p.matched}
      ensures p.matched !in old(memory[0]) ==> forall a :: 0 <= a < |kinds| && kinds[a].Alpha? ==>
        memory[a] == old(memory[a]) + (if MetBy(kinds[a].cond, p.matched) then {p.matched} else {})
      ensures AlphasExact(old(kinds), old(memory)) ==> AlphasExact(kinds, memory)
      ensures JoinsComplete(old(kinds), old(memory), {}) ==> JoinsComplete(kinds, memory, {})
    {
      if p.matched !in memory[0] {
        RootTake(p);
      }
    }

    /** The body of RootNode.notify for a new match: `self.memory.add(payload.match)`, then
        the loop over the children. */
    method RootTake(p: Payload)
      requires Valid() && p.matched !in memory[0]
      modifies this
      ensures Valid() && kinds == old(kinds) && children == old(children)
      ensures Grown(old(memory), memory)
      ensures memory[0] == old(memory[0]) + {p.matched}
      ensures forall a :: 0 <= a < |kinds| && kinds[a].Alpha? ==>
        memory[a] == old(memory[a]) + (if MetBy(kinds[a].cond, p.matched) then {p.matched} else {})
      ensures AlphasExact(old(kinds), old(memory)) ==> AlphasExact(kinds, memory)
      ensures JoinsComplete(old(kinds), old(memory), {}) ==> JoinsComplete(kinds, memory, {})
    {
      ghost var inFlight := InFlightAtStart(kinds, memory);
      RootStoreKeepsComplete(kinds, memory, inFlight, p.matched);
      Store(0, p.matched);
      NotifyAlphas(p, inFlight);
      if AlphasExact(kinds, old(memory)) {
        RootStepKeepsExact(kinds, old(memory), memory, p.matched);
      }
    }

    /** The loop `for child in self.children: child.notify(payload)` of RootNode.notify:
        every Alpha node is a child of the root, and each takes the match when it meets
        its condition. */
    method NotifyAlphas(p: Payload, ghost inFlight: set<Delivery>)
      requires Valid() && JoinsComplete(kinds, memory, inFlight)
      modifies this
      ensures Valid() && kinds == old(kinds) && children == old(children)
      ensures Grown(old(memory), memory) && memory[0] == old(memory)[0]
      ensures forall a :: 0 <= a < |kinds| && kinds[a].Alpha? ==>
        memory[a] == old(memory)[a] + (if MetBy(kinds[a].cond, p.matched) then {p.matched} else {})
      ensures JoinsComplete(kinds, memory, inFlight)
    {
      forall a | 0 <= a < |kinds| && kinds[a].Alpha?
        ensures a in children[0]
      {
        assert WellWired(kinds, a) && WellWired(kinds, kinds[a].parent);
        assert ParentOf(kinds[a], 0);
      }
      ghost var start := memory;
      var pending := children[0];
      while pending != {}
        invariant Valid() && kinds == old(kinds) && children == old(children)
        invariant pending <= children[0]
        invariant Grown(start, memory) && memory[0] == start[0]
        invariant AlphasTook(kinds, start, memory, pending, p.matched)
        invariant JoinsComplete(kinds, memory, inFlight)
        decreases pending
      {
        var a :| a in pending;
        assert 0 < a < |kinds| && ParentOf(kinds[a], 0) && WellWired(kinds, a);
        ghost var before := memory;
        AlphaNotify(a, p, inFlight);
        AlphaStep(kinds, start, before, memory, pending, a, p.matched);
        pending := pending - {a};
      }
    }

    /** AlphaNode.notify: a match that meets the condition and is new is stored and
        handed to the children; anything else changes nothing. */
    method AlphaNotify(a: nat, p: Payload, ghost inFlight: set<Delivery>)
      requires Valid() && a < |kinds| && kinds[a].Alpha? && JoinsComplete(kinds, memory, inFlight)
      modifies this
      ensures Valid() && kinds == old(kinds) && children == old(children)
      ensures Grown(old(memory), memory)
      ensures memory[a] == old(memory[a]) + (if MetBy(kinds[a].cond, p.matched) then {p.matched} else {})
      ensures forall j :: 0 <= j < |kinds| && j != a && !kinds[j].Beta? ==> memory[j] == old(memory[j])
      ensures !MetBy(kinds[a].cond, p.matched) || p.matched in old(memory[a]) ==> memory == old(memory)
      ensures JoinsComplete(kinds, memory, inFlight)
    {
      // The source tests the whole Payload here (`is_met(payload)`), which no condition
      // ever meets; the model tests the payload's match.
      if MetBy(kinds[a].cond, p.matched) && p.matched !in memory[a] {
        StoreKeepsComplete(kinds, children, memory, inFlight, a, p.matched);
        Store(a, p.matched);
        Forward(a, p, inFlight);
      }
    }

    /** The loop `for child in self.children: child.notify(payload, self)` of an Alpha or
        Beta node. Its children are Beta and Leaf nodes; LeafNode.notify does nothing.
        The notifications of the stored match to the children are on their way on entry,
        on top of `rest`, and done on exit. */
    method Forward(id: nat, p: Payload, ghost rest: set<Delivery>)
      requires Valid() && id < |kinds| && (kinds[id].Alpha? || kinds[id].Beta?)
      requires p.matched in memory[id]
      requires JoinsComplete(kinds, memory, rest + Outgoing(children[id], id, p.matched))
      modifies this
      ensures Valid() && kinds == old(kinds) && children == old(children)
      ensures Grown(old(memory), memory)
      ensures ChangedOnlyFrom(kinds, old(memory), memory, id + 1)
      ensures JoinsComplete(kinds, memory, rest)
      decreases |kinds| - id, 0
    {
      var pending := children[id];
      while pending != {}
        invariant Valid() && kinds == old(kinds) && children == old(children)
        invariant pending <= children[id] && p.matched in memory[id]
        invariant Grown(old(memory), memory)
        invariant ChangedOnlyFrom(kinds, old(memory), memory, id + 1)
        invariant JoinsComplete(kinds, memory, rest + Outgoing(pending, id, p.matched))
        decreases pending
      {
        var c :| c in pending;
        assert id < c < |kinds| && ParentOf(kinds[c], id) && WellWired(kinds, c);
        ghost var inFlight := rest + Outgoing(pending, id, p.matched);
        if kinds[c].Beta? {
          var outcome := BetaNotify(c, p, id, inFlight);
          assert outcome == Done;
        } else {
          assert kinds[c].Leaf?;
          DropForeign(kinds, memory, inFlight, (id, p.matched, c));
        }
        OutgoingStep(rest, pending, id, p.matched, c);
        MorePendingComplete(kinds, memory, inFlight - {(id, p.matched, c)}, rest + Outgoing(pending - {c}, id, p.matched));
        pending := pending - {c};
      }
      assert rest + Outgoing(pending, id, p.matched) == rest;
    }

    /** BetaNode.notify: from the left parent, one join attempt per match in the right
        parent's memory; from the right parent, one per match in the left parent's
        memory; from any other node, a ValueError and no change. Either way the
        notification (source, match, b) is done. */
    method BetaNotify(b: nat, p: Payload, source: nat, ghost inFlight: set<Delivery>) returns (outcome: Outcome)
      requires Valid() && b < |kinds| && kinds[b].Beta? && JoinsComplete(kinds, memory, inFlight)
      requires source < |kinds| && (source == kinds[b].left || source == kinds[b].right) ==> p.matched in memory[source]
      modifies this
      ensures Valid() && kinds == old(kinds) && children == old(children)
      ensures kinds[b].left < b && kinds[b].right < b
      ensures Grown(old(memory), memory)
      ensures ChangedOnlyFrom(kinds, old(memory), memory, b)
      ensures outcome == Done <==> source == kinds[b].left || source == kinds[b].right
      ensures outcome != Done ==> outcome == Raised(ValueError) && memory == old(memory)
      ensures source == kinds[b].left ==>
        memory[b] == old(memory)[b] +
          (if MetBy(kinds[b].cond, p.matched) && old(memory)[kinds[b].right] != {} then {p.matched} else {})
      ensures source != kinds[b].left && source == kinds[b].right ==>
        memory[b] == old(memory)[b] + Filter(kinds[b].cond, old(memory)[kinds[b].left])
      ensures JoinsComplete(kinds, memory, inFlight - {(source, p.matched, b)})
      decreases |kinds| - b, 3
    {
      assert WellWired(kinds, b);
      if source == kinds[b].left {
        FromLeft(b, p, inFlight);
        LeftDelivered(kinds, memory, inFlight, b, p.matched);
        outcome := Done;
      } else if source == kinds[b].right {
        FromRight(b, p, inFlight);
        RightDelivered(kinds, memory, inFlight, b, p.matched);
        outcome := Done;
      } else {
        DropForeign(kinds, memory, inFlight, (source, p.matched, b));
        outcome := Raised(ValueError);
      }
    }

    /** The left-parent branch of BetaNode.notify: the payload is joined with each match
        in the right parent's memory (read as a Payload with an empty table). */
    method FromLeft(b: nat, p: Payload, ghost inFlight: set<Delivery>)
      requires Valid() && b < |kinds| && kinds[b].Beta? && kinds[b].left < b && kinds[b].right < b
      requires JoinsComplete(kinds, memory, inFlight)
      requires p.matched in memory[kinds[b].left]
      modifies this
      ensures Valid() && kinds == old(kinds) && children == old(children)
      ensures Grown(old(memory), memory)
      ensures ChangedOnlyFrom(kinds, old(memory), memory, b)
      ensures memory[b] == old(memory)[b] +
        (if MetBy(kinds[b].cond, p.matched) && old(memory)[kinds[b].right] != {} then {p.matched} else {})
      ensures JoinsComplete(kinds, memory, inFlight)
      decreases |kinds| - b, 2
    {
      var k := kinds[b];
      var pending := memory[k.right];
      while pending != {}
        invariant Valid() && kinds == old(kinds) && children == old(children)
        invariant pending <= old(memory)[k.right] && p.matched in memory[k.left]
        invariant Grown(old(memory), memory)
        invariant ChangedOnlyFrom(kinds, old(memory), memory, b)
        invariant memory[b] == old(memory)[b] +
          (if MetBy(k.cond, p.matched) && pending != old(memory)[k.right] then {p.matched} else {})
        invariant JoinsComplete(kinds, memory, inFlight)
        decreases pending
      {
        var r :| r in pending;
        assert old(memory)[k.right] <= memory[k.right];
        Join(b, p, Payload(r, map[]), inFlight);
        pending := pending - {r};
      }
    }

    /** The right-parent branch of BetaNode.notify: each match in the left parent's
        memory (read as a Payload with an empty table) is joined with the payload. */
    method FromRight(b: nat, p: Payload, ghost inFlight: set<Delivery>)
      requires Valid() && b < |kinds| && kinds[b].Beta? && kinds[b].left < b && kinds[b].right < b
      requires JoinsComplete(kinds, memory, inFlight)
      requires p.matched in memory[kinds[b].right]
      modifies this
      ensures Valid() && kinds == old(kinds) && children == old(children)
      ensures Grown(old(memory), memory)
      ensures ChangedOnlyFrom(kinds, old(memory), memory, b)
      ensures memory[b] == old(memory)[b] + Filter(kinds[b].cond, old(memory)[kinds[b].left])
      ensures JoinsComplete(kinds, memory, inFlight)
      decreases |kinds| - b, 2
    {
      var k := kinds[b];
      var pending := memory[k.left];
      ghost var all, base := pending, memory[b];
      JoinStart(k.cond, base, all);
      while pending != {}
        invariant Valid() && kinds == old(kinds) && children == old(children)
        invariant pending <= all
        invariant Grown(old(memory), memory)
        invariant ChangedOnlyFrom(kinds, old(memory), memory, b)
        invariant memory[b] == base + Filter(k.cond, all - pending)
        invariant JoinsComplete(kinds, memory, inFlight)
        decreases pending
      {
        var l :| l in pending;
        assert old(memory)[k.left] <= memory[k.left] && old(memory)[k.right] <= memory[k.right];
        ghost var before := memory[b];
        Join(b, Payload(l, map[]), p, inFlight);
        JoinStep(k.cond, base, all, pending, l, before, memory[b]);
        pending := pending - {l};
      }
    }

    /** BetaNode._notify: one join attempt. The join test is the condition on the left
        payload (no condition reads the right one). The joined payload is
        `left_payload or right_payload`, and a Payload tuple is never falsy, so it is the
        left payload: the right one is dropped. It is stored and handed on when new. */
    method Join(b: nat, left: Payload, right: Payload, ghost inFlight: set<Delivery>)
      requires Valid() && b < |kinds| && kinds[b].Beta? && JoinsComplete(kinds, memory, inFlight)
      requires kinds[b].left < |kinds| && left.matched in memory[kinds[b].left]
      requires kinds[b].right < |kinds| && memory[kinds[b].right] != {}
      modifies this
      ensures Valid() && kinds == old(kinds) && children == old(children)
      ensures Grown(old(memory), memory)
      ensures ChangedOnlyFrom(kinds, old(memory), memory, b)
      ensures memory[b] == old(memory[b]) + (if MetBy(kinds[b].cond, left.matched) then {left.matched} else {})
      ensures !MetBy(kinds[b].cond, left.matched) || left.matched in old(memory[b]) ==> memory == old(memory)
      ensures JoinsComplete(kinds, memory, inFlight)
      decreases |kinds| - b, 1
    {
      if MetBy(kinds[b].cond, left.matched) {
        var joined := left;
        if joined.matched !in memory[b] {
          StoreKeepsComplete(kinds, children, memory, inFlight, b, joined.matched);
          Store(b, joined.matched);
          Forward(b, joined, inFlight);
        }
      }
    }
  }
}
