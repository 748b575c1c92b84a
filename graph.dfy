/** The shape of the discrimination network as values: what each node is, how nodes are
    wired to their parents and children, what their memories may hold, and the lemmas the
    network's operations are proved with. Nodes are named by ids; a node is built only from
    nodes that already exist, so every parent has a smaller id than its child. */
module Graph {
  import opened Values
  import opened Conditions
  import opened Interning

  /** What a node is, with the parents and arguments it was constructed with. */
  datatype Kind =
    | Root
    | Alpha(cond: Condition, parent: nat, name: NameArg)
    | Beta(cond: Condition, left: nat, right: nat, name: NameArg)
    | Leaf(parent: nat)

  /** The signature under which the registry holds a node of this kind. */
  function KindSignature(k: Kind): (s: string)
    ensures |s| > 0 && s[0] == Initial(k)
  {
    match k
    case Root => RootSignature
    case Alpha(c, p, n) => AlphaSignature(c, p, n)
    case Beta(c, l, r, n) => BetaSignature(c, l, r, n)
    case Leaf(p) => LeafSignature(p)
  }

  /** The first letter of the class name. */
  function Initial(k: Kind): char {
    match k
    case Root => 'R'
    case Alpha(_, _, _) => 'A'
    case Beta(_, _, _, _) => 'B'
    case Leaf(_) => 'L'
  }

  /** Node i is a parent of a node of kind k. */
  predicate ParentOf(k: Kind, i: nat) {
    match k
    case Root => false
    case Alpha(_, p, _) => p == i
    case Beta(_, l, r, _) => l == i || r == i
    case Leaf(p) => p == i
  }

  /** The wiring the constructors' parameter types ask for: an Alpha node under the root,
      a Beta node joining an Alpha or Beta node (left) with an Alpha node (right), a Leaf
      under an Alpha or Beta node; every parent is older than its child. */
  predicate WellWired(kinds: seq<Kind>, i: nat)
    requires i < |kinds|
  {
    match kinds[i]
    case Root => i == 0
    case Alpha(_, p, _) => p < i && kinds[p].Root?
    case Beta(_, l, r, _) => l < i && r < i && (kinds[l].Alpha? || kinds[l].Beta?) && kinds[r].Alpha?
    case Leaf(p) => p < i && (kinds[p].Alpha? || kinds[p].Beta?)
  }

  /** What a node may hold in memory: every match of an Alpha or Beta node meets its
      condition, and a Leaf node never stores anything. */
  predicate Sound(k: Kind, m: set<Fact>) {
    match k
    case Root => true
    case Alpha(c, _, _) => forall f :: f in m ==> MetBy(c, f)
    case Beta(c, _, _, _) => forall f :: f in m ==> MetBy(c, f)
    case Leaf(_) => m == {}
  }

  /** The facts of s that meet c. */
  function Filter(c: Condition, s: set<Fact>): (r: set<Fact>)
    ensures r <= s
    ensures forall f :: f in r <==> f in s && MetBy(c, f)
  {
    set f | f in s && MetBy(c, f)
  }

  /** Taking one more element out of the pending part adds it to the filtered done part
      exactly when it meets the condition. */
  lemma FilterAdd(c: Condition, done: set<Fact>, f: Fact)
    ensures Filter(c, done + {f}) == Filter(c, done) + (if MetBy(c, f) then {f} else {})
  {
  }

  /** Before the first join, nothing has been added. */
  lemma JoinStart(c: Condition, base: set<Fact>, all: set<Fact>)
    ensures base == base + Filter(c, all - all)
  {
    assert all - all == {};
  }

  /** One step of a join over the left memory: the Beta memory gains the next left
      entry exactly when it meets the condition. */
  lemma JoinStep(c: Condition, base: set<Fact>, all: set<Fact>, pending: set<Fact>, f: Fact, before: set<Fact>, after: set<Fact>)
    requires f in pending && pending <= all
    requires before == base + Filter(c, all - pending)
    requires after == before + (if MetBy(c, f) then {f} else {})
    ensures after == base + Filter(c, all - (pending - {f}))
  {
    assert all - (pending - {f}) == (all - pending) + {f};
    FilterAdd(c, all - pending, f);
  }

  /** Every Alpha node outside `pending` has taken m when it meets its condition; the
      others are as they were at the start. */
  ghost predicate AlphasTook(kinds: seq<Kind>, start: seq<set<Fact>>, now: seq<set<Fact>>, pending: set<nat>, m: Fact)
  {
    && |start| == |kinds| && |now| == |kinds|
    && forall a :: 0 <= a < |kinds| && kinds[a].Alpha? ==>
      now[a] == start[a] + (if a !in pending && MetBy(kinds[a].cond, m) then {m} else {})
  }

  /** Notifying one more Alpha node a moves it out of `pending`. */
  lemma AlphaStep(kinds: seq<Kind>, start: seq<set<Fact>>, before: seq<set<Fact>>, after: seq<set<Fact>>,
                  pending: set<nat>, a: nat, m: Fact)
    requires AlphasTook(kinds, start, before, pending, m) && |after| == |kinds|
    requires a in pending && a < |kinds| && kinds[a].Alpha?
    requires after[a] == before[a] + (if MetBy(kinds[a].cond, m) then {m} else {})
    requires forall j :: 0 <= j < |kinds| && j != a && !kinds[j].Beta? ==> after[j] == before[j]
    ensures AlphasTook(kinds, start, after, pending - {a}, m)
  {
    forall a' | 0 <= a' < |kinds| && kinds[a'].Alpha?
      ensures after[a'] == start[a'] + (if a' !in pending - {a} && MetBy(kinds[a'].cond, m) then {m} else {})
    {
      if a' != a {
        assert after[a'] == before[a'];
      }
    }
  }

  /** Memories only grow: every node keeps what it had. */
  ghost predicate Grown(before: seq<set<Fact>>, after: seq<set<Fact>>) {
    |before| == |after| && forall i :: 0 <= i < |before| ==> before[i] <= after[i]
  }

  /** Between the two memories only Beta nodes with id b or more may differ. */
  ghost predicate ChangedOnlyFrom(kinds: seq<Kind>, before: seq<set<Fact>>, after: seq<set<Fact>>, b: nat) {
    && |before| == |kinds| && |after| == |kinds|
    && forall j :: 0 <= j < |kinds| && (j < b || !kinds[j].Beta?) ==> after[j] == before[j]
  }

  /** A registry entry sits under the signature of what it holds. */
  predicate Registered(kinds: seq<Kind>, s: string, inst: Instance) {
    match inst
    case CondInstance(c) => s == ConditionSignature(c)
    case NodeInstance(id) => id < |kinds| && s == KindSignature(kinds[id])
  }

  /** The graph shape: one root at id 0, every node wired as its constructor's parameter
      types ask, and children[i] holding exactly the nodes built with i as a parent. */
  predicate Wired(kinds: seq<Kind>, children: seq<set<nat>>) {
    && |kinds| > 0 && |children| == |kinds| && kinds[0] == Root
    && (forall i :: 0 <= i < |kinds| ==> WellWired(kinds, i))
    && (forall i, c :: 0 <= i < |kinds| && c in children[i] ==> i < c < |kinds|)
    && (forall i, c :: 0 <= i < |kinds| && c in children[i] ==> c < |kinds| && ParentOf(kinds[c], i))
    && (forall i, c :: 0 <= i < c < |kinds| && ParentOf(kinds[c], i) ==> c in children[i])
  }

  predicate AllSound(kinds: seq<Kind>, memory: seq<set<Fact>>)
    requires |memory| == |kinds|
  {
    forall i :: 0 <= i < |kinds| ==> Sound(kinds[i], memory[i])
  }

  /** A Beta node only ever stores a match its left parent holds: the joined payload is
      the left one. */
  predicate Derived(kinds: seq<Kind>, memory: seq<set<Fact>>)
    requires |memory| == |kinds|
  {
    forall b :: 0 <= b < |kinds| && kinds[b].Beta? && kinds[b].left < |kinds| ==> memory[b] <= memory[kinds[b].left]
  }

  /** A Beta node stores something only once its right parent holds something: every
      join attempt pairs with an entry of the right parent's memory. */
  predicate Guarded(kinds: seq<Kind>, memory: seq<set<Fact>>)
    requires |memory| == |kinds|
  {
    forall b :: 0 <= b < |kinds| && kinds[b].Beta? && kinds[b].right < |kinds| && memory[b] != {} ==>
      memory[kinds[b].right] != {}
  }

  /** Storing f at node i keeps every memory sound, derived and guarded, when f meets what
      node i asks of it and, at a Beta node, is held by the left parent while the right
      parent holds something. */
  lemma StoreKeepsInvariants(kinds: seq<Kind>, memory: seq<set<Fact>>, i: nat, f: Fact)
    requires |memory| == |kinds| && i < |kinds| && (forall j :: 0 <= j < |kinds| ==> WellWired(kinds, j))
    requires AllSound(kinds, memory) && Derived(kinds, memory) && Guarded(kinds, memory)
    requires Sound(kinds[i], memory[i] + {f})
    requires kinds[i].Beta? ==>
      kinds[i].left < |kinds| && f in memory[kinds[i].left] && kinds[i].right < |kinds| && memory[kinds[i].right] != {}
    ensures var m := memory[i := memory[i] + {f}];
      AllSound(kinds, m) && Derived(kinds, m) && Guarded(kinds, m)
  {
    var m := memory[i := memory[i] + {f}];
    forall j | 0 <= j < |kinds|
      ensures Sound(kinds[j], m[j])
    {
      assert j != i ==> m[j] == memory[j];
    }
    forall j | 0 <= j < |kinds| && kinds[j].Beta? && kinds[j].left < |kinds|
      ensures m[j] <= m[kinds[j].left]
    {
      assert memory[j] <= memory[kinds[j].left];
    }
    forall j | 0 <= j < |kinds| && kinds[j].Beta? && kinds[j].right < |kinds| && m[j] != {}
      ensures m[kinds[j].right] != {}
    {
      assert memory[kinds[j].right] <= m[kinds[j].right];
      if j != i {
        assert memory[j] == m[j];
      }
    }
  }

  /** A new node with an empty memory keeps every memory sound, derived and guarded. */
  lemma AppendKeepsInvariants(kinds: seq<Kind>, memory: seq<set<Fact>>, k: Kind)
    requires |memory| == |kinds| && (forall j :: 0 <= j < |kinds| ==> WellWired(kinds, j))
    requires AllSound(kinds, memory) && Derived(kinds, memory) && Guarded(kinds, memory)
    ensures var ks, m := kinds + [k], memory + [{}];
      AllSound(ks, m) && Derived(ks, m) && Guarded(ks, m)
  {
    var ks, m := kinds + [k], memory + [{}];
    forall j | 0 <= j < |ks|
      ensures Sound(ks[j], m[j])
    {
      if j < |kinds| {
        assert Sound(kinds[j], memory[j]);
      }
    }
    forall j | 0 <= j < |ks| && ks[j].Beta? && ks[j].left < |ks|
      ensures m[j] <= m[ks[j].left]
    {
      if j < |kinds| {
        assert WellWired(kinds, j) && memory[j] <= memory[kinds[j].left];
      }
    }
    forall j | 0 <= j < |ks| && ks[j].Beta? && ks[j].right < |ks| && m[j] != {}
      ensures m[ks[j].right] != {}
    {
      assert j < |kinds|;
      assert WellWired(kinds, j) && ks[j] == kinds[j] && m[j] == memory[j];
    }
  }

  // ---------------------------------------------------------------------------
  // Join completeness

  /** A notification on its way: (src, f, dst) is the match f, stored at node src and not
      yet handed to its child dst. */
  type Delivery = (nat, Fact, nat)

  /** The matches of node src that have reached node dst. */
  ghost function Delivered(memory: seq<set<Fact>>, pending: set<Delivery>, src: nat, dst: nat): (r: set<Fact>)
    requires src < |memory|
    ensures r <= memory[src]
  {
    set f | f in memory[src] && (src, f, dst) !in pending
  }

  /** With nothing on its way, every stored match has reached every child. */
  lemma NothingPending(memory: seq<set<Fact>>, src: nat, dst: nat)
    requires src < |memory|
    ensures Delivered(memory, {}, src, dst) == memory[src]
  {
  }

  /** Beta node b has joined every left match delivered to it that meets its condition,
      as soon as some right match has been delivered to it. */
  ghost predicate BetaComplete(kinds: seq<Kind>, memory: seq<set<Fact>>, pending: set<Delivery>, b: nat)
    requires |memory| == |kinds| && b < |kinds| && kinds[b].Beta?
    requires kinds[b].left < |kinds| && kinds[b].right < |kinds|
  {
    Delivered(memory, pending, kinds[b].right, b) != {} ==>
      Filter(kinds[b].cond, Delivered(memory, pending, kinds[b].left, b)) <= memory[b]
  }

  ghost predicate JoinsComplete(kinds: seq<Kind>, memory: seq<set<Fact>>, pending: set<Delivery>)
    requires |memory| == |kinds|
  {
    forall b :: 0 <= b < |kinds| && kinds[b].Beta? && kinds[b].left < |kinds| && kinds[b].right < |kinds| ==>
      BetaComplete(kinds, memory, pending, b)
  }

  /** The notifications of match f from node src to each of the given children. */
  ghost function Outgoing(targets: set<nat>, src: nat, f: Fact): (r: set<Delivery>)
    ensures forall c :: c in targets <==> (src, f, c) in r
    ensures forall t :: t in r ==> t.0 == src && t.1 == f && t.2 in targets
  {
    set c | c in targets :: (src, f, c)
  }

  /** Handing f from src to c takes that one notification off the list. */
  lemma OutgoingStep(rest: set<Delivery>, targets: set<nat>, src: nat, f: Fact, c: nat)
    ensures (rest + Outgoing(targets, src, f)) - {(src, f, c)} <= rest + Outgoing(targets - {c}, src, f)
  {
  }

  /** More notifications on their way only weaken what completeness asks. */
  lemma MorePendingComplete(kinds: seq<Kind>, memory: seq<set<Fact>>, p1: set<Delivery>, p2: set<Delivery>)
    requires |memory| == |kinds| && p1 <= p2 && JoinsComplete(kinds, memory, p1)
    ensures JoinsComplete(kinds, memory, p2)
  {
    forall b | 0 <= b < |kinds| && kinds[b].Beta? && kinds[b].left < |kinds| && kinds[b].right < |kinds|
      ensures BetaComplete(kinds, memory, p2, b)
    {
      var k := kinds[b];
      assert BetaComplete(kinds, memory, p1, b);
      assert Delivered(memory, p2, k.left, b) <= Delivered(memory, p1, k.left, b);
      assert Delivered(memory, p2, k.right, b) <= Delivered(memory, p1, k.right, b);
    }
  }

  /** Every notification on its way: then nothing has been delivered, and completeness
      asks nothing. */
  ghost function AllDeliveries(kinds: seq<Kind>, memory: seq<set<Fact>>): set<Delivery>
    requires |memory| == |kinds|
  {
    set src, f, dst | 0 <= src < |kinds| && f in memory[src] && 0 <= dst < |kinds| :: (src, f, dst)
  }

  lemma AllPendingComplete(kinds: seq<Kind>, memory: seq<set<Fact>>)
    requires |memory| == |kinds|
    ensures JoinsComplete(kinds, memory, AllDeliveries(kinds, memory))
  {
    var all := AllDeliveries(kinds, memory);
    forall b | 0 <= b < |kinds| && kinds[b].Beta? && kinds[b].left < |kinds| && kinds[b].right < |kinds|
      ensures BetaComplete(kinds, memory, all, b)
    {
      var r := kinds[b].right;
      forall f | f in memory[r]
        ensures (r, f, b) in all
      {
      }
      assert Delivered(memory, all, r, b) == {};
    }
  }

  /** The notifications to take as on their way when a cascade starts: none when the
      joins are complete, otherwise all of them. */
  lemma InFlightAtStart(kinds: seq<Kind>, memory: seq<set<Fact>>) returns (inFlight: set<Delivery>)
    requires |memory| == |kinds|
    ensures JoinsComplete(kinds, memory, inFlight)
    ensures JoinsComplete(kinds, memory, {}) ==> inFlight == {}
  {
    if JoinsComplete(kinds, memory, {}) {
      inFlight := {};
    } else {
      inFlight := AllDeliveries(kinds, memory);
      AllPendingComplete(kinds, memory);
    }
  }

  /** Storing f at node i, with its notifications to each child of i on their way, keeps
      the joins complete: no child has seen f yet. */
  lemma StoreKeepsComplete(kinds: seq<Kind>, children: seq<set<nat>>, memory: seq<set<Fact>>,
                           pending: set<Delivery>, i: nat, f: Fact)
    requires Wired(kinds, children) && |memory| == |kinds| && i < |kinds|
    requires JoinsComplete(kinds, memory, pending)
    ensures JoinsComplete(kinds, memory[i := memory[i] + {f}], pending + Outgoing(children[i], i, f))
  {
    var m, p := memory[i := memory[i] + {f}], pending + Outgoing(children[i], i, f);
    forall b | 0 <= b < |kinds| && kinds[b].Beta? && kinds[b].left < |kinds| && kinds[b].right < |kinds|
      ensures BetaComplete(kinds, m, p, b)
    {
      var k := kinds[b];
      assert BetaComplete(kinds, memory, pending, b);
      assert WellWired(kinds, b);
      if k.left == i || k.right == i {
        assert ParentOf(k, i) && i < b;
        assert b in children[i];
      }
      assert Delivered(m, p, k.left, b) <= Delivered(memory, pending, k.left, b);
      assert Delivered(m, p, k.right, b) <= Delivered(memory, pending, k.right, b);
      assert memory[b] <= m[b];
    }
  }

  /** Storing a match at the root changes no Beta node's parents' memories. */
  lemma RootStoreKeepsComplete(kinds: seq<Kind>, memory: seq<set<Fact>>, pending: set<Delivery>, f: Fact)
    requires |memory| == |kinds| && |kinds| > 0 && (forall j :: 0 <= j < |kinds| ==> WellWired(kinds, j))
    requires JoinsComplete(kinds, memory, pending)
    ensures JoinsComplete(kinds, memory[0 := memory[0] + {f}], pending)
  {
    var m := memory[0 := memory[0] + {f}];
    forall b | 0 <= b < |kinds| && kinds[b].Beta? && kinds[b].left < |kinds| && kinds[b].right < |kinds|
      ensures BetaComplete(kinds, m, pending, b)
    {
      var k := kinds[b];
      assert BetaComplete(kinds, memory, pending, b);
      assert WellWired(kinds, b) && WellWired(kinds, k.left) && WellWired(kinds, k.right) && WellWired(kinds, 0);
      assert b != 0 && k.left != 0 && k.right != 0;
      assert m[k.left] == memory[k.left] && m[k.right] == memory[k.right] && m[b] == memory[b];
      assert Delivered(m, pending, k.left, b) == Delivered(memory, pending, k.left, b);
      assert Delivered(m, pending, k.right, b) == Delivered(memory, pending, k.right, b);
    }
  }

  /** A notification that does not come from a Beta node's parent, or does not go to a
      Beta node, is no part of any join: handing it over keeps the joins complete. */
  lemma DropForeign(kinds: seq<Kind>, memory: seq<set<Fact>>, pending: set<Delivery>, t: Delivery)
    requires |memory| == |kinds| && JoinsComplete(kinds, memory, pending)
    requires t.2 < |kinds| ==> !kinds[t.2].Beta? || (t.0 != kinds[t.2].left && t.0 != kinds[t.2].right)
    ensures JoinsComplete(kinds, memory, pending - {t})
  {
    forall b | 0 <= b < |kinds| && kinds[b].Beta? && kinds[b].left < |kinds| && kinds[b].right < |kinds|
      ensures BetaComplete(kinds, memory, pending - {t}, b)
    {
      var k := kinds[b];
      assert BetaComplete(kinds, memory, pending, b);
      assert Delivered(memory, pending - {t}, k.left, b) == Delivered(memory, pending, k.left, b);
      assert Delivered(memory, pending - {t}, k.right, b) == Delivered(memory, pending, k.right, b);
    }
  }

  /** Only node b's own completeness depends on the notifications addressed to b. */
  lemma DropToBeta(kinds: seq<Kind>, memory: seq<set<Fact>>, pending: set<Delivery>, t: Delivery)
    requires |memory| == |kinds| && JoinsComplete(kinds, memory, pending)
    requires t.2 < |kinds| && kinds[t.2].Beta? && kinds[t.2].left < |kinds| && kinds[t.2].right < |kinds|
    requires BetaComplete(kinds, memory, pending - {t}, t.2)
    ensures JoinsComplete(kinds, memory, pending - {t})
  {
    forall b | 0 <= b < |kinds| && kinds[b].Beta? && kinds[b].left < |kinds| && kinds[b].right < |kinds|
      ensures BetaComplete(kinds, memory, pending - {t}, b)
    {
      if b != t.2 {
        var k := kinds[b];
        assert BetaComplete(kinds, memory, pending, b);
        assert Delivered(memory, pending - {t}, k.left, b) == Delivered(memory, pending, k.left, b);
        assert Delivered(memory, pending - {t}, k.right, b) == Delivered(memory, pending, k.right, b);
      }
    }
  }

  /** A match f from the left parent has been joined: b holds it when it meets the
      condition and the right parent holds something. Then the notification is done. */
  lemma LeftDelivered(kinds: seq<Kind>, memory: seq<set<Fact>>, pending: set<Delivery>, b: nat, f: Fact)
    requires |memory| == |kinds| && JoinsComplete(kinds, memory, pending)
    requires b < |kinds| && kinds[b].Beta? && kinds[b].left < |kinds| && kinds[b].right < |kinds|
    requires f in memory[kinds[b].left]
    requires MetBy(kinds[b].cond, f) && memory[kinds[b].right] != {} ==> f in memory[b]
    ensures JoinsComplete(kinds, memory, pending - {(kinds[b].left, f, b)})
  {
    var k, t := kinds[b], (kinds[b].left, f, b);
    var p := pending - {t};
    assert BetaComplete(kinds, memory, pending, b);
    var l0, r0 := Delivered(memory, pending, k.left, b), Delivered(memory, pending, k.right, b);
    var l1, r1 := Delivered(memory, p, k.left, b), Delivered(memory, p, k.right, b);
    assert l1 <= l0 + {f};
    assert k.left != k.right ==> r1 == r0;
    assert k.left == k.right ==> l0 == r0 && l1 == r1;
    if r1 != {} && r0 == {} {
      assert l1 <= {f};
    }
    assert BetaComplete(kinds, memory, p, b);
    DropToBeta(kinds, memory, pending, t);
  }

  /** A match from the right parent has been joined: b holds every left match that meets
      the condition. Then the notification is done. */
  lemma RightDelivered(kinds: seq<Kind>, memory: seq<set<Fact>>, pending: set<Delivery>, b: nat, f: Fact)
    requires |memory| == |kinds| && JoinsComplete(kinds, memory, pending)
    requires b < |kinds| && kinds[b].Beta? && kinds[b].left < |kinds| && kinds[b].right < |kinds|
    requires Filter(kinds[b].cond, memory[kinds[b].left]) <= memory[b]
    ensures JoinsComplete(kinds, memory, pending - {(kinds[b].right, f, b)})
  {
    var k, t := kinds[b], (kinds[b].right, f, b);
    assert Delivered(memory, pending - {t}, k.left, b) <= memory[k.left];
    assert BetaComplete(kinds, memory, pending - {t}, b);
    DropToBeta(kinds, memory, pending, t);
  }

  /** Once no notification is on its way, a Beta node holds exactly the left parent's
      matches that meet its condition when the right parent holds something, and nothing
      otherwise. */
  lemma SettledBetaExact(kinds: seq<Kind>, memory: seq<set<Fact>>, b: nat)
    requires |memory| == |kinds| && (forall j :: 0 <= j < |kinds| ==> WellWired(kinds, j))
    requires AllSound(kinds, memory) && Derived(kinds, memory) && Guarded(kinds, memory)
    requires JoinsComplete(kinds, memory, {})
    requires b < |kinds| && kinds[b].Beta?
    ensures kinds[b].left < |kinds| && kinds[b].right < |kinds|
    ensures memory[b] == if memory[kinds[b].right] == {} then {} else Filter(kinds[b].cond, memory[kinds[b].left])
  {
    var k := kinds[b];
    assert WellWired(kinds, b);
    assert Sound(k, memory[b]);
    assert BetaComplete(kinds, memory, {}, b);
    NothingPending(memory, k.left, b);
    NothingPending(memory, k.right, b);
  }

  /** A new node starts with an empty memory: this keeps the joins complete, except for a
      new Beta node whose right parent already holds something and whose left parent holds
      a match meeting its condition (existing matches are not replayed into it). */
  lemma AppendKeepsComplete(kinds: seq<Kind>, memory: seq<set<Fact>>, k: Kind)
    requires |memory| == |kinds| && (forall j :: 0 <= j < |kinds| ==> WellWired(kinds, j))
    requires WellWired(kinds + [k], |kinds|) && JoinsComplete(kinds, memory, {})
    ensures k.Beta? ==> k.left < |kinds| && k.right < |kinds|
    ensures JoinsComplete(kinds + [k], memory + [{}], {}) <==>
      !k.Beta? || memory[k.right] == {} || Filter(k.cond, memory[k.left]) == {}
  {
    var ks, m, n := kinds + [k], memory + [{}], |kinds|;
    assert ks[n] == k;
    assert WellWired(ks, n);
    forall b | 0 <= b < n && ks[b].Beta? && ks[b].left < |ks| && ks[b].right < |ks|
      ensures BetaComplete(ks, m, {}, b)
    {
      assert ks[b] == kinds[b] && m[b] == memory[b];
      assert WellWired(kinds, b);
      assert BetaComplete(kinds, memory, {}, b);
      assert m[kinds[b].left] == memory[kinds[b].left] && m[kinds[b].right] == memory[kinds[b].right];
      assert Delivered(m, {}, kinds[b].left, b) == Delivered(memory, {}, kinds[b].left, b);
      assert Delivered(m, {}, kinds[b].right, b) == Delivered(memory, {}, kinds[b].right, b);
    }
    if k.Beta? {
      assert m[k.left] == memory[k.left] && m[k.right] == memory[k.right] && m[n] == {};
      NothingPending(m, k.left, n);
      NothingPending(m, k.right, n);
      if memory[k.right] == {} || Filter(k.cond, memory[k.left]) == {} {
        assert BetaComplete(ks, m, {}, n);
      } else {
        assert !BetaComplete(ks, m, {}, n);
      }
    }
  }

  /** Every Alpha node holds exactly the root's matches that meet its condition. Inserts
      keep this; a new Alpha node starts empty, so it holds only while the root is empty. */
  ghost predicate AlphasExact(kinds: seq<Kind>, memory: seq<set<Fact>>)
    requires |memory| == |kinds| && |kinds| > 0
  {
    forall a :: 0 < a < |kinds| && kinds[a].Alpha? ==> memory[a] == Filter(kinds[a].cond, memory[0])
  }

  /** A new match at the root, taken by exactly the Alpha nodes it meets, keeps every
      Alpha node exact. */
  lemma RootStepKeepsExact(kinds: seq<Kind>, before: seq<set<Fact>>, after: seq<set<Fact>>, m: Fact)
    requires |before| == |kinds| && |after| == |kinds| && |kinds| > 0
    requires AlphasExact(kinds, before)
    requires after[0] == before[0] + {m}
    requires forall a :: 0 <= a < |kinds| && kinds[a].Alpha? ==>
      after[a] == before[a] + (if MetBy(kinds[a].cond, m) then {m} else {})
    ensures AlphasExact(kinds, after)
  {
    forall a | 0 < a < |kinds| && kinds[a].Alpha?
      ensures after[a] == Filter(kinds[a].cond, after[0])
    {
      FilterAdd(kinds[a].cond, before[0], m);
    }
  }

  /** A new node starts with an empty memory: this keeps every Alpha node exact, except a
      new Alpha node added after the root has seen a match. */
  lemma AppendKeepsExact(kinds: seq<Kind>, memory: seq<set<Fact>>, k: Kind)
    requires |memory| == |kinds| && |kinds| > 0 && AlphasExact(kinds, memory)
    ensures AlphasExact(kinds + [k], memory + [{}]) <==> !k.Alpha? || Filter(k.cond, memory[0]) == {}
  {
    var ks, m := kinds + [k], memory + [{}];
    assert m[0] == memory[0];
    if !k.Alpha? || Filter(k.cond, memory[0]) == {} {
      forall a | 0 < a < |ks| && ks[a].Alpha?
        ensures m[a] == Filter(ks[a].cond, m[0])
      {
        if a < |kinds| {
          assert ks[a] == kinds[a] && m[a] == memory[a];
        }
      }
    } else {
      assert ks[|kinds|] == k && m[|kinds|] == {};
    }
  }

  /** The memories of a network at rest: wired and sound, every Alpha node exact and
      every join complete with nothing on its way. */
  ghost predicate Settled(kinds: seq<Kind>, memory: seq<set<Fact>>)
    requires |memory| == |kinds| && |kinds| > 0
  {
    && (forall j :: 0 <= j < |kinds| ==> WellWired(kinds, j))
    && AllSound(kinds, memory) && Derived(kinds, memory) && Guarded(kinds, memory)
    && JoinsComplete(kinds, memory, {}) && AlphasExact(kinds, memory)
  }

  /** At rest, the root's memory decides every other memory: the facts inserted decide the
      state, whatever the order they came in. By induction over the node ids, since every
      parent is older than its child. */
  lemma {:induction false} Determined(kinds: seq<Kind>, m1: seq<set<Fact>>, m2: seq<set<Fact>>, n: nat)
    requires |m1| == |kinds| && |m2| == |kinds| && |kinds| > 0
    requires Settled(kinds, m1) && Settled(kinds, m2) && m1[0] == m2[0] && n <= |kinds|
    ensures forall j :: 0 <= j < n ==> m1[j] == m2[j]
  {
    if n > 0 {
      Determined(kinds, m1, m2, n - 1);
      var j := n - 1;
      assert WellWired(kinds, j);
      match kinds[j]
      case Root =>
      case Alpha(c, _, _) =>
        assert m1[j] == Filter(c, m1[0]) && m2[j] == Filter(c, m2[0]);
      case Beta(c, l, r, _) =>
        SettledBetaExact(kinds, m1, j);
        SettledBetaExact(kinds, m2, j);
        assert m1[l] == m2[l] && m1[r] == m2[r];
      case Leaf(_) =>
        assert Sound(kinds[j], m1[j]) && Sound(kinds[j], m2[j]);
    }
  }

  predicate RegistryConsistent(kinds: seq<Kind>, instances: map<string, Instance>) {
    forall s :: s in instances ==> Registered(kinds, s, instances[s])
  }

  /** The children after a node of kind k gets the id |children|: it joins the children
      of each of its parents and has none of its own. */
  function WithChild(children: seq<set<nat>>, k: Kind): (r: seq<set<nat>>)
    ensures |r| == |children| + 1 && r[|children|] == {}
    ensures forall i :: 0 <= i < |children| ==>
      r[i] == if ParentOf(k, i) then children[i] + {|children|} else children[i]
  {
    seq(|children| + 1, i requires 0 <= i <= |children| =>
      if i == |children| then {} else if ParentOf(k, i) then children[i] + {|children|} else children[i])
  }

  /** Appending a node whose parents exist keeps the graph wired. */
  lemma AppendKeepsWired(kinds: seq<Kind>, children: seq<set<nat>>, k: Kind)
    requires Wired(kinds, children) && !k.Root? && WellWired(kinds + [k], |kinds|)
    ensures Wired(kinds + [k], WithChild(children, k))
  {
    var ks, cs, n := kinds + [k], WithChild(children, k), |kinds|;
    forall i | 0 <= i < |ks|
      ensures WellWired(ks, i)
    {
      if i < n {
        assert WellWired(kinds, i);
        assert ks[i] == kinds[i];
      }
    }
    forall i, c | 0 <= i < |ks| && c in cs[i]
      ensures i < c < |ks| && ParentOf(ks[c], i)
    {
      if i < n {
        assert cs[i] == if ParentOf(k, i) then children[i] + {n} else children[i];
        if c in children[i] {
          assert i < c < n && ParentOf(kinds[c], i);
          assert ks[c] == kinds[c];
        } else {
          assert c == n && ParentOf(k, i);
          assert ks[c] == k;
        }
      }
    }
  }

  /** Appending a node and storing its signature keeps every entry under the signature
      of what it holds. */
  lemma AppendKeepsRegistry(kinds: seq<Kind>, instances: map<string, Instance>, k: Kind)
    requires RegistryConsistent(kinds, instances)
    ensures RegistryConsistent(kinds + [k], instances[KindSignature(k) := NodeInstance(|kinds|)])
  {
    var ks, ins := kinds + [k], instances[KindSignature(k) := NodeInstance(|kinds|)];
    forall s | s in ins
      ensures Registered(ks, s, ins[s])
    {
      if s != KindSignature(k) {
        assert Registered(kinds, s, instances[s]);
        match instances[s]
        case CondInstance(c) =>
        case NodeInstance(id) => assert ks[id] == kinds[id];
      }
    }
  }
}
