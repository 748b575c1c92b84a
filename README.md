# JsonRete core in Dafny

JsonRete is an early RETE-style rule engine. It works on JSON documents ("facts", dicts from
string keys to JSON values). Facts enter a discrimination network:

- a single `RootNode` stores every fact once and hands new ones to its children;
- `AlphaNode`s test a single condition on the fact;
- `BetaNode`s join a left parent (Alpha or Beta) with a right parent (Alpha);
- `LeafNode`s end a path.

Every node keeps a memory of the matches it has stored and a set of children. Conditions
(`IsStarted`, `IsEmpty`, `HasKey`, `HasValue`) and nodes are interned by a `Singleton`
metaclass. The metaclass remembers the first instance made under each call signature: the
class name, the `str()` of the positional arguments and the keyword-argument names, joined
by `_`. A `Session` hands inserted facts to the root.

The model has six modules:

- `Values` (`values.dfy`): JSON values, facts, the `Payload` record, and the Python objects a
  node or condition can be handed (`None`, a dict, a Payload tuple). It also has the text
  forms the signatures and canonical forms are built from: `str()`, `repr()`, `json.dumps()`
  and `'_'.join`.
- `Conditions` (`conditions.dfy`): the four conditions as one datatype, their test `is_met`
  on each kind of object (with the `TypeError` on `None`), and their canonical form.
- `Interning` (`interning.dfy`): signatures, and the registry as a class whose `Intern`
  method is `Singleton.__call__`.
- `Graph` (`graph.dfy`): what a node is (its kind, parents and signature), how nodes are
  wired, what their memories may hold, and the lemmas the network's methods use to keep
  those facts. It also has the two properties of whole memories: Alpha nodes hold exactly
  the root's matches that meet their condition, and the joins are complete.
- `Network` (`network.dfy`): the node graph as one class. Every node is an id into `kinds`,
  `memory` and `children`, and the class shares the registry with conditions. It has the
  node constructors (interned, with the new child added to each parent's children) and the
  notification cascade, as mutually recursive methods. These methods keep the invariant
  `Valid()`:
  - the graph is wired as the constructors' parameter types ask;
  - a parent has a smaller id than its child;
  - `children` holds exactly the nodes built on a parent;
  - every stored match meets its node's condition;
  - a Beta node only stores what its left parent holds, and stores nothing while its right
    parent holds nothing;
  - a Leaf node stores nothing;
  - every registry entry sits under the signature of what it holds.
- `Sessions` (`sessions.dfy`): `Session.build` and `Session.insert`.

A Beta join is complete when the Beta node holds every left-parent match that meets its
condition as soon as its right parent holds anything. During a cascade this holds only up to
the notifications still on their way. A notification is a triple: sender, match, child. The
cascade methods take the set of such triples as a ghost parameter. Storing a match puts its
notification to each child of the node on the list. Each `BetaNotify` takes one off. Once an
insert ends, nothing is on its way, and `Graph.SettledBetaExact` gives the content of every
Beta memory: the left memory's entries that meet the condition when the right memory is
non-empty, and nothing otherwise.

Python's sets are iterated in an unspecified order. The model's loops take an arbitrary
element of the pending set, so every proof holds for every iteration order. Object identity
(`source == self.left_parent`, the default object repr inside a node's signature) is node-id
equality, and `<node N>` is the text of the node with id N.

Where the code as written cannot run as intended, the model follows the evidently intended
behaviour and keeps the as-written behaviour as a separate member. The table under
"## Findings" lists each case.

## Model

| member | source | states |
|---|---|---|
| Values.MatchOf | src/main/python/jsonrety/__init__.py:114 | reading `.match` succeeds exactly on a Payload tuple, where it gives the match; on a dict or None it raises AttributeError |
| Values.HashAsWritten | src/main/python/jsonrety/__init__.py:114-115 | a set lookup or insertion hashes its object; only None hashes, and a dict or a Payload tuple raises TypeError |
| Values.DecimalInjective | src/main/python/jsonrety/__init__.py:62 | different numbers have different decimal texts, so a node id written into a signature identifies the node |
| Values.IntText | src/main/python/jsonrety/__init__.py:62 | str() of an int starts with a minus sign exactly when the int is negative, and the rest is digits |
| Values.IntTextInjective | src/main/python/jsonrety/__init__.py:62 | different ints have different str() texts |
| Values.PyStr | src/main/python/jsonrety/__init__.py:62 | str() of a value, the text a positional argument puts into a signature; a list is bracketed |
| Values.PyRepr | src/main/python/jsonrety/__init__.py:62 | repr() of a list item: a string is its text in single quotes; any other value is its str() |
| Values.PyReprItems | src/main/python/jsonrety/__init__.py:62 | the items of a list's str(): the first item's repr leads, followed by ", " when more follow |
| Values.Json | src/main/python/jsonrety/__init__.py:90-102 | json.dumps of a value: a string is double-quoted (the form `JsonString` gives a key at :90 and :102), a list bracketed |
| Values.JsonItems | src/main/python/jsonrety/__init__.py:101-102 | the items of a list's json.dumps: the first item's form leads, followed by ", " when more follow |
| Values.JsonStringInjective | src/main/python/jsonrety/__init__.py:90 | different keys have different json.dumps forms |
| Values.IntAndStringTexts | src/main/python/jsonrety/__init__.py:62-102 | str() gives the int i and the string of its digits the same text; repr() and json.dumps() tell them apart |
| Values.JoinUnderscore | src/main/python/jsonrety/__init__.py:62 | '_'.join: the joined text starts with the first part, followed by '_' when more follow; no parts give the empty text |
| Values.JoinUnderscoreLast | src/main/python/jsonrety/__init__.py:62 | '_'.join: the joined text ends with the last part |
| Conditions.IsMet | src/main/python/jsonrety/__init__.py:69-105 | is_met on None, a dict or a Payload tuple: it raises exactly when a HasKey or HasValue test gets None, and the error is TypeError; IsStarted is met exactly by None; any other condition that is met was given a dict; a Payload tuple meets nothing |
| Conditions.MetBy | src/main/python/jsonrety/__init__.py:73-105 | the test on a fact never raises and is, per variant: IsStarted never, IsEmpty iff the fact is empty, HasKey iff the key is present, HasValue iff the key is present with an equal value |
| Conditions.HasValueImpliesHasKey | src/main/python/jsonrety/__init__.py:92-105 | a fact meeting HasValue(k, v) meets HasKey(k) |
| Conditions.EmptyMeetsNoKey | src/main/python/jsonrety/__init__.py:81-105 | a fact meeting IsEmpty meets no HasKey and no HasValue condition |
| Conditions.PayloadMeetsNothing | src/main/python/jsonrety/__init__.py:130 | testing the whole Payload tuple, as the Alpha node does, gives False for every condition and payload |
| Conditions.PayloadTestMissesMatch | src/main/python/jsonrety/__init__.py:130 | the fact {"k1": "v1"} meets HasKey("k1"), but the Payload carrying it does not |
| Conditions.Repr | src/main/python/jsonrety/__init__.py:70-102 | the canonical form is at least two characters long; it starts with 'N' exactly for IsStarted; every other form is wrapped in braces; it is `{}` exactly for IsEmpty |
| Conditions.ReprHasKeyInjective | src/main/python/jsonrety/__init__.py:89-90 | equal HasKey forms have equal keys |
| Conditions.ReprUnique | src/main/python/jsonrety/__init__.py:70-102 | for conditions whose keys hold no double quote and whose HasValue value is not a float, equal forms mean the same variant, the same key, and for HasValue the same json.dumps of the value |
| Conditions.QuotedKeyDetermined | src/main/python/jsonrety/__init__.py:90 | a quoted key without inner quotes, followed by anything, fixes both the key and what follows |
| Conditions.ReprKeepsTypes | src/main/python/jsonrety/__init__.py:101-102 | the forms of HasValue(k, 1) and HasValue(k, '1') differ |
| Interning.Signature | src/main/python/jsonrety/__init__.py:62 | a signature starts with the first letter of its class name |
| Interning.KeywordValuesIgnored | src/main/python/jsonrety/__init__.py:62 | unpacking the keyword arguments yields only their names, so calls that differ only in keyword-argument values share a signature |
| Interning.ConditionSignature | src/main/python/jsonrety/__init__.py:62 | a condition's signature is non-empty and starts with 'H' or 'I' |
| Interning.HasKeySignatureInjective | src/main/python/jsonrety/__init__.py:62 | two HasKey signatures are equal iff their keys are |
| Interning.HasValueSignature | src/main/python/jsonrety/__init__.py:62 | the signature of HasValue(k, v) is the class name, the key and the str() of the value, joined by '_' |
| Interning.IntAndStringShareSignature | src/main/python/jsonrety/__init__.py:62-66 | HasValue(k, 1) and HasValue(k, '1') share a signature although their forms differ; the interned instance for value 1 is not met by {k: '1'}, and HasValue(k, '1') is |
| Interning.UnderscoreSignaturesCollide | src/main/python/jsonrety/__init__.py:62 | HasValue('a_b', 'c') and HasValue('a', 'b_c') share a signature |
| Interning.NodeText | src/main/python/jsonrety/__init__.py:62 | the text a node contributes to a signature is non-empty |
| Interning.NodeTextInjective | src/main/python/jsonrety/__init__.py:62 | different node ids give different node texts |
| Interning.AlphaSignature | src/main/python/jsonrety/__init__.py:121 | an AlphaNode signature starts with 'A' |
| Interning.BetaSignature | src/main/python/jsonrety/__init__.py:137-141 | a BetaNode signature starts with 'B' |
| Interning.LeafSignature | src/main/python/jsonrety/__init__.py:173 | a LeafNode signature starts with 'L' |
| Interning.AlphaSignatureUnnamed | src/main/python/jsonrety/__init__.py:121 | an unnamed AlphaNode signature is the class name, the condition's form and the parent's text, joined by '_' |
| Interning.AlphaSignatureNamesParent | src/main/python/jsonrety/__init__.py:121 | two unnamed AlphaNodes on one condition share a signature iff they share the parent |
| Interning.AlphaSignatureNamesForm | src/main/python/jsonrety/__init__.py:121 | two unnamed AlphaNodes under one parent share a signature (built at :62) iff their conditions share a canonical form |
| Interning.AlphaSignatureNamesCondition | src/main/python/jsonrety/__init__.py:121 | under one parent, unnamed AlphaNodes on two conditions whose keys hold no double quote and whose HasValue values are not floats share a signature only for the same condition, or for HasValue conditions on one key whose values print alike |
| Interning.KeywordNameIgnored | src/main/python/jsonrety/__init__.py:121 | AlphaNodes that differ only in a name passed by keyword share a signature |
| Interning.Registry.constructor | src/main/python/jsonrety/__init__.py:59 | the registry starts empty |
| Interning.Registry.Intern | src/main/python/jsonrety/__init__.py:61-66 | a known signature returns the stored instance and changes nothing; an unknown one stores and returns the new instance; afterwards the signature maps to the returned instance and no entry is lost |
| Graph.KindSignature | src/main/python/jsonrety/__init__.py:62 | a node's signature starts with its class initial, so nodes of different classes never share one |
| Graph.WithChild | src/main/python/jsonrety/__init__.py:126 | a new node joins the children of exactly its parents and has no children itself |
| Graph.AppendKeepsWired | src/main/python/jsonrety/__init__.py:147-148 | adding a node whose parents exist keeps the graph wired |
| Graph.AppendKeepsRegistry | src/main/python/jsonrety/__init__.py:64 | storing a new node under its signature keeps every registry entry under the signature of what it holds |
| Graph.Filter | src/main/python/jsonrety/__init__.py:157-158 | the facts of a set that meet a condition: a subset, with membership iff the fact is in the set and meets the condition |
| Graph.FilterAdd | src/main/python/jsonrety/__init__.py:157-158 | filtering one more fact adds it exactly when it meets the condition |
| Graph.JoinStep | src/main/python/jsonrety/__init__.py:157-158 | each join attempt over the left memory extends the filtered part by one entry |
| Graph.StoreKeepsInvariants | src/main/python/jsonrety/__init__.py:131 | storing a match that meets the node's condition (and, at a Beta node, is held by the left parent while the right parent holds something) keeps every memory sound, derived and guarded |
| Graph.AppendKeepsInvariants | src/main/python/jsonrety/__init__.py:123 | a new node with an empty memory keeps every memory sound, derived and guarded |
| Graph.RootStepKeepsExact | src/main/python/jsonrety/__init__.py:113-133 | when the root stores a new match and exactly the Alpha nodes it meets take it, every Alpha node still holds exactly the root's matches that meet its condition |
| Graph.AppendKeepsExact | src/main/python/jsonrety/__init__.py:120-127 | a new node keeps the Alpha nodes exact iff it is not an Alpha node or none of the root's matches meet its condition (existing facts are not replayed into it) |
| Graph.AlphaStep | src/main/python/jsonrety/__init__.py:116-117 | notifying one more Alpha child moves it from pending to done |
| Graph.MorePendingComplete | src/main/python/jsonrety/__init__.py:151-169 | taking more notifications as on their way keeps the joins complete |
| Graph.StoreKeepsComplete | src/main/python/jsonrety/__init__.py:131-133 | storing a match at a node (here, and at a Beta node at 167-169), with its notification to each child on its way, keeps the joins complete |
| Graph.RootStoreKeepsComplete | src/main/python/jsonrety/__init__.py:115 | storing a match at the root keeps the joins complete: the root is no Beta parent |
| Graph.DropForeign | src/main/python/jsonrety/__init__.py:151-161 | a notification to a Leaf node (178-179), or to a Beta node from a node that is not its parent, is done without touching any join |
| Graph.LeftDelivered | src/main/python/jsonrety/__init__.py:152-154 | a left match is done at a Beta node once the Beta memory holds it whenever it meets the condition and the right memory is non-empty |
| Graph.RightDelivered | src/main/python/jsonrety/__init__.py:156-158 | a right match is done at a Beta node once the Beta memory holds every left entry that meets the condition |
| Graph.SettledBetaExact | src/main/python/jsonrety/__init__.py:151-169 | with no notification on its way, a Beta node holds exactly the left memory's entries that meet its condition when the right memory is non-empty, and nothing otherwise |
| Graph.Determined | src/main/python/jsonrety/__init__.py:113-169 | at rest (sound, Alpha nodes exact, joins complete), the root's memory decides every node's memory, so the facts inserted decide the state whatever their order |
| Graph.AppendKeepsComplete | src/main/python/jsonrety/__init__.py:136-149 | a new node keeps the joins complete iff it is not a Beta node, or its right memory is empty, or no left entry meets its condition (existing matches are not replayed into it) |
| Network.Truthy | src/main/python/jsonrety/__init__.py:165 | the truth value of `left_payload`: false exactly for None and the empty dict |
| Network.RootNotifyAsWritten | src/main/python/jsonrety/__init__.py:113-115 | RootNode.notify as written: a Payload raises TypeError (its match, a dict, is unhashable), anything else AttributeError |
| Network.RootNotifyAsWrittenRaises | src/main/python/jsonrety/__init__.py:113-115 | the Payload ({"k1": "v1"}, {}) sent to the root raises TypeError |
| Network.JoinAsWritten | src/main/python/jsonrety/__init__.py:163-169 | _notify as written on the objects it gets: from the left parent (a Payload tuple) nothing is ever stored; from the right parent, a non-empty left entry (a dict) that meets the condition raises AttributeError; an empty one is falsy, so the right payload is taken and hashing its match raises TypeError; nothing is ever stored |
| Network.RightJoinAsWrittenRaises | src/main/python/jsonrety/__init__.py:156-167 | HasKey("k1") with the left entry {"k1": "v1"} and a Payload from the right raises AttributeError |
| Network.Network.constructor | src/main/python/jsonrety/__init__.py:108-111 | a fresh network is one root with empty memory and children, registered as RootNode |
| Network.Network.GetRoot | src/main/python/jsonrety/__init__.py:108 | RootNode() always returns the root, node 0 |
| Network.Network.MakeCondition | src/main/python/jsonrety/__init__.py:61-66 | a condition call returns the condition stored under its signature, if any, and changes nothing; otherwise it stores and returns the new condition |
| Network.Network.AppendNode | src/main/python/jsonrety/__init__.py:64 | a new node is appended with an empty memory, joins its parents' children and is registered under its signature |
| Network.Network.StoredNode | src/main/python/jsonrety/__init__.py:66 | a known node signature gives the stored node, of the same class |
| Network.Network.AddAlpha | src/main/python/jsonrety/__init__.py:120-127 | AlphaNode(cond, parent[, name]) on an interned condition: a known signature gives the stored node and changes nothing; otherwise a new Alpha node under the root, in the root's children, with an empty memory |
| Network.Network.AddBeta | src/main/python/jsonrety/__init__.py:136-149 | BetaNode(cond, left, right[, name]): as AddAlpha, and a new node joins the children of both parents |
| Network.Network.AddLeaf | src/main/python/jsonrety/__init__.py:172-176 | LeafNode(parent): as AddAlpha, under an Alpha or a Beta parent |
| Network.Network.Store | src/main/python/jsonrety/__init__.py:131 | `memory.add(match)` at one node: only that memory gains the match, and the network invariant holds |
| Network.Network.RootNotify | src/main/python/jsonrety/__init__.py:113-117 | a match seen before changes nothing; afterwards the root holds the match; a new match is taken by exactly the Alpha nodes whose condition it meets; memories only grow; exact Alpha nodes stay exact and complete joins stay complete |
| Network.Network.RootTake | src/main/python/jsonrety/__init__.py:114-117 | a new match is stored at the root and taken by exactly the Alpha nodes whose condition it meets; memories only grow; exact Alpha nodes stay exact and complete joins stay complete |
| Network.Network.NotifyAlphas | src/main/python/jsonrety/__init__.py:116-117 | the loop over the root's children notifies every Alpha node, and each takes the match iff it meets its condition; the joins stay complete |
| Network.Network.AlphaNotify | src/main/python/jsonrety/__init__.py:129-133 | the Alpha memory gains the match iff it meets the condition; an unmet or known match changes nothing at all; no Root, Alpha or Leaf memory elsewhere changes; nothing shrinks; the joins stay complete |
| Network.Network.Forward | src/main/python/jsonrety/__init__.py:132-133 | handing a stored match to every child completes its notifications: the joins are complete without them; only Beta nodes younger than the sender change, and memories only grow; Leaf children do nothing (178-179) |
| Network.Network.BetaNotify | src/main/python/jsonrety/__init__.py:151-161 | the call completes iff the source is the left or right parent, and from any other node it raises ValueError and changes nothing; from the left it stores the payload's match iff it meets the condition and the right memory is non-empty; from the right it stores exactly the left memory's entries that meet the condition; the notification is then done |
| Network.Network.FromLeft | src/main/python/jsonrety/__init__.py:152-154 | one join per right-memory entry; the Beta memory gains the payload's match iff it meets the condition and the right memory is non-empty |
| Network.Network.FromRight | src/main/python/jsonrety/__init__.py:156-158 | one join per left-memory entry; the Beta memory gains exactly the left entries that meet the condition |
| Network.Network.Join | src/main/python/jsonrety/__init__.py:163-169 | one join attempt: the Beta memory gains the left match iff it meets the condition, the right payload is dropped; an unmet or known match changes nothing at all; a new one is handed on, and the joins stay complete |
| Sessions.InsertAsWritten | src/main/python/jsonrety/__init__.py:191-192 | passing the raw dict to RootNode.notify raises AttributeError for every item |
| Sessions.Session.constructor | src/main/python/jsonrety/__init__.py:188-189 | the session keeps the network it is given |
| Sessions.Session.Build | src/main/python/jsonrety/__init__.py:183-186 | a new session on the network whose root RootNode() returns |
| Sessions.Session.Insert | src/main/python/jsonrety/__init__.py:191-193 | inserting a fact seen before changes nothing; a new fact is stored at the root and taken by exactly the Alpha nodes it meets; the network invariant holds, exact Alpha nodes stay exact and complete joins stay complete |

## Left out

- `build.py` (the PyBuilder project file) is not part of this model.
- The rule grammar in the module docstring (assignments, `$v` bindings, `not`/`all`/`exist`) is not implemented in the source and is not modelled.
- `Rule`, `RuleBase` and the `rules` argument of `Session.build` are empty or unread in the source, so there is nothing to model.
- The `__main__` demo, which prints conditions and root nodes, is output only.
- The abstract `Condition` base class raising `NotImplementedError` is replaced by a closed datatype of the four variants.
- `json.dumps` escaping is not modelled: strings are quoted as they are. Python's `repr()` of a string inside a list is quoted without escaping either.
- Conditions.Repr: in the source, json.dumps escapes, so each condition's form is unique to its variant and parameters. In the model it is not: keys with a double quote are not escaped, and a float token may print as anything, even as the `_` of a HasKey form. `Conditions.ReprUnique` proves uniqueness only for keys without a double quote and HasValue values that are not floats; even then, two HasValue values are only shown to print alike, not to be equal.
- Floats are opaque tokens, compared and printed as the token. Python's cross-type equality (`True == 1 == 1.0`) is not modelled: values of different variants are different values.
- The `name` argument of the node constructors is kept only as part of the signature. The source stores it and never reads it.
- Conditions are signed as if always built with positional arguments, as the source does. `ConditionSignature` does not cover keyword-argument construction (`HasKey(key='k')`), whose signature would drop the key.
- Object identity and the default object repr are replaced by node ids; the registry holds node ids.
- The `right` parameter of `is_met` is not a parameter of `Conditions.IsMet`, because no variant reads it.
- Network.Network.Forward: the children of an Alpha or Beta node are notified with the sender's id. The contract states what may change (Beta nodes younger than the sender, and nothing shrinks) and that the joins are complete afterwards. It gives the exact content of each descendant Beta memory only through `Graph.SettledBetaExact`, once the whole insert has ended.
- Nodes built after facts were inserted start empty and are not filled with the existing facts, as in the source. `Graph.AppendKeepsExact` and `Graph.AppendKeepsComplete` state exactly when exactness and completeness survive that.
- The shared class-level registry is one registry per network object. Two `Network` objects do not share a registry, whereas in Python every RootNode call in the process returns the same root.

## Findings

| source | as written | input that shows it | evidently intended | confidence | as-written member | corrected member |
|---|---|---|---|---|---|---|
| src/main/python/jsonrety/__init__.py:130 | the Alpha node tests `is_met(payload)` on the whole Payload tuple; the Beta join at :164 does the same with the left payload | Payload({"k1": "v1"}, {}) at an Alpha node on HasKey("k1"): `'k1' in payload` compares the key with the tuple's two dicts and is False, so no condition is ever met and nothing passes the Alpha layer | test the payload's match | not executed | Conditions.PayloadTestMissesMatch | Network.Network.AlphaNotify |
| src/main/python/jsonrety/__init__.py:192 | `Session.insert` passes the raw dict to `RootNode.notify`, which reads `payload.match` (:114) | insert({"k1": "v1"}) raises AttributeError | wrap the item as Payload(item, {}) | not executed | Sessions.InsertAsWritten | Sessions.Session.Insert |
| src/main/python/jsonrety/__init__.py:157-158 | memories hold bare matches (dicts), but the Beta node passes memory entries to `_notify` as payloads; `left_payload or right_payload` is then that dict, and `.match` is read on it (:166); an empty entry is falsy, so the right payload is taken, and its match, a dict, is hashed (:166) | HasKey("k1") as a Beta condition, left memory holding {"k1": "v1"}, a Payload arriving from the right parent: AttributeError | read a memory entry back as Payload(entry, {}) | not executed | Network.JoinAsWritten | Network.Network.FromRight |
| src/main/python/jsonrety/__init__.py:114-115 | node memories are Python sets of dicts; `payload.match not in self.memory` hashes a dict | any insert, e.g. Payload({"k1": "v1"}, {}) at the root: TypeError, unhashable dict | memories are sets of fact values | not executed | Network.RootNotifyAsWrittenRaises | Network.Network.Store |
