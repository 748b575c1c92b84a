/** The Singleton metaclass: one registry, shared by every interned class, that maps the
    signature of a constructor call to the instance it first made. Node identity, which the
    source writes into signatures through the default object repr, is a node id here. */
module Interning {
  import opened Values
  import opened Conditions

  /** What the registry holds: a condition instance or a node (by its id). */
  datatype Instance = CondInstance(cond: Condition) | NodeInstance(id: nat)

  /** How the optional `name` argument of a node constructor is passed. */
  datatype NameArg = NoName | PositionalName(name: string) | KeywordName(name: string)

  /** The signature of a call `cls(*args, **kwargs)`: the class name, the str() of each
      positional argument and then the KEYS of the keyword arguments (unpacking a dict
      yields its keys), joined by '_'. */
  function Signature(className: string, args: seq<string>, kwargs: seq<(string, string)>): (s: string)
    ensures |className| > 0 ==> |s| > 0 && s[0] == className[0]
  {
    JoinUnderscoreHeadIfAny(className, args + KeysOf(kwargs));
    JoinUnderscore([className] + args + KeysOf(kwargs))
  }

  lemma JoinUnderscoreHeadIfAny(className: string, rest: seq<string>)
    ensures |className| > 0 ==>
      |JoinUnderscore([className] + rest)| > 0 && JoinUnderscore([className] + rest)[0] == className[0]
  {
    if |className| > 0 {
      JoinUnderscoreHead([className] + rest);
    }
  }

  function KeysOf(kwargs: seq<(string, string)>): (keys: seq<string>)
    ensures |keys| == |kwargs|
    ensures forall i :: 0 <= i < |kwargs| ==> keys[i] == kwargs[i].0
  {
    seq(|kwargs|, i requires 0 <= i < |kwargs| => kwargs[i].0)
  }

  /** Keyword values never reach a signature: calls that differ only in them share one. */
  lemma KeywordValuesIgnored(className: string, args: seq<string>, kw1: seq<(string, string)>, kw2: seq<(string, string)>)
    requires |kw1| == |kw2|
    requires forall i :: 0 <= i < |kw1| ==> kw1[i].0 == kw2[i].0
    ensures Signature(className, args, kw1) == Signature(className, args, kw2)
  {
    assert KeysOf(kw1) == KeysOf(kw2);
  }

  /** The signature of a condition constructed with positional arguments. */
  function ConditionSignature(c: Condition): (s: string)
    ensures |s| > 0 && (s[0] == 'H' || s[0] == 'I')
  {
    match c
    case IsStarted => Signature("IsStarted", [], [])
    case IsEmpty => Signature("IsEmpty", [], [])
    case HasKey(k) => Signature("HasKey", [k], [])
    case HasValue(k, v) => Signature("HasValue", [k, PyStr(v)], [])
  }

  /** HasKey signatures tell keys apart. */
  lemma {:induction false} HasKeySignatureInjective(a: string, b: string)
    ensures ConditionSignature(HasKey(a)) == ConditionSignature(HasKey(b)) <==> a == b
  {
    var sa, sb := ConditionSignature(HasKey(a)), ConditionSignature(HasKey(b));
    assert KeysOf([]) == [];
    assert ["HasKey"] + [a] + [] == ["HasKey", a] && ["HasKey"] + [b] + [] == ["HasKey", b];
    JoinUnderscoreTwo("HasKey", a);
    JoinUnderscoreTwo("HasKey", b);
    if sa == sb {
      assert a == sa[7..] && b == sb[7..];
    }
  }

  /** A HasValue signature written out: the key and the str() of the value, each after '_'. */
  lemma HasValueSignature(k: string, v: Value)
    ensures ConditionSignature(HasValue(k, v)) == "HasValue_" + k + "_" + PyStr(v)
  {
    assert KeysOf([]) == [];
    assert ["HasValue"] + [k, PyStr(v)] + [] == ["HasValue", k, PyStr(v)];
    JoinUnderscoreThree("HasValue", k, PyStr(v));
  }

  /** str(1) == str('1'): HasValue(k, 1) and HasValue(k, '1') share a signature although
      their canonical forms differ, so the second call returns the first instance, whose
      expected value is the int 1 and is not met by {k: '1'}. */
  lemma IntAndStringShareSignature(k: string)
    ensures ConditionSignature(HasValue(k, Int(1))) == ConditionSignature(HasValue(k, Str("1")))
    ensures Repr(HasValue(k, Int(1))) != Repr(HasValue(k, Str("1")))
    ensures !MetBy(HasValue(k, Int(1)), map[k := Str("1")]) && MetBy(HasValue(k, Str("1")), map[k := Str("1")])
  {
    IntAndStringSignatures(k);
    ReprKeepsTypes(k);
    IntAndStringMet(k);
  }

  lemma IntAndStringSignatures(k: string)
    ensures ConditionSignature(HasValue(k, Int(1))) == ConditionSignature(HasValue(k, Str("1")))
  {
    HasValueSignature(k, Int(1));
    HasValueSignature(k, Str("1"));
    assert PyStr(Int(1)) == "1";
  }

  lemma IntAndStringMet(k: string)
    ensures !MetBy(HasValue(k, Int(1)), map[k := Str("1")]) && MetBy(HasValue(k, Str("1")), map[k := Str("1")])
  {
  }

  /** The '_' separator is ambiguous: keys and values that contain '_' can collide. */
  lemma UnderscoreSignaturesCollide()
    ensures ConditionSignature(HasValue("a_b", Str("c"))) == ConditionSignature(HasValue("a", Str("b_c")))
  {
    HasValueSignature("a_b", Str("c"));
    HasValueSignature("a", Str("b_c"));
  }

  /** How a node id stands in for the node in a signature (the source writes the default
      object repr there). */
  function NodeText(id: nat): (s: string)
    ensures |s| > 0
  {
    "<node " + Decimal(id) + ">"
  }

  function PositionalNames(name: NameArg): seq<string> {
    if name.PositionalName? then [name.name] else []
  }

  function KeywordNames(name: NameArg): seq<(string, string)> {
    if name.KeywordName? then [("name", name.name)] else []
  }

  /** AlphaNode(condition, parent[, name]): str(condition) is its canonical form. */
  function AlphaSignature(c: Condition, parent: nat, name: NameArg): (s: string)
    ensures |s| > 0 && s[0] == 'A'
  {
    Signature("AlphaNode", [Repr(c), NodeText(parent)] + PositionalNames(name), KeywordNames(name))
  }

  /** BetaNode(condition, left_parent, right_parent[, name]). */
  function BetaSignature(c: Condition, left: nat, right: nat, name: NameArg): (s: string)
    ensures |s| > 0 && s[0] == 'B'
  {
    Signature("BetaNode", [Repr(c), NodeText(left), NodeText(right)] + PositionalNames(name), KeywordNames(name))
  }

  /** LeafNode(parent). */
  function LeafSignature(parent: nat): (s: string)
    ensures |s| > 0 && s[0] == 'L'
  {
    Signature("LeafNode", [NodeText(parent)], [])
  }

  const RootSignature: string := "RootNode"

  /** The signature of an unnamed Alpha node, written out. */
  lemma AlphaSignatureUnnamed(c: Condition, p: nat)
    ensures AlphaSignature(c, p, NoName) == ("AlphaNode" + "_" + Repr(c) + "_") + NodeText(p)
  {
    var parts := [Repr(c), NodeText(p)];
    assert PositionalNames(NoName) == [] && KeywordNames(NoName) == [] && KeysOf([]) == [];
    assert parts + [] == parts;
    assert ["AlphaNode"] + parts + [] == ["AlphaNode", Repr(c), NodeText(p)];
    JoinUnderscoreThree("AlphaNode", Repr(c), NodeText(p));
  }

  lemma SameSuffix(head: string, x: string, y: string)
    requires head + x == head + y
    ensures x == y
  {
    assert x == (head + x)[|head|..];
    assert y == (head + y)[|head|..];
  }

  /** Different node ids give different node texts. */
  lemma NodeTextInjective(p1: nat, p2: nat)
    requires NodeText(p1) == NodeText(p2)
    ensures p1 == p2
  {
    SameFrame("<node ", Decimal(p1), Decimal(p2));
    DecimalInjective(p1, p2);
  }

  lemma SameFrame(head: string, x: string, y: string)
    requires head + x + ">" == head + y + ">"
    ensures x == y
  {
    var s := head + x + ">";
    assert x == s[|head|..|s| - 1];
  }

  /** Two Alpha nodes on the same condition, both without a name, share a signature only
      when they share the parent. */
  lemma {:induction false} AlphaSignatureNamesParent(c: Condition, p1: nat, p2: nat)
    ensures AlphaSignature(c, p1, NoName) == AlphaSignature(c, p2, NoName) <==> p1 == p2
  {
    AlphaSignatureUnnamed(c, p1);
    AlphaSignatureUnnamed(c, p2);
    if AlphaSignature(c, p1, NoName) == AlphaSignature(c, p2, NoName) {
      SameSuffix("AlphaNode" + "_" + Repr(c) + "_", NodeText(p1), NodeText(p2));
      NodeTextInjective(p1, p2);
    }
  }

  lemma SameMiddle(head: string, x: string, y: string, t1: string, t2: string)
    requires head + x + t1 + t2 == head + y + t1 + t2
    ensures x == y
  {
    var s := head + x + t1 + t2;
    assert |x| == |y|;
    assert x == s[|head|..|head| + |x|];
  }

  /** Two unnamed Alpha nodes under one parent share a signature exactly when their
      conditions share a canonical form. */
  lemma AlphaSignatureNamesForm(c1: Condition, c2: Condition, p: nat)
    ensures AlphaSignature(c1, p, NoName) == AlphaSignature(c2, p, NoName) <==> Repr(c1) == Repr(c2)
  {
    AlphaSignatureUnnamed(c1, p);
    AlphaSignatureUnnamed(c2, p);
    if AlphaSignature(c1, p, NoName) == AlphaSignature(c2, p, NoName) {
      SameMiddle("AlphaNode" + "_", Repr(c1), Repr(c2), "_", NodeText(p));
    }
  }

  /** So conditions that differ give different Alpha nodes on the root: unnamed Alpha nodes
      under one parent on plain conditions share a signature only for the same condition,
      or for HasValue conditions on one key whose values print alike. */
  lemma AlphaSignatureNamesCondition(c1: Condition, c2: Condition, p: nat)
    requires Plain(c1) && Plain(c2) && AlphaSignature(c1, p, NoName) == AlphaSignature(c2, p, NoName)
    ensures c1.HasValue? == c2.HasValue?
    ensures !c1.HasValue? ==> c1 == c2
    ensures c1.HasValue? ==> c1.key == c2.key && Json(c1.value) == Json(c2.value)
  {
    AlphaSignatureNamesForm(c1, c2, p);
    ReprUnique(c1, c2);
  }

  /** A name given by keyword leaves only the word "name" in the signature: two Alpha
      nodes that differ only in such a name are one node. */
  lemma KeywordNameIgnored(c: Condition, parent: nat, n1: string, n2: string)
    ensures AlphaSignature(c, parent, KeywordName(n1)) == AlphaSignature(c, parent, KeywordName(n2))
  {
    KeywordValuesIgnored("AlphaNode", [Repr(c), NodeText(parent)], [("name", n1)], [("name", n2)]);
    assert PositionalNames(KeywordName(n1)) == [] && PositionalNames(KeywordName(n2)) == [];
    assert [Repr(c), NodeText(parent)] + [] == [Repr(c), NodeText(parent)];
    assert KeywordNames(KeywordName(n1)) == [("name", n1)] && KeywordNames(KeywordName(n2)) == [("name", n2)];
  }

  /** Singleton._instances. */
  class Registry {
    var instances: map<string, Instance>

    constructor ()
      ensures instances == map[]
    {
      instances := map[];
    }

    /** Singleton.__call__: when the signature is present, the stored instance and no
        change; otherwise the freshly made instance, stored under the signature. */
    method Intern(sig: string, made: Instance) returns (inst: Instance)
      modifies this
      ensures sig in old(instances) ==> inst == old(instances)[sig] && instances == old(instances)
      ensures sig !in old(instances) ==> inst == made && instances == old(instances)[sig := made]
      ensures sig in instances && instances[sig] == inst && old(instances).Keys <= instances.Keys
    {
      if sig !in instances {
        instances := instances[sig := made];
      }
      inst := instances[sig];
    }
  }
}
