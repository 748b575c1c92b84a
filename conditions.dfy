/** The four condition variants of the network (IsStarted, IsEmpty, HasKey, HasValue) as
    a closed datatype, with their test `is_met` and their canonical text form. */
module Conditions {
  import opened Values

  datatype Condition =
    | IsStarted
    | IsEmpty
    | HasKey(key: string)
    | HasValue(key: string, value: Value)

  /** is_met(left, right=None). No variant reads `right`, so it is not a parameter here; a
      Beta node's join test is therefore this test on its left payload.
      `left` is any of the objects the core can pass: None, a dict or a Payload tuple.
      Python's `key in left` raises a TypeError on None; on a tuple it compares the key with
      the tuple's two fields, which are dicts, so a string key is never "in" a Payload. */
  function IsMet(c: Condition, left: Subject): (r: Result<bool>)
    ensures r.Err? <==> left.NoneObject? && (c.HasKey? || c.HasValue?)
    ensures r.Err? ==> r.error == TypeError
    ensures c.IsStarted? ==> (r == Ok(true) <==> left.NoneObject?)
    ensures r == Ok(true) && !c.IsStarted? ==> left.DictObject?
  {
    match c
    case IsStarted => Ok(left.NoneObject?)
    case IsEmpty => Ok(left == DictObject(map[]))
    case HasKey(k) =>
      (match left
       case NoneObject => Err(TypeError)
       case DictObject(f) => Ok(k in f)
       case PayloadObject(_) => Ok(false))
    case HasValue(k, v) =>
      (match left
       case NoneObject => Err(TypeError)
       case DictObject(f) => Ok(k in f && f[k] == v)
       case PayloadObject(_) => Ok(false))
  }

  /** The test on a fact, as the network applies it. On a dict no variant raises; the
      result says, per variant, what it means for the fact. Value equality is the
      datatype's own, so True, 1 and 1.0 are three different values. */
  function MetBy(c: Condition, f: Fact): (r: bool)
    ensures IsMet(c, DictObject(f)) == Ok(r)
    ensures c.IsStarted? ==> !r
    ensures c.IsEmpty? ==> (r <==> |f| == 0)
    ensures c.HasKey? ==> (r <==> c.key in f)
    ensures c.HasValue? ==> (r <==> c.key in f && f[c.key] == c.value)
  {
    IsMet(c, DictObject(f)).value
  }

  /** A fact with key k and value v meets HasKey(k) as well as HasValue(k, v). */
  lemma HasValueImpliesHasKey(k: string, v: Value, f: Fact)
    ensures MetBy(HasValue(k, v), f) ==> MetBy(HasKey(k), f)
  {
  }

  /** An empty fact meets no HasKey and no HasValue condition. */
  lemma EmptyMeetsNoKey(k: string, v: Value, f: Fact)
    ensures MetBy(IsEmpty, f) ==> !MetBy(HasKey(k), f) && !MetBy(HasValue(k, v), f)
  {
  }

  /** The source's Alpha and Beta nodes call is_met on the whole Payload tuple (as written),
      not on its match: then no condition is ever met. */
  lemma PayloadMeetsNothing(c: Condition, p: Payload)
    ensures IsMet(c, PayloadObject(p)) == Ok(false)
  {
  }

  /** The input that shows it: the fact {"k1": "v1"} meets HasKey("k1"), but the Payload that
      carries it does not. */
  lemma PayloadTestMissesMatch()
    ensures var p := Payload(map["k1" := Str("v1")], map[]);
      MetBy(HasKey("k1"), p.matched) && IsMet(HasKey("k1"), PayloadObject(p)) == Ok(false)
  {
  }

  /** __repr__: the canonical text form of a condition. */
  function Repr(c: Condition): (s: string)
    ensures |s| >= 2
    ensures c.IsStarted? <==> s[0] == 'N'
    ensures !c.IsStarted? ==> s[0] == '{' && s[|s| - 1] == '}'
    ensures c.IsEmpty? <==> s == "{}"
  {
    match c
    case IsStarted => "None"
    case IsEmpty => "{}"
    case HasKey(k) => "{" + JsonString(k) + ": _}"
    case HasValue(k, v) => "{" + JsonString(k) + ": " + Json(v) + "}"
  }

  /** Different keys give different HasKey forms. */
  lemma {:induction false} ReprHasKeyInjective(a: string, b: string)
    requires Repr(HasKey(a)) == Repr(HasKey(b))
    ensures a == b
  {
    var ra, rb := Repr(HasKey(a)), Repr(HasKey(b));
    assert |a| == |b| by { assert |ra| == |a| + 7 && |rb| == |b| + 7; }
    assert a == ra[2..|ra| - 5];
    assert b == rb[2..|rb| - 5];
  }

  /** A key the canonical form recovers: json.dumps quotes it, and without escaping a key
      must not hold a double quote itself. */
  predicate NoQuote(s: string) {
    forall i :: 0 <= i < |s| ==> s[i] != '"'
  }

  /** A condition whose form the model keeps apart from all others: its key holds no double
      quote, and a HasValue value is not a float (an opaque token may print as anything). */
  predicate Plain(c: Condition) {
    match c
    case HasKey(k) => NoQuote(k)
    case HasValue(k, v) => NoQuote(k) && !v.Float?
    case _ => true
  }

  /** Two quoted keys followed by anything are equal only when the keys and the rest are. */
  lemma QuotedKeyDetermined(k1: string, r1: string, k2: string, r2: string)
    requires NoQuote(k1) && NoQuote(k2) && JsonString(k1) + r1 == JsonString(k2) + r2
    ensures k1 == k2 && r1 == r2
  {
    var s1, s2 := JsonString(k1) + r1, JsonString(k2) + r2;
    assert k1 == s1[1..|k1| + 1] && k2 == s2[1..|k2| + 1];
    assert r1 == s1[|k1| + 2..] && r2 == s2[|k2| + 2..];
  }

  /** What follows the quoted key in a HasKey or HasValue form. */
  function AfterKey(c: Condition): string
    requires c.HasKey? || c.HasValue?
  {
    if c.HasKey? then ": _}" else ": " + Json(c.value) + "}"
  }

  lemma KeyedRepr(c: Condition)
    requires c.HasKey? || c.HasValue?
    ensures Repr(c)[1..] == JsonString(c.key) + AfterKey(c)
  {
  }

  /** The json.dumps form of a value that is not a float is never the `_` of a HasKey form. */
  lemma JsonNotUnderscore(v: Value)
    requires !v.Float?
    ensures Json(v) != "_"
  {
    if v.Int? && v.i >= 0 {
      assert IsDigits(IntText(v.i));
    }
  }

  /** Equal canonical forms of plain conditions: the same variant, the same key, and for
      HasValue the same json.dumps form of the value. */
  lemma ReprUnique(c1: Condition, c2: Condition)
    requires Plain(c1) && Plain(c2) && Repr(c1) == Repr(c2)
    ensures c1.IsStarted? == c2.IsStarted? && c1.IsEmpty? == c2.IsEmpty? && c1.HasKey? == c2.HasKey?
    ensures c1.HasKey? ==> c1 == c2
    ensures c1.HasValue? ==> c2.HasValue? && c1.key == c2.key && Json(c1.value) == Json(c2.value)
  {
    if (c1.HasKey? || c1.HasValue?) && (c2.HasKey? || c2.HasValue?) {
      KeyedRepr(c1);
      KeyedRepr(c2);
      QuotedKeyDetermined(c1.key, AfterKey(c1), c2.key, AfterKey(c2));
      AfterKeyUnique(c1, c2);
    }
  }

  /** What follows the key tells HasKey from HasValue, and gives a HasValue's value form. */
  lemma AfterKeyUnique(c1: Condition, c2: Condition)
    requires Plain(c1) && Plain(c2) && (c1.HasKey? || c1.HasValue?) && (c2.HasKey? || c2.HasValue?)
    requires AfterKey(c1) == AfterKey(c2)
    ensures c1.HasKey? == c2.HasKey?
    ensures c1.HasValue? && c2.HasValue? ==> Json(c1.value) == Json(c2.value)
  {
    var a1, a2 := AfterKey(c1), AfterKey(c2);
    if c1.HasValue? {
      assert Json(c1.value) == a1[2..|a1| - 1];
      JsonNotUnderscore(c1.value);
    }
    if c2.HasValue? {
      assert Json(c2.value) == a2[2..|a2| - 1];
      JsonNotUnderscore(c2.value);
    }
  }

  /** The canonical forms keep an int apart from the string of its digits. */
  lemma ReprKeepsTypes(k: string)
    ensures Repr(HasValue(k, Int(1))) != Repr(HasValue(k, Str("1")))
  {
    var ri, rs := Repr(HasValue(k, Int(1))), Repr(HasValue(k, Str("1")));
    assert Decimal(1) == "1";
    assert |ri| == |k| + 7 && |rs| == |k| + 9;
  }
}
