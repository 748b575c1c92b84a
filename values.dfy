/** The data the network works on: JSON-like values and facts, the Payload record that
    flows between nodes, and the textual forms the interning registry and the canonical
    condition forms are built from (Python's str(), repr() and json.dumps() on values). */
module Values {

  /** A JSON value as the core accepts it: bool, int, float, str or list. A float is an
      opaque token: it is compared by its token and printed as it. */
  datatype Value =
    | Bool(b: bool)
    | Int(i: int)
    | Float(token: string)
    | Str(s: string)
    | List(items: seq<Value>)

  /** A fact is one asserted document: a map from string keys to values. */
  type Fact = map<string, Value>

  /** The binding table of a payload: variable name to captured value. */
  type Bindings = map<string, Value>

  /** The Payload record of the source, a (match, table) pair; `match` is a Dafny keyword,
      so the field is called `matched`. */
  datatype Payload = Payload(matched: Fact, table: Bindings)

  /** The Python objects the core hands to a condition or to a node: None, a plain dict,
      or a Payload tuple. */
  datatype Subject =
    | NoneObject
    | DictObject(fact: Fact)
    | PayloadObject(payload: Payload)

  /** The exceptions Python would raise in the core. */
  datatype PyError =
    | TypeError        // `key in None`
    | AttributeError   // `.match` read on a dict
    | ValueError       // a Beta node notified by a node that is not its parent

  /** How a notification ends: normally, or with the exception it raises. */
  datatype Outcome = Done | Raised(error: PyError)

  datatype Result<+T> = Ok(value: T) | Err(error: PyError)

  /** Reading `payload.match` on an object: only a Payload tuple has that attribute. */
  function MatchOf(obj: Subject): (r: Result<Fact>)
    ensures r.Ok? <==> obj.PayloadObject?
    ensures obj.PayloadObject? ==> r.value == obj.payload.matched
    ensures !obj.PayloadObject? ==> r == Err(AttributeError)
  {
    match obj
    case PayloadObject(p) => Ok(p.matched)
    case _ => Err(AttributeError)
  }

  /** Python's hash() on these objects, as a set lookup or `set.add` needs it: a dict is
      unhashable, and so is a Payload tuple, which holds two dicts; only None hashes. */
  function HashAsWritten(obj: Subject): (r: Outcome)
    ensures r == Done <==> obj.NoneObject?
    ensures r != Done ==> r == Raised(TypeError)
  {
    match obj
    case NoneObject => Done
    case DictObject(_) => Raised(TypeError)
    case PayloadObject(_) => Raised(TypeError)
  }

  // ---------------------------------------------------------------------------
  // Text

  function Digit(d: nat): (c: char)
    requires d < 10
    ensures '0' <= c <= '9'
  {
    "0123456789"[d]
  }

  predicate IsDigits(s: string) {
    forall k :: 0 <= k < |s| ==> '0' <= s[k] <= '9'
  }

  /** The decimal text of a natural number, most significant digit first. */
  function Decimal(n: nat): (s: string)
    ensures |s| > 0 && IsDigits(s)
    ensures n < 10 <==> |s| == 1
  {
    if n < 10 then [Digit(n)] else Decimal(n / 10) + [Digit(n % 10)]
  }

  lemma DigitInjective(a: nat, b: nat)
    requires a < 10 && b < 10 && Digit(a) == Digit(b)
    ensures a == b
  {
  }

  /** Different numbers have different decimal texts, so a node id written out in a
      signature identifies the node. */
  lemma {:induction false} DecimalInjective(a: nat, b: nat)
    requires Decimal(a) == Decimal(b)
    ensures a == b
  {
    var sa, sb := Decimal(a), Decimal(b);
    if a < 10 {
      DigitInjective(a, b);
    } else {
      assert b >= 10;
      assert sa[..|sa| - 1] == Decimal(a / 10);
      assert sb[..|sb| - 1] == Decimal(b / 10);
      DecimalInjective(a / 10, b / 10);
      assert sa[|sa| - 1] == Digit(a % 10);
      assert sb[|sb| - 1] == Digit(b % 10);
      DigitInjective(a % 10, b % 10);
    }
  }

  /** Python's str() of an int: a minus sign exactly for a negative number, then digits. */
  function IntText(i: int): (r: string)
    ensures |r| > 0 && (r[0] == '-' <==> i < 0)
    ensures i < 0 ==> |r| > 1 && IsDigits(r[1..])
    ensures i >= 0 ==> IsDigits(r)
  {
    if i < 0 then "-" + Decimal(-i) else Decimal(i)
  }

  /** Different ints have different texts. */
  lemma IntTextInjective(a: int, b: int)
    requires IntText(a) == IntText(b)
    ensures a == b
  {
    if a < 0 {
      assert IntText(a)[1..] == Decimal(-a) && IntText(b)[1..] == Decimal(-b);
      DecimalInjective(-a, -b);
    } else {
      DecimalInjective(a, b);
    }
  }

  /** Python's str() of a value: what the registry puts into a signature. A list is
      bracketed. */
  function PyStr(v: Value): (r: string)
    ensures v.List? ==> |r| >= 2 && r[0] == '[' && r[|r| - 1] == ']'
    decreases v, 1
  {
    match v
    case Bool(b) => if b then "True" else "False"
    case Int(i) => IntText(i)
    case Float(t) => t
    case Str(s) => s
    case List(items) => "[" + PyReprItems(items) + "]"
  }

  /** Python's repr() of a value; a string is quoted (escaping is not modelled). */
  function PyRepr(v: Value): (r: string)
    ensures v.Str? ==> |r| == |v.s| + 2 && r[0] == '\'' && r[|r| - 1] == '\'' && r[1..|r| - 1] == v.s
    ensures !v.Str? ==> r == PyStr(v)
    decreases v, 2
  {
    match v
    case Str(s) => "'" + s + "'"
    case _ => PyStr(v)
  }

  /** The items of a list's str(), separated by ", ": the first item's repr leads. */
  function PyReprItems(items: seq<Value>): (r: string)
    ensures items != [] ==> PyRepr(items[0]) <= r
    ensures |items| > 1 ==> PyRepr(items[0]) + ", " <= r
    decreases items
  {
    if items == [] then ""
    else if |items| == 1 then PyRepr(items[0])
    else PyRepr(items[0]) + ", " + PyReprItems(items[1..])
  }

  /** json.dumps() of a value, for strings without characters that need escaping. A
      string is double-quoted and a list bracketed. */
  function Json(v: Value): (r: string)
    ensures v.Str? ==> |r| >= 2 && r[0] == '"' && r[|r| - 1] == '"'
    ensures v.List? ==> |r| >= 2 && r[0] == '[' && r[|r| - 1] == ']'
    decreases v
  {
    match v
    case Bool(b) => if b then "true" else "false"
    case Int(i) => IntText(i)
    case Float(t) => t
    case Str(s) => JsonString(s)
    case List(items) => "[" + JsonItems(items) + "]"
  }

  /** The items of a list's json.dumps(), separated by ", ": the first item's form leads. */
  function JsonItems(items: seq<Value>): (r: string)
    ensures items != [] ==> Json(items[0]) <= r
    ensures |items| > 1 ==> Json(items[0]) + ", " <= r
    decreases items
  {
    if items == [] then ""
    else if |items| == 1 then Json(items[0])
    else Json(items[0]) + ", " + JsonItems(items[1..])
  }

  /** json.dumps() of a string: the string in double quotes. */
  function JsonString(s: string): (r: string)
    ensures |r| == |s| + 2 && r[0] == '"' && r[|r| - 1] == '"' && r[1..|r| - 1] == s
  {
    "\"" + s + "\""
  }

  /** Different strings have different JSON forms. */
  lemma JsonStringInjective(a: string, b: string)
    requires JsonString(a) == JsonString(b)
    ensures a == b
  {
    var ra, rb := JsonString(a), JsonString(b);
    assert a == ra[1..|ra| - 1] && b == rb[1..|rb| - 1];
  }

  /** str() cannot tell an int from the string of its digits; repr() and json.dumps() can. */
  lemma IntAndStringTexts(i: int)
    ensures PyStr(Int(i)) == PyStr(Str(IntText(i)))
    ensures PyRepr(Int(i)) != PyRepr(Str(IntText(i)))
    ensures Json(Int(i)) != Json(Str(IntText(i)))
  {
    var t := IntText(i);
    assert PyRepr(Int(i))[0] != '\'';
    assert Json(Int(i))[0] != '"';
  }

  /** Python's '_'.join(parts): the first part leads, followed by '_' when there is more,
      and the last part ends the text. */
  function JoinUnderscore(parts: seq<string>): (r: string)
    ensures parts != [] ==> parts[0] <= r
    ensures |parts| > 1 ==> |r| > |parts[0]| && r[|parts[0]|] == '_'
    ensures parts == [] ==> r == ""
  {
    if parts == [] then ""
    else if |parts| == 1 then parts[0]
    else parts[0] + "_" + JoinUnderscore(parts[1..])
  }

  /** The last part ends the joined text. */
  lemma {:induction false} JoinUnderscoreLast(parts: seq<string>)
    requires parts != []
    ensures |parts[|parts| - 1]| <= |JoinUnderscore(parts)|
    ensures JoinUnderscore(parts)[|JoinUnderscore(parts)| - |parts[|parts| - 1]|..] == parts[|parts| - 1]
  {
    if |parts| > 1 {
      JoinUnderscoreLast(parts[1..]);
      assert parts[1..][|parts[1..]| - 1] == parts[|parts| - 1];
    }
  }

  lemma JoinUnderscoreHead(parts: seq<string>)
    requires |parts| > 0 && |parts[0]| > 0
    ensures |JoinUnderscore(parts)| > 0 && JoinUnderscore(parts)[0] == parts[0][0]
  {
  }

  lemma JoinUnderscoreTwo(a: string, b: string)
    ensures JoinUnderscore([a, b]) == a + "_" + b
  {
    assert [a, b][1..] == [b];
  }

  lemma JoinUnderscoreThree(a: string, b: string, c: string)
    ensures JoinUnderscore([a, b, c]) == a + "_" + b + "_" + c
  {
    assert [a, b, c][1..] == [b, c];
    JoinUnderscoreTwo(b, c);
  }
}
