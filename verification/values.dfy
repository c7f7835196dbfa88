/** Python runtime values as they reach the program: settings blobs read from
    JSON columns, ESPN payloads and endpoint results.  A dict keeps its
    insertion order, so it is a sequence of key/value pairs.  A `date` or
    `datetime` is represented by the text its `isoformat()` produces. */
module Values {
  import opened Wrappers
  import opened Text

  datatype PyValue =
    | NoneVal
    | BoolVal(b: bool)
    | IntVal(i: int)
    | FloatVal(x: real)
    | StrVal(s: string)
    | ListVal(items: seq<PyValue>)
    | TupleVal(items: seq<PyValue>)
    | DictVal(entries: seq<(string, PyValue)>)
    | DateVal(iso: string)
    | DateTimeVal(iso: string)

  /** Python's `bool(v)`. */
  predicate Truthy(v: PyValue) {
    match v
    case NoneVal => false
    case BoolVal(b) => b
    case IntVal(i) => i != 0
    case FloatVal(x) => x != 0.0
    case StrVal(s) => |s| > 0
    case ListVal(items) => |items| > 0
    case TupleVal(items) => |items| > 0
    case DictVal(entries) => |entries| > 0
    case DateVal(_) => true
    case DateTimeVal(_) => true
  }

  /** Python's `hash(v)` succeeds: lists and dicts are unhashable, and a
      tuple is hashable when all its items are. */
  predicate Hashable(v: PyValue) {
    match v
    case ListVal(_) => false
    case DictVal(_) => false
    case TupleVal(items) => forall k :: 0 <= k < |items| ==> Hashable(items[k])
    case _ => true
  }

  /** Python's `d.get(key)` on a dict: the value of the LAST entry with that key
      (a later assignment overwrites an earlier one); `None` when absent or when
      `d` is not a dict. */
  function Get(d: PyValue, key: string): (r: Option<PyValue>)
    ensures r.Some? <==> (d.DictVal? && exists i :: 0 <= i < |d.entries| && d.entries[i].0 == key)
    ensures r.Some? ==> exists i :: 0 <= i < |d.entries| && d.entries[i] == (key, r.value)
  {
    if !d.DictVal? then None else Lookup(d.entries, key)
  }

  function Lookup(entries: seq<(string, PyValue)>, key: string): (r: Option<PyValue>)
    ensures r.Some? <==> exists i :: 0 <= i < |entries| && entries[i].0 == key
    ensures r.Some? ==> exists i :: 0 <= i < |entries| && entries[i] == (key, r.value)
  {
    if |entries| == 0 then None
    else if entries[|entries| - 1].0 == key then Some(entries[|entries| - 1].1)
    else Lookup(entries[..|entries| - 1], key)
  }

  /** A key held by exactly one entry looks up that entry's value. */
  lemma {:induction false} LookupUnique(entries: seq<(string, PyValue)>, i: int, key: string)
    requires 0 <= i < |entries| && entries[i].0 == key
    requires forall j :: 0 <= j < |entries| && j != i ==> entries[j].0 != key
    ensures Lookup(entries, key) == Some(entries[i].1)
    decreases |entries|
  {
    if i < |entries| - 1 {
      var init := entries[..|entries| - 1];
      LookupUnique(init, i, key);
    }
  }

  /** `d.get(key) or default`-free lookup: `d.get(key)` with `None` for a missing key. */
  function GetOrNone(d: PyValue, key: string): (r: PyValue)
    ensures r != NoneVal ==> Get(d, key) == Some(r)
  {
    Get(d, key).GetOr(NoneVal)
  }

  /** Python's `a or b`: `a` when it is truthy, otherwise `b`. */
  function Or(a: PyValue, b: PyValue): (r: PyValue)
    ensures Truthy(a) ==> r == a
    ensures !Truthy(a) ==> r == b
  {
    if Truthy(a) then a else b
  }

  /** Python's `int(x)` truncation of a float toward zero. */
  function Truncate(x: real): (r: int)
    ensures 0.0 <= x ==> r as real <= x < r as real + 1.0
    ensures x < 0.0 ==> r as real - 1.0 < x <= r as real
  {
    if x >= 0.0 then x.Floor else -((-x).Floor)
  }

  /** Python's `int(v)`: `None` where Python raises `TypeError`/`ValueError`. */
  function ToInt(v: PyValue): (r: Option<int>)
    ensures v.IntVal? ==> r == Some(v.i)
    ensures v.BoolVal? ==> r == Some(if v.b then 1 else 0)
    ensures v.StrVal? ==> r == ParseInt(v.s)
    ensures (v.NoneVal? || v.ListVal? || v.TupleVal? || v.DictVal? || v.DateVal? || v.DateTimeVal?) ==> r.None?
  {
    match v
    case BoolVal(b) => Some(if b then 1 else 0)
    case IntVal(i) => Some(i)
    case FloatVal(x) => Some(Truncate(x))
    case StrVal(s) => ParseInt(s)
    case _ => None
  }

  /** What a `for` loop over `v` yields: the items of a list or tuple, the
      keys of a dict, the one-character strings of a string; `None` where
      Python raises `TypeError` (the value is not iterable). */
  function Iterate(v: PyValue): (r: Option<seq<PyValue>>)
    ensures (v.ListVal? || v.TupleVal?) ==> r == Some(v.items)
    ensures v.DictVal? ==> (r.Some? && |r.value| == |v.entries| &&
      forall i :: 0 <= i < |v.entries| ==> r.value[i] == StrVal(v.entries[i].0))
    ensures v.StrVal? ==> (r.Some? && |r.value| == |v.s| &&
      forall i :: 0 <= i < |v.s| ==> r.value[i] == StrVal([v.s[i]]))
    ensures r.None? <==> !(v.ListVal? || v.TupleVal? || v.DictVal? || v.StrVal?)
  {
    match v
    case ListVal(items) => Some(items)
    case TupleVal(items) => Some(items)
    case DictVal(entries) => Some(seq(|entries|, i requires 0 <= i < |entries| => StrVal(entries[i].0)))
    case StrVal(s) => Some(seq(|s|, i requires 0 <= i < |s| => StrVal([s[i]])))
    case _ => None
  }

  /** Python's `str(n)` for any integer. */
  function ShowInt(n: int): (r: string)
    ensures n >= 0 ==> r == ShowNat(n)
    ensures n < 0 ==> r == "-" + ShowNat(-n)
  {
    if n >= 0 then ShowNat(n) else "-" + ShowNat(-n)
  }

  /** Python's `str(v)`: text unchanged, integers in decimal, `None`, `True`
      and `False` by name; the rendering of any other value is `other`'s. */
  function StrOf(v: PyValue, other: PyValue -> string): (r: string)
    ensures v.StrVal? ==> r == v.s
    ensures v.IntVal? ==> r == ShowInt(v.i)
    ensures v.NoneVal? ==> r == "None"
  {
    match v
    case StrVal(s) => s
    case IntVal(i) => ShowInt(i)
    case NoneVal => "None"
    case BoolVal(b) => if b then "True" else "False"
    case _ => other(v)
  }

  /** Reading back the printed form of any integer gives the integer. */
  lemma ParseIntShowInt(n: int)
    ensures ParseInt(ShowInt(n)) == Some(n)
  {
    if n >= 0 {
      ParseIntShowNat(n);
    } else {
      ParseShowNegative(-n);
    }
  }

  /** A minus sign before a printed natural number reads back as its negation. */
  lemma ParseShowNegative(m: nat)
    ensures ParseInt("-" + ShowNat(m)) == Some(-(m as int))
  {
    ShowNatRoundTrip(m);
    ParseNegative(ShowNat(m), m);
  }

  lemma ParseNegative(d: string, v: int)
    requires AllDigits(d) && DigitsValue(d) == v
    ensures ParseInt("-" + d) == Some(-v)
  {
    var s := "-" + d;
    assert s[1..] == d;
    assert s[0] == '-' && s[|s| - 1] == d[|d| - 1];
    StripUnpadded(s);
    assert !IsDigit(s[0]);
  }
}
