/** Making an endpoint payload JSON-serialisable: every `date`/`datetime`
    becomes its ISO text, tuples become lists, containers are rebuilt around
    converted children and everything else is passed through. */
module JsonSafe {
  import opened Values

  /** A value that the JSON encoder accepts as it is: no dates or datetimes
      and no tuples anywhere inside. */
  predicate IsJsonSafe(v: PyValue)
    decreases v
  {
    match v
    case DateVal(_) => false
    case DateTimeVal(_) => false
    case TupleVal(_) => false
    case ListVal(items) => forall i :: 0 <= i < |items| ==> IsJsonSafe(items[i])
    case DictVal(entries) => forall i :: 0 <= i < |entries| ==> IsJsonSafe(entries[i].1)
    case _ => true
  }

  /** The conversion.  The result is JSON-safe, keeps every dict's keys in
      order, keeps every list's and tuple's length, and leaves scalars alone. */
  function Convert(v: PyValue): (r: PyValue)
    ensures IsJsonSafe(r)
    ensures (v.DateVal? || v.DateTimeVal?) ==> r == StrVal(v.iso)
    ensures (v.ListVal? || v.TupleVal?) ==>
      r.ListVal? && |r.items| == |v.items| &&
      forall i :: 0 <= i < |v.items| ==> r.items[i] == Convert(v.items[i])
    ensures v.DictVal? ==>
      r.DictVal? && |r.entries| == |v.entries| &&
      forall i :: 0 <= i < |v.entries| ==>
        r.entries[i].0 == v.entries[i].0 && r.entries[i].1 == Convert(v.entries[i].1)
    ensures (v.NoneVal? || v.BoolVal? || v.IntVal? || v.FloatVal? || v.StrVal?) ==> r == v
    decreases v
  {
    match v
    case DateVal(iso) => StrVal(iso)
    case DateTimeVal(iso) => StrVal(iso)
    case ListVal(items) => ListVal(ConvertItems(v, items))
    case TupleVal(items) => ListVal(ConvertItems(v, items))
    case DictVal(entries) => DictVal(ConvertEntries(v, entries))
    case _ => v
  }

  function ConvertItems(parent: PyValue, items: seq<PyValue>): (r: seq<PyValue>)
    requires forall i :: 0 <= i < |items| ==> items[i] < parent
    ensures |r| == |items|
    ensures forall i :: 0 <= i < |items| ==> r[i] == Convert(items[i]) && IsJsonSafe(r[i])
    decreases parent, |items|
  {
    if |items| == 0 then [] else [Convert(items[0])] + ConvertItems(parent, items[1..])
  }

  function ConvertEntries(parent: PyValue, entries: seq<(string, PyValue)>): (r: seq<(string, PyValue)>)
    requires forall i :: 0 <= i < |entries| ==> entries[i].1 < parent
    ensures |r| == |entries|
    ensures forall i :: 0 <= i < |entries| ==>
      r[i].0 == entries[i].0 && r[i].1 == Convert(entries[i].1) && IsJsonSafe(r[i].1)
    decreases parent, |entries|
  {
    if |entries| == 0 then []
    else [(entries[0].0, Convert(entries[0].1))] + ConvertEntries(parent, entries[1..])
  }

  /** A value that is already JSON-safe comes back unchanged. */
  lemma {:induction false} ConvertFixesSafe(v: PyValue)
    requires IsJsonSafe(v)
    ensures Convert(v) == v
    decreases v
  {
    match v
    case ListVal(items) =>
      forall i | 0 <= i < |items| ensures Convert(items[i]) == items[i] {
        ConvertFixesSafe(items[i]);
      }
      assert Convert(v).items == items;
    case DictVal(entries) =>
      forall i | 0 <= i < |entries| ensures Convert(entries[i].1) == entries[i].1 {
        ConvertFixesSafe(entries[i].1);
      }
      assert Convert(v).entries == entries;
    case _ =>
  }

  /** Converting twice is converting once. */
  lemma ConvertIdempotent(v: PyValue)
    ensures Convert(Convert(v)) == Convert(v)
  {
    ConvertFixesSafe(Convert(v));
  }

  /** The conversion changes a value exactly when it is not already JSON-safe. */
  lemma ConvertChangesIffUnsafe(v: PyValue)
    ensures Convert(v) == v <==> IsJsonSafe(v)
  {
    if IsJsonSafe(v) {
      ConvertFixesSafe(v);
    }
  }
}
