/** Parsed records: the dict of field values the XML or JSON parser produces for one
    application, and the Python operations the modelled code performs on it. */
module Fields {
  import opened Outcomes
  import opened Dates
  import Numbers

  /** One value of a record. */
  datatype Field =
    | Null                                  // None
    | Text(text: string)                    // str
    | Number(number: int)                   // int
    | Day(date: CalendarDate)               // datetime.date
    | Rows(rows: seq<seq<(string, Field)>>) // a list of nested records

  /** A record, its entries in the dict's iteration order. Keys are distinct in the
      source's dicts; the lookups below take the first entry with a key. */
  type Record = seq<(string, Field)>

  predicate HasKey(r: Record, k: string) {
    exists i | 0 <= i < |r| :: r[i].0 == k
  }

  /** `r.get(k)`: the value stored under `k`, or `None`. */
  function Get(r: Record, k: string): (v: Option<Field>)
    ensures v.Some? <==> HasKey(r, k)
    ensures v.Some? ==> exists i | 0 <= i < |r| :: r[i] == (k, v.value)
  {
    if r == [] then None
    else if r[0].0 == k then Some(r[0].1)
    else
      var v := Get(r[1..], k);
      assert HasKey(r[1..], k) ==> HasKey(r, k) by {
        if HasKey(r[1..], k) {
          var i :| 0 <= i < |r[1..]| && r[1..][i].0 == k;
          assert r[i + 1].0 == k;
        }
      }
      assert v.Some? ==> exists i | 0 <= i < |r| :: r[i] == (k, v.value) by {
        if v.Some? {
          var i :| 0 <= i < |r[1..]| && r[1..][i] == (k, v.value);
          assert r[i + 1] == (k, v.value);
        }
      }
      v
  }

  /** `r.get(k, default)`. */
  function GetOr(r: Record, k: string, default: Field): Field {
    match Get(r, k)
    case Some(v) => v
    case None => default
  }

  /** `r[k]`: KeyError when `k` is absent. */
  function Lookup(r: Record, k: string): Result<Field> {
    match Get(r, k)
    case Some(v) => Success(v)
    case None => Failure(KeyError(k))
  }

  /** Reading attribute `k` of a model object backed by `r`: the record's value, and
      AttributeError when the record has no such key. */
  function Attr(r: Record, k: string): Result<Field> {
    match Get(r, k)
    case Some(v) => Success(v)
    case None => Failure(AttributeError(k))
  }

  /** Python truthiness. */
  predicate Truthy(f: Field) {
    match f
    case Null => false
    case Text(t) => t != []
    case Number(n) => n != 0
    case Day(_) => true
    case Rows(rs) => rs != []
  }

  /** `int(v)`. */
  function ToInt(f: Field): (r: Result<int>)
    ensures f.Number? ==> r == Success(f.number)
    ensures r.Failure? ==> r.error == (if f.Text? then ValueError else TypeError)
  {
    match f
    case Number(n) => Success(n)
    case Text(t) =>
      (match Numbers.ParseInt(t)
       case Some(n) => Success(n)
       case None => Failure(ValueError))
    case _ => Failure(TypeError)
  }

  /** `float(v)`, exact. */
  function ToReal(f: Field): (r: Result<real>)
    ensures f.Number? ==> r == Success(f.number as real)
    ensures r.Failure? ==> r.error == (if f.Text? then ValueError else TypeError)
  {
    match f
    case Number(n) => Success(n as real)
    case Text(t) =>
      (match Numbers.ParseDecimal(t)
       case Some(x) => Success(x)
       case None => Failure(ValueError))
    case _ => Failure(TypeError)
  }

  /** Iterating `r.get(k, list())` as a list of records: empty when `k` is absent. */
  function RowsOf(r: Record, k: string): (rows: Result<seq<Record>>)
    ensures !HasKey(r, k) ==> rows == Success([])
  {
    match Get(r, k)
    case None => Success([])
    case Some(Rows(rs)) => Success(rs)
    case Some(_) => Failure(TypeError)
  }
}
