/** The records derived from an application's data: its related applications, the
    patent term adjustment summary and history, the transactions, the correspondent and
    the publication number. */
module Entities {
  import opened Outcomes
  import opened Text
  import opened Dates
  import opened Fields
  import opened Sorting

  // ---------------------------------------------------------------------------
  // Relationship

  /** A parent or child application, as `Relationship.__init__` fills it in. */
  datatype Relationship = Relationship(
    applId: Field,
    relatedToApplId: Field,
    filingDate: Field,
    patentNumber: Field,
    status: Field,
    relationship: string)

  /** The wording the service puts in front of every relationship description. */
  const Boilerplate: string := "This application "

  /** `Relationship(data, base_app=base)`: the claimed application's number, filing date,
      patent number (an empty one becomes None) and status, the description without its
      boilerplate, and the base application's number. KeyError for a missing entry,
      AttributeError when the base application has no number or the description is not
      text. */
  function MakeRelationship(data: Record, base: Record): Result<Relationship> {
    var applId :- Lookup(data, "claim_application_number_text");
    var related :- Attr(base, "appl_id");
    var filingDate :- Lookup(data, "filing_date");
    var patentNumber := GetOr(data, "patent_number_text", Null);
    var status := GetOr(data, "application_status", Null);
    var description :- Lookup(data, "application_status_description");
    if !description.Text? then Failure(AttributeError("replace"))
    else
      Success(Relationship(applId, related, filingDate,
                           if Truthy(patentNumber) then patentNumber else Null,
                           status, RemoveAll(description.text, Boilerplate)))
  }

  /** `[make(row) for row in rows]`: the result of every row, in order, built exactly when
      every row builds; otherwise the error of the first row that fails. */
  function MakeAll<T>(rows: seq<Record>, make: Record -> Result<T>): (r: Result<seq<T>>)
    ensures r.Success? <==> forall i | 0 <= i < |rows| :: make(rows[i]).Success?
    ensures r.Success? ==> |r.value| == |rows|
    ensures r.Success? ==> forall i | 0 <= i < |rows| :: r.value[i] == make(rows[i]).value
    ensures r.Failure? ==> exists i | 0 <= i < |rows| ::
      && make(rows[i]).Failure? && r.error == make(rows[i]).error
      && forall j | 0 <= j < i :: make(rows[j]).Success?
  {
    if rows == [] then Success([])
    else
      var first :- make(rows[0]);
      var rest :- MakeAll(rows[1..], make);
      Success([first] + rest)
  }

  /** The relationship of every row, each related to `base`. */
  function MakeRelationships(rows: seq<Record>, base: Record): Result<seq<Relationship>> {
    MakeAll(rows, row => MakeRelationship(row, base))
  }

  /** What a relationship holds. It is built exactly when the four entries it indexes are
      there, the base application has a number and the description is text; the number it
      is related to is always the base application's, whatever `application_number_text`
      says; a falsy patent number is None. */
  lemma RelationshipFields(data: Record, base: Record)
    ensures MakeRelationship(data, base).Success?
        <==> (&& HasKey(data, "claim_application_number_text")
              && HasKey(base, "appl_id")
              && HasKey(data, "filing_date")
              && HasKey(data, "application_status_description")
              && Get(data, "application_status_description").value.Text?)
    ensures MakeRelationship(data, base).Success? ==>
      var r := MakeRelationship(data, base).value;
      && Some(r.applId) == Get(data, "claim_application_number_text")
      && Some(r.relatedToApplId) == Get(base, "appl_id")
      && Some(r.filingDate) == Get(data, "filing_date")
      && (r.patentNumber == Null <==> !Truthy(GetOr(data, "patent_number_text", Null)))
      && (r.patentNumber != Null ==> Some(r.patentNumber) == Get(data, "patent_number_text"))
      && r.status == GetOr(data, "application_status", Null)
      && r.relationship == RemoveAll(Get(data, "application_status_description").value.text, Boilerplate)
  {
  }

  /** A description that is the boilerplate followed by a plain relationship comes out
      as that relationship. */
  lemma RelationshipDropsBoilerplate(data: Record, base: Record, rest: string)
    requires MakeRelationship(data, base).Success?
    requires Get(data, "application_status_description") == Some(Text(Boilerplate + rest))
    requires !Contains(rest, Boilerplate)
    ensures MakeRelationship(data, base).value.relationship == rest
  {
    RemoveLeading(Boilerplate, rest);
  }

  /** A reissue parent: "This application is a Reissue of" becomes "is a Reissue of". */
  lemma ReissueDescription()
    ensures RemoveAll(Boilerplate + "is a Reissue of", Boilerplate) == "is a Reissue of"
  {
    RemoveLeading(Boilerplate, "is a Reissue of");
  }

  // ---------------------------------------------------------------------------
  // Patent term adjustment summary

  /** `PtaPteSummary(data)`. */
  datatype PtaPteSummary = PtaPteSummary(
    kind: Field,
    aDelay: int,
    bDelay: int,
    cDelay: int,
    overlapDelay: int,
    ptoDelay: int,
    applicantDelay: int,
    ptoAdjustments: int,
    totalDays: int)

  /** `int(data[key])`. */
  function IntOf(data: Record, key: string): (r: Result<int>)
    ensures r.Success? ==> HasKey(data, key)
  {
    var v :- Lookup(data, key);
    ToInt(v)
  }

  /** Without `total_pto_days` every count is 0 and the type is None; otherwise each count
      is the integer value of its entry, applicant delay coming from `appl_delay`, and the
      type is `pta_pte_ind`. A missing entry other than `total_pto_days`, or a value `int`
      rejects, raises. */
  function MakePtaPteSummary(data: Record): (r: Result<PtaPteSummary>)
    ensures !HasKey(data, "total_pto_days") ==> r == Success(PtaPteSummary(Null, 0, 0, 0, 0, 0, 0, 0, 0))
    ensures HasKey(data, "total_pto_days") ==>
      (r.Success? <==> && IntOf(data, "total_pto_days").Success?
                       && IntOf(data, "pto_adjustments").Success?
                       && IntOf(data, "overlap_delay").Success?
                       && IntOf(data, "a_delay").Success?
                       && IntOf(data, "b_delay").Success?
                       && IntOf(data, "c_delay").Success?
                       && IntOf(data, "pto_delay").Success?
                       && IntOf(data, "appl_delay").Success?)
    ensures r.Success? && HasKey(data, "total_pto_days") ==>
      && r.value.kind == GetOr(data, "pta_pte_ind", Null)
      && Success(r.value.totalDays) == IntOf(data, "total_pto_days")
      && Success(r.value.ptoAdjustments) == IntOf(data, "pto_adjustments")
      && Success(r.value.overlapDelay) == IntOf(data, "overlap_delay")
      && Success(r.value.aDelay) == IntOf(data, "a_delay")
      && Success(r.value.bDelay) == IntOf(data, "b_delay")
      && Success(r.value.cDelay) == IntOf(data, "c_delay")
      && Success(r.value.ptoDelay) == IntOf(data, "pto_delay")
      && Success(r.value.applicantDelay) == IntOf(data, "appl_delay")
  {
    if !HasKey(data, "total_pto_days") then Success(PtaPteSummary(Null, 0, 0, 0, 0, 0, 0, 0, 0))
    else
      var total :- IntOf(data, "total_pto_days");
      var kind := GetOr(data, "pta_pte_ind", Null);
      var adjustments :- IntOf(data, "pto_adjustments");
      var overlap :- IntOf(data, "overlap_delay");
      var a :- IntOf(data, "a_delay");
      var b :- IntOf(data, "b_delay");
      var c :- IntOf(data, "c_delay");
      var pto :- IntOf(data, "pto_delay");
      var applicant :- IntOf(data, "appl_delay");
      Success(PtaPteSummary(kind, a, b, c, overlap, pto, applicant, adjustments, total))
  }

  // ---------------------------------------------------------------------------
  // Transactions and the term adjustment history

  /** `Transaction(data)`. */
  datatype Transaction = Transaction(date: Field, code: Field, description: Field)

  /** `Transaction(data)`: the record date, code and description, KeyError for the first
      of them missing. */
  function MakeTransaction(data: Record): (r: Result<Transaction>)
    ensures r.Success? <==> HasKey(data, "record_date") && HasKey(data, "code") && HasKey(data, "description")
    ensures r.Success? ==> && Get(data, "record_date") == Some(r.value.date)
                           && Get(data, "code") == Some(r.value.code)
                           && Get(data, "description") == Some(r.value.description)
    ensures r.Failure? ==> r.error.KeyError?
  {
    var date :- Lookup(data, "record_date");
    var code :- Lookup(data, "code");
    var description :- Lookup(data, "description");
    Success(Transaction(date, code, description))
  }

  function MakeTransactions(rows: seq<Record>): Result<seq<Transaction>> {
    MakeAll(rows, MakeTransaction)
  }

  /** The date a sort compares; only read where every value compared is a date. */
  function DateKey(f: Field): Date {
    if f.Day? then f.date else Date(1, 1, 1)
  }

  function TransactionDate(t: Transaction): Date {
    DateKey(t.date)
  }

  /** `sorted` compares keys only when there are two or more of them, and dates compare
      only with dates. */
  predicate DatesComparable(ts: seq<Transaction>) {
    |ts| <= 1 || forall i | 0 <= i < |ts| :: ts[i].date.Day?
  }

  /** `transaction_history`: the transactions, stably sorted by date. */
  function TransactionHistory(app: Record): Result<seq<Transaction>> {
    var rows :- RowsOf(app, "transactions");
    var ts :- MakeTransactions(rows);
    if !DatesComparable(ts) then Failure(TypeError)
    else Success(SortBy(ts, TransactionDate, Before))
  }

  lemma DatesOrdered()
    ensures StrictTotalOrder(Before)
  {
    forall a: Date, b: Date | a != b ensures Before(a, b) || Before(b, a) {
    }
  }

  /** The history holds the transactions of the record, each once, in date order, and
      transactions of the same date keep their order in the record. */
  lemma TransactionHistoryOrdered(app: Record)
    requires TransactionHistory(app).Success?
    ensures var ts := MakeTransactions(RowsOf(app, "transactions").value).value;
            var h := TransactionHistory(app).value;
            && SortedBy(h, TransactionDate, Before)
            && multiset(h) == multiset(ts)
            && forall d :: WithKey(h, TransactionDate, d) == WithKey(ts, TransactionDate, d)
  {
    DatesOrdered();
    SortByCorrect(MakeTransactions(RowsOf(app, "transactions").value).value, TransactionDate, Before);
  }

  /** One entry of the term adjustment history, `PtaPteHistory(data)`; the numbers are
      the exact values of the text `float` reads. */
  datatype PtaPteEvent = PtaPteEvent(
    number: real,
    date: Field,
    description: Field,
    ptoDays: real,
    applicantDays: real,
    start: real)

  /** `float(v or 0)`. */
  function RealOrZero(v: Field): (r: Result<real>)
    ensures !Truthy(v) ==> r == Success(0.0)
  {
    if Truthy(v) then ToReal(v) else Success(0.0)
  }

  /** `float(data[key])`. */
  function RealOf(data: Record, key: string): (r: Result<real>)
    ensures r.Success? ==> HasKey(data, key)
  {
    var v :- Lookup(data, key);
    ToReal(v)
  }

  /** `float(data[key] or 0)`. */
  function RealOrZeroOf(data: Record, key: string): (r: Result<real>)
    ensures r.Success? ==> HasKey(data, key)
    ensures HasKey(data, key) && !Truthy(Get(data, key).value) ==> r == Success(0.0)
  {
    var v :- Lookup(data, key);
    RealOrZero(v)
  }

  /** `PtaPteHistory(data)`: built exactly when every entry it reads is there and `float`
      accepts each value, falsy day counts being read as zero; each number is the value of
      its entry, the date and description are the entries themselves. */
  function MakePtaPteEvent(data: Record): (r: Result<PtaPteEvent>)
    ensures r.Success? <==> && RealOf(data, "number").Success?
                            && HasKey(data, "pta_or_pte_date")
                            && HasKey(data, "contents_description")
                            && RealOrZeroOf(data, "pto_days").Success?
                            && RealOrZeroOf(data, "appl_days").Success?
                            && RealOf(data, "start").Success?
    ensures r.Success? ==>
      && Success(r.value.number) == RealOf(data, "number")
      && Some(r.value.date) == Get(data, "pta_or_pte_date")
      && Some(r.value.description) == Get(data, "contents_description")
      && Success(r.value.ptoDays) == RealOrZeroOf(data, "pto_days")
      && Success(r.value.applicantDays) == RealOrZeroOf(data, "appl_days")
      && Success(r.value.start) == RealOf(data, "start")
    ensures r.Success? && !Truthy(GetOr(data, "pto_days", Null)) ==> r.value.ptoDays == 0.0
    ensures r.Success? && !Truthy(GetOr(data, "appl_days", Null)) ==> r.value.applicantDays == 0.0
  {
    var numberText :- Lookup(data, "number");
    var number :- ToReal(numberText);
    var date :- Lookup(data, "pta_or_pte_date");
    var description :- Lookup(data, "contents_description");
    var ptoText :- Lookup(data, "pto_days");
    var ptoDays :- RealOrZero(ptoText);
    var applicantText :- Lookup(data, "appl_days");
    var applicantDays :- RealOrZero(applicantText);
    var startText :- Lookup(data, "start");
    var start :- ToReal(startText);
    Success(PtaPteEvent(number, date, description, ptoDays, applicantDays, start))
  }

  function MakePtaPteEvents(rows: seq<Record>): Result<seq<PtaPteEvent>> {
    MakeAll(rows, MakePtaPteEvent)
  }

  function EventNumber(e: PtaPteEvent): real {
    e.number
  }

  predicate RealLess(a: real, b: real) {
    a < b
  }

  /** `pta_pte_history`: the events, stably sorted by number. */
  function PtaPteHistory(app: Record): Result<seq<PtaPteEvent>> {
    var rows :- RowsOf(app, "pta_pte_tran_history");
    var events :- MakePtaPteEvents(rows);
    Success(SortBy(events, EventNumber, RealLess))
  }

  lemma {:induction false} PtaPteHistoryOrdered(app: Record)
    requires PtaPteHistory(app).Success?
    ensures var events := MakePtaPteEvents(RowsOf(app, "pta_pte_tran_history").value).value;
            var h := PtaPteHistory(app).value;
            && (forall i, j | 0 <= i < j < |h| :: h[i].number <= h[j].number)
            && multiset(h) == multiset(events)
            && forall n :: WithKey(h, EventNumber, n) == WithKey(events, EventNumber, n)
  {
    var events := MakePtaPteEvents(RowsOf(app, "pta_pte_tran_history").value).value;
    SortByCorrect(events, EventNumber, RealLess);
  }

  // ---------------------------------------------------------------------------
  // Correspondent

  /** `'corr' == k[:4]`. */
  predicate IsCorrespondentKey(k: string) {
    (if |k| < 4 then k else k[..4]) == "corr"
  }

  /** The attribute name a correspondent key is stored under. */
  function AttributeName(k: string): string {
    RemoveAll(k, "corr_addr_")
  }

  /** The attributes `setattr` leaves after running over `data`'s items in order, for
      the entries `keep` accepts, under the names `rename` gives them. */
  function Assigned(data: Record, keep: string -> bool, rename: string -> string)
    : map<string, Field>
  {
    if data == [] then map[]
    else
      var attrs := Assigned(data[..|data| - 1], keep, rename);
      var (k, v) := data[|data| - 1];
      if keep(k) then attrs[rename(k) := v] else attrs
  }

  /** Entry `i` of `data` is kept and renamed to `name`. */
  predicate AssignsTo(data: Record, keep: string -> bool, rename: string -> string, i: int, name: string) {
    0 <= i < |data| && keep(data[i].0) && rename(data[i].0) == name
  }

  /** Entry `i` is the last entry of `data` that is renamed to `name`. */
  predicate LastAssignsTo(data: Record, keep: string -> bool, rename: string -> string, i: int, name: string) {
    AssignsTo(data, keep, rename, i, name)
    && forall j | i < j < |data| :: !AssignsTo(data, keep, rename, j, name)
  }

  /** An attribute is set exactly when some kept entry is renamed to it, and it holds the
      value of the last such entry. */
  lemma {:induction false} LastAssignmentWins(data: Record, keep: string -> bool,
                                              rename: string -> string, name: string)
    ensures name in Assigned(data, keep, rename) <==> exists i :: AssignsTo(data, keep, rename, i, name)
    ensures name in Assigned(data, keep, rename) ==>
      exists i :: LastAssignsTo(data, keep, rename, i, name)
                  && Assigned(data, keep, rename)[name] == data[i].1
  {
    if data != [] {
      var front, last := data[..|data| - 1], |data| - 1;
      LastAssignmentWins(front, keep, rename, name);
      if AssignsTo(data, keep, rename, last, name) {
        assert LastAssignsTo(data, keep, rename, last, name);
      } else {
        if i :| AssignsTo(data, keep, rename, i, name) {
          assert front[i] == data[i];
          assert AssignsTo(front, keep, rename, i, name);
        }
        if name in Assigned(front, keep, rename) {
          var i :| LastAssignsTo(front, keep, rename, i, name)
                   && Assigned(front, keep, rename)[name] == front[i].1;
          assert front[i] == data[i];
          forall j | i < j < |data| ensures !AssignsTo(data, keep, rename, j, name) {
            if j < last {
              assert front[j] == data[j];
              assert !AssignsTo(front, keep, rename, j, name);
            }
          }
          assert LastAssignsTo(data, keep, rename, i, name);
        }
      }
    }
  }

  /** The correspondent's attributes after `setattr` has run over `data`'s items. */
  function CorrespondentAttributes(data: Record): map<string, Field> {
    Assigned(data, IsCorrespondentKey, AttributeName)
  }

  /** `Correspondent(data)`: an object whose attributes come from the `corr` entries. */
  class Correspondent {
    var attributes: map<string, Field>

    constructor (data: Record)
      ensures attributes == CorrespondentAttributes(data)
    {
      attributes := map[];
      new;
      for i := 0 to |data|
        invariant attributes == CorrespondentAttributes(data[..i])
      {
        var (k, v) := data[i];
        assert data[..i + 1][..i] == data[..i];
        assert data[..i + 1][i] == (k, v);
        var prefix := if |k| < 4 then k else k[..4];
        if prefix == "corr" {
          var key := RemoveAll(k, "corr_addr_");
          attributes := attributes[key := v];
        }
      }
      assert data[..|data|] == data;
    }
  }

  /** A correspondent attribute is set exactly when some `corr` entry is renamed to it,
      and it holds the value of the last such entry. */
  lemma CorrespondentLastWins(data: Record, name: string)
    ensures name in CorrespondentAttributes(data)
        <==> exists i :: AssignsTo(data, IsCorrespondentKey, AttributeName, i, name)
    ensures name in CorrespondentAttributes(data) ==>
      exists i :: LastAssignsTo(data, IsCorrespondentKey, AttributeName, i, name)
                  && CorrespondentAttributes(data)[name] == data[i].1
  {
    LastAssignmentWins(data, IsCorrespondentKey, AttributeName, name);
  }

  /** The test application's customer number: `corr_addr_cust_no` is stored as `cust_no`,
      and an entry outside the correspondent's is left out. */
  lemma CorrespondentExample()
    ensures CorrespondentAttributes([("corr_addr_cust_no", Text("22892")), ("appl_id", Text("14095073"))])
         == map["cust_no" := Text("22892")]
  {
    var data := [("corr_addr_cust_no", Text("22892")), ("appl_id", Text("14095073"))];
    CustomerNumberKey();
    ApplIdKey();
    assert data[..1] == [data[0]] && data[..1][..0] == [];
    assert Assigned(data[..1], IsCorrespondentKey, AttributeName) == map["cust_no" := Text("22892")];
  }

  /** `corr_addr_cust_no` is a correspondent key named `cust_no`. */
  lemma CustomerNumberKey()
    ensures IsCorrespondentKey("corr_addr_cust_no") && AttributeName("corr_addr_cust_no") == "cust_no"
  {
    var key := "corr_addr_cust_no";
    assert key == "corr_addr_" + "cust_no";
    RemoveLeading("corr_addr_", "cust_no");
    assert key[..4] == "corr";
  }

  /** `appl_id` is not a correspondent key. */
  lemma ApplIdKey()
    ensures !IsCorrespondentKey("appl_id")
  {
    var key := "appl_id";
    assert key[..4] == "appl";
    assert key[..4][0] != "corr"[0];
  }

  // ---------------------------------------------------------------------------
  // Publication

  /** `publication`: "US" and the patent number when there is one, the early publication
      number otherwise. */
  function Publication(app: Record): Result<Field> {
    var patentNumber :- Attr(app, "patent_number");
    if Truthy(patentNumber) then
      if patentNumber.Text? then Success(Text("US" + patentNumber.text)) else Failure(TypeError)
    else
      Attr(app, "app_early_pub_number")
  }

  /** A granted application's publication is its patent number behind "US"; any other is
      its early publication number. */
  lemma PublicationChoice(app: Record)
    requires HasKey(app, "patent_number")
    ensures var pn := Get(app, "patent_number").value;
            && (pn.Text? && pn.text != [] ==>
                  Publication(app).Success? && Publication(app).value.Text?
                  && StartsWith(Publication(app).value.text, "US")
                  && Publication(app).value.text[2..] == pn.text)
            && (!Truthy(pn) ==> Publication(app) == Attr(app, "app_early_pub_number"))
            && (Truthy(pn) && !pn.Text? ==> Publication(app) == Failure(TypeError))
  {
  }
}
