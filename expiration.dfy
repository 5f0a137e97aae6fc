/** An application's expiration: the parent its term runs from, the twenty-year term, the
    term extended by the adjustment days, and whether a terminal disclaimer was filed. */
module Expiration {
  import opened Outcomes
  import opened Dates
  import opened Fields
  import opened Sorting
  import opened Entities

  /** Relationships that do not move the start of the term. */
  const ProvisionalPriority: string := "Claims Priority from Provisional Application"
  const Reissue: string := "is a Reissue of"

  predicate CountsForTerm(p: Relationship) {
    p.relationship != ProvisionalPriority && p.relationship != Reissue
  }

  /** The parents whose filing date can start the term, in their order. */
  function TermParents(parents: seq<Relationship>): seq<Relationship> {
    if parents == [] then []
    else (if CountsForTerm(parents[0]) then [parents[0]] else []) + TermParents(parents[1..])
  }

  function ParentFilingDate(p: Relationship): Date {
    DateKey(p.filingDate)
  }

  /** Two or more filing dates are compared, and a date compares only with a date. */
  predicate FilingDatesComparable(ps: seq<Relationship>) {
    |ps| <= 1 || forall i | 0 <= i < |ps| :: ps[i].filingDate.Day?
  }

  /** `parents`: the application's parent relationships, in the record's order. */
  function Parents(app: Record): Result<seq<Relationship>> {
    var rows :- RowsOf(app, "parent_continuity");
    MakeRelationships(rows, app)
  }

  /** The parent the term runs from, `None` standing for the application itself: the
      first of the earliest-filed parents that count for the term. */
  function TermParent(app: Record): Result<Option<Relationship>> {
    var parents :- Parents(app);
    var candidates := TermParents(parents);
    if candidates == [] then Success(None)
    else if !FilingDatesComparable(candidates) then Failure(TypeError)
    else Success(Some(SortBy(candidates, ParentFilingDate, Before)[0]))
  }

  /** `expiration`'s dict. */
  datatype Expiration = Expiration(
    parentApplId: Field,
    parentFilingDate: Date,
    parentRelationship: Field,
    twentyYearTerm: Date,
    ptaOrPte: int,
    extendedTerm: Date,
    terminalDisclaimerFiled: bool)

  /** Some transaction has the code of a terminal disclaimer. */
  predicate HasDisclaimer(ts: seq<Transaction>) {
    exists i | 0 <= i < |ts| :: ts[i].code == Text("DIST")
  }

  /** `f` is the date `d`. */
  predicate IsDay(f: Field, d: Date) {
    f.Day? && f.date == d
  }

  /** The term runs twenty years from a valid filing date, then `ptaOrPte` days more. */
  predicate TermsAgree(e: Expiration) {
    && Valid(e.parentFilingDate)
    && AddYears(e.parentFilingDate, 20) == Success(e.twentyYearTerm)
    && AddDays(e.twentyYearTerm, e.ptaOrPte) == Success(e.extendedTerm)
  }

  /** The filing date the term runs from: the term parent's, or the application's own
      when no parent counts. */
  function TermStart(app: Record, parent: Option<Relationship>): Result<Field> {
    if parent.Some? then Success(parent.value.filingDate) else Attr(app, "app_filing_date")
  }

  /** `expiration`: the term parent's number, filing date and relationship (the
      application's own number and filing date, and "self" unless its record gives a
      relationship, when no parent counts); the term twenty years from that filing date,
      extended by the summary's total adjustment; and a disclaimer exactly when the
      transaction history holds one. The errors are raised in the order the property
      reads its inputs; a filing date that is not a date cannot be added to. */
  function ExpirationOf(app: Record): (r: Result<Expiration>)
    ensures r.Success? ==> TermParent(app).Success?
    ensures r.Success? && TermParent(app).value.None? ==>
      && Attr(app, "appl_id") == Success(r.value.parentApplId)
      && Attr(app, "app_filing_date").Success?
      && IsDay(Attr(app, "app_filing_date").value, r.value.parentFilingDate)
      && r.value.parentRelationship == GetOr(app, "relationship", Text("self"))
    ensures r.Success? && TermParent(app).value.Some? ==>
      var p := TermParent(app).value.value;
      && r.value.parentApplId == p.applId
      && IsDay(p.filingDate, r.value.parentFilingDate)
      && r.value.parentRelationship == Text(p.relationship)
    ensures r.Success? ==> TermsAgree(r.value)
    ensures r.Success? ==>
      && MakePtaPteSummary(app).Success?
      && r.value.ptaOrPte == MakePtaPteSummary(app).value.totalDays
    ensures r.Success? ==>
      && TransactionHistory(app).Success?
      && (r.value.terminalDisclaimerFiled <==> HasDisclaimer(TransactionHistory(app).value))
  {
    var parent :- TermParent(app);
    var applId :- if parent.Some? then Success(parent.value.applId) else Attr(app, "appl_id");
    var filing :- TermStart(app, parent);
    var relationship := if parent.Some? then Text(parent.value.relationship)
                        else GetOr(app, "relationship", Text("self"));
    if !filing.Day? then Failure(TypeError)
    else
      var twenty :- AddYears(filing.date, 20);
      var summary :- MakePtaPteSummary(app);
      var extended :- AddDays(twenty, summary.totalDays);
      var transactions :- TransactionHistory(app);
      Success(Expiration(applId, filing.date, relationship, twenty, summary.totalDays, extended,
                         HasDisclaimer(transactions)))
  }

  /** `expiration` succeeds exactly when the parents can be built and their filing dates
      compared, the application has its own number and filing date when no parent counts,
      the filing date is a date twenty years before the end of year 9999, the summary can
      be built, the adjusted term stays within the representable dates, and the
      transaction history can be built. */
  lemma ExpirationSucceeds(app: Record)
    ensures ExpirationOf(app).Success? <==>
      && TermParent(app).Success?
      && (TermParent(app).value.None? ==> HasKey(app, "appl_id"))
      && TermStart(app, TermParent(app).value).Success?
      && TermStart(app, TermParent(app).value).value.Day?
      && var start := TermStart(app, TermParent(app).value).value.date;
         && start.year + 20 <= MaxYear
         && MakePtaPteSummary(app).Success?
         && 1 <= ToOrdinal(AddYears(start, 20).value) + MakePtaPteSummary(app).value.totalDays <= MaxOrdinal
         && TransactionHistory(app).Success?
  {
  }

  // ---------------------------------------------------------------------------
  // Properties

  /** The term parents are the parents whose relationship is neither a provisional
      priority claim nor a reissue. */
  lemma {:induction false} TermParentsMembers(parents: seq<Relationship>)
    ensures forall p :: p in TermParents(parents) <==> p in parents && CountsForTerm(p)
  {
    if parents != [] {
      TermParentsMembers(parents[1..]);
      assert parents == [parents[0]] + parents[1..];
    }
  }

  /** `candidates[i]` is filed no later than any candidate and before every one listed
      ahead of it. */
  predicate FirstEarliest(candidates: seq<Relationship>, i: int) {
    && 0 <= i < |candidates|
    && (forall j | 0 <= j < |candidates| ::
          !Before(ParentFilingDate(candidates[j]), ParentFilingDate(candidates[i])))
    && (forall j | 0 <= j < i ::
          Before(ParentFilingDate(candidates[i]), ParentFilingDate(candidates[j])))
  }

  /** The head of the candidates sorted by filing date is the first earliest-filed one. */
  lemma EarliestCandidate(candidates: seq<Relationship>)
    requires candidates != []
    ensures exists i :: FirstEarliest(candidates, i)
                        && candidates[i] == SortBy(candidates, ParentFilingDate, Before)[0]
  {
    DatesOrdered();
    SortedHead(candidates, ParentFilingDate, Before);
    var i := FirstMinimum(candidates, ParentFilingDate, Before);
    assert FirstEarliest(candidates, i);
  }

  /** With a parent that counts, the term parent is the head of the counting parents
      sorted by filing date. */
  lemma TermParentSorted(app: Record)
    requires TermParent(app).Success? && TermParent(app).value.Some?
    ensures var candidates := TermParents(Parents(app).value);
            candidates != []
            && TermParent(app).value.value == SortBy(candidates, ParentFilingDate, Before)[0]
  {
  }

  /** The term parent is the application itself exactly when no parent counts for the
      term. */
  lemma TermParentSelf(app: Record)
    requires TermParent(app).Success?
    ensures TermParent(app).value.None?
        <==> forall p | p in Parents(app).value :: !CountsForTerm(p)
  {
    var parents := Parents(app).value;
    var candidates := TermParents(parents);
    TermParentsMembers(parents);
    if candidates != [] {
      assert candidates[0] in candidates;
    }
  }

  /** Otherwise the term parent is a parent that counts, none is filed before it, and
      every one listed before it is filed later. */
  lemma TermParentEarliest(app: Record)
    requires TermParent(app).Success? && TermParent(app).value.Some?
    ensures var p := TermParent(app).value.value;
            && p in Parents(app).value && CountsForTerm(p)
            && exists i :: FirstEarliest(TermParents(Parents(app).value), i)
                           && TermParents(Parents(app).value)[i] == p
  {
    var parents := Parents(app).value;
    var candidates := TermParents(parents);
    TermParentSorted(app);
    EarliestCandidate(candidates);
    var i :| FirstEarliest(candidates, i) && candidates[i] == TermParent(app).value.value;
    TermParentsMembers(parents);
    assert candidates[i] in candidates;
  }

  /** The twenty-year term ends on the same day of the same month twenty years after the
      parent's filing, or on the last day of that month when it is shorter (29 February
      in a year that is not a leap year). */
  lemma TwentyYears(e: Expiration)
    requires TermsAgree(e)
    ensures && e.twentyYearTerm.year == e.parentFilingDate.year + 20
            && e.twentyYearTerm.month == e.parentFilingDate.month
            && (e.twentyYearTerm.day == e.parentFilingDate.day
                || e.twentyYearTerm.day == DaysInMonth(e.twentyYearTerm.year, e.twentyYearTerm.month))
            && e.twentyYearTerm.day <= e.parentFilingDate.day
  {
  }

  /** No adjustment leaves the twenty-year term as it is; a positive one extends it, a
      negative one shortens it. */
  lemma ExtensionOrder(e: Expiration)
    requires TermsAgree(e)
    ensures e.ptaOrPte == 0 ==> e.extendedTerm == e.twentyYearTerm
    ensures e.ptaOrPte > 0 ==> Before(e.twentyYearTerm, e.extendedTerm)
    ensures e.ptaOrPte < 0 ==> Before(e.extendedTerm, e.twentyYearTerm)
  {
    if e.ptaOrPte == 0 {
      AddNoDays(e.twentyYearTerm);
    } else {
      BeforeIsOrdinalLess(e.twentyYearTerm, e.extendedTerm);
      BeforeIsOrdinalLess(e.extendedTerm, e.twentyYearTerm);
    }
  }

  /** Without `total_pto_days` the application has no adjustment, and its term ends twenty
      years after the term parent's filing. */
  lemma NoSummaryNoExtension(app: Record)
    requires ExpirationOf(app).Success? && !HasKey(app, "total_pto_days")
    ensures ExpirationOf(app).value.ptaOrPte == 0
    ensures ExpirationOf(app).value.extendedTerm == ExpirationOf(app).value.twentyYearTerm
  {
    ExtensionOrder(ExpirationOf(app).value);
  }

  /** Sorting the transactions neither adds nor drops one: the history holds a
      disclaimer exactly when the record's transactions do, so `ExpirationOf` reports
      one exactly when the record has one. */
  lemma DisclaimerInRecord(app: Record)
    requires TransactionHistory(app).Success?
    ensures var ts := MakeTransactions(RowsOf(app, "transactions").value).value;
            HasDisclaimer(TransactionHistory(app).value) <==> HasDisclaimer(ts)
  {
    var ts := MakeTransactions(RowsOf(app, "transactions").value).value;
    var h := TransactionHistory(app).value;
    TransactionHistoryOrdered(app);
    if HasDisclaimer(h) {
      var i :| 0 <= i < |h| && h[i].code == Text("DIST");
      assert h[i] in multiset(ts);
    }
    if HasDisclaimer(ts) {
      var i :| 0 <= i < |ts| && ts[i].code == Text("DIST");
      assert ts[i] in multiset(h);
    }
  }

  /** An application with no parents, filed 25 September 2015, with 752 days of
      adjustment and no disclaimer, expires on 16 October 2037. */
  lemma UnrelatedApplicationExample(app: Record, summary: PtaPteSummary, ts: seq<Transaction>)
    requires Parents(app) == Success([])
    requires Get(app, "appl_id") == Some(Text("14865625"))
    requires Get(app, "app_filing_date") == Some(Day(Date(2015, 9, 25)))
    requires !HasKey(app, "relationship")
    requires MakePtaPteSummary(app) == Success(summary) && summary.totalDays == 752
    requires TransactionHistory(app) == Success(ts) && !HasDisclaimer(ts)
    ensures ExpirationOf(app)
         == Success(Expiration(Text("14865625"), Date(2015, 9, 25), Text("self"),
                               Date(2035, 9, 25), 752, Date(2037, 10, 16), false))
  {
    TermExample();
  }

  /** A continuation in part of an application filed 29 January 2009, with no adjustment
      and a terminal disclaimer, expires on 29 January 2029. */
  lemma ContinuationExample(app: Record, parent: Relationship, summary: PtaPteSummary,
                            ts: seq<Transaction>)
    requires parent.applId == Text("12322218") && parent.filingDate == Day(Date(2009, 1, 29))
    requires parent.relationship == "is a Continuation in part of"
    requires Parents(app) == Success([parent])
    requires MakePtaPteSummary(app) == Success(summary) && summary.totalDays == 0
    requires TransactionHistory(app) == Success(ts) && HasDisclaimer(ts)
    ensures ExpirationOf(app)
         == Success(Expiration(Text("12322218"), Date(2009, 1, 29),
                               Text("is a Continuation in part of"),
                               Date(2029, 1, 29), 0, Date(2029, 1, 29), true))
  {
    OnlyParent(app, parent);
    assert TermStart(app, Some(parent)) == Success(Day(Date(2009, 1, 29)));
    assert AddYears(Date(2009, 1, 29), 20) == Success(Date(2029, 1, 29));
    AddNoDays(Date(2029, 1, 29));
  }

  /** A lone parent that counts for the term is the term parent. */
  lemma OnlyParent(app: Record, parent: Relationship)
    requires Parents(app) == Success([parent]) && CountsForTerm(parent)
    ensures TermParent(app) == Success(Some(parent))
  {
    assert TermParents([parent]) == [parent];
    assert SortBy([parent], ParentFilingDate, Before) == [parent];
  }
}
