/** The three ledger queries of the transaction repository, each a function of
    the tables and of the time `now` at which the query runs:

    - the filtered listing of one customer's transactions, where a request to
      skip expired rentals runs two queries and concatenates their results;
    - the count of a user's transactions that entitle them to a course;
    - the per-(customer, course) number and total of payments made in a
      period.

    A query's rows come out in the order of the transaction table.
 */
module TransactionRepository {
  import opened SeqUtil
  import opened Ledger

  // ---------------------------------------------------------------------------
  // Listing
  // ---------------------------------------------------------------------------

  /** One listed row: id, created, expires, type, the course code (null for a
      deposit) and the amount. */
  datatype TransactionView = TransactionView(
    id: int,
    createdAt: int,
    expiresAt: Option<int>,
    ttype: TransactionType,
    courseCode: Option<string>,
    amount: int)

  function View(db: Db, t: Transaction): TransactionView {
    var code := if CourseOf(db, t).Some? then Some(CourseOf(db, t).value.code) else None;
    TransactionView(t.id, t.created, t.expires, t.ttype, code, t.amount)
  }

  function ViewIn(db: Db): Transaction -> TransactionView {
    (t: Transaction) => View(db, t)
  }

  /** The inner join on the customer with the requested email. */
  predicate OwnedBy(db: Db, t: Transaction, email: string) {
    CustomerOf(db, t).Some? && CustomerOf(db, t).value.email == email
  }

  /** `c.code = :code` over the left-joined course: false when there is no course. */
  predicate HasCourseCode(db: Db, t: Transaction, code: string) {
    CourseOf(db, t).Some? && CourseOf(db, t).value.code == code
  }

  predicate IsRental(db: Db, t: Transaction) {
    CourseOf(db, t).Some? && CourseOf(db, t).value.ctype == Rent
  }

  /** `t.expires > :now`: false when expires is null. */
  predicate ExpiresAfter(t: Transaction, now: int) {
    t.expires.Some? && t.expires.value > now
  }

  function MatchesQuery(db: Db, email: string, ttype: Option<TransactionType>, code: Option<string>): Transaction -> bool {
    (t: Transaction) => OwnedBy(db, t, email)
         && (ttype.None? || t.ttype == ttype.value)
         && (code.None? || HasCourseCode(db, t, code.value))
  }

  /** `c.type != :rent OR c.type IS NULL` */
  function NotRental(db: Db): Transaction -> bool {
    (t: Transaction) => !IsRental(db, t)
  }

  /** `c.type = :rent` */
  function Rental(db: Db): Transaction -> bool {
    (t: Transaction) => IsRental(db, t)
  }

  function Unexpired(now: int): Transaction -> bool {
    (t: Transaction) => ExpiresAfter(t, now)
  }

  function ExpiredBy(now: int): Transaction -> bool {
    (t: Transaction) => !ExpiresAfter(t, now)
  }

  /** The transactions the base query (customer, type and course filters) selects. */
  function Matching(db: Db, email: string, ttype: Option<TransactionType>, code: Option<string>): seq<Transaction> {
    Filter(db.transactions, MatchesQuery(db, email, ttype, code))
  }

  /** The transactions behind the listing: the base query, or, when expired
      rentals are skipped, its non-rental rows followed by its rentals that
      expire after `now`. */
  function Selected(db: Db, email: string, ttype: Option<TransactionType>, code: Option<string>,
                    skipExpired: bool, now: int): (r: seq<Transaction>)
    ensures multiset(r) <= multiset(Matching(db, email, ttype, code))
    ensures skipExpired ==> forall t :: t in r && IsRental(db, t) ==> ExpiresAfter(t, now)
  {
    var base := Matching(db, email, ttype, code);
    if !skipExpired then base
    else
      FilterComplement(base, NotRental(db), Rental(db));
      Filter(base, NotRental(db)) + Filter(Filter(base, Rental(db)), Unexpired(now))
  }

  /** The rentals among the base query's rows whose expiry is null or not after `now`. */
  function ExpiredRentals(db: Db, email: string, ttype: Option<TransactionType>, code: Option<string>, now: int): seq<Transaction> {
    Filter(Filter(Matching(db, email, ttype, code), Rental(db)), ExpiredBy(now))
  }

  /** Every transaction behind the listing is one of the customer's and passes
      the optional type and course filters. */
  lemma SelectedMatchesFilters(db: Db, email: string, ttype: Option<TransactionType>, code: Option<string>,
                               skipExpired: bool, now: int, t: Transaction)
    requires t in Selected(db, email, ttype, code, skipExpired, now)
    ensures t in db.transactions && OwnedBy(db, t, email)
    ensures ttype.Some? ==> t.ttype == ttype.value
    ensures code.Some? ==> HasCourseCode(db, t, code.value)
  {
    var base := Matching(db, email, ttype, code);
    assert t in base;
  }

  function FindByQueryParamsAndUserEmail(db: Db, userEmail: string, transactionType: Option<TransactionType>,
                                         courseCode: Option<string>, skipExpired: bool, now: int): (r: seq<TransactionView>)
    ensures r == Map(Selected(db, userEmail, transactionType, courseCode, skipExpired, now), ViewIn(db))
    ensures forall i :: 0 <= i < |r| ==>
              exists t :: t in db.transactions && OwnedBy(db, t, userEmail) && r[i] == View(db, t)
    ensures transactionType.Some? ==> forall i :: 0 <= i < |r| ==> r[i].ttype == transactionType.value
    ensures courseCode.Some? ==> forall i :: 0 <= i < |r| ==> r[i].courseCode == courseCode
  {
    var sel := Selected(db, userEmail, transactionType, courseCode, skipExpired, now);
    var r := Map(sel, ViewIn(db));
    assert forall i :: 0 <= i < |r| ==> r[i] == View(db, sel[i]) && sel[i] in sel;
    forall i | 0 <= i < |r|
      ensures sel[i] in db.transactions && OwnedBy(db, sel[i], userEmail)
      ensures transactionType.Some? ==> sel[i].ttype == transactionType.value
      ensures courseCode.Some? ==> HasCourseCode(db, sel[i], courseCode.value)
    {
      SelectedMatchesFilters(db, userEmail, transactionType, courseCode, skipExpired, now, sel[i]);
    }
    r
  }

  /** A course code that no course has yields an empty listing: rows without a
      course never match a code. */
  lemma UnknownCourseCodeYieldsNothing(db: Db, userEmail: string, transactionType: Option<TransactionType>,
                                       code: string, skipExpired: bool, now: int)
    requires forall c :: c in db.courses ==> c.code != code
    ensures FindByQueryParamsAndUserEmail(db, userEmail, transactionType, Some(code), skipExpired, now) == []
  {
    var sel := Selected(db, userEmail, transactionType, Some(code), skipExpired, now);
    if sel != [] {
      SelectedMatchesFilters(db, userEmail, transactionType, Some(code), skipExpired, now, sel[0]);
    }
  }

  /** Skipping expired rentals drops exactly the expired rentals: the listing
      without the flag is the listing with it plus those, so the skipping
      listing is a sub-multiset of the full one. */
  lemma SkipExpiredDropsExactlyExpiredRentals(db: Db, email: string, ttype: Option<TransactionType>,
                                              code: Option<string>, now: int)
    ensures multiset(Selected(db, email, ttype, code, false, now))
         == multiset(Selected(db, email, ttype, code, true, now)) + multiset(ExpiredRentals(db, email, ttype, code, now))
    ensures multiset(Selected(db, email, ttype, code, true, now)) <= multiset(Selected(db, email, ttype, code, false, now))
  {
    var base := Matching(db, email, ttype, code);
    var rentals := Filter(base, Rental(db));
    FilterComplement(base, NotRental(db), Rental(db));
    FilterComplement(rentals, Unexpired(now), ExpiredBy(now));
  }

  /** Membership in the skipping listing: one of the base query's rows that is
      not a rental, or is a rental expiring strictly after `now`. */
  lemma SkipExpiredKeeps(db: Db, email: string, ttype: Option<TransactionType>, code: Option<string>,
                         now: int, t: Transaction)
    ensures t in Selected(db, email, ttype, code, true, now)
        <==> t in Matching(db, email, ttype, code) && (!IsRental(db, t) || ExpiresAfter(t, now))
  {
    var base := Matching(db, email, ttype, code);
    var rentals := Filter(base, Rental(db));
    if t in base && IsRental(db, t) && ExpiresAfter(t, now) {
      var i :| 0 <= i < |base| && base[i] == t;
      assert t in rentals;
      var j :| 0 <= j < |rentals| && rentals[j] == t;
      assert t in Filter(rentals, Unexpired(now));
    }
    if t in base && !IsRental(db, t) {
      var i :| 0 <= i < |base| && base[i] == t;
      assert t in Filter(base, NotRental(db));
    }
  }

  /** In the skipping listing no rental precedes a row that is not a rental. */
  lemma SkipExpiredListsRentalsLast(db: Db, email: string, ttype: Option<TransactionType>, code: Option<string>,
                                    now: int, i: int, j: int)
    requires 0 <= i < j < |Selected(db, email, ttype, code, true, now)|
    requires IsRental(db, Selected(db, email, ttype, code, true, now)[i])
    ensures IsRental(db, Selected(db, email, ttype, code, true, now)[j])
  {
    var base := Matching(db, email, ttype, code);
    var first := Filter(base, NotRental(db));
    var rentals := Filter(base, Rental(db));
    var second := Filter(rentals, Unexpired(now));
    RentalsLast(first, second, db, i, j);
  }

  lemma RentalsLast(first: seq<Transaction>, second: seq<Transaction>, db: Db, i: int, j: int)
    requires forall x :: x in first ==> !IsRental(db, x)
    requires forall x :: x in second ==> IsRental(db, x)
    requires 0 <= i < j < |first + second|
    requires IsRental(db, (first + second)[i])
    ensures IsRental(db, (first + second)[j])
  {
    var sel := first + second;
    assert i >= |first|;
    assert sel[j] in second;
  }

  // ---------------------------------------------------------------------------
  // Active entitlement count
  // ---------------------------------------------------------------------------

  predicate UserExists(db: Db, id: int) {
    exists u :: u in db.users && u.id == id
  }

  predicate CourseExists(db: Db, id: int) {
    exists c :: c in db.courses && c.id == id
  }

  /** A transaction of the user for the course (both joined as inner joins);
      for a rent course it must also expire strictly after `now`. */
  function Entitles(db: Db, userId: int, courseId: int, courseType: CourseType, now: int): Transaction -> bool {
    (t: Transaction) => t.course == Some(courseId) && CourseOf(db, t).Some?
         && t.customer == Some(userId) && CustomerOf(db, t).Some?
         && (courseType == Rent ==> ExpiresAfter(t, now))
  }

  /** `courseType` is what the caller says the course is, not looked up. */
  function CountActiveCourses(db: Db, userId: int, courseId: int, courseType: CourseType, now: int): (r: nat)
    ensures r <= |db.transactions|
    ensures r > 0 <==> UserExists(db, userId) && CourseExists(db, courseId)
                       && exists t :: t in db.transactions && t.customer == Some(userId) && t.course == Some(courseId)
                                      && (courseType == Rent ==> ExpiresAfter(t, now))
  {
    var f := Filter(db.transactions, Entitles(db, userId, courseId, courseType, now));
    FilterEmptyIff(db.transactions, Entitles(db, userId, courseId, courseType, now));
    assert f != [] ==> f[0] in f;
    |f|
  }

  /** The expiry condition can only lower the count: a rental entitles no more
      often than a purchase of the same course. */
  lemma RentalCountAtMostPermanentCount(db: Db, userId: int, courseId: int, courseType: CourseType, now: int)
    ensures CountActiveCourses(db, userId, courseId, Rent, now) <= CountActiveCourses(db, userId, courseId, courseType, now)
  {
    FilterMonotone(db.transactions, Entitles(db, userId, courseId, Rent, now), Entitles(db, userId, courseId, courseType, now));
  }

  /** For a course that is not rented, expiry plays no part. */
  lemma ExpiryIgnoredUnlessRental(db: Db, userId: int, courseId: int, courseType: CourseType, now: int, later: int)
    requires courseType != Rent
    ensures CountActiveCourses(db, userId, courseId, courseType, now) == CountActiveCourses(db, userId, courseId, courseType, later)
  {
    FilterExt(db.transactions, Entitles(db, userId, courseId, courseType, now), Entitles(db, userId, courseId, courseType, later));
  }

  /** Does `t` count towards the user's entitlement to the course? */
  predicate Entitled(db: Db, t: Transaction, userId: int, courseId: int, courseType: CourseType, now: int) {
    t.customer == Some(userId) && t.course == Some(courseId)
    && CourseOf(db, t).Some? && CustomerOf(db, t).Some?
    && (courseType == Rent ==> ExpiresAfter(t, now))
  }

  lemma EntitledSnoc(db: Db, t: Transaction, userId: int, courseId: int, courseType: CourseType, now: int)
    ensures var db' := db.(transactions := db.transactions + [t]);
            |Filter(db'.transactions, Entitles(db', userId, courseId, courseType, now))|
            == |Filter(db.transactions, Entitles(db, userId, courseId, courseType, now))|
               + (if Entitled(db, t, userId, courseId, courseType, now) then 1 else 0)
  {
    var db' := db.(transactions := db.transactions + [t]);
    var e, e' := Entitles(db, userId, courseId, courseType, now), Entitles(db', userId, courseId, courseType, now);
    assert db'.courses == db.courses && db'.users == db.users;
    forall x ensures e'(x) == e(x) {
      assert CourseOf(db', x) == CourseOf(db, x) && CustomerOf(db', x) == CustomerOf(db, x);
    }
    assert e'(t) == Entitled(db, t, userId, courseId, courseType, now);
    FilterSnoc(db.transactions, t, e');
    FilterExt(db.transactions, e', e);
  }

  /** What one more transaction adds to the count: one exactly when it is the
      user's, for the course, both rows join, and for RENT it expires after
      `now`; nothing otherwise. With an empty table the count is 0, so this
      fixes the count for every table. */
  lemma CountActiveCoursesSnoc(db: Db, t: Transaction, userId: int, courseId: int, courseType: CourseType, now: int)
    ensures CountActiveCourses(db.(transactions := db.transactions + [t]), userId, courseId, courseType, now)
         == CountActiveCourses(db, userId, courseId, courseType, now)
            + (if Entitled(db, t, userId, courseId, courseType, now) then 1 else 0)
  {
    EntitledSnoc(db, t, userId, courseId, courseType, now);
  }

  /** A deposit (no course) never adds to the count. */
  lemma DepositNeverEntitles(db: Db, t: Transaction, userId: int, courseId: int, courseType: CourseType, now: int)
    requires t.course.None?
    ensures CountActiveCourses(db.(transactions := db.transactions + [t]), userId, courseId, courseType, now)
         == CountActiveCourses(db, userId, courseId, courseType, now)
  {
    CountActiveCoursesSnoc(db, t, userId, courseId, courseType, now);
  }

  // ---------------------------------------------------------------------------
  // Period totals
  // ---------------------------------------------------------------------------

  /** The GROUP BY list: customer email, course id, course name and type. */
  datatype GroupKey = GroupKey(email: string, courseId: int, name: string, ctype: CourseType)

  /** One qualifying transaction after the joins: its group and amount. */
  datatype Paid = Paid(key: GroupKey, amount: int)

  /** One report row: email, course name, course type, count and sum. */
  datatype PeriodRow = PeriodRow(email: string, name: string, ctype: CourseType, transactionsCount: nat, courseAmount: int)

  function KeyOf(p: Paid): GroupKey { p.key }
  function AmountOf(p: Paid): int { p.amount }
  function TxAmount(t: Transaction): int { t.amount }
  function RowCount(r: PeriodRow): int { r.transactionsCount }
  function RowAmount(r: PeriodRow): int { r.courseAmount }

  /** Inner joins on course and customer, and `from <= created <= to`. */
  predicate InPeriod(db: Db, t: Transaction, from: int, to: int) {
    CourseOf(db, t).Some? && CustomerOf(db, t).Some? && from <= t.created <= to
  }

  function PaidOf(db: Db, t: Transaction): Paid
    requires CourseOf(db, t).Some? && CustomerOf(db, t).Some?
  {
    var c := CourseOf(db, t).value;
    Paid(GroupKey(CustomerOf(db, t).value.email, c.id, c.name, c.ctype), t.amount)
  }

  function InPeriodIn(db: Db, from: int, to: int): Transaction -> bool {
    (t: Transaction) => InPeriod(db, t, from, to)
  }

  function InGroup(db: Db, from: int, to: int, k: GroupKey): Transaction -> bool {
    (t: Transaction) => InPeriod(db, t, from, to) && PaidOf(db, t).key == k
  }

  /** The joined rows of the qualifying transactions among `ts`. */
  function PaidEntries(db: Db, ts: seq<Transaction>, from: int, to: int): seq<Paid> {
    if ts == [] then []
    else
      var rest := PaidEntries(db, Init(ts), from, to);
      if InPeriod(db, Last(ts), from, to) then rest + [PaidOf(db, Last(ts))] else rest
  }

  function PeriodKeys(db: Db, from: int, to: int): seq<GroupKey> {
    Keys(PaidEntries(db, db.transactions, from, to), KeyOf)
  }

  function GroupRow(ps: seq<Paid>, k: GroupKey): PeriodRow {
    var b := Bucket(ps, KeyOf, k);
    PeriodRow(k.email, k.name, k.ctype, |b|, Weight(b, AmountOf))
  }

  function GroupRowIn(ps: seq<Paid>): GroupKey -> PeriodRow {
    k => GroupRow(ps, k)
  }

  /** One row per group, groups in order of first appearance. */
  function FindPeriodTotalPaid(db: Db, from: int, to: int): (r: seq<PeriodRow>)
    ensures |r| == |PeriodKeys(db, from, to)|
  {
    Map(PeriodKeys(db, from, to), GroupRowIn(PaidEntries(db, db.transactions, from, to)))
  }

  lemma {:induction false} BucketOfEntries(db: Db, ts: seq<Transaction>, from: int, to: int, k: GroupKey)
    ensures |Bucket(PaidEntries(db, ts, from, to), KeyOf, k)| == |Filter(ts, InGroup(db, from, to, k))|
    ensures Weight(Bucket(PaidEntries(db, ts, from, to), KeyOf, k), AmountOf)
         == Weight(Filter(ts, InGroup(db, from, to, k)), TxAmount)
  {
    if ts != [] {
      InitLast(ts);
      var init, t := Init(ts), Last(ts);
      BucketOfEntries(db, init, from, to, k);
      FilterSnoc(init, t, InGroup(db, from, to, k));
      var rest := PaidEntries(db, init, from, to);
      if InPeriod(db, t, from, to) {
        FilterSnoc(rest, PaidOf(db, t), HasKey(KeyOf, k));
        if PaidOf(db, t).key == k {
          assert Init(Bucket(rest, KeyOf, k) + [PaidOf(db, t)]) == Bucket(rest, KeyOf, k);
          assert Init(Filter(init, InGroup(db, from, to, k)) + [t]) == Filter(init, InGroup(db, from, to, k));
        }
      }
    }
  }

  lemma {:induction false} EntriesOfQualifying(db: Db, ts: seq<Transaction>, from: int, to: int)
    ensures |PaidEntries(db, ts, from, to)| == |Filter(ts, InPeriodIn(db, from, to))|
    ensures Weight(PaidEntries(db, ts, from, to), AmountOf) == Weight(Filter(ts, InPeriodIn(db, from, to)), TxAmount)
    ensures forall i :: 0 <= i < |ts| && InPeriod(db, ts[i], from, to) ==> PaidOf(db, ts[i]) in PaidEntries(db, ts, from, to)
  {
    if ts != [] {
      InitLast(ts);
      var init, t := Init(ts), Last(ts);
      EntriesOfQualifying(db, init, from, to);
      FilterSnoc(init, t, InPeriodIn(db, from, to));
      var rest := PaidEntries(db, init, from, to);
      if InPeriod(db, t, from, to) {
        assert Init(rest + [PaidOf(db, t)]) == rest;
        assert Init(Filter(init, InPeriodIn(db, from, to)) + [t]) == Filter(init, InPeriodIn(db, from, to));
      }
      forall i | 0 <= i < |ts| && InPeriod(db, ts[i], from, to)
        ensures PaidOf(db, ts[i]) in PaidEntries(db, ts, from, to)
      {
        if i < |init| {
          assert ts[i] == init[i];
        }
      }
    }
  }

  /** Row `i` of the report describes group `PeriodKeys[i]`: its count is the
      number of the group's transactions in the period and its sum their total. */
  lemma PeriodRowCountsGroup(db: Db, from: int, to: int, i: int)
    requires 0 <= i < |PeriodKeys(db, from, to)|
    ensures var k, row := PeriodKeys(db, from, to)[i], FindPeriodTotalPaid(db, from, to)[i];
            var group := Filter(db.transactions, InGroup(db, from, to, k));
            && row.email == k.email && row.name == k.name && row.ctype == k.ctype
            && row.transactionsCount == |group| > 0
            && row.courseAmount == Weight(group, TxAmount)
  {
    var ps := PaidEntries(db, db.transactions, from, to);
    var ks := PeriodKeys(db, from, to);
    var k := ks[i];
    assert FindPeriodTotalPaid(db, from, to)[i] == GroupRow(ps, k);
    BucketOfEntries(db, db.transactions, from, to, k);
    BucketNonEmptyIff(ps, KeyOf, k);
  }

  /** Each group appears once, and every qualifying transaction's group appears. */
  lemma PeriodGroupsDistinctAndComplete(db: Db, from: int, to: int)
    ensures NoDup(PeriodKeys(db, from, to))
    ensures forall t :: t in db.transactions && InPeriod(db, t, from, to) ==> PaidOf(db, t).key in PeriodKeys(db, from, to)
  {
    var ps := PaidEntries(db, db.transactions, from, to);
    EntriesOfQualifying(db, db.transactions, from, to);
    forall t | t in db.transactions && InPeriod(db, t, from, to)
      ensures PaidOf(db, t).key in PeriodKeys(db, from, to)
    {
      var i :| 0 <= i < |db.transactions| && db.transactions[i] == t;
      var j :| 0 <= j < |ps| && ps[j] == PaidOf(db, t);
      assert KeyOf(ps[j]) in Keys(ps, KeyOf);
    }
  }

  lemma {:induction false} RowsTotalFlatten(ks: seq<GroupKey>, ps: seq<Paid>)
    ensures Weight(Map(ks, GroupRowIn(ps)), RowCount) == |Flatten(ks, ps, KeyOf)|
    ensures Weight(Map(ks, GroupRowIn(ps)), RowAmount) == Weight(Flatten(ks, ps, KeyOf), AmountOf)
  {
    if ks != [] {
      InitLast(ks);
      RowsTotalFlatten(Init(ks), ps);
      assert Init(Map(ks, GroupRowIn(ps))) == Map(Init(ks), GroupRowIn(ps));
      WeightAppend(Flatten(Init(ks), ps, KeyOf), Bucket(ps, KeyOf, Last(ks)), AmountOf);
    }
  }

  /** The group counts add up to the number of qualifying transactions, and
      the group sums to their total amount. */
  lemma PeriodTotalsAddUp(db: Db, from: int, to: int)
    ensures Weight(FindPeriodTotalPaid(db, from, to), RowCount) == |Filter(db.transactions, InPeriodIn(db, from, to))|
    ensures Weight(FindPeriodTotalPaid(db, from, to), RowAmount)
         == Weight(Filter(db.transactions, InPeriodIn(db, from, to)), TxAmount)
  {
    var ps := PaidEntries(db, db.transactions, from, to);
    var ks := PeriodKeys(db, from, to);
    RowsTotalFlatten(ks, ps);
    FlattenPermutation(ks, ps, KeyOf);
    assert |Flatten(ks, ps, KeyOf)| == |multiset(Flatten(ks, ps, KeyOf))| == |multiset(ps)| == |ps|;
    WeightPermutation(Flatten(ks, ps, KeyOf), ps, AmountOf);
    EntriesOfQualifying(db, db.transactions, from, to);
  }

  lemma {:induction false} EntriesReadOnlyJoins(db: Db, db': Db, ts: seq<Transaction>, from: int, to: int)
    requires db.users == db'.users && db.courses == db'.courses
    ensures PaidEntries(db, ts, from, to) == PaidEntries(db', ts, from, to)
  {
    if ts != [] {
      EntriesReadOnlyJoins(db, db', Init(ts), from, to);
    }
  }

  /** A deposit (no course) never shows up in the report. */
  lemma DepositNeverInPeriodReport(db: Db, t: Transaction, from: int, to: int)
    requires t.course.None?
    ensures FindPeriodTotalPaid(db.(transactions := db.transactions + [t]), from, to) == FindPeriodTotalPaid(db, from, to)
  {
    var db' := db.(transactions := db.transactions + [t]);
    assert Init(db'.transactions) == db.transactions;
    EntriesReadOnlyJoins(db, db', db.transactions, from, to);
  }
}
