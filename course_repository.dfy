/** The course repository's queries: the catalogue summary, lookup by code
    (a row only for a unique match) and the course-linked transactions whose
    expiry falls in a window, joined to their customers.
 */
module CourseRepository {
  import opened SeqUtil
  import opened Ledger

  /** The `(code, type, price)` columns of a course. */
  datatype CourseInfo = CourseInfo(code: string, ctype: CourseType, price: Option<int>)

  function InfoOf(c: Course): CourseInfo {
    CourseInfo(c.code, c.ctype, c.price)
  }

  /** Row `i` of the summary is the `(code, type, price)` of course row `i`. */
  function FindMainInfo(db: Db): (r: seq<CourseInfo>)
    ensures |r| == |db.courses|
    ensures forall i :: 0 <= i < |r| ==> r[i].code == db.courses[i].code && r[i].ctype == db.courses[i].ctype
                                         && r[i].price == db.courses[i].price
  {
    Map(db.courses, InfoOf)
  }

  /** The summary has one row per course row, and every course appears in it. */
  lemma MainInfoListsEveryCourse(db: Db)
    ensures |FindMainInfo(db)| == |db.courses|
    ensures forall c :: c in db.courses ==> InfoOf(c) in FindMainInfo(db)
    ensures forall info :: info in FindMainInfo(db) ==> exists c :: c in db.courses && InfoOf(c) == info
  {
    var r := FindMainInfo(db);
    forall c | c in db.courses ensures InfoOf(c) in r {
      var i :| 0 <= i < |db.courses| && db.courses[i] == c;
      assert r[i] == InfoOf(c);
    }
    forall info | info in r ensures exists c :: c in db.courses && InfoOf(c) == info {
      var i :| 0 <= i < |r| && r[i] == info;
      assert db.courses[i] in db.courses;
    }
  }

  function CodeIs(code: string): Course -> bool {
    (c: Course) => c.code == code
  }

  /** Exactly one course row has the code. */
  ghost predicate UniqueCode(courses: seq<Course>, code: string) {
    exists i :: 0 <= i < |courses| && courses[i].code == code
                && forall j :: 0 <= j < |courses| && courses[j].code == code ==> j == i
  }

  /** `getSingleResult`: no row and several rows both give null. */
  function FindOneAsArrayByCode(db: Db, code: string): (r: Option<CourseInfo>)
    ensures r.Some? <==> UniqueCode(db.courses, code)
    ensures r.Some? ==> r.value.code == code
                        && exists i :: 0 <= i < |db.courses| && db.courses[i].code == code && r.value == InfoOf(db.courses[i])
  {
    var matches := Filter(db.courses, CodeIs(code));
    FilterSingletonIff(db.courses, CodeIs(code));
    assert UniqueCode(db.courses, code) <==> ExactlyOne(db.courses, CodeIs(code));
    if |matches| == 1 then
      assert matches[0] in matches;
      Some(InfoOf(matches[0]))
    else
      None
  }

  /** With unique codes (the catalogue's invariant), every course is found by its code. */
  lemma UniqueCodesFindEveryCourse(db: Db, c: Course)
    requires forall i, j :: 0 <= i < |db.courses| && 0 <= j < |db.courses| && db.courses[i].code == db.courses[j].code ==> i == j
    requires c in db.courses
    ensures FindOneAsArrayByCode(db, c.code) == Some(InfoOf(c))
  {
    var i :| 0 <= i < |db.courses| && db.courses[i] == c;
    assert UniqueCode(db.courses, c.code);
  }

  /** Two courses with one code make the lookup fail. */
  lemma DuplicateCodeFindsNothing(db: Db, code: string, i: int, j: int)
    requires 0 <= i < j < |db.courses|
    requires db.courses[i].code == code && db.courses[j].code == code
    ensures FindOneAsArrayByCode(db, code) == None
  {
    assert !UniqueCode(db.courses, code);
  }

  /** A row found by code is the summary row of that course. */
  lemma FoundCourseIsInMainInfo(db: Db, code: string)
    requires FindOneAsArrayByCode(db, code).Some?
    ensures FindOneAsArrayByCode(db, code).value in FindMainInfo(db)
  {
    var info := FindOneAsArrayByCode(db, code).value;
    var i :| 0 <= i < |db.courses| && db.courses[i].code == code && info == InfoOf(db.courses[i]);
    assert FindMainInfo(db)[i] == info;
  }

  /** One expiring transaction: the customer's email, the course name and the expiry. */
  datatype ExpiryRow = ExpiryRow(email: string, name: string, expiresAt: int)

  /** Course and customer joined, expiry in `[now, now + period]`; no condition
      on the course type or the transaction type. */
  predicate ExpiresWithin(db: Db, t: Transaction, period: int, now: int) {
    CourseOf(db, t).Some? && CustomerOf(db, t).Some?
    && t.expires.Some? && now <= t.expires.value <= now + period
  }

  function ExpiryRowOf(db: Db, t: Transaction): ExpiryRow
    requires CourseOf(db, t).Some? && CustomerOf(db, t).Some? && t.expires.Some?
  {
    ExpiryRow(CustomerOf(db, t).value.email, CourseOf(db, t).value.name, t.expires.value)
  }

  function Expiring(db: Db, period: int, now: int): Transaction -> bool {
    (t: Transaction) => ExpiresWithin(db, t, period, now)
  }

  /** One row per qualifying transaction of `ts`, in the order of `ts`. */
  function ExpiryRows(db: Db, ts: seq<Transaction>, period: int, now: int): (r: seq<ExpiryRow>)
    ensures var q := Filter(ts, Expiring(db, period, now));
            |r| == |q| && forall i :: 0 <= i < |r| ==> ExpiresWithin(db, q[i], period, now) && r[i] == ExpiryRowOf(db, q[i])
    ensures forall row :: row in r ==> exists t :: t in ts && ExpiresWithin(db, t, period, now) && row == ExpiryRowOf(db, t)
    ensures forall t :: t in ts && ExpiresWithin(db, t, period, now) ==> ExpiryRowOf(db, t) in r
  {
    if ts == [] then []
    else
      InitLast(ts);
      FilterSnoc(Init(ts), Last(ts), Expiring(db, period, now));
      var rest := ExpiryRows(db, Init(ts), period, now);
      if ExpiresWithin(db, Last(ts), period, now) then rest + [ExpiryRowOf(db, Last(ts))] else rest
  }

  /** The rows for the transactions whose expiry lies in `[now, now + period]`. */
  function FindExpireInForUsers(db: Db, period: int, now: int): (r: seq<ExpiryRow>)
    ensures var q := Filter(db.transactions, Expiring(db, period, now));
            |r| == |q| && forall i :: 0 <= i < |r| ==> ExpiresWithin(db, q[i], period, now) && r[i] == ExpiryRowOf(db, q[i])
    ensures forall row :: row in r ==> now <= row.expiresAt <= now + period
    ensures forall row :: row in r ==> exists t :: t in db.transactions && ExpiresWithin(db, t, period, now) && row == ExpiryRowOf(db, t)
    ensures forall t :: t in db.transactions && ExpiresWithin(db, t, period, now) ==> ExpiryRowOf(db, t) in r
  {
    ExpiryRows(db, db.transactions, period, now)
  }
}
