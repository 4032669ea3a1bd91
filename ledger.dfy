/** The billing tables as the repository queries see them: users, courses and
    transactions, each a row with a primary key. A transaction refers to its
    customer and to its course by id; both references may be null (a deposit
    has no course, and removing a transaction from a user clears its customer).
    Times are integer seconds and amounts integer cents.
 */
module Ledger {
  import opened SeqUtil

  /** Stored as 0 (free), 1 (rent) and 2 (buy). */
  datatype CourseType = Free | Rent | Buy

  datatype TransactionType = Payment | Deposit

  datatype Course = Course(id: int, code: string, name: string, ctype: CourseType, price: Option<int>)

  /** The columns of a user that the queries join on. */
  datatype Account = Account(id: int, email: string)

  datatype Transaction = Transaction(
    id: int,
    customer: Option<int>,
    course: Option<int>,
    ttype: TransactionType,
    amount: int,
    created: int,
    expires: Option<int>)

  datatype Db = Db(users: seq<Account>, courses: seq<Course>, transactions: seq<Transaction>)

  function CourseHasId(id: int): Course -> bool {
    (c: Course) => c.id == id
  }

  function AccountHasId(id: int): Account -> bool {
    (a: Account) => a.id == id
  }

  /** The course row a transaction's course reference joins to: none for a
      deposit or a dangling reference (primary keys are unique, so the first
      row with the id is the only one). */
  function CourseOf(db: Db, t: Transaction): (r: Option<Course>)
    ensures r.Some? ==> t.course.Some? && r.value in db.courses && r.value.id == t.course.value
  {
    if t.course.None? then None else FindFirst(db.courses, CourseHasId(t.course.value))
  }

  /** The user row a transaction's customer reference joins to. */
  function CustomerOf(db: Db, t: Transaction): (r: Option<Account>)
    ensures r.Some? ==> t.customer.Some? && r.value in db.users && r.value.id == t.customer.value
  {
    if t.customer.None? then None else FindFirst(db.users, AccountHasId(t.customer.value))
  }
}
