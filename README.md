# Billing ledger queries, expiry digests and the user entity

This project models, in Dafny, the ledger side of a course-billing backend:

- the transaction repository's three queries: the filtered listing of a customer's transactions, the count of active entitlements, and the per-customer, per-course totals for a period;
- the course repository's queries: the catalogue summary, lookup by code, and the course-linked transactions whose expiry falls in a window;
- the `payment:ending:notification` console command, which groups those transactions, for a one-day window, by customer email and mails one digest per email;
- the `User` entity: roles, creation from a registration request, and the two-sided association with its transactions.

The database is an in-memory relational value (`Ledger.Db`): sequences of user, course and transaction rows. A transaction refers to its customer and to its course by id, and either reference may be null. Each query is a function of the tables and of the time `now` at which it runs. Times are integer seconds and money is integer cents. Course types are `Free`, `Rent` and `Buy`, stored as 0, 1 and 2.

The command and the entity change state step by step, so they are imperative Dafny:

- the grouping loop and the send loop are methods with loop invariants, proved against the specification function `Digests`;
- `User` is a class whose methods update its fields and the `customer` field of a `TransactionEntity` object.

Files:

- `seq_util.dfy`: filters, first-occurrence de-duplication (PHP's `array_unique`), distinct keys in order of first appearance, per-key buckets and sums, with their lemmas.
- `ledger.dfy`: the rows and the two joins.
- `transaction_repository.dfy`, `course_repository.dfy`: the queries.
- `payment_ending_notification.dfy`: the command.
- `user.dfy`: the entity.

## Model

| member | source | states |
|---|---|---|
| TransactionRepository.FindByQueryParamsAndUserEmail | src/Repository/TransactionRepository.php:47-96 | row i is the view (id, created, expires, type, course code, amount) of the i-th transaction of `Selected`, so the listing has one row per selected transaction in that order; every row belongs to a transaction whose customer has the requested email; a given type is every row's type; a given course code is every row's course code |
| TransactionRepository.Selected | src/Repository/TransactionRepository.php:62-95 | the transactions behind the listing are a sub-multiset of those the base query (customer email, type, course code) selects; when expired rentals are skipped, every rental among them expires strictly after `now` |
| TransactionRepository.SelectedMatchesFilters | src/Repository/TransactionRepository.php:62-74 | every selected transaction is in the table, joins to a customer with the email, and passes the optional type filter and the optional course-code filter |
| TransactionRepository.UnknownCourseCodeYieldsNothing | src/Repository/TransactionRepository.php:71-74 | a course code that no course has yields an empty listing, with or without the other filters; course-less deposits never match a code |
| TransactionRepository.SkipExpiredDropsExactlyExpiredRentals | src/Repository/TransactionRepository.php:75-95 | the listing without skipping equals the skipping listing plus the rentals whose expiry is null or not after `now` (as multisets); so the skipping listing is a sub-multiset of the full one |
| TransactionRepository.SkipExpiredKeeps | src/Repository/TransactionRepository.php:81-90 | a transaction is in the skipping listing iff it passes the base filters and is not a rental, or is a rental expiring strictly after `now` |
| TransactionRepository.SkipExpiredListsRentalsLast | src/Repository/TransactionRepository.php:92-95 | in the skipping listing no rental comes before a non-rental row: the first query's rows precede the second's |
| TransactionRepository.CountActiveCourses | src/Repository/TransactionRepository.php:98-119 | the count is positive iff the user and the course exist and some transaction of that user for that course exists that, when the caller says RENT, expires strictly after `now`; it never exceeds the table size |
| TransactionRepository.CountActiveCoursesSnoc | src/Repository/TransactionRepository.php:100-115 | one more transaction raises `COUNT(t.id)` by one exactly when it is the user's, for the course, joins to both rows and, when the caller says RENT, expires strictly after `now`, and by zero otherwise; with the empty table giving 0, this fixes the count as the number of such transactions |
| TransactionRepository.RentalCountAtMostPermanentCount | src/Repository/TransactionRepository.php:111-114 | the RENT count is at most the count for any other stated type, because only RENT adds the expiry condition |
| TransactionRepository.ExpiryIgnoredUnlessRental | src/Repository/TransactionRepository.php:111-114 | for a type other than RENT the count does not depend on `now` |
| TransactionRepository.DepositNeverEntitles | src/Repository/TransactionRepository.php:100-103 | appending a course-less transaction leaves every count unchanged: the course join is an inner join |
| TransactionRepository.FindPeriodTotalPaid | src/Repository/TransactionRepository.php:121-140 | one report row per group key |
| TransactionRepository.PeriodRowCountsGroup | src/Repository/TransactionRepository.php:124-137 | row i carries its group's email, course name and type; its count is the number of the group's transactions with a course, a customer and `from <= created <= to`, which is positive; its sum is their total amount |
| TransactionRepository.PeriodGroupsDistinctAndComplete | src/Repository/TransactionRepository.php:131-137 | no group appears twice, and the group of every qualifying transaction appears |
| TransactionRepository.PeriodTotalsAddUp | src/Repository/TransactionRepository.php:128-129 | the rows' counts add up to the number of qualifying transactions and their sums to those transactions' total amount |
| TransactionRepository.DepositNeverInPeriodReport | src/Repository/TransactionRepository.php:131 | appending a course-less transaction leaves the report unchanged |
| CourseRepository.FindMainInfo | src/Repository/CourseRepository.php:48-54 | row i of the summary is the code, type and price of course row i, and there are as many rows as courses |
| CourseRepository.MainInfoListsEveryCourse | src/Repository/CourseRepository.php:48-54 | the summary has one `(code, type, price)` row per course row; every course's row is there, and nothing else |
| CourseRepository.FindOneAsArrayByCode | src/Repository/CourseRepository.php:56-68 | a row is returned iff exactly one course has the code; that row has the requested code and is the `(code, type, price)` of that course; no match and several matches both give null |
| CourseRepository.UniqueCodesFindEveryCourse | src/Repository/CourseRepository.php:56-64 | when codes are unique, looking up any course's code returns that course's row |
| CourseRepository.DuplicateCodeFindsNothing | src/Repository/CourseRepository.php:65-67 | two courses sharing a code make the lookup return null |
| CourseRepository.FoundCourseIsInMainInfo | src/Repository/CourseRepository.php:48-64 | a row found by code is one of the summary's rows |
| CourseRepository.FindExpireInForUsers | src/Repository/CourseRepository.php:73-86 | row i is (customer email, course name, expiry) of the i-th qualifying transaction in table order, and there is one row per qualifying transaction; a transaction qualifies when it has a course, a customer and a non-null expiry in the window; every row expires within `[now, now + period]`, both ends included; each row is (customer email, course name, expiry) of a transaction with a course, a customer and a non-null expiry in that window; every such transaction yields a row, whatever its course or transaction type |
| PaymentEndingNotification.GroupsOfAt | src/Command/PaymentEndingNotificationCommand.php:42-49 | after the grouping loop an email is a key iff some row has it, and its bucket is exactly that email's rows in query order |
| PaymentEndingNotification.GroupStep | src/Command/PaymentEndingNotificationCommand.php:42-49 | one loop step: an email seen before has the row appended to its bucket and keeps its place in the key order; a new email gets a bucket of just that row and goes last in the key order |
| PaymentEndingNotification.GroupsOfAreBuckets | src/Command/PaymentEndingNotificationCommand.php:40-49 | the same, for all emails at once |
| PaymentEndingNotification.GroupByEmail | src/Command/PaymentEndingNotificationCommand.php:40-49 | the key order is the distinct emails in order of first appearance; the keys are exactly those emails; each bucket is that email's rows in query order |
| PaymentEndingNotification.DigestsDistinctRecipients | src/Command/PaymentEndingNotificationCommand.php:51-60 | no two digests go to the same email |
| PaymentEndingNotification.DigestForEveryRow | src/Command/PaymentEndingNotificationCommand.php:42-60 | every row's email receives a digest, and that digest lists the row |
| PaymentEndingNotification.DigestContents | src/Command/PaymentEndingNotificationCommand.php:42-49 | no digest is empty; a row is in a digest iff it is one of the query's rows with the digest's email, so each row is in exactly one digest |
| PaymentEndingNotification.DigestsArePermutation | src/Command/PaymentEndingNotificationCommand.php:40-49 | the digests' rows taken together are a permutation of the query's rows |
| PaymentEndingNotification.DigestsSnocAt | src/Command/PaymentEndingNotificationCommand.php:44-47 | one more row is appended to the digest for its email and leaves the other digests and their order alone; the number of digests grows only for a new email |
| PaymentEndingNotification.DigestsSnocNewEmail | src/Command/PaymentEndingNotificationCommand.php:46-47 | a row with a new email opens a new digest holding just that row, after all existing ones |
| PaymentEndingNotification.FirstFailure | src/Command/PaymentEndingNotificationCommand.php:62-67 | every digest before the returned position is accepted by the transport, and the digest at that position, if any, is refused |
| PaymentEndingNotification.MailsOfGroups | src/Command/PaymentEndingNotificationCommand.php:51-60 | sending the grouped buckets in key order means sending `Digests`: one mail per email, addressed to it |
| PaymentEndingNotification.SendDigests | src/Command/PaymentEndingNotificationCommand.php:51-70 | the mails delivered are exactly the digests before the first transport failure, in key order; the result is SUCCESS iff no send fails |
| PaymentEndingNotification.Execute | src/Command/PaymentEndingNotificationCommand.php:33-71 | over the one-day (`P1D`) expiry query, the command delivers a prefix of the digests that ends at the first failure, and returns SUCCESS iff every digest went out |
| PaymentEndingNotification.DigestRowsExpireWithinOneDay | src/Command/PaymentEndingNotificationCommand.php:38 | every row of every digest is addressed to the digest's recipient and expires within `[now, now + 86400]` |
| UserEntity.User.GetRoles | src/Entity/User.php:79-86 | the result contains `ROLE_USER` and every stored role and nothing else; it has no duplicates; it is the stored roles de-duplicated in first-occurrence order, followed by `ROLE_USER` when that role was not stored; a non-empty stored list keeps its first role first |
| UserEntity.RolesWithUser | src/Entity/User.php:81-85 | appending `ROLE_USER` and de-duplicating keeps the stored roles' first occurrences in order, then adds `ROLE_USER` only if it was not stored; a non-empty stored list keeps its first role first |
| UserEntity.GetRolesOfNormalised | src/Entity/User.php:79-86 | a stored list that already contains `ROLE_USER` and has no duplicates comes back unchanged, so storing the result of `GetRoles` is a fixed point |
| UserEntity.SuperAdminRoleFirst | src/Entity/User.php:81-85 | a user stored with `ROLE_SUPER_ADMIN` alone gets `[ROLE_SUPER_ADMIN, ROLE_USER]` |
| UserEntity.User.SetRoles | src/Entity/User.php:88-93 | the stored roles become the given list |
| UserEntity.User.constructor | src/Entity/User.php:44-47 | a new user has an empty transaction collection and no roles; the other columns are unset |
| UserEntity.User.SetEmail | src/Entity/User.php:59-64 | the email becomes the given one |
| UserEntity.User.SetPassword | src/Entity/User.php:103-108 | the password becomes the given one |
| UserEntity.User.SetBalance | src/Entity/User.php:132-137 | the balance becomes the given one |
| UserEntity.User.GetFromDto | src/Entity/User.php:119-125 | a fresh user whose email is the request's username, whose password is the request's password, whose balance is 0 and with no stored role (so its roles read `[ROLE_USER]`) and no transaction |
| UserEntity.User.AddCourse | src/Entity/User.php:147-155 | a transaction already in the collection changes nothing; otherwise it is appended and its customer becomes this user; the two sides of the association stay consistent |
| UserEntity.User.RemoveCourse | src/Entity/User.php:157-167 | a transaction not in the collection changes nothing; otherwise its first occurrence is removed and its customer is cleared only if it was this user; consistency of the association is kept and the transaction is then absent |
| UserEntity.RemoveFirst | src/Entity/User.php:159 | removing an absent transaction leaves the collection as it is; removing a present one drops exactly one occurrence of it, so the collection shrinks by one and its multiset loses that transaction once |
| UserEntity.FirstIndex | src/Entity/User.php:159 | the index found holds the transaction and no earlier position does |
| UserEntity.RemoveFirstOfDistinct | src/Entity/User.php:159 | from a duplicate-free collection, removal leaves exactly the other transactions, still without duplicates |

## Left out

- Persistence: `save` and `remove` of both repositories, flushing, and the ORM mapping are not part of this model. Concurrency and locking are left out too.
- SQL row order: the queries return rows in transaction-table order. Only the order that `array_merge` imposes in the listing (non-rentals, then unexpired rentals) comes from the code.
- Time: `new DateTime()` becomes the parameter `now`. `P1D` is 86400 seconds, so a calendar day that daylight-saving time lengthens or shortens is not modelled.
- Money: balances and amounts are integer cents rather than PHP floats, so rounding in `SUM(t.amount)` is not modelled.
- Joins: a reference resolves to the first row with that id, because primary keys are assumed unique.
- Course type in `countActiveCourses`: the caller supplies the type, and the model does not look it up, exactly as the code does.
- UserEntity.User.GetRoles: `array_unique` keeps the original array keys, so a stored list with duplicates can leave gaps in the keys, which serialise as a JSON object. The model returns a plain list.
- Mailer: rendering the Twig template and composing the e-mail are not modelled. A digest is its recipient and its rows. The transport is a function from a digest to success or failure, so a send that fails once and succeeds on retry is not modelled. `dd()` dumps debug output and halts; that ends the run with the FAILURE outcome.
- The commented-out alternative command (src/Command/PaymentEndingNotificationCommand.php:75-159).
- The payment engine: `PaymentService` and the `Course` and `Transaction` entity classes are not part of this model. Rows carry only the columns the queries read. The `TransactionEntity` class in `user.dfy` carries only its `customer` reference.
- Trivial accessors of `User` (`getId`, `getEmail`, `getUserIdentifier`, `getPassword`, `getBalance`, `getTransactions`, `eraseCredentials`), since they return or ignore a field.
- Controllers, the registration DTO's validation rules, fixtures and tests.
- UserEntity.User.GetFromDto: the request's username and password are non-null strings. The request's password is nullable and only length-checked, so a request without one makes `getPassword()` throw a type error inside `getFromDto`; that error path is not modelled.

## Behaviour worth knowing

The model keeps each of these behaviours of the code.

- Skipping expired transactions tests only the course type (`c.type = RENT`), not the transaction type. A rental with a null expiry counts as expired.
- The expiry query applies no filter on course type or transaction type. Any transaction with a course, a customer and an expiry in the window is returned, whether it is a rent payment or not.
- The entitlement count does not require the transaction to be a payment. It applies the expiry test only when the caller passes RENT as the type.
- The notifier aborts the remaining sends at the first transport failure.
