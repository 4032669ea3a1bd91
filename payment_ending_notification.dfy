/** The `payment:ending:notification` console command: it asks the course
    repository for the course-linked transactions whose expiry falls within one
    day, buckets the rows by
    customer email in an insertion-ordered dictionary, and mails one digest per
    email, stopping the run at the first transport failure.

    The mailer is a parameter `transport` that says, for each digest, whether
    sending it succeeds; rendering the template is left out, so a digest is
    just its recipient and its rows.
 */
module PaymentEndingNotification {
  import opened SeqUtil
  import opened Ledger
  import opened CourseRepository

  /** The `P1D` period of the query, in seconds. */
  const OneDay: int := 86400

  /** The console exit status: `Command::SUCCESS` or `Command::FAILURE`. */
  datatype ExitCode = Success | Failure

  /** One digest: its recipient and the expiring transactions it lists. */
  datatype Mail = Mail(to: string, courses: seq<ExpiryRow>)

  function EmailOf(row: ExpiryRow): string { row.email }

  function DigestFor(rows: seq<ExpiryRow>): string -> Mail {
    email => Mail(email, Bucket(rows, EmailOf, email))
  }

  /** The digests a run means to send: one per distinct email, in order of the
      email's first row, each listing that email's rows in query order. */
  function Digests(rows: seq<ExpiryRow>): seq<Mail> {
    Map(Keys(rows, EmailOf), DigestFor(rows))
  }

  /** The rows of all digests, one digest after the other. */
  function AllCourses(mails: seq<Mail>): seq<ExpiryRow> {
    if mails == [] then [] else AllCourses(Init(mails)) + Last(mails).courses
  }

  // ---------------------------------------------------------------------------
  // Grouping
  // ---------------------------------------------------------------------------

  /** The dictionary the grouping loop builds, row by row: a row's email either
      has a bucket already, and the row is appended to it, or gets a new
      bucket holding just that row. */
  ghost function GroupsOf(rows: seq<ExpiryRow>): map<string, seq<ExpiryRow>> {
    if rows == [] then map[]
    else
      var m, row := GroupsOf(Init(rows)), Last(rows);
      if row.email in m then m[row.email := m[row.email] + [row]] else m[row.email := [row]]
  }

  /** An email is a key of the dictionary exactly when some row has it, and its
      bucket is that email's rows in query order. */
  lemma {:induction false} GroupsOfAt(rows: seq<ExpiryRow>, email: string)
    ensures email in GroupsOf(rows) <==> email in Keys(rows, EmailOf)
    ensures email in GroupsOf(rows) ==> GroupsOf(rows)[email] == Bucket(rows, EmailOf, email)
  {
    if rows != [] {
      InitLast(rows);
      var init, row := Init(rows), Last(rows);
      var m := GroupsOf(init);
      GroupsOfAt(init, email);
      KeysSnoc(init, row, EmailOf);
      BucketSnoc(init, row, EmailOf, email);
      if email != row.email {
        assert GroupsOf(rows) == m[row.email := if row.email in m then m[row.email] + [row] else [row]];
      } else if email !in m {
        BucketNonEmptyIff(init, EmailOf, email);
        assert GroupsOf(rows)[email] == [row];
      }
    }
  }

  lemma GroupsOfAreBuckets(rows: seq<ExpiryRow>)
    ensures forall email :: email in GroupsOf(rows) <==> email in Keys(rows, EmailOf)
    ensures forall email :: email in GroupsOf(rows) ==> GroupsOf(rows)[email] == Bucket(rows, EmailOf, email)
  {
    forall email ensures email in GroupsOf(rows) <==> email in Keys(rows, EmailOf) {
      GroupsOfAt(rows, email);
    }
    forall email | email in GroupsOf(rows) ensures GroupsOf(rows)[email] == Bucket(rows, EmailOf, email) {
      GroupsOfAt(rows, email);
    }
  }

  /** One more row: the dictionary and its key order after it, in terms of
      the dictionary before it. */
  lemma GroupStep(done: seq<ExpiryRow>, row: ExpiryRow)
    ensures var m := GroupsOf(done);
            GroupsOf(done + [row]) == if row.email in m then m[row.email := m[row.email] + [row]] else m[row.email := [row]]
    ensures Keys(done + [row], EmailOf)
         == if row.email in GroupsOf(done) then Keys(done, EmailOf) else Keys(done, EmailOf) + [row.email]
  {
    assert Init(done + [row]) == done && Last(done + [row]) == row;
    KeysSnoc(done, row, EmailOf);
    GroupsOfAt(done, row.email);
  }

  /** The loop that fills `$coursesByEmail`: `emails` is the dictionary's key
      order (a PHP array keeps insertion order) and `byEmail` its contents.
      The keys are the distinct emails of the rows in order of first
      appearance, and each bucket holds that email's rows in query order. */
  method GroupByEmail(rows: seq<ExpiryRow>) returns (emails: seq<string>, byEmail: map<string, seq<ExpiryRow>>)
    ensures emails == Keys(rows, EmailOf)
    ensures forall email :: email in byEmail <==> email in emails
    ensures forall email :: email in byEmail ==> byEmail[email] == Bucket(rows, EmailOf, email)
    ensures byEmail == GroupsOf(rows)
  {
    emails, byEmail := [], map[];
    for i := 0 to |rows|
      invariant emails == Keys(rows[..i], EmailOf)
      invariant byEmail == GroupsOf(rows[..i])
    {
      var row := rows[i];
      assert rows[..i + 1] == rows[..i] + [row];
      GroupStep(rows[..i], row);
      if row.email in byEmail {
        byEmail := byEmail[row.email := byEmail[row.email] + [row]];
      } else {
        byEmail := byEmail[row.email := [row]];
        emails := emails + [row.email];
      }
    }
    assert rows[..|rows|] == rows;
    GroupsOfAreBuckets(rows);
  }

  lemma DigestAt(rows: seq<ExpiryRow>, i: int)
    requires 0 <= i < |Keys(rows, EmailOf)|
    ensures |Digests(rows)| == |Keys(rows, EmailOf)|
    ensures Digests(rows)[i] == Mail(Keys(rows, EmailOf)[i], Bucket(rows, EmailOf, Keys(rows, EmailOf)[i]))
  {
  }

  /** The digests are addressed to distinct emails. */
  lemma DigestsDistinctRecipients(rows: seq<ExpiryRow>, i: int, j: int)
    requires 0 <= i < j < |Digests(rows)|
    ensures Digests(rows)[i].to != Digests(rows)[j].to
  {
    DigestAt(rows, i);
    DigestAt(rows, j);
  }

  /** A row's email receives a digest, and that digest lists the row. */
  lemma DigestForEveryRow(rows: seq<ExpiryRow>, row: ExpiryRow)
    requires row in rows
    ensures exists i :: 0 <= i < |Digests(rows)| && Digests(rows)[i].to == row.email && row in Digests(rows)[i].courses
  {
    var ks := Keys(rows, EmailOf);
    var j :| 0 <= j < |rows| && rows[j] == row;
    assert EmailOf(rows[j]) in ks;
    var i :| 0 <= i < |ks| && ks[i] == row.email;
    DigestAt(rows, i);
    assert row in Bucket(rows, EmailOf, row.email);
  }

  /** Every digest lists at least one row, every row it lists has the
      digest's recipient as email, and it lists every row with that email;
      so each row is in exactly one digest. */
  lemma DigestContents(rows: seq<ExpiryRow>, i: int, row: ExpiryRow)
    requires 0 <= i < |Digests(rows)|
    ensures Digests(rows)[i].courses != []
    ensures row in Digests(rows)[i].courses <==> row in rows && row.email == Digests(rows)[i].to
  {
    var ks := Keys(rows, EmailOf);
    DigestAt(rows, i);
    BucketNonEmptyIff(rows, EmailOf, ks[i]);
    assert ks[i] in ks;
  }

  lemma {:induction false} AllCoursesFlatten(ks: seq<string>, rows: seq<ExpiryRow>)
    ensures AllCourses(Map(ks, DigestFor(rows))) == Flatten(ks, rows, EmailOf)
  {
    if ks != [] {
      InitLast(ks);
      AllCoursesFlatten(Init(ks), rows);
      assert Init(Map(ks, DigestFor(rows))) == Map(Init(ks), DigestFor(rows));
    }
  }

  /** Taken together, the digests list each row exactly as often as the query
      returned it. */
  lemma DigestsArePermutation(rows: seq<ExpiryRow>)
    ensures multiset(AllCourses(Digests(rows))) == multiset(rows)
  {
    var ks := Keys(rows, EmailOf);
    AllCoursesFlatten(ks, rows);
    FlattenPermutation(ks, rows, EmailOf);
  }

  /** One more row joins the end of the digest for its email, if there is
      one, and leaves every other digest as it was; a new email adds one
      digest. So each digest keeps its rows in query order, and the digests
      keep their order. */
  lemma DigestsSnocAt(rows: seq<ExpiryRow>, row: ExpiryRow, i: int)
    requires 0 <= i < |Digests(rows)|
    ensures |Digests(rows + [row])| == |Digests(rows)| + (if row.email in Keys(rows, EmailOf) then 0 else 1)
    ensures Digests(rows + [row])[i]
         == if Digests(rows)[i].to == row.email
            then Mail(row.email, Digests(rows)[i].courses + [row])
            else Digests(rows)[i]
  {
    var ks := Keys(rows, EmailOf);
    KeysSnoc(rows, row, EmailOf);
    DigestAt(rows, i);
    DigestAt(rows + [row], i);
    BucketSnoc(rows, row, EmailOf, ks[i]);
  }

  lemma DigestsSnocNewLast(rows: seq<ExpiryRow>, row: ExpiryRow)
    requires row.email !in Keys(rows, EmailOf)
    ensures |Digests(rows + [row])| == |Digests(rows)| + 1
    ensures Digests(rows + [row])[|Digests(rows)|] == Mail(row.email, [row])
  {
    var ks := Keys(rows, EmailOf);
    KeysSnoc(rows, row, EmailOf);
    BucketNonEmptyIff(rows, EmailOf, row.email);
    BucketSnoc(rows, row, EmailOf, row.email);
    DigestAt(rows + [row], |ks|);
  }

  /** A row whose email is new opens a digest of its own at the end. */
  lemma DigestsSnocNewEmail(rows: seq<ExpiryRow>, row: ExpiryRow)
    requires row.email !in Keys(rows, EmailOf)
    ensures Digests(rows + [row]) == Digests(rows) + [Mail(row.email, [row])]
  {
    var d, d' := Digests(rows), Digests(rows + [row]);
    DigestsSnocNewLast(rows, row);
    forall i | 0 <= i < |d|
      ensures d'[i] == d[i]
    {
      DigestAt(rows, i);
      assert Keys(rows, EmailOf)[i] in Keys(rows, EmailOf);
      DigestsSnocAt(rows, row, i);
    }
    SnocExt(d', d, Mail(row.email, [row]));
  }

  // ---------------------------------------------------------------------------
  // Sending
  // ---------------------------------------------------------------------------

  /** How many digests go out before the first one the transport refuses. */
  function FirstFailure(mails: seq<Mail>, transport: Mail -> bool): (n: nat)
    ensures n <= |mails|
    ensures forall i :: 0 <= i < n ==> transport(mails[i])
    ensures n < |mails| ==> !transport(mails[n])
  {
    if mails == [] || !transport(mails[0]) then 0
    else 1 + FirstFailure(mails[1..], transport)
  }

  /** The digests of a grouped dictionary, in key order. */
  function MailsOf(emails: seq<string>, byEmail: map<string, seq<ExpiryRow>>): seq<Mail>
    requires forall email :: email in emails ==> email in byEmail
  {
    seq(|emails|, i requires 0 <= i < |emails| => Mail(emails[i], byEmail[emails[i]]))
  }

  /** Sending the dictionary's buckets in key order sends `Digests`. */
  lemma MailsOfGroups(rows: seq<ExpiryRow>)
    ensures forall email :: email in Keys(rows, EmailOf) ==> email in GroupsOf(rows)
    ensures MailsOf(Keys(rows, EmailOf), GroupsOf(rows)) == Digests(rows)
  {
    var ks := Keys(rows, EmailOf);
    GroupsOfAreBuckets(rows);
    forall i | 0 <= i < |ks|
      ensures MailsOf(ks, GroupsOf(rows))[i] == Digests(rows)[i]
    {
      GroupsOfAt(rows, ks[i]);
      DigestAt(rows, i);
    }
  }

  /** The send loop: one mail per key, in key order; the first transport
      failure ends the run with FAILURE, so what was delivered is the digests
      before it and nothing after it is attempted. */
  method SendDigests(emails: seq<string>, byEmail: map<string, seq<ExpiryRow>>, transport: Mail -> bool)
    returns (status: ExitCode, delivered: seq<Mail>)
    requires forall email :: email in emails ==> email in byEmail
    ensures var mails := MailsOf(emails, byEmail);
            && delivered == mails[..FirstFailure(mails, transport)]
            && (status == Success <==> FirstFailure(mails, transport) == |mails|)
  {
    ghost var mails := MailsOf(emails, byEmail);
    delivered := [];
    var i := 0;
    while i < |emails|
      invariant 0 <= i <= |emails|
      invariant i <= FirstFailure(mails, transport)
      invariant delivered == mails[..i]
    {
      var mail := Mail(emails[i], byEmail[emails[i]]);
      assert mail == mails[i];
      if !transport(mail) {
        return Failure, delivered;
      }
      delivered := delivered + [mail];
      i := i + 1;
    }
    status := Success;
  }

  /** The whole command at time `now`: the digests it delivers are the first
      ones of `Digests` over the one-day expiry query, up to the first
      transport failure, and it succeeds exactly when every digest goes out. */
  method Execute(db: Db, now: int, transport: Mail -> bool) returns (status: ExitCode, delivered: seq<Mail>)
    ensures var mails := Digests(FindExpireInForUsers(db, OneDay, now));
            && delivered == mails[..FirstFailure(mails, transport)]
            && (status == Success <==> FirstFailure(mails, transport) == |mails|)
  {
    var rows := FindExpireInForUsers(db, OneDay, now);
    var emails, byEmail := GroupByEmail(rows);
    MailsOfGroups(rows);
    status, delivered := SendDigests(emails, byEmail, transport);
  }

  /** Every row a digest lists is addressed to the digest's recipient and
      expires within a day of `now`, both ends included. */
  lemma DigestRowsExpireWithinOneDay(db: Db, now: int, i: int, row: ExpiryRow)
    requires 0 <= i < |Digests(FindExpireInForUsers(db, OneDay, now))|
    requires row in Digests(FindExpireInForUsers(db, OneDay, now))[i].courses
    ensures row.email == Digests(FindExpireInForUsers(db, OneDay, now))[i].to
    ensures now <= row.expiresAt <= now + OneDay
  {
    var rows := FindExpireInForUsers(db, OneDay, now);
    DigestContents(rows, i, row);
  }
}
