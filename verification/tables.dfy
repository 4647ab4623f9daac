/**
 The five tables of the pickleball club and the club state that holds them.

 Every row is an immutable record; a table is a sequence of rows in insertion
 order. Dates and timestamps are opaque strings supplied by the caller. The
 module also states the two invariants the handlers are meant to keep: no email
 is registered twice (across members and pending requests), and no member has
 two votes in the same poll.
 */
module Tables {
  import opened Seqs

  datatype Role = Admin | Member

  /** A row of the members table: Name, Email, Role, Approved, Joined, Wins. */
  datatype User = User(name: string, email: string, role: Role, approved: bool, joined: string, wins: nat)

  /** A row of the pending-registrations table: Name, Email, RequestedAt. */
  datatype PendingRequest = PendingRequest(name: string, email: string, requestedAt: string)

  /** A row of the polls table: PollID, Date (the play day), CreatedAt, Title. */
  datatype Poll = Poll(id: string, date: string, createdAt: string, title: string)

  datatype Choice = Yes | No

  /** A row of the votes table: PollID, Date, MemberEmail, Vote. */
  datatype Vote = Vote(pollId: string, date: string, memberEmail: string, choice: Choice)

  /** The Type column of the finance table. */
  datatype EntryKind = Contribution | Expense

  /** A row of the finance table: Date, Type, Description, Amount, MemberEmail. */
  datatype FinanceRow = FinanceRow(date: string, kind: EntryKind, description: string, amount: real, memberEmail: string)

  datatype Club = Club(
    users: seq<User>,
    pending: seq<PendingRequest>,
    polls: seq<Poll>,
    votes: seq<Vote>,
    finance: seq<FinanceRow>)

  /** Why a submitted form changed nothing. Registration and the expense split show a
      warning; an empty poll title is ignored without one. */
  datatype Refusal = MissingNameOrEmail | EmailTaken | MissingTitle | NoYesVoters

  /** The outcome of a handler that may refuse its input. */
  datatype Step = Applied(next: Club) | Refused(reason: Refusal) {
    /** The club state once the step has been taken from `c`. */
    function After(c: Club): Club {
      if Applied? then next else c
    }
  }

  const AdminName := "Admin"
  const AdminEmail := "admin@pickleball.club"

  /** The state on first start: one approved demo administrator, every other table empty. */
  function Initial(today: string): (c: Club)
    ensures |c.users| == 1 && c.users[0].role == Admin && c.users[0].approved && c.users[0].wins == 0
    ensures c.pending == [] && c.polls == [] && c.votes == [] && c.finance == []
    ensures Consistent(c)
  {
    var c := Club([User(AdminName, AdminEmail, Admin, true, today, 0)], [], [], [], []);
    assert UserEmails(c.users)[0] == AdminEmail;
    assert Registered(c) == [AdminEmail];
    assert Map(c.votes, PairKey) == [];
    c
  }

  // ---- columns -------------------------------------------------------------

  function UserEmail(u: User): string { u.email }
  function RequestEmail(p: PendingRequest): string { p.email }
  function PollIdOf(p: Poll): string { p.id }
  function VoterOf(v: Vote): string { v.memberEmail }

  /** A vote is identified by the poll it is cast in and the member casting it. */
  function PairKey(v: Vote): (string, string) { (v.pollId, v.memberEmail) }

  function UserEmails(us: seq<User>): seq<string> { Map(us, UserEmail) }
  function PendingEmails(ps: seq<PendingRequest>): seq<string> { Map(ps, RequestEmail) }
  function PollIds(ps: seq<Poll>): seq<string> { Map(ps, PollIdOf) }

  /** Every email the club knows: members first, then pending requests. */
  function Registered(c: Club): seq<string> {
    UserEmails(c.users) + PendingEmails(c.pending)
  }

  // ---- invariants ----------------------------------------------------------

  /** No email is held by two members, two requests, or a member and a request. */
  predicate EmailsUnique(c: Club) {
    Distinct(Registered(c))
  }

  /** No member has two votes in the same poll. */
  predicate OneVotePerPair(votes: seq<Vote>) {
    Distinct(Map(votes, PairKey))
  }

  predicate Consistent(c: Club) {
    EmailsUnique(c) && OneVotePerPair(c.votes)
  }

  // ---- the signed-in user ----------------------------------------------------

  /** Position of the first member row with `email`, as a lookup taking the first match does. */
  function FindUser(us: seq<User>, email: string): (r: Option<nat>)
    ensures r.Some? ==> r.value < |us| && us[r.value].email == email
    ensures r.Some? ==> forall k :: 0 <= k < r.value ==> us[k].email != email
    ensures r.None? <==> email !in UserEmails(us)
  {
    if |us| == 0 then None
    else if us[0].email == email then Some(0)
    else
      match FindUser(us[1..], email)
      case None =>
        None
      case Some(k) =>
        Some(k + 1)
  }

  /** The lookup depends only on the email column. */
  lemma FindUserSameEmails(us: seq<User>, vs: seq<User>, email: string)
    requires UserEmails(us) == UserEmails(vs)
    ensures FindUser(us, email) == FindUser(vs, email)
  {
    var a, b := FindUser(us, email), FindUser(vs, email);
    if a.Some? && b.Some? {
      assert |us| == |vs|;
      assert forall k | 0 <= k < |us| :: us[k].email == UserEmails(us)[k] == vs[k].email;
      assert a.value == b.value;
    }
  }

  /** The signed-in user `actor` may use the administrator forms. */
  predicate IsAdmin(c: Club, actor: string) {
    match FindUser(c.users, actor)
    case None => false
    case Some(k) => c.users[k].role == Admin
  }

  // ---- poll identifiers ------------------------------------------------------

  function DigitChar(d: nat): (ch: char)
    requires d < 10
    ensures '0' <= ch <= '9'
  {
    ('0' as int + d) as char
  }

  function DigitValue(ch: char): nat {
    if '0' <= ch <= '9' then ch as int - '0' as int else 0
  }

  /** The decimal numeral of `n`, without leading zeros. */
  function Decimal(n: nat): (s: string)
    ensures |s| >= 1
    ensures forall k :: 0 <= k < |s| ==> '0' <= s[k] <= '9'
  {
    if n < 10 then [DigitChar(n)] else Decimal(n / 10) + [DigitChar(n % 10)]
  }

  /** Reads a numeral back; used to show that `Decimal` loses no information. */
  function ParseDecimal(s: string): nat {
    if |s| == 0 then 0 else ParseDecimal(s[..|s| - 1]) * 10 + DigitValue(s[|s| - 1])
  }

  lemma {:induction false} ParseDecimalInvertsDecimal(n: nat)
    ensures ParseDecimal(Decimal(n)) == n
  {
    if n >= 10 {
      var s := Decimal(n);
      assert s[..|s| - 1] == Decimal(n / 10);
      ParseDecimalInvertsDecimal(n / 10);
    }
  }

  /** The identifier a poll receives when it is created as the `n`-th row: "poll_n". */
  function PollIdFor(n: nat): string {
    "poll_" + Decimal(n)
  }

  /** Two poll identifiers coincide exactly when they were made from the same count. */
  lemma PollIdForInjective(m: nat, n: nat)
    ensures PollIdFor(m) == PollIdFor(n) <==> m == n
  {
    if PollIdFor(m) == PollIdFor(n) {
      assert Decimal(m) == PollIdFor(m)[5..];
      assert Decimal(n) == PollIdFor(n)[5..];
      ParseDecimalInvertsDecimal(m);
      ParseDecimalInvertsDecimal(n);
    }
  }
}
