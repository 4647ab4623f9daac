/**
 The finance ledger: the administrator's contribution form, the session-cost
 split over a poll's Yes-voters, and the per-member balance table.

 Amounts are exact reals. The split divides the total exactly by the number of
 Yes-voters (no rounding); the whole-number share appears only in the
 confirmation message, which is not modelled.
 */
module Ledger {
  import opened Seqs
  import opened Tables
  import opened Polls

  // ---- balances ------------------------------------------------------------------

  /** What a finance row adds to its member's balance: a contribution counts
      positive, every other row counts negative. */
  function Signed(r: FinanceRow): real {
    if r.kind == Contribution then r.amount else -r.amount
  }

  /** The balance of `email`: the signed amounts of the rows carrying that email, summed. */
  function Balance(rows: seq<FinanceRow>, email: string): real {
    if |rows| == 0 then 0.0
    else
      var last := rows[|rows| - 1];
      Balance(rows[..|rows| - 1], email) + (if last.memberEmail == email then Signed(last) else 0.0)
  }

  /** Total of the Amount column over `email`'s contribution rows. */
  function Contributed(rows: seq<FinanceRow>, email: string): real {
    if |rows| == 0 then 0.0
    else
      var last := rows[|rows| - 1];
      Contributed(rows[..|rows| - 1], email)
        + (if last.memberEmail == email && last.kind == Contribution then last.amount else 0.0)
  }

  /** Total of the Amount column over `email`'s other (expense) rows. */
  function Charged(rows: seq<FinanceRow>, email: string): real {
    if |rows| == 0 then 0.0
    else
      var last := rows[|rows| - 1];
      Charged(rows[..|rows| - 1], email)
        + (if last.memberEmail == email && last.kind != Contribution then last.amount else 0.0)
  }

  /** Total of the Amount column. */
  function TotalAmount(rows: seq<FinanceRow>): real {
    if |rows| == 0 then 0.0 else TotalAmount(rows[..|rows| - 1]) + rows[|rows| - 1].amount
  }

  /** A balance is what the member contributed minus what the member was charged. */
  lemma {:induction false} BalanceIsContributedMinusCharged(rows: seq<FinanceRow>, email: string)
    ensures Balance(rows, email) == Contributed(rows, email) - Charged(rows, email)
  {
    if |rows| > 0 {
      BalanceIsContributedMinusCharged(rows[..|rows| - 1], email);
    }
  }

  /** A member with no finance rows has balance zero. */
  lemma {:induction false} BalanceWithoutRows(rows: seq<FinanceRow>, email: string)
    requires forall r | r in rows :: r.memberEmail != email
    ensures Balance(rows, email) == 0.0
  {
    if |rows| > 0 {
      assert rows[|rows| - 1] in rows;
      BalanceWithoutRows(rows[..|rows| - 1], email);
    }
  }

  /** Balances add up over consecutive stretches of the ledger. */
  lemma {:induction false} BalanceOfConcat(a: seq<FinanceRow>, b: seq<FinanceRow>, email: string)
    ensures Balance(a + b, email) == Balance(a, email) + Balance(b, email)
  {
    if |b| == 0 {
      assert a + b == a;
    } else {
      assert (a + b)[..|a + b| - 1] == a + b[..|b| - 1];
      BalanceOfConcat(a, b[..|b| - 1], email);
    }
  }

  // ---- contributions -----------------------------------------------------------------

  /** The contribution form: appends one Contribution row of `amount` for `member`,
      which raises that member's balance by `amount` and no one else's. */
  function RecordContribution(c: Club, actor: string, member: string, amount: real, desc: string, today: string): (c': Club)
    requires IsAdmin(c, actor) && amount >= 0.0
    ensures |c'.finance| == |c.finance| + 1 && c'.finance[..|c.finance|] == c.finance
    ensures c'.finance[|c.finance|] == FinanceRow(today, Contribution, desc, amount, member)
    ensures Balance(c'.finance, member) == Balance(c.finance, member) + amount
    ensures forall e :: e != member ==> Balance(c'.finance, e) == Balance(c.finance, e)
    ensures c'.users == c.users && c'.pending == c.pending && c'.polls == c.polls && c'.votes == c.votes
  {
    var finance := c.finance + [FinanceRow(today, Contribution, desc, amount, member)];
    assert finance[..|c.finance|] == c.finance;
    c.(finance := finance)
  }

  // ---- expense split -------------------------------------------------------------------

  /** One Expense row of `share` for each player, in order. */
  function ExpenseRows(players: seq<string>, share: real, note: string, today: string): (rows: seq<FinanceRow>)
    ensures |rows| == |players|
    ensures forall k | 0 <= k < |rows| :: rows[k] == FinanceRow(today, Expense, note, share, players[k])
  {
    if |players| == 0 then []
    else
      var last := FinanceRow(today, Expense, note, share, players[|players| - 1]);
      ExpenseRows(players[..|players| - 1], share, note, today) + [last]
  }

  /** `share` taken `n` times. */
  function Times(share: real, n: nat): real {
    if n == 0 then 0.0 else Times(share, n - 1) + share
  }

  lemma {:induction false} TimesIsProduct(share: real, n: nat)
    ensures Times(share, n) == share * (n as real)
  {
    if n > 0 {
      TimesIsProduct(share, n - 1);
    }
  }

  /** Equal shares of `total` over `n` people add back up to `total`. */
  lemma EqualSharesAddUp(total: real, n: nat)
    requires n > 0
    ensures Times(total / (n as real), n) == total
  {
    TimesIsProduct(total / (n as real), n);
  }

  /** The split rows charge each player `share` once per time the player is listed. */
  lemma {:induction false} BalanceOfExpenseRows(players: seq<string>, share: real, note: string, today: string, email: string)
    ensures Balance(ExpenseRows(players, share, note, today), email) == -Times(share, multiset(players)[email])
  {
    if |players| > 0 {
      var init := players[..|players| - 1];
      var rows := ExpenseRows(players, share, note, today);
      assert rows[..|rows| - 1] == ExpenseRows(init, share, note, today);
      BalanceOfExpenseRows(init, share, note, today, email);
      CountLast(players, email);
    }
  }

  /** The split rows add up to `share` times the number of players. */
  lemma {:induction false} TotalOfExpenseRows(players: seq<string>, share: real, note: string, today: string)
    ensures TotalAmount(ExpenseRows(players, share, note, today)) == Times(share, |players|)
  {
    if |players| > 0 {
      var rows := ExpenseRows(players, share, note, today);
      assert rows[..|rows| - 1] == ExpenseRows(players[..|players| - 1], share, note, today);
      TotalOfExpenseRows(players[..|players| - 1], share, note, today);
    }
  }

  /** The Description of a split row: the entered description followed by the poll id in brackets. */
  function SplitNote(desc: string, pid: string): string {
    desc + " (" + pid + ")"
  }

  /** The split button: with no Yes-voter in poll `pid` nothing is posted; otherwise one
      Expense row per Yes-voter is appended, each for `total` divided exactly by the number
      of Yes-voters, and the appended rows add up to `total`. Nothing prevents splitting
      a poll's cost more than once. */
  function SplitExpense(c: Club, actor: string, pid: string, total: real, desc: string, today: string): (s: Step)
    requires IsAdmin(c, actor) && pid in PollIds(c.polls) && total >= 0.0
    ensures s.Refused? <==> CountVotes(c.votes, pid, Yes) == 0
    ensures s.Refused? ==> s.reason == NoYesVoters
    ensures s.Applied? ==>
      && |s.next.finance| == |c.finance| + CountVotes(c.votes, pid, Yes)
      && s.next.finance[..|c.finance|] == c.finance
    ensures s.Applied? ==>
      var n := CountVotes(c.votes, pid, Yes);
      var added := s.next.finance[|c.finance|..];
      && (forall k | 0 <= k < n ::
            added[k] == FinanceRow(today, Expense, SplitNote(desc, pid), total / (n as real), Ballots(c.votes, pid, Yes)[k]))
      && TotalAmount(added) == total
    ensures s.Applied? ==>
      s.next.users == c.users && s.next.pending == c.pending && s.next.polls == c.polls && s.next.votes == c.votes
  {
    var players := Ballots(c.votes, pid, Yes);
    if |players| == 0 then Refused(NoYesVoters)
    else
      var share := total / (|players| as real);
      var rows := ExpenseRows(players, share, SplitNote(desc, pid), today);
      TotalOfExpenseRows(players, share, SplitNote(desc, pid), today);
      EqualSharesAddUp(total, |players|);
      assert (c.finance + rows)[|c.finance|..] == rows;
      assert (c.finance + rows)[..|c.finance|] == c.finance;
      Applied(c.(finance := c.finance + rows))
  }

  /** Whatever the votes, a split charges each member the share once per Yes-vote of
      theirs in the poll; members without a Yes-vote there are not charged. */
  lemma SplitChargesPerYesVote(c: Club, actor: string, pid: string, total: real, desc: string, today: string, email: string)
    requires IsAdmin(c, actor) && pid in PollIds(c.polls) && total >= 0.0
    requires SplitExpense(c, actor, pid, total, desc, today).Applied?
    ensures var players := Ballots(c.votes, pid, Yes);
      Balance(SplitExpense(c, actor, pid, total, desc, today).next.finance, email)
        == Balance(c.finance, email) - Times(total / (|players| as real), multiset(players)[email])
  {
    var players := Ballots(c.votes, pid, Yes);
    var share := total / (|players| as real);
    var rows := ExpenseRows(players, share, SplitNote(desc, pid), today);
    assert SplitExpense(c, actor, pid, total, desc, today).next.finance == c.finance + rows;
    BalanceOfConcat(c.finance, rows, email);
    BalanceOfExpenseRows(players, share, SplitNote(desc, pid), today, email);
  }

  /** With one vote per member and poll, a split lowers each Yes-voter's balance by
      exactly total / n and leaves every other balance unchanged. */
  lemma SplitChargesEachYesVoterOnce(c: Club, actor: string, pid: string, total: real, desc: string, today: string, email: string)
    requires IsAdmin(c, actor) && pid in PollIds(c.polls) && total >= 0.0
    requires OneVotePerPair(c.votes)
    requires SplitExpense(c, actor, pid, total, desc, today).Applied?
    ensures var n := CountVotes(c.votes, pid, Yes);
      Balance(SplitExpense(c, actor, pid, total, desc, today).next.finance, email)
        == Balance(c.finance, email) - (if email in Ballots(c.votes, pid, Yes) then total / (n as real) else 0.0)
  {
    var players := Ballots(c.votes, pid, Yes);
    SplitChargesPerYesVote(c, actor, pid, total, desc, today, email);
    BallotsDistinct(c.votes, pid, Yes);
    ChargedOnceWhenDistinct(players, total / (|players| as real), email);
  }

  /** In a list without repeats, a player is charged the share once or not at all. */
  lemma ChargedOnceWhenDistinct(players: seq<string>, share: real, email: string)
    requires Distinct(players)
    ensures Times(share, multiset(players)[email]) == if email in players then share else 0.0
  {
    DistinctIffSingleCounts(players);
    if email in players {
      assert multiset(players)[email] == 1;
      assert Times(share, 1) == share;
    } else {
      assert multiset(players)[email] == 0;
    }
  }

  /** Splitting the same poll's cost twice charges every Yes-voter twice. */
  lemma RepeatedSplitChargesAgain(c: Club, actor: string, pid: string, total: real, desc: string, today: string, email: string)
    requires IsAdmin(c, actor) && pid in PollIds(c.polls) && total >= 0.0
    requires OneVotePerPair(c.votes) && email in Ballots(c.votes, pid, Yes)
    ensures var c1 := SplitExpense(c, actor, pid, total, desc, today).After(c);
      && IsAdmin(c1, actor) && pid in PollIds(c1.polls)
      && var c2 := SplitExpense(c1, actor, pid, total, desc, today).After(c1);
         Balance(c2.finance, email)
           == Balance(c.finance, email) - 2.0 * (total / (CountVotes(c.votes, pid, Yes) as real))
  {
    var c1 := SplitExpense(c, actor, pid, total, desc, today).After(c);
    SplitChargesEachYesVoterOnce(c, actor, pid, total, desc, today, email);
    SplitChargesEachYesVoterOnce(c1, actor, pid, total, desc, today, email);
  }

  // ---- balance table -------------------------------------------------------------------

  datatype BalanceLine = BalanceLine(name: string, email: string, balance: real)

  /** The balance table: nothing while the ledger is empty; otherwise one line per member
      row, in member order, holding contributions minus charges (zero without rows). */
  function BalanceReport(c: Club): (r: Option<seq<BalanceLine>>)
    ensures r.None? <==> c.finance == []
    ensures r.Some? ==> |r.value| == |c.users|
    ensures r.Some? ==> forall i | 0 <= i < |c.users| ::
      && r.value[i].name == c.users[i].name
      && r.value[i].email == c.users[i].email
      && r.value[i].balance == Contributed(c.finance, c.users[i].email) - Charged(c.finance, c.users[i].email)
    ensures r.Some? ==> forall i | 0 <= i < |c.users| ::
      (forall row | row in c.finance :: row.memberEmail != c.users[i].email) ==> r.value[i].balance == 0.0
  {
    if c.finance == [] then None
    else
      var lines := Map(c.users, (u: User) => BalanceLine(u.name, u.email, Balance(c.finance, u.email)));
      assert forall i | 0 <= i < |c.users| ::
        lines[i].balance == Contributed(c.finance, c.users[i].email) - Charged(c.finance, c.users[i].email)
      by {
        forall i | 0 <= i < |c.users| {
          BalanceIsContributedMinusCharged(c.finance, c.users[i].email);
        }
      }
      assert forall i | 0 <= i < |c.users| ::
        (forall row | row in c.finance :: row.memberEmail != c.users[i].email) ==> lines[i].balance == 0.0
      by {
        forall i | 0 <= i < |c.users| && (forall row | row in c.finance :: row.memberEmail != c.users[i].email) {
          BalanceWithoutRows(c.finance, c.users[i].email);
        }
      }
      Some(lines)
  }
}
