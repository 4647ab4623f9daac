# Pickleball club manager — a Dafny model of its handlers

The application is a single Streamlit page (`streamlit_app.py`) for running a
pickleball club: people register and wait for an administrator's approval, the
administrator records wins, opens attendance polls for play days, records
contributions, and splits a session's cost evenly over the members who voted
Yes. Its business logic is written inline in the page's button handlers. All of
it works on five pandas tables kept in the session state: `users`, `pending`,
`polls`, `votes` and `finance`.

This project lifts that logic into a pure state machine. `Tables.Club` holds
the five tables as sequences of immutable records. Each button or form becomes
one function from a `Club` to the next `Club`. Handlers that can turn an input
down return a `Step`, which is either `Applied(next)` or `Refused(reason)`. A
refused step changes nothing. Registration and the expense split show a warning
when they refuse; an empty poll title is ignored silently
(streamlit_app.py:187 has no else branch). Administrator-only handlers take the
signed-in `actor` and require `IsAdmin`, because the page only shows them to an
administrator. Amounts are exact `real`s.

Modules:

- `Seqs` (seqs.dfy): generic operations on tables. `Filter` is a boolean-mask
  selection, `Map` reads one column, `RemoveAt` drops a row and resets the
  index. `Distinct` means a column has no repeated value.
- `Tables` (tables.dfy): the row records and `Club`. It also holds the initial
  state, the signed-in-user lookup, poll identifiers, and the two invariants.
  `EmailsUnique` says no email appears twice across members and pending
  requests. `OneVotePerPair` says no member has two votes in the same poll.
- `Membership` (membership.dfy): register, approve, reject, change role,
  delete member, record wins, and the ranking.
- `Polls` (polls.dfy): create poll, Yes/No counts, vote upsert, delete poll.
- `Ledger` (ledger.dfy): contribution, expense split, and balances.
- `Actions` (actions.dfy): every handler as an `Action`. It proves that every
  reachable state keeps both invariants.

Behaviour of the code worth noting:

- The expense split divides exactly: the share is
  `float(total_cost) / len(players)` (streamlit_app.py:262), so no remainder
  is dropped and the rows add up to the total. Only the confirmation message
  truncates the share (streamlit_app.py:265).
- Deleting a member removes only the member rows (streamlit_app.py:147-151).
  Their votes, finance rows and any pending request stay in place; there is no
  cascade.
- A contribution of 0 is accepted, because the input's minimum is 0.0.
- There are no "not found" or "invalid state" errors. The page's selectors
  only offer existing rows, so those conditions are preconditions here.
- Nothing stops a poll's cost from being split twice (`RepeatedSplitChargesAgain`).
- Poll identifiers are `poll_<number of polls + 1>`. They can repeat after a
  deletion (`PollIdsCanRepeat`), and deleting a poll removes every poll with
  that identifier. What the page then does is described under "Left out".
- Deletions and the vote upsert keep the remaining rows in table order
  (`Seqs.Subsequence`); the split posts its rows in vote order and the balance
  table lists members in table order.

## Model

| member | source | states |
|---|---|---|
| Seqs.FilterSubsequence | streamlit_app.py:148 | A boolean-mask selection keeps the rows it selects in their table order |
| Seqs.SwappedIsNotSubsequence | streamlit_app.py:148 | Keeping rows in order excludes reordering: two rows swapped are a subsequence only when they are equal |
| Tables.Initial | streamlit_app.py:12-33 | The first state has one approved Admin row with no wins and every other table empty, and it satisfies both invariants |
| Tables.FindUser | streamlit_app.py:81-84 | The signed-in user's record is the first member row with that email. There is none exactly when no member row holds the email |
| Tables.FindUserSameEmails | streamlit_app.py:81-84 | The signed-in user lookup depends only on the email column, so rewriting other columns finds the same row |
| Tables.PollIdForInjective | streamlit_app.py:188 | Two `poll_<n>` identifiers are equal exactly when they were made from the same count |
| Tables.ParseDecimalInvertsDecimal | streamlit_app.py:188 | The number in a poll identifier can be read back unchanged |
| Membership.Register | streamlit_app.py:69-76 | Registration is refused exactly when the name or email is empty or the email is already a member's or a pending request's, with the matching warning. Otherwise exactly one pending row with that name, email and time is appended and nothing else changes |
| Membership.RegisterKeepsEmailsUnique | streamlit_app.py:72-75 | The duplicate check keeps emails unique across members and pending requests |
| Membership.Approve | streamlit_app.py:120-122 | Approval appends one member with the request's name and email, role Member, approved, joined today and 0 wins. It removes exactly that request, and the existing members and the other tables are unchanged |
| Membership.ApproveMovesEmail | streamlit_app.py:121-122 | Approval moves the email from pending to members: the registered emails are the same collection before and after, so uniqueness is kept |
| Membership.Reject | streamlit_app.py:124-125 | Rejection removes exactly that pending request and changes nothing else |
| Membership.RejectKeepsEmailsUnique | streamlit_app.py:125 | After a rejection the email is no longer registered, so it can register again, and uniqueness is kept |
| Membership.SetRole | streamlit_app.py:143-145 | Every member row with the selected email now has the new role; rows with other emails keep theirs, and no column other than the role changes |
| Membership.SetRoleDecidesAdmin | streamlit_app.py:86-88 | After a role change the selected member passes the administrator check exactly when the new role is Admin; for every other email the check answers as before |
| Membership.SetRoleKeepsEmailsUnique | streamlit_app.py:145 | A role change leaves the registered emails as they were |
| Membership.DeleteMember | streamlit_app.py:147-149 | Deletion removes exactly the member rows with that email and keeps every other row with its multiplicity, in table order. Pending requests, polls, votes and finance rows are untouched |
| Membership.DeleteMemberKeepsEmailsUnique | streamlit_app.py:148 | Deleting a member keeps emails unique |
| Membership.AddWins | streamlit_app.py:160-163 | Recording wins adds the amount (at least 1) to the selected email's Wins. Every other member's Wins and every other column is unchanged |
| Membership.AddWinsKeepsEmailsUnique | streamlit_app.py:163 | Recording wins leaves the registered emails as they were |
| Membership.SortByWins | streamlit_app.py:171 | The sort is a permutation of its input, ordered by Wins from most to fewest |
| Membership.Ranking | streamlit_app.py:169-172 | The ranking holds exactly the approved members, each as often as in the table, with the most wins first |
| Polls.CreatePoll | streamlit_app.py:187-189 | An empty title creates nothing. Otherwise exactly one poll is appended with identifier `poll_<count+1>`, the chosen date, the creation time and the title. The other tables are unchanged |
| Polls.Ballots | streamlit_app.py:258 | The voters with a given answer in a poll: one entry per matching vote, and an email appears exactly when some vote of that poll with that answer carries it |
| Polls.YesAndNoCoverPoll | streamlit_app.py:200-201 | The Yes count plus the No count equals the number of votes in the poll |
| Polls.CountIsNumberOfMembers | streamlit_app.py:200-201 | With one vote per member and poll, each count is the number of distinct members who gave that answer |
| Polls.BallotsDistinct | streamlit_app.py:258 | With one vote per member and poll, no member appears twice in a poll's Yes list |
| Polls.SubmitVote | streamlit_app.py:210-214 | After a vote, exactly one vote row exists for that poll and member, the last row, carrying the new answer. Every other vote keeps its multiplicity, and the votes before it are the old ones in their order, and the other tables are unchanged |
| Polls.SubmitVoteKeepsOneVotePerPair | streamlit_app.py:213-214 | The upsert keeps at most one vote per member and poll |
| Polls.SubmitVoteIdempotent | streamlit_app.py:213-214 | Submitting the same answer twice gives the same votes as submitting it once |
| Polls.DeletePoll | streamlit_app.py:221-223 | Deletion removes exactly the polls with that identifier and every vote cast in them. Other polls and votes keep their multiplicity and their order, and members, requests and finance rows are untouched |
| Polls.DeletePollKeepsOneVotePerPair | streamlit_app.py:223 | Deleting a poll keeps at most one vote per member and poll |
| Polls.DeletedPollHasNoVotes | streamlit_app.py:200-201 | After deletion the poll's Yes and No counts are 0 |
| Polls.PollIdsCanRepeat | streamlit_app.py:188 | With polls `poll_1` and `poll_2`, deleting `poll_1` and creating another poll leaves two polls with the same identifier |
| Ledger.BalanceIsContributedMinusCharged | streamlit_app.py:280-281 | A member's balance is the sum of their Contribution amounts minus the sum of their other rows' amounts |
| Ledger.BalanceWithoutRows | streamlit_app.py:283 | A member without finance rows has balance 0 |
| Ledger.BalanceOfConcat | streamlit_app.py:281 | Balances add up over consecutive parts of the ledger |
| Ledger.RecordContribution | streamlit_app.py:241-242 | A contribution appends exactly one Contribution row. It raises that member's balance by the amount and leaves every other balance and table unchanged |
| Ledger.ExpenseRows | streamlit_app.py:263-264 | The split posts one Expense row per player, in order, each carrying the share and the player's email |
| Ledger.BalanceOfExpenseRows | streamlit_app.py:262-264 | The split rows lower a member's balance by the share once for each time the member is listed |
| Ledger.TotalOfExpenseRows | streamlit_app.py:263-264 | The split rows add up to the share taken once per player |
| Ledger.EqualSharesAddUp | streamlit_app.py:262 | With exact division, n shares of total/n add back up to the total |
| Ledger.SplitExpense | streamlit_app.py:257-264 | The split is refused exactly when the poll has no Yes vote, and then finance is unchanged. Otherwise it appends exactly n Expense rows, one per Yes-voter in vote order, each of total/n, and their amounts sum to the total. Members, requests, polls and votes are unchanged |
| Ledger.SplitChargesPerYesVote | streamlit_app.py:258-264 | Whatever the votes, a split lowers a member's balance by total/n once per Yes vote of theirs in the poll. A member without a Yes vote there keeps their balance |
| Ledger.SplitChargesEachYesVoterOnce | streamlit_app.py:258-264 | With one vote per member and poll, a split lowers each Yes-voter's balance by exactly total/n and leaves everyone else's unchanged |
| Ledger.RepeatedSplitChargesAgain | streamlit_app.py:257-264 | Splitting the same poll's cost twice charges each Yes-voter twice: nothing guards against a repeat |
| Ledger.BalanceReport | streamlit_app.py:278-286 | While finance is empty no table is shown. Otherwise there is one line per member row, in order, with that member's name, email and contributions minus charges, and 0 for a member with no rows |
| Actions.ApplyKeepsConsistent | streamlit_app.py:69-264 | Every handler keeps emails unique and one vote per member and poll |
| Actions.MembershipActionKeepsConsistent | streamlit_app.py:69-163 | Registration, approval, rejection, role change, deletion and win recording keep both invariants |
| Actions.PollActionKeepsConsistent | streamlit_app.py:187-223 | Creating a poll, voting and deleting a poll keep both invariants |
| Actions.LedgerActionKeepsConsistent | streamlit_app.py:241-264 | Contributions and expense splits keep both invariants |
| Actions.RunKeepsConsistent | streamlit_app.py:69-264 | Any sequence of handlers keeps both invariants |
| Actions.ReachableStatesConsistent | streamlit_app.py:12-35 | Every state reachable from the first start has unique emails and one vote per member and poll |

## Left out

- Page rendering (titles, tabs, forms, columns, tables, success and warning
  messages) and `experimental_rerun`: they are presentation only.
- Login and logout (streamlit_app.py:40-61, 289-297). Admin gating is the
  `IsAdmin` precondition on the signed-in `actor`. Voting takes the member's
  email as a parameter.
- The crash when the signed-in member's row has been deleted: `iloc[0]` on an
  empty selection raises, and the model has no exceptions for it.
- Actions.Apply: once two polls share an identifier, the page builds the same
  widget keys (`vote_<id>`, `submit_vote_<id>`, `delpoll_<id>`,
  streamlit_app.py:209, 210, 221) twice, and Streamlit stops the script with a
  duplicate-key error. The vote tab and the tabs after it are not drawn until a
  delete removes both polls. The model has no rendering and lets every action
  go ahead in that state. This over-approximates the page, so the invariants
  still hold for it.
- Polls.SubmitVote: models the intended upsert (remove the member's old votes
  in the poll, then append). The code filters without resetting the index and
  then writes at label `len(votes)`. In pandas that write can overwrite
  another member's vote instead of appending. The model does not reproduce
  pandas index labels.
- Dates and timestamps (`date.today()`, `datetime.now()`): they are opaque
  strings passed in by the caller.
- IEEE floating-point rounding: amounts are exact reals.
- Display-only ordering. The ranking's order among members with equal wins is
  not specified (`SortByWins` only promises descending wins). The rank numbers
  shown start at 1. The finance table is sorted by date for display.
- The whole-number share in the split's confirmation message
  (`int(per_head)`), and the default choice pre-selected in the vote box: both
  are display only.
- The members list (streamlit_app.py:129-135): a display of the approved
  members, the same selection `Ranking` uses.
- Selectors with no options: a missing selection (`None`) as the member of a
  contribution is not modelled. The member is any email string.
- Roles, vote answers and finance types are enumerations. The page only ever
  writes "Admin"/"Member", "Yes"/"No" and "Contribution"/"Expense".
- The unused `BytesIO` import.
