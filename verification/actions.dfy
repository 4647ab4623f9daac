/**
 The club as a state machine: every button or form of the page is an `Action`,
 and `Apply` runs the handler it triggers. An action the page would not offer
 (an administrator form used by someone who is not an administrator, a pending
 request or poll that is not listed, a negative amount) leaves the club as it
 is. The main result is that every state reachable from the initial one keeps
 registered emails distinct and holds at most one vote per member and poll.
 */
module Actions {
  import opened Seqs
  import opened Tables
  import opened Membership
  import opened Polls
  import opened Ledger

  datatype Action =
    | SubmitRegistration(name: string, email: string, now: string)
    | ApproveRequest(actor: string, index: nat, today: string)
    | RejectRequest(actor: string, index: nat)
    | UpdateRole(actor: string, sel: string, role: Role)
    | RemoveMember(actor: string, sel: string)
    | RecordWins(actor: string, sel: string, wins: nat)
    | OpenPoll(actor: string, title: string, date: string, now: string)
    | CastVote(member: string, pollIndex: nat, choice: Choice)
    | RemovePoll(actor: string, pid: string)
    | AddContribution(actor: string, member: string, amount: real, desc: string, today: string)
    | SplitCost(actor: string, pid: string, total: real, desc: string, today: string)

  /** The state after the handler of `a` has run on `c`. */
  function Apply(c: Club, a: Action): Club {
    match a
    case SubmitRegistration(name, email, now) =>
      Register(c, name, email, now).After(c)
    case ApproveRequest(actor, i, today) =>
      if IsAdmin(c, actor) && i < |c.pending| then Approve(c, actor, i, today) else c
    case RejectRequest(actor, i) =>
      if IsAdmin(c, actor) && i < |c.pending| then Reject(c, actor, i) else c
    case UpdateRole(actor, sel, role) =>
      if IsAdmin(c, actor) then SetRole(c, actor, sel, role) else c
    case RemoveMember(actor, sel) =>
      if IsAdmin(c, actor) then DeleteMember(c, actor, sel) else c
    case RecordWins(actor, sel, wins) =>
      if IsAdmin(c, actor) && wins >= 1 then AddWins(c, actor, sel, wins) else c
    case OpenPoll(actor, title, date, now) =>
      if IsAdmin(c, actor) then CreatePoll(c, actor, title, date, now).After(c) else c
    case CastVote(member, i, choice) =>
      if i < |c.polls| then SubmitVote(c, member, c.polls[i], choice) else c
    case RemovePoll(actor, pid) =>
      if IsAdmin(c, actor) && pid in PollIds(c.polls) then DeletePoll(c, actor, pid) else c
    case AddContribution(actor, member, amount, desc, today) =>
      if IsAdmin(c, actor) && amount >= 0.0 then RecordContribution(c, actor, member, amount, desc, today) else c
    case SplitCost(actor, pid, total, desc, today) =>
      if IsAdmin(c, actor) && pid in PollIds(c.polls) && total >= 0.0
      then SplitExpense(c, actor, pid, total, desc, today).After(c)
      else c
  }

  /** Every handler keeps registered emails distinct and one vote per member and poll. */
  lemma ApplyKeepsConsistent(c: Club, a: Action)
    requires Consistent(c)
    ensures Consistent(Apply(c, a))
  {
    if a.OpenPoll? || a.CastVote? || a.RemovePoll? {
      PollActionKeepsConsistent(c, a);
    } else if a.AddContribution? || a.SplitCost? {
      LedgerActionKeepsConsistent(c, a);
    } else {
      MembershipActionKeepsConsistent(c, a);
    }
  }

  lemma MembershipActionKeepsConsistent(c: Club, a: Action)
    requires Consistent(c)
    requires a.SubmitRegistration? || a.ApproveRequest? || a.RejectRequest? || a.UpdateRole? || a.RemoveMember? || a.RecordWins?
    ensures Consistent(Apply(c, a))
  {
    match a
    case SubmitRegistration(name, email, now) =>
      RegisterKeepsEmailsUnique(c, name, email, now);
    case ApproveRequest(actor, i, today) =>
      if IsAdmin(c, actor) && i < |c.pending| {
        ApproveMovesEmail(c, actor, i, today);
      }
    case RejectRequest(actor, i) =>
      if IsAdmin(c, actor) && i < |c.pending| {
        RejectKeepsEmailsUnique(c, actor, i);
      }
    case UpdateRole(actor, sel, role) =>
      if IsAdmin(c, actor) {
        SetRoleKeepsEmailsUnique(c, actor, sel, role);
      }
    case RemoveMember(actor, sel) =>
      if IsAdmin(c, actor) {
        DeleteMemberKeepsEmailsUnique(c, actor, sel);
      }
    case RecordWins(actor, sel, wins) =>
      if IsAdmin(c, actor) && wins >= 1 {
        AddWinsKeepsEmailsUnique(c, actor, sel, wins);
      }
  }

  lemma PollActionKeepsConsistent(c: Club, a: Action)
    requires Consistent(c)
    requires a.OpenPoll? || a.CastVote? || a.RemovePoll?
    ensures Consistent(Apply(c, a))
  {
    match a
    case OpenPoll(actor, title, date, now) =>
      if IsAdmin(c, actor) {
        KeptWhenMembersUntouched(c, Apply(c, a));
      }
    case CastVote(member, i, choice) =>
      if i < |c.polls| {
        SubmitVoteKeepsOneVotePerPair(c, member, c.polls[i], choice);
        KeptWhenMembersUntouched(c, Apply(c, a));
      }
    case RemovePoll(actor, pid) =>
      if IsAdmin(c, actor) && pid in PollIds(c.polls) {
        DeletePollKeepsOneVotePerPair(c, actor, pid);
        KeptWhenMembersUntouched(c, Apply(c, a));
      }
  }

  lemma LedgerActionKeepsConsistent(c: Club, a: Action)
    requires Consistent(c)
    requires a.AddContribution? || a.SplitCost?
    ensures Consistent(Apply(c, a))
  {
    match a
    case AddContribution(actor, member, amount, desc, today) =>
      if IsAdmin(c, actor) && amount >= 0.0 {
        KeptWhenMembersUntouched(c, Apply(c, a));
      }
    case SplitCost(actor, pid, total, desc, today) =>
      if IsAdmin(c, actor) && pid in PollIds(c.polls) && total >= 0.0 {
        KeptWhenMembersUntouched(c, Apply(c, a));
      }
  }

  /** A handler that leaves the member and request tables alone keeps emails unique;
      it keeps consistency when its votes still hold one per member and poll. */
  lemma KeptWhenMembersUntouched(c: Club, c': Club)
    requires Consistent(c) && c'.users == c.users && c'.pending == c.pending
    requires OneVotePerPair(c'.votes)
    ensures Consistent(c')
  {
    assert Registered(c') == Registered(c);
  }

  /** The state after the actions have run in order. */
  function Run(c: Club, actions: seq<Action>): Club
    decreases |actions|
  {
    if |actions| == 0 then c else Run(Apply(c, actions[0]), actions[1..])
  }

  lemma {:induction false} RunKeepsConsistent(c: Club, actions: seq<Action>)
    requires Consistent(c)
    ensures Consistent(Run(c, actions))
    decreases |actions|
  {
    if |actions| > 0 {
      ApplyKeepsConsistent(c, actions[0]);
      RunKeepsConsistent(Apply(c, actions[0]), actions[1..]);
    }
  }

  /** Every state the page can reach from its first start is consistent. */
  lemma ReachableStatesConsistent(today: string, actions: seq<Action>)
    ensures EmailsUnique(Run(Initial(today), actions))
    ensures OneVotePerPair(Run(Initial(today), actions).votes)
  {
    RunKeepsConsistent(Initial(today), actions);
  }
}
