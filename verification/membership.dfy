/**
 Membership handlers: the self-registration form, the administrator's approve
 and reject buttons on pending requests, the role and delete controls on a
 member, the win-recording form, and the ranking table.

 Each handler is a pure rewrite of the `users` and `pending` tables of a
 `Club`; the administrator-only handlers take the signed-in `actor` and
 require `IsAdmin`, which is how the page gates them.
 */
module Membership {
  import opened Seqs
  import opened Tables

  // ---- registration ----------------------------------------------------------

  /** The registration form: refuses an empty name or email and an email already
      held by a member or a pending request; otherwise queues one pending request. */
  function Register(c: Club, name: string, email: string, now: string): (s: Step)
    ensures s.Refused? <==> name == "" || email == "" || email in Registered(c)
    ensures s.Refused? ==> s.reason == (if name == "" || email == "" then MissingNameOrEmail else EmailTaken)
    ensures s.Applied? ==>
      && s.next.users == c.users && s.next.polls == c.polls
      && s.next.votes == c.votes && s.next.finance == c.finance
    ensures s.Applied? ==>
      && |s.next.pending| == |c.pending| + 1
      && s.next.pending[..|c.pending|] == c.pending
      && s.next.pending[|c.pending|].name == name
      && s.next.pending[|c.pending|].email == email
      && s.next.pending[|c.pending|].requestedAt == now
  {
    if name == "" || email == "" then Refused(MissingNameOrEmail)
    else if email in UserEmails(c.users) || email in PendingEmails(c.pending) then Refused(EmailTaken)
    else Applied(c.(pending := c.pending + [PendingRequest(name, email, now)]))
  }

  lemma RegisterKeepsEmailsUnique(c: Club, name: string, email: string, now: string)
    requires EmailsUnique(c)
    ensures EmailsUnique(Register(c, name, email, now).After(c))
  {
    var s := Register(c, name, email, now);
    if s.Applied? {
      var c' := s.next;
      MapConcat(c.pending, [PendingRequest(name, email, now)], RequestEmail);
      assert Registered(c') == Registered(c) + [email];
      DistinctAppend(Registered(c), email);
    }
  }

  // ---- approval --------------------------------------------------------------

  /** The approve button on pending request `i`: the request becomes an approved
      member with role Member and no wins, and leaves the pending table. */
  function Approve(c: Club, actor: string, i: nat, today: string): (c': Club)
    requires IsAdmin(c, actor) && i < |c.pending|
    ensures |c'.users| == |c.users| + 1 && c'.users[..|c.users|] == c.users
    ensures var u := c'.users[|c.users|];
      && u.name == c.pending[i].name && u.email == c.pending[i].email
      && u.role == Member && u.approved && u.joined == today && u.wins == 0
    ensures c'.pending == RemoveAt(c.pending, i)
    ensures c'.polls == c.polls && c'.votes == c.votes && c'.finance == c.finance
  {
    var p := c.pending[i];
    c.(users := c.users + [User(p.name, p.email, Member, true, today, 0)],
       pending := RemoveAt(c.pending, i))
  }

  /** Approval moves an email from the pending table to the members table: the
      collection of registered emails is the same before and after. */
  lemma ApproveMovesEmail(c: Club, actor: string, i: nat, today: string)
    requires IsAdmin(c, actor) && i < |c.pending|
    ensures multiset(Registered(Approve(c, actor, i, today))) == multiset(Registered(c))
    ensures EmailsUnique(c) ==> EmailsUnique(Approve(c, actor, i, today))
  {
    var c' := Approve(c, actor, i, today);
    var e := c.pending[i].email;
    MapConcat(c.users, [c'.users[|c.users|]], UserEmail);
    assert UserEmails(c'.users) == UserEmails(c.users) + [e];
    MapRemoveAt(c.pending, i, RequestEmail);
    assert multiset(PendingEmails(c'.pending)) + multiset{e} == multiset(PendingEmails(c.pending));
    if EmailsUnique(c) {
      DistinctSubMultiset(Registered(c), Registered(c'));
    }
  }

  /** The reject button on pending request `i`: the request is dropped, nothing else changes. */
  function Reject(c: Club, actor: string, i: nat): (c': Club)
    requires IsAdmin(c, actor) && i < |c.pending|
    ensures c'.pending == RemoveAt(c.pending, i)
    ensures c'.users == c.users && c'.polls == c.polls && c'.votes == c.votes && c'.finance == c.finance
  {
    c.(pending := RemoveAt(c.pending, i))
  }

  lemma RejectKeepsEmailsUnique(c: Club, actor: string, i: nat)
    requires IsAdmin(c, actor) && i < |c.pending|
    requires EmailsUnique(c)
    ensures EmailsUnique(Reject(c, actor, i))
    ensures c.pending[i].email !in Registered(Reject(c, actor, i))
  {
    var c' := Reject(c, actor, i);
    var e := c.pending[i].email;
    MapRemoveAt(c.pending, i, RequestEmail);
    assert multiset(PendingEmails(c'.pending)) + multiset{e} == multiset(PendingEmails(c.pending));
    assert multiset(Registered(c')) + multiset{e} == multiset(Registered(c));
    DistinctSubMultiset(Registered(c), Registered(c'));
    DistinctIffSingleCounts(Registered(c));
    assert multiset(Registered(c))[e] >= 1;
  }

  // ---- role and removal --------------------------------------------------------

  /** The role control: every member row with email `sel` gets `role`; other rows are untouched. */
  function SetRole(c: Club, actor: string, sel: string, role: Role): (c': Club)
    requires IsAdmin(c, actor)
    ensures |c'.users| == |c.users|
    ensures forall k :: 0 <= k < |c.users| ==>
      && c'.users[k].role == (if c.users[k].email == sel then role else c.users[k].role)
      && c'.users[k] == c.users[k].(role := c'.users[k].role)
    ensures c'.pending == c.pending && c'.polls == c.polls && c'.votes == c.votes && c'.finance == c.finance
  {
    c.(users := Map(c.users, (u: User) => if u.email == sel then u.(role := role) else u))
  }

  lemma SetRoleKeepsEmailsUnique(c: Club, actor: string, sel: string, role: Role)
    requires IsAdmin(c, actor) && EmailsUnique(c)
    ensures Registered(SetRole(c, actor, sel, role)) == Registered(c)
    ensures EmailsUnique(SetRole(c, actor, sel, role))
  {
    assert UserEmails(SetRole(c, actor, sel, role).users) == UserEmails(c.users);
  }

  /** After a role change the selected member is an administrator exactly when the
      new role is Admin, and whether anyone else is one does not change. */
  lemma SetRoleDecidesAdmin(c: Club, actor: string, sel: string, role: Role, who: string)
    requires IsAdmin(c, actor)
    ensures who == sel && sel in UserEmails(c.users) ==> (IsAdmin(SetRole(c, actor, sel, role), who) <==> role == Admin)
    ensures who != sel ==> (IsAdmin(SetRole(c, actor, sel, role), who) <==> IsAdmin(c, who))
  {
    var c' := SetRole(c, actor, sel, role);
    assert UserEmails(c'.users) == UserEmails(c.users);
    FindUserSameEmails(c.users, c'.users, who);
  }

  /** The member filter kept by the delete button: every row whose email is not `sel`. */
  function OtherThan(sel: string): User -> bool {
    (u: User) => u.email != sel
  }

  /** The delete button: removes every member row with email `sel` and keeps the others
      in table order. Pending requests,
      votes and finance rows that mention `sel` are kept (there is no cascade). */
  function DeleteMember(c: Club, actor: string, sel: string): (c': Club)
    requires IsAdmin(c, actor)
    ensures forall u :: u in c'.users <==> u in c.users && u.email != sel
    ensures forall u: User :: u.email != sel ==> multiset(c'.users)[u] == multiset(c.users)[u]
    ensures Subsequence(c'.users, c.users)
    ensures sel !in UserEmails(c'.users)
    ensures c'.pending == c.pending && c'.polls == c.polls && c'.votes == c.votes && c'.finance == c.finance
  {
    FilterSubsequence(c.users, OtherThan(sel));
    c.(users := Filter(c.users, OtherThan(sel)))
  }

  lemma DeleteMemberKeepsEmailsUnique(c: Club, actor: string, sel: string)
    requires IsAdmin(c, actor) && EmailsUnique(c)
    ensures EmailsUnique(DeleteMember(c, actor, sel))
  {
    var c' := DeleteMember(c, actor, sel);
    MapFilterSubMultiset(c.users, OtherThan(sel), UserEmail);
    assert multiset(Registered(c')) <= multiset(Registered(c));
    DistinctSubMultiset(Registered(c), Registered(c'));
  }

  // ---- wins and ranking ----------------------------------------------------------

  /** The win form: adds `wins` (at least one) to every member row with email `sel`;
      every other row and every other column is unchanged. */
  function AddWins(c: Club, actor: string, sel: string, wins: nat): (c': Club)
    requires IsAdmin(c, actor) && wins >= 1
    ensures |c'.users| == |c.users|
    ensures forall k :: 0 <= k < |c.users| ==>
      && c'.users[k].wins == c.users[k].wins + (if c.users[k].email == sel then wins else 0)
      && c'.users[k] == c.users[k].(wins := c'.users[k].wins)
    ensures c'.pending == c.pending && c'.polls == c.polls && c'.votes == c.votes && c'.finance == c.finance
  {
    c.(users := Map(c.users, (u: User) => if u.email == sel then u.(wins := u.wins + wins) else u))
  }

  lemma AddWinsKeepsEmailsUnique(c: Club, actor: string, sel: string, wins: nat)
    requires IsAdmin(c, actor) && wins >= 1 && EmailsUnique(c)
    ensures Registered(AddWins(c, actor, sel, wins)) == Registered(c)
    ensures EmailsUnique(AddWins(c, actor, sel, wins))
  {
    assert UserEmails(AddWins(c, actor, sel, wins).users) == UserEmails(c.users);
  }

  function IsApproved(u: User): bool { u.approved }

  predicate ByWinsDescending(s: seq<User>) {
    forall i, j | 0 <= i < j < |s| :: s[i].wins >= s[j].wins
  }

  function InsertByWins(u: User, s: seq<User>): (r: seq<User>)
    requires ByWinsDescending(s)
    ensures ByWinsDescending(r)
    ensures multiset(r) == multiset(s) + multiset{u}
    ensures forall k | 0 <= k < |r| :: r[k] == u || r[k] in s
  {
    if |s| == 0 then [u]
    else if u.wins >= s[0].wins then [u] + s
    else
      var t := InsertByWins(u, s[1..]);
      InsertBehindHead(u, s, t);
      [s[0]] + t
  }

  /** The recursive step of `InsertByWins`: a member with fewer wins than the head
      goes behind it, into the rest. */
  lemma InsertBehindHead(u: User, s: seq<User>, t: seq<User>)
    requires ByWinsDescending(s) && |s| > 0 && u.wins < s[0].wins
    requires ByWinsDescending(t) && multiset(t) == multiset(s[1..]) + multiset{u}
    requires forall k | 0 <= k < |t| :: t[k] == u || t[k] in s[1..]
    ensures ByWinsDescending([s[0]] + t)
    ensures multiset([s[0]] + t) == multiset(s) + multiset{u}
    ensures forall k | 0 <= k < |[s[0]] + t| :: ([s[0]] + t)[k] == u || ([s[0]] + t)[k] in s
  {
    forall k | 0 <= k < |t|
      ensures t[k].wins <= s[0].wins && t[k] in [u] + s
    {
      if t[k] != u {
        var j :| 0 <= j < |s[1..]| && s[1..][j] == t[k];
        assert s[j + 1] == t[k];
      }
    }
    assert s == [s[0]] + s[1..];
  }

  /** Members ordered by wins, most first. Only the order by wins is promised:
      the relative order of members with equal wins is not. */
  function SortByWins(s: seq<User>): (r: seq<User>)
    ensures ByWinsDescending(r)
    ensures multiset(r) == multiset(s)
  {
    if |s| == 0 then []
    else
      assert s == [s[0]] + s[1..];
      InsertByWins(s[0], SortByWins(s[1..]))
  }

  /** The ranking table: exactly the approved members, most wins first. */
  function Ranking(c: Club): (r: seq<User>)
    ensures multiset(r) == multiset(Filter(c.users, IsApproved))
    ensures forall u :: u in r <==> u in c.users && u.approved
    ensures forall i, j | 0 <= i < j < |r| :: r[i].wins >= r[j].wins
  {
    var r := SortByWins(Filter(c.users, IsApproved));
    assert forall u :: u in r <==> u in Filter(c.users, IsApproved) by {
      forall u
        ensures u in r <==> u in Filter(c.users, IsApproved)
      {
        assert u in r <==> multiset(r)[u] > 0;
      }
    }
    r
  }
}
