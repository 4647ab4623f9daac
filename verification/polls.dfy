/**
 Attendance polls: the administrator's create-poll form and delete button, the
 Yes/No counts shown under each poll, and a member's vote submission, which
 replaces any earlier vote of that member in that poll.
 */
module Polls {
  import opened Seqs
  import opened Tables

  // ---- vote selections ---------------------------------------------------------

  /** Votes cast in poll `pid`. */
  function InPoll(pid: string): Vote -> bool {
    (v: Vote) => v.pollId == pid
  }

  /** Votes cast in any poll other than `pid`. */
  function OutsidePoll(pid: string): Vote -> bool {
    (v: Vote) => v.pollId != pid
  }

  /** Votes in poll `pid` with answer `choice`. */
  function CastAs(pid: string, choice: Choice): Vote -> bool {
    (v: Vote) => v.pollId == pid && v.choice == choice
  }

  /** Votes other than those of `member` in poll `pid`. */
  function OtherBallots(pid: string, member: string): Vote -> bool {
    (v: Vote) => PairKey(v) != (pid, member)
  }

  /** Polls other than those with identifier `pid`. */
  function OtherPolls(pid: string): Poll -> bool {
    (p: Poll) => p.id != pid
  }

  // ---- creating polls ------------------------------------------------------------

  /** The create-poll form: an empty title creates nothing; otherwise the poll is
      appended with identifier "poll_k", k being one more than the number of polls. */
  function CreatePoll(c: Club, actor: string, title: string, date: string, now: string): (s: Step)
    requires IsAdmin(c, actor)
    ensures s.Refused? <==> title == ""
    ensures s.Refused? ==> s.reason == MissingTitle
    ensures s.Applied? ==>
      && |s.next.polls| == |c.polls| + 1
      && s.next.polls[..|c.polls|] == c.polls
      && s.next.polls[|c.polls|] == Poll(PollIdFor(|c.polls| + 1), date, now, title)
    ensures s.Applied? ==>
      s.next.users == c.users && s.next.pending == c.pending && s.next.votes == c.votes && s.next.finance == c.finance
  {
    if title == "" then Refused(MissingTitle)
    else Applied(c.(polls := c.polls + [Poll(PollIdFor(|c.polls| + 1), date, now, title)]))
  }

  // ---- counting ------------------------------------------------------------------

  /** The number of `choice` answers shown under poll `pid`. */
  function CountVotes(votes: seq<Vote>, pid: string, choice: Choice): nat {
    |Filter(votes, CastAs(pid, choice))|
  }

  /** The members who answered `choice` in poll `pid`, in vote order (for Yes: the
      players a session's cost is split over). */
  function Ballots(votes: seq<Vote>, pid: string, choice: Choice): (r: seq<string>)
    ensures |r| == CountVotes(votes, pid, choice)
    ensures forall e :: e in r <==> exists v :: v in votes && v.pollId == pid && v.choice == choice && v.memberEmail == e
  {
    var f := Filter(votes, CastAs(pid, choice));
    var r := Map(f, VoterOf);
    assert forall e :: e in r ==> exists v :: v in votes && v.pollId == pid && v.choice == choice && v.memberEmail == e by {
      forall e | e in r
        ensures exists v :: v in votes && v.pollId == pid && v.choice == choice && v.memberEmail == e
      {
        var k :| 0 <= k < |r| && r[k] == e;
        assert f[k] in f;
      }
    }
    assert forall v :: v in votes && v.pollId == pid && v.choice == choice ==> v.memberEmail in r by {
      forall v | v in votes && v.pollId == pid && v.choice == choice
        ensures v.memberEmail in r
      {
        assert v in f;
        var k :| 0 <= k < |f| && f[k] == v;
        assert r[k] == v.memberEmail;
      }
    }
    r
  }

  /** Every vote of a poll is a Yes or a No: the two counts add up to the poll's votes. */
  lemma {:induction false} YesAndNoCoverPoll(votes: seq<Vote>, pid: string)
    ensures CountVotes(votes, pid, Yes) + CountVotes(votes, pid, No) == |Filter(votes, InPoll(pid))|
  {
    if |votes| > 0 {
      YesAndNoCoverPoll(votes[1..], pid);
    }
  }

  /** With one vote per member and poll, no member appears twice among the voters. */
  lemma BallotsDistinct(votes: seq<Vote>, pid: string, choice: Choice)
    requires OneVotePerPair(votes)
    ensures Distinct(Ballots(votes, pid, choice))
  {
    var f := Filter(votes, CastAs(pid, choice));
    MapFilterSubMultiset(votes, CastAs(pid, choice), PairKey);
    DistinctSubMultiset(Map(votes, PairKey), Map(f, PairKey));
    var r := Ballots(votes, pid, choice);
    forall i, j | 0 <= i < |r| && 0 <= j < |r| && i != j
      ensures r[i] != r[j]
    {
      assert f[i] in f && f[j] in f;
      assert Map(f, PairKey)[i] != Map(f, PairKey)[j];
    }
  }

  /** With one vote per member and poll, a count is the number of members giving that answer. */
  lemma CountIsNumberOfMembers(votes: seq<Vote>, pid: string, choice: Choice)
    requires OneVotePerPair(votes)
    ensures CountVotes(votes, pid, choice)
      == |set v | v in votes && v.pollId == pid && v.choice == choice :: v.memberEmail|
  {
    var r := Ballots(votes, pid, choice);
    BallotsDistinct(votes, pid, choice);
    DistinctCardinality(r);
    assert (set e | e in r) == (set v | v in votes && v.pollId == pid && v.choice == choice :: v.memberEmail);
  }

  // ---- voting --------------------------------------------------------------------

  /** The vote button of `member` under poll `p`: every earlier vote of that member in
      that poll is removed, the other votes keep their order, and the new answer is
      appended. */
  function SubmitVote(c: Club, member: string, p: Poll, choice: Choice): (c': Club)
    requires p in c.polls
    ensures |c'.votes| >= 1 && c'.votes[|c'.votes| - 1] == Vote(p.id, p.date, member, choice)
    ensures forall k | 0 <= k < |c'.votes| :: PairKey(c'.votes[k]) == (p.id, member) <==> k == |c'.votes| - 1
    ensures forall v: Vote :: PairKey(v) != (p.id, member) ==> multiset(c'.votes)[v] == multiset(c.votes)[v]
    ensures Subsequence(c'.votes[..|c'.votes| - 1], c.votes)
    ensures c'.users == c.users && c'.pending == c.pending && c'.polls == c.polls && c'.finance == c.finance
  {
    var kept := Filter(c.votes, OtherBallots(p.id, member));
    var votes := kept + [Vote(p.id, p.date, member, choice)];
    FilterSubsequence(c.votes, OtherBallots(p.id, member));
    assert votes[..|votes| - 1] == kept;
    assert forall k | 0 <= k < |kept| :: PairKey(votes[k]) != (p.id, member) by {
      forall k | 0 <= k < |kept|
        ensures PairKey(votes[k]) != (p.id, member)
      {
        assert votes[k] == kept[k] && kept[k] in kept;
      }
    }
    c.(votes := votes)
  }

  lemma SubmitVoteKeepsOneVotePerPair(c: Club, member: string, p: Poll, choice: Choice)
    requires p in c.polls && OneVotePerPair(c.votes)
    ensures OneVotePerPair(SubmitVote(c, member, p, choice).votes)
  {
    var kept := Filter(c.votes, OtherBallots(p.id, member));
    var ballot := Vote(p.id, p.date, member, choice);
    assert SubmitVote(c, member, p, choice).votes == kept + [ballot];
    MapConcat(kept, [ballot], PairKey);
    MapFilterSubMultiset(c.votes, OtherBallots(p.id, member), PairKey);
    DistinctSubMultiset(Map(c.votes, PairKey), Map(kept, PairKey));
    assert PairKey(ballot) !in Map(kept, PairKey) by {
      forall k | 0 <= k < |kept|
        ensures Map(kept, PairKey)[k] != PairKey(ballot)
      {
        assert kept[k] in kept;
      }
    }
    DistinctAppend(Map(kept, PairKey), PairKey(ballot));
  }

  /** Submitting the same answer twice leaves the votes as submitting it once. */
  lemma SubmitVoteIdempotent(c: Club, member: string, p: Poll, choice: Choice)
    requires p in c.polls
    ensures SubmitVote(SubmitVote(c, member, p, choice), member, p, choice) == SubmitVote(c, member, p, choice)
  {
    var keep := OtherBallots(p.id, member);
    var kept := Filter(c.votes, keep);
    var ballot := Vote(p.id, p.date, member, choice);
    var once := SubmitVote(c, member, p, choice);
    assert once.votes == kept + [ballot];
    FilterConcat(kept, [ballot], keep);
    FilterKeepsAll(kept, keep);
    assert Filter([ballot], keep) == [];
  }

  // ---- deleting polls --------------------------------------------------------------

  /** The delete button of poll `pid`: every poll with that identifier and every vote
      cast in it are removed, the other polls and votes keep their order, and members,
      requests and finance rows are untouched. */
  function DeletePoll(c: Club, actor: string, pid: string): (c': Club)
    requires IsAdmin(c, actor) && pid in PollIds(c.polls)
    ensures forall q :: q in c'.polls <==> q in c.polls && q.id != pid
    ensures forall q: Poll :: q.id != pid ==> multiset(c'.polls)[q] == multiset(c.polls)[q]
    ensures forall v :: v in c'.votes <==> v in c.votes && v.pollId != pid
    ensures forall v: Vote :: v.pollId != pid ==> multiset(c'.votes)[v] == multiset(c.votes)[v]
    ensures Subsequence(c'.polls, c.polls) && Subsequence(c'.votes, c.votes)
    ensures c'.users == c.users && c'.pending == c.pending && c'.finance == c.finance
  {
    FilterSubsequence(c.polls, OtherPolls(pid));
    FilterSubsequence(c.votes, OutsidePoll(pid));
    c.(polls := Filter(c.polls, OtherPolls(pid)), votes := Filter(c.votes, OutsidePoll(pid)))
  }

  lemma DeletePollKeepsOneVotePerPair(c: Club, actor: string, pid: string)
    requires IsAdmin(c, actor) && pid in PollIds(c.polls) && OneVotePerPair(c.votes)
    ensures OneVotePerPair(DeletePoll(c, actor, pid).votes)
  {
    MapFilterSubMultiset(c.votes, OutsidePoll(pid), PairKey);
    DistinctSubMultiset(Map(c.votes, PairKey), Map(DeletePoll(c, actor, pid).votes, PairKey));
  }

  /** After a poll is deleted its counts read zero. */
  lemma DeletedPollHasNoVotes(c: Club, actor: string, pid: string, choice: Choice)
    requires IsAdmin(c, actor) && pid in PollIds(c.polls)
    ensures CountVotes(DeletePoll(c, actor, pid).votes, pid, choice) == 0
  {
    FilterKeepsNone(DeletePoll(c, actor, pid).votes, CastAs(pid, choice));
  }

  /** Poll identifiers are not unique: once an older poll is deleted, the next poll
      created receives the identifier of the newest remaining one. */
  lemma PollIdsCanRepeat(c: Club, actor: string, title: string, date: string, now: string)
    requires IsAdmin(c, actor) && title != ""
    requires |c.polls| == 2 && c.polls[0].id == PollIdFor(1) && c.polls[1].id == PollIdFor(2)
    ensures PollIdFor(1) in PollIds(c.polls)
    ensures var c' := DeletePoll(c, actor, PollIdFor(1));
      IsAdmin(c', actor) &&
      var c'' := CreatePoll(c', actor, title, date, now).After(c');
      |c''.polls| == 2 && c''.polls[0].id == c''.polls[1].id
  {
    assert PollIds(c.polls)[0] == PollIdFor(1);
    PollIdForInjective(1, 2);
    DeleteFirstOfTwo(c.polls, PollIdFor(1));
  }

  lemma DeleteFirstOfTwo(polls: seq<Poll>, pid: string)
    requires |polls| == 2 && polls[0].id == pid && polls[1].id != pid
    ensures Filter(polls, OtherPolls(pid)) == [polls[1]]
  {
    assert polls[1..][1..] == [];
  }
}
