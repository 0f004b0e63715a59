/** The meeting polls panel (client/src/components/tools/PollsModal.jsx): the list of polls, the
 *  form for a new poll, voting, and the tally shown under each poll. `Date.now()` values, the
 *  signed-in user and whether the panel has a socket and a meeting are parameters. */
module Polls {
  import opened Events
  import Seqs
  import Strings

  /** A poll. `votes` maps a user id to the index of the option that user chose, so a user holds
   *  at most one vote per poll. */
  datatype Poll = Poll(id: int, question: string, options: seq<string>, votes: map<string, int>,
                       createdBy: string, createdAt: int)

  datatype Payload =
    | PollCreated(roomId: string, poll: Poll)
    | PollVote(roomId: string, pollId: int, optionIndex: int, userId: string)

  /** One row of the tally. */
  datatype OptionResult = OptionResult(option: string, votes: nat, percentage: nat)

  const CREATED_ALERT := "Poll created successfully!"
  const INCOMPLETE_ALERT := "Please fill in the question and at least 2 options"
  const EMPTY_OPTIONS: seq<string> := ["", "", ""]

  predicate Blank(option: string)
  {
    Strings.Trim(option) == ""
  }

  /** `pollOptions.filter(opt => opt.trim())`: the options that are not blank, in order, each with
   *  its text as typed (untrimmed) and as often as it was typed. */
  function NonBlank(options: seq<string>): (r: seq<string>)
    ensures |r| <= |options|
    ensures forall i | 0 <= i < |r| :: !Strings.AllWhitespace(r[i]) && r[i] in options
    ensures forall i | 0 <= i < |options| && !Strings.AllWhitespace(options[i]) :: options[i] in r
    ensures multiset(r) <= multiset(options)
    ensures forall i | 0 <= i < |options| && !Strings.AllWhitespace(options[i]) ::
              multiset(r)[options[i]] == multiset(options)[options[i]]
  {
    var p := (o: string) => !Blank(o);
    Seqs.FilterMultiset(p, options);
    Seqs.Filter(p, options)
  }

  /** The condition `createPoll` accepts a form on: the question is not blank and at least two
   *  options are not blank. */
  predicate Acceptable(question: string, options: seq<string>)
  {
    Strings.Trim(question) != "" && |NonBlank(options)| >= 2
  }

  /** A form is accepted exactly when its question is not all whitespace and two different option
   *  fields are not all whitespace; so a blank question, or fewer than two fields, is refused. */
  lemma AcceptableMeans(question: string, options: seq<string>)
    ensures Acceptable(question, options) <==>
              !Strings.AllWhitespace(question) &&
              exists i, j | 0 <= i < j < |options| ::
                !Strings.AllWhitespace(options[i]) && !Strings.AllWhitespace(options[j])
    ensures Strings.AllWhitespace(question) ==> !Acceptable(question, options)
    ensures |options| < 2 ==> !Acceptable(question, options)
  {
    var p := (o: string) => !Blank(o);
    Seqs.FilterAtLeastTwo(p, options);
    assert forall i | 0 <= i < |options| :: p(options[i]) == !Strings.AllWhitespace(options[i]);
  }

  /** The vote update shared by `voteOnPoll` and the `poll-voted` listener: on every poll with id
   *  `pollId`, `userId` now votes `optionIndex`; every other vote and every other poll is
   *  unchanged. */
  function RecordVote(polls: seq<Poll>, pollId: int, userId: string, optionIndex: int): (r: seq<Poll>)
    ensures |r| == |polls|
    ensures forall i | 0 <= i < |polls| && polls[i].id != pollId :: r[i] == polls[i]
    ensures forall i | 0 <= i < |polls| && polls[i].id == pollId ::
              r[i].(votes := polls[i].votes) == polls[i] &&
              userId in r[i].votes && r[i].votes[userId] == optionIndex &&
              r[i].votes.Keys == polls[i].votes.Keys + {userId} &&
              forall u | u in polls[i].votes && u != userId :: r[i].votes[u] == polls[i].votes[u]
  {
    seq(|polls|, i requires 0 <= i < |polls| =>
      if polls[i].id == pollId then polls[i].(votes := polls[i].votes[userId := optionIndex]) else polls[i])
  }

  /** A later vote by the same user on the same poll replaces the earlier one. */
  lemma RecordVoteOverwrites(polls: seq<Poll>, pollId: int, userId: string, first: int, second: int)
    ensures RecordVote(RecordVote(polls, pollId, userId, first), pollId, userId, second)
            == RecordVote(polls, pollId, userId, second)
  {
    var once := RecordVote(polls, pollId, userId, first);
    var twice := RecordVote(once, pollId, userId, second);
    var direct := RecordVote(polls, pollId, userId, second);
    forall i | 0 <= i < |polls| ensures twice[i] == direct[i] {
      if polls[i].id == pollId {
        assert polls[i].votes[userId := first][userId := second] == polls[i].votes[userId := second];
      }
    }
  }

  /** `poll.votes[user._id] !== undefined`: the panel offers the options of a poll as buttons only
   *  while this is false. */
  predicate HasVoted(poll: Poll, userId: string)
  {
    userId in poll.votes
  }

  /** The number of voters who chose option `index`. */
  function VoteCount(votes: map<string, int>, index: int): (n: nat)
    ensures n <= |votes|
  {
    var chose := set u | u in votes && votes[u] == index;
    assert chose <= votes.Keys;
    SubsetSize(chose, votes.Keys);
    |chose|
  }

  lemma {:induction false} SubsetSize(a: set<string>, b: set<string>)
    requires a <= b
    ensures |a| <= |b|
    decreases |b|
  {
    if a != {} {
      var x :| x in a;
      SubsetSize(a - {x}, b - {x});
    }
  }

  /** `Math.round(votes / total * 100)` for `0 < total`, in exact arithmetic: the whole number
   *  nearest to `100 * votes / total`, halves rounded up. It is between 0 and 100 when `votes`
   *  is at most `total`, 0 for no votes and 100 for all of them. */
  function RoundedPercentage(votes: nat, total: nat): (p: nat)
    requires 0 < total
    ensures 2 * total * p <= 200 * votes + total < 2 * total * (p + 1)
    ensures votes <= total ==> p <= 100
    ensures votes == 0 ==> p == 0
    ensures votes == total ==> p == 100
  {
    PercentageBounds(votes, total);
    (200 * votes + total) / (2 * total)
  }

  lemma PercentageBounds(votes: nat, total: nat)
    requires 0 < total
    ensures var p := (200 * votes + total) / (2 * total);
            && 2 * total * p <= 200 * votes + total < 2 * total * (p + 1)
            && (votes <= total ==> p <= 100)
            && (votes == 0 ==> p == 0)
            && (votes == total ==> p == 100)
  {
    var n := 200 * votes + total;
    var d := 2 * total;
    var p := n / d;
    FloorDivision(n, d);
    if votes <= total {
      assert n < d * 101;
      ProductOrder(d, p, 101);
    }
    if votes == 0 {
      assert n < d;
      ProductOrder(d, p, 1);
    }
    if votes == total {
      assert d * 100 <= n;
      ProductOrder(d, 99, p);
    }
  }

  /** The quotient of Euclidean division brackets the dividend. */
  lemma FloorDivision(n: nat, d: nat)
    requires 0 < d
    ensures d * (n / d) <= n < d * (n / d + 1)
  {
  }

  /** For a positive factor, `d * a < d * b` exactly when `a < b`. */
  lemma ProductOrder(d: nat, a: nat, b: nat)
    requires 0 < d
    ensures d * a < d * b <==> a < b
  {
    if a < b {
      assert d * b == d * a + d * (b - a);
    } else {
      assert d * a == d * b + d * (a - b);
    }
  }

  /** `calculateResults`: one row per option, in option order, with the option's text, how many
   *  voters chose it (never more than voted at all) and its share as a whole percentage between
   *  0 and 100, which is 0 while nobody has voted. */
  function CalculateResults(poll: Poll): (r: seq<OptionResult>)
    ensures |r| == |poll.options|
    ensures forall i | 0 <= i < |r| ::
              r[i].option == poll.options[i] && r[i].votes == VoteCount(poll.votes, i) &&
              r[i].votes <= |poll.votes| && r[i].percentage <= 100
    ensures |poll.votes| == 0 ==> forall i | 0 <= i < |r| :: r[i].votes == 0 && r[i].percentage == 0
    ensures |poll.votes| > 0 ==> forall i | 0 <= i < |r| :: r[i].percentage == RoundedPercentage(r[i].votes, |poll.votes|)
  {
    var total := |poll.votes|;
    seq(|poll.options|, i requires 0 <= i < |poll.options| =>
      var votes := VoteCount(poll.votes, i);
      OptionResult(poll.options[i], votes, if total > 0 then RoundedPercentage(votes, total) else 0))
  }

  /** The sum of the vote counts of a list of results. */
  function SumVotes(r: seq<OptionResult>): nat
  {
    if r == [] then 0 else SumVotes(r[..|r| - 1]) + r[|r| - 1].votes
  }

  /** The voters whose vote is one of the options `0 .. n - 1`. */
  function ChoseBelow(votes: map<string, int>, n: nat): set<string>
  {
    set u | u in votes && 0 <= votes[u] < n
  }

  /** The counts of options `0 .. n - 1` add up to the number of voters who chose one of them:
   *  each voter is counted once, for the one option it chose. */
  lemma {:induction false} CountsPartitionVoters(poll: Poll, n: nat)
    requires n <= |poll.options|
    ensures SumVotes(CalculateResults(poll)[..n]) == |ChoseBelow(poll.votes, n)|
  {
    var r := CalculateResults(poll);
    if n > 0 {
      CountsPartitionVoters(poll, n - 1);
      assert r[..n][..n - 1] == r[..n - 1];
      var below := ChoseBelow(poll.votes, n - 1);
      var chose := set u | u in poll.votes && poll.votes[u] == n - 1;
      assert ChoseBelow(poll.votes, n) == below + chose;
      assert below * chose == {};
    }
  }

  /** The vote counts of `calculateResults` never add up to more than the number of voters, and
   *  add up to exactly that number when every vote names one of the poll's options. */
  lemma ResultsCountEachVoterOnce(poll: Poll)
    ensures SumVotes(CalculateResults(poll)) <= |poll.votes|
    ensures (forall u | u in poll.votes :: 0 <= poll.votes[u] < |poll.options|) ==>
              SumVotes(CalculateResults(poll)) == |poll.votes|
  {
    var r := CalculateResults(poll);
    CountsPartitionVoters(poll, |poll.options|);
    assert r[..|r|] == r;
    SubsetSize(ChoseBelow(poll.votes, |poll.options|), poll.votes.Keys);
    if forall u | u in poll.votes :: 0 <= poll.votes[u] < |poll.options| {
      assert ChoseBelow(poll.votes, |poll.options|) == poll.votes.Keys;
    }
  }

  /** The panel's state. */
  class PollsModal {
    var polls: seq<Poll>
    var pollQuestion: string
    var pollOptions: seq<string>

    constructor ()
      ensures polls == [] && pollQuestion == "" && pollOptions == EMPTY_OPTIONS
    {
      polls := [];
      pollQuestion := "";
      pollOptions := EMPTY_OPTIONS;
    }

    /** The `poll-created` listener: the poll is appended. */
    method OnPollCreated(poll: Poll)
      modifies this
      ensures polls == old(polls) + [poll]
      ensures pollQuestion == old(pollQuestion) && pollOptions == old(pollOptions)
    {
      polls := polls + [poll];
    }

    /** The `poll-voted` listener. */
    method OnPollVoted(pollId: int, userId: string, optionIndex: int)
      modifies this
      ensures polls == RecordVote(old(polls), pollId, userId, optionIndex)
      ensures pollQuestion == old(pollQuestion) && pollOptions == old(pollOptions)
    {
      polls := RecordVote(polls, pollId, userId, optionIndex);
    }

    /** `createPoll`: an acceptable form appends a poll with the trimmed question, the non-blank
     *  options and no votes, sends it to the meeting when there is one, and resets the form. An
     *  unacceptable form changes nothing and sends nothing. */
    method CreatePoll(meetingId: string, connected: bool, username: string, id: int, createdAt: int)
      returns (out: seq<Send<Payload>>, alert: string)
      modifies this
      ensures !Acceptable(old(pollQuestion), old(pollOptions)) ==>
                polls == old(polls) && pollQuestion == old(pollQuestion) && pollOptions == old(pollOptions) &&
                out == [] && alert == INCOMPLETE_ALERT
      ensures Acceptable(old(pollQuestion), old(pollOptions)) ==>
                var poll := Poll(id, Strings.Trim(old(pollQuestion)), NonBlank(old(pollOptions)), map[], username, createdAt);
                polls == old(polls) + [poll] && pollQuestion == "" && pollOptions == EMPTY_OPTIONS &&
                out == (if meetingId != "" && connected then [Send("create-poll", PollCreated(meetingId, poll))] else []) &&
                alert == CREATED_ALERT
    {
      var question := Strings.Trim(pollQuestion);
      var options := NonBlank(pollOptions);
      if question != "" && |options| >= 2 {
        var newPoll := Poll(id, question, options, map[], username, createdAt);
        polls := polls + [newPoll];
        out := [];
        if meetingId != "" && connected {
          out := [Send("create-poll", PollCreated(meetingId, newPoll))];
        }
        pollQuestion := "";
        pollOptions := EMPTY_OPTIONS;
        alert := CREATED_ALERT;
      } else {
        out := [];
        alert := INCOMPLETE_ALERT;
      }
    }

    /** `voteOnPoll`: send the vote to the meeting when there is one, and record it locally. */
    method VoteOnPoll(meetingId: string, connected: bool, userId: string, pollId: int, optionIndex: int)
      returns (out: seq<Send<Payload>>)
      modifies this
      ensures polls == RecordVote(old(polls), pollId, userId, optionIndex)
      ensures pollQuestion == old(pollQuestion) && pollOptions == old(pollOptions)
      ensures out == if meetingId != "" && connected then [Send("vote-poll", PollVote(meetingId, pollId, optionIndex, userId))] else []
    {
      out := [];
      if meetingId != "" && connected {
        out := [Send("vote-poll", PollVote(meetingId, pollId, optionIndex, userId))];
      }
      polls := RecordVote(polls, pollId, userId, optionIndex);
    }

    /** A click on option `optionIndex` of the poll shown at position `k`: it votes (and sends the
     *  vote when in a meeting) only while the user has not voted on that poll; once the user has,
     *  the click does nothing. */
    method ClickOption(k: nat, optionIndex: int, meetingId: string, connected: bool, userId: string)
      returns (out: seq<Send<Payload>>)
      requires k < |polls|
      modifies this
      ensures HasVoted(old(polls)[k], userId) ==> polls == old(polls) && out == []
      ensures !HasVoted(old(polls)[k], userId) ==>
                polls == RecordVote(old(polls), old(polls)[k].id, userId, optionIndex) &&
                polls[k].votes[userId] == optionIndex &&
                out == if meetingId != "" && connected
                       then [Send("vote-poll", PollVote(meetingId, old(polls)[k].id, optionIndex, userId))]
                       else []
      ensures pollQuestion == old(pollQuestion) && pollOptions == old(pollOptions)
    {
      out := [];
      var hasVoted := HasVoted(polls[k], userId);
      if !hasVoted {
        out := VoteOnPoll(meetingId, connected, userId, polls[k].id, optionIndex);
      }
    }
  }
}
