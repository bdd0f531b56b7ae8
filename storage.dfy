/** The three tables of polls/models.py as one mutable store, with the ORM
    operations the views, the vote serializer and the management command
    perform on them. Every operation keeps the model constraints
    (`Models.Consistent`) and says exactly what each table becomes. */
module Storage {
  import opened Wrappers
  import opened Seqs
  import opened Models

  class Store {
    var polls: seq<Poll>
    var choices: seq<Choice>
    var votes: seq<Vote>
    /** The next primary key each table hands out (auto-increment). */
    var nextPollId: nat
    var nextChoiceId: nat
    var nextVoteId: nat

    ghost predicate Valid()
      reads this
    {
      Consistent(polls, choices, votes, nextPollId, nextChoiceId, nextVoteId)
    }

    constructor ()
      ensures Valid()
      ensures polls == [] && choices == [] && votes == []
    {
      polls, choices, votes := [], [], [];
      nextPollId, nextChoiceId, nextVoteId := 1, 1, 1;
    }

    /** The poll row with key `id`, if there is one. */
    function GetPoll(id: PollId): (r: Option<Poll>)
      reads this
      ensures r.Some? ==> r.value in polls && r.value.id == id
      ensures r.None? <==> !PollExists(polls, id)
    {
      Find(polls, (p: Poll) => p.id == id)
    }

    /** The choice row with key `id`, if there is one. */
    function GetChoice(id: ChoiceId): (r: Option<Choice>)
      reads this
      ensures r.Some? ==> r.value in choices && r.value.id == id
      ensures r.None? <==> !ChoiceExists(choices, id)
    {
      Find(choices, (c: Choice) => c.id == id)
    }

    /** `Poll.objects.create(...)` / `serializer.save(...)` for a new poll. */
    method InsertPoll(title: string, description: string, createdBy: UserId, now: Time,
                      deadline: Option<Time>, isActive: bool, isProposal: bool) returns (id: PollId)
      requires Valid()
      modifies this
      ensures Valid()
      ensures id == old(nextPollId) && nextPollId == id + 1
      ensures polls == old(polls) + [Poll(id, title, description, createdBy, now, deadline, isActive, isProposal)]
      ensures choices == old(choices) && votes == old(votes)
      ensures nextChoiceId == old(nextChoiceId) && nextVoteId == old(nextVoteId)
    {
      id := nextPollId;
      var p := Poll(id, title, description, createdBy, now, deadline, isActive, isProposal);
      InsertPollKeeps(polls, choices, votes, nextPollId, nextChoiceId, nextVoteId, p);
      polls := polls + [p];
      nextPollId := nextPollId + 1;
    }

    /** `Choice.objects.bulk_create(...)` of one choice per text on poll
        `poll`; the texts are new to the poll and pairwise different, so the
        (poll, choice_text) index is never violated. */
    method BulkCreateChoices(poll: PollId, texts: seq<string>) returns (created: seq<Choice>)
      requires Valid()
      requires PollExists(polls, poll)
      requires forall i, j :: 0 <= i < j < |texts| ==> texts[i] != texts[j]
      requires forall t :: t in texts ==> t !in PollTexts(choices, poll)
      modifies this
      ensures Valid()
      ensures created == NewChoices(poll, texts, old(nextChoiceId))
      ensures choices == old(choices) + created && nextChoiceId == old(nextChoiceId) + |texts|
      ensures polls == old(polls) && votes == old(votes)
      ensures nextPollId == old(nextPollId) && nextVoteId == old(nextVoteId)
    {
      InsertChoicesKeeps(polls, choices, votes, nextPollId, nextChoiceId, nextVoteId, poll, texts);
      created := NewChoices(poll, texts, nextChoiceId);
      choices := choices + created;
      nextChoiceId := nextChoiceId + |texts|;
    }

    /** `Vote.objects.create(...)`. The (user, poll) unique index rejects the
        row (Django's IntegrityError, `ok == false`) when this store already
        holds a vote of `user` on `poll`, or when `raced` says a concurrent
        request committed one between the caller's check and this insert. */
    method InsertVote(user: UserId, poll: PollId, choice: ChoiceId, now: Time, raced: bool)
      returns (ok: bool, id: VoteId)
      requires Valid()
      requires exists c :: c in choices && c.id == choice && c.poll == poll
      modifies this
      ensures Valid()
      ensures ok <==> !HasVoted(old(votes), user, poll) && !raced
      ensures ok ==> id == old(nextVoteId) && votes == old(votes) + [Vote(id, user, poll, choice, now)]
                     && nextVoteId == id + 1
      ensures !ok ==> votes == old(votes) && nextVoteId == old(nextVoteId)
      ensures polls == old(polls) && choices == old(choices)
      ensures nextPollId == old(nextPollId) && nextChoiceId == old(nextChoiceId)
    {
      id := nextVoteId;
      ok := !HasVoted(votes, user, poll) && !raced;
      if ok {
        var v := Vote(id, user, poll, choice, now);
        InsertVoteKeeps(polls, choices, votes, nextPollId, nextChoiceId, nextVoteId, v);
        votes := votes + [v];
        nextVoteId := nextVoteId + 1;
      }
    }

    /** `serializer.save()` on an existing poll: the row keeps its key. */
    method ReplacePoll(k: nat, q: Poll)
      requires Valid()
      requires k < |polls| && q.id == polls[k].id
      modifies this
      ensures Valid()
      ensures polls == old(polls)[k := q]
      ensures choices == old(choices) && votes == old(votes)
      ensures nextPollId == old(nextPollId) && nextChoiceId == old(nextChoiceId) && nextVoteId == old(nextVoteId)
    {
      ReplacePollKeeps(polls, choices, votes, nextPollId, nextChoiceId, nextVoteId, k, q);
      polls := polls[k := q];
    }

    /** `serializer.save()` on an existing choice with a new text that no
        other choice of its poll has. */
    method RenameChoice(k: nat, text: string)
      requires Valid()
      requires k < |choices|
      requires forall i :: 0 <= i < |choices| && i != k && choices[i].poll == choices[k].poll ==> choices[i].text != text
      modifies this
      ensures Valid()
      ensures choices == old(choices)[k := old(choices)[k].(text := text)]
      ensures polls == old(polls) && votes == old(votes)
      ensures nextPollId == old(nextPollId) && nextChoiceId == old(nextChoiceId) && nextVoteId == old(nextVoteId)
    {
      RenameChoiceKeeps(polls, choices, votes, nextPollId, nextChoiceId, nextVoteId, k, text);
      choices := choices[k := choices[k].(text := text)];
    }

    /** `serializer.save()` on an existing choice with every field writable,
        the poll included. Nothing here keeps the votes of the choice on the
        choice's poll, so the store need not stay consistent. */
    method ReplaceChoice(k: nat, c: Choice)
      requires k < |choices|
      modifies this
      ensures choices == old(choices)[k := c]
      ensures polls == old(polls) && votes == old(votes)
      ensures nextPollId == old(nextPollId) && nextChoiceId == old(nextChoiceId) && nextVoteId == old(nextVoteId)
    {
      choices := choices[k := c];
    }

    /** `poll.delete()`: the poll and everything that cascades from it. */
    method DeletePoll(id: PollId)
      requires Valid()
      modifies this
      ensures Valid()
      ensures polls == PollsAfterPollDelete(old(polls), id)
      ensures choices == ChoicesAfterPollDelete(old(choices), id)
      ensures votes == VotesAfterPollDelete(old(votes), id, ChoiceIdsOf(old(choices), id))
      ensures !PollExists(polls, id)
      ensures (forall c :: c in choices ==> c.poll != id) && (forall v :: v in votes ==> v.poll != id)
      ensures nextPollId == old(nextPollId) && nextChoiceId == old(nextChoiceId) && nextVoteId == old(nextVoteId)
    {
      DeletePollKeeps(polls, choices, votes, nextPollId, nextChoiceId, nextVoteId, id);
      var doomed := ChoiceIdsOf(choices, id);
      polls := PollsAfterPollDelete(polls, id);
      votes := VotesAfterPollDelete(votes, id, doomed);
      choices := ChoicesAfterPollDelete(choices, id);
    }

    /** `choice.delete()`: the choice and the votes that cascade from it. */
    method DeleteChoice(id: ChoiceId)
      requires Valid()
      modifies this
      ensures Valid()
      ensures choices == ChoicesAfterChoiceDelete(old(choices), id)
      ensures votes == VotesAfterChoiceDelete(old(votes), id)
      ensures polls == old(polls)
      ensures !ChoiceExists(choices, id) && forall v :: v in votes ==> v.choice != id
      ensures nextPollId == old(nextPollId) && nextChoiceId == old(nextChoiceId) && nextVoteId == old(nextVoteId)
    {
      DeleteChoiceKeeps(polls, choices, votes, nextPollId, nextChoiceId, nextVoteId, id);
      choices := ChoicesAfterChoiceDelete(choices, id);
      votes := VotesAfterChoiceDelete(votes, id);
    }
  }
}
