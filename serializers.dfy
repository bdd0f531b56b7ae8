/** polls/serializers.py: the guard chain and insert of
    `VoteSerializer.create`, and the percentage of
    `PollResultSerializer.get_percentage`. */
module Serializers {
  import opened Wrappers
  import opened Models
  import opened Storage

  /** The field a validation error is reported under. */
  datatype Field = ChoiceField | PollField | NonFieldErrors | Unkeyed

  /** The validation messages of the core, with their wording alongside. */
  datatype Message =
    | MissingPollContext   // "Erro interno: Enquete não fornecida no contexto."
    | ChoiceNotInPoll      // "Esta opção não pertence a esta enquete."
    | InactiveOrExpired    // "Não é possível votar em uma enquete inativa ou expirada."
    | AlreadyVoted         // "Você já votou nesta enquete."
    | PossibleDuplicity    // "Erro ao registrar o voto. Possível problema de duplicidade."
    | InvalidPk            // a primary-key field naming a missing row
    | NotUniqueTogether    // a unique-together validator's rejection
    | OnlyOwnProposals     // "Você só pode adicionar opções a propostas que você criou."
    | NotPermitted         // a permission class's denial, with DRF's default wording

  /** How a request fails: 401, 403, 404 or 400 with a field-scoped message. */
  datatype Error =
    | AuthError
    | PermissionError(detail: Message)
    | NotFound
    | ValidationError(field: Field, msg: Message)

  datatype Outcome<+T> = Ok(value: T) | Err(error: Error)

  /** The checks `VoteSerializer.create` makes before inserting, in its
      order; `None` when all pass. `poll` is the poll handed over
      in the serializer context (if any), `c` the validated choice. */
  function VoteGuards(poll: Option<Poll>, c: Choice, votes: seq<Vote>, user: UserId, now: Time): (r: Option<Error>)
    ensures r.None? <==> poll.Some? && c.poll == poll.value.id && Votable(poll.value, now)
                         && !HasVoted(votes, user, poll.value.id)
    ensures poll.None? ==> r == Some(ValidationError(Unkeyed, MissingPollContext))
    ensures poll.Some? && c.poll != poll.value.id ==> r == Some(ValidationError(ChoiceField, ChoiceNotInPoll))
    ensures (poll.Some? && c.poll == poll.value.id && !Votable(poll.value, now))
      ==> r == Some(ValidationError(NonFieldErrors, InactiveOrExpired))
    ensures (poll.Some? && c.poll == poll.value.id && Votable(poll.value, now) && HasVoted(votes, user, poll.value.id))
      ==> r == Some(ValidationError(NonFieldErrors, AlreadyVoted))
  {
    if poll.None? then Some(ValidationError(Unkeyed, MissingPollContext))
    else if c.poll != poll.value.id then Some(ValidationError(ChoiceField, ChoiceNotInPoll))
    else if !poll.value.isActive || (poll.value.deadline.Some? && poll.value.deadline.value < now) then
      Some(ValidationError(NonFieldErrors, InactiveOrExpired))
    else if HasVoted(votes, user, poll.value.id) then Some(ValidationError(NonFieldErrors, AlreadyVoted))
    else None
  }

  /** A deadline equal to `now` still takes votes; one strictly before
      `now` does not. */
  lemma DeadlineBoundary(p: Poll, c: Choice, votes: seq<Vote>, user: UserId, now: Time)
    requires p.isActive && c.poll == p.id && !HasVoted(votes, user, p.id)
    ensures p.deadline == Some(now) ==> VoteGuards(Some(p), c, votes, user, now).None?
    ensures p.deadline.Some? && p.deadline.value < now ==>
      VoteGuards(Some(p), c, votes, user, now) == Some(ValidationError(NonFieldErrors, InactiveOrExpired))
  {
  }

  /** Once a user's vote on a poll is stored, every further attempt by that
      user on that poll fails, with "already voted" when the earlier guards
      pass. */
  lemma SecondVoteRejected(p: Poll, c: Choice, c2: Choice, votes: seq<Vote>, v: Vote, now: Time, later: Time)
    requires VoteGuards(Some(p), c, votes, v.user, now).None?
    requires v.poll == p.id
    ensures VoteGuards(Some(p), c2, votes + [v], v.user, later).Some?
    ensures c2.poll == p.id && Votable(p, later) ==>
      VoteGuards(Some(p), c2, votes + [v], v.user, later) == Some(ValidationError(NonFieldErrors, AlreadyVoted))
  {
    assert (votes + [v])[|votes|] == v;
  }

  /** `VoteSerializer.create`: run the guards, then insert. An insert that
      the (user, poll) index still rejects (a concurrent duplicate, `raced`)
      fails with the duplicity message, which is not the "already voted"
      one. Every failure leaves the store as it was. */
  method CreateVote(s: Store, user: UserId, pollCtx: Option<PollId>, choiceId: ChoiceId, now: Time, raced: bool)
    returns (r: Outcome<VoteId>)
    requires s.Valid()
    requires pollCtx.Some? ==> PollExists(s.polls, pollCtx.value)
    requires ChoiceExists(s.choices, choiceId)
    modifies s
    ensures s.Valid()
    ensures var poll := if pollCtx.Some? then s.GetPoll(pollCtx.value) else None;
            var c := old(s.GetChoice(choiceId)).value;
            var guards := VoteGuards(poll, c, old(s.votes), user, now);
      && (guards.Some? ==> r == Err(guards.value))
      && (guards.None? && raced ==> r == Err(ValidationError(NonFieldErrors, PossibleDuplicity)))
      && (guards.None? && !raced ==>
            r == Ok(old(s.nextVoteId)) && s.votes == old(s.votes) + [Vote(r.value, user, poll.value.id, choiceId, now)])
    ensures r.Err? ==> s.votes == old(s.votes) && s.nextVoteId == old(s.nextVoteId)
    ensures r.Ok? ==> s.nextVoteId == old(s.nextVoteId) + 1
    ensures s.polls == old(s.polls) && s.choices == old(s.choices)
    ensures s.nextPollId == old(s.nextPollId) && s.nextChoiceId == old(s.nextChoiceId)
  {
    var poll := if pollCtx.Some? then s.GetPoll(pollCtx.value) else None;
    var c := s.GetChoice(choiceId).value;
    var guards := VoteGuards(poll, c, s.votes, user, now);
    if guards.Some? {
      return Err(guards.value);
    }
    var ok, id := s.InsertVote(user, poll.value.id, choiceId, now, raced);
    if ok {
      r := Ok(id);
    } else {
      r := Err(ValidationError(NonFieldErrors, PossibleDuplicity));
    }
  }

  /** An exact percentage `num / den` (in percent); the source rounds a
      float to two decimals instead. */
  datatype Percent = Percent(num: nat, den: nat)

  /** `get_percentage`: 0 when no vote was cast, else count / total * 100. */
  function Percentage(count: nat, total: nat): (p: Percent)
    ensures p.den > 0
    ensures total == 0 ==> p.num == 0
    ensures total > 0 ==> p.den == total && p.num == 100 * count
    ensures count <= total ==> p.num <= 100 * p.den
  {
    if total == 0 then Percent(0, 1) else Percent(100 * count, total)
  }
}
