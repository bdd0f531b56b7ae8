/** The Poll, Choice and Vote records of polls/models.py, the model-level
    `clean` checks, and the table constraints (`unique_together`, foreign keys)
    stated as one store invariant. */
module Models {
  import opened Wrappers
  import opened Seqs

  type UserId = nat
  type PollId = nat
  type ChoiceId = nat
  type VoteId = nat
  /** A timestamp; only its order matters. */
  type Time = int

  /** The request's user: Django's anonymous user, or an account with its
      staff flag. The anonymous user is never authenticated, never staff and
      equal to no account. */
  datatype Actor = Anonymous | Member(id: UserId, isStaff: bool) {
    predicate IsAuthenticated() { Member? }
    predicate IsStaff() { Member? && isStaff }
    predicate Is(user: UserId) { Member? && id == user }
  }

  datatype Poll = Poll(
    id: PollId,
    title: string,
    description: string,
    createdBy: UserId,
    createdAt: Time,
    deadline: Option<Time>,
    isActive: bool,
    isProposal: bool)

  datatype Choice = Choice(id: ChoiceId, poll: PollId, text: string)

  datatype Vote = Vote(id: VoteId, user: UserId, poll: PollId, choice: ChoiceId, votedAt: Time)

  /** The texts every poll is meant to carry, in this order. */
  const DefaultTexts: seq<string> := ["Concordo", "Discordo", "Neutro"]

  /** Position of a default text in `DefaultTexts` (3 for any other text). */
  function DefaultRank(t: string): nat {
    if t == "Concordo" then 0 else if t == "Discordo" then 1 else if t == "Neutro" then 2 else 3
  }

  lemma DefaultTextsOrdered()
    ensures forall i, j :: 0 <= i < j < |DefaultTexts| ==> DefaultRank(DefaultTexts[i]) < DefaultRank(DefaultTexts[j])
  {
  }

  /** `Poll.clean`: an active poll may not have a deadline in the past. */
  predicate PollCleanRejects(p: Poll, now: Time) {
    p.deadline.Some? && p.deadline.value < now && p.isActive
  }

  /** `Vote.clean`: the vote's choice must belong to the vote's poll. */
  predicate VoteCleanRejects(v: Vote, c: Choice)
    requires c.id == v.choice
  {
    c.poll != v.poll
  }

  /** The open-for-voting test of the vote serializer: active, and the
      deadline (if any) not before `now`. */
  predicate Votable(p: Poll, now: Time) {
    p.isActive && !(p.deadline.Some? && p.deadline.value < now)
  }

  /** For an active poll, `Poll.clean` accepts exactly the polls that are
      open for voting; an inactive poll passes `clean` but takes no votes. */
  lemma CleanAgreesWithVotable(p: Poll, now: Time)
    ensures p.isActive ==> (!PollCleanRejects(p, now) <==> Votable(p, now))
    ensures !p.isActive ==> !PollCleanRejects(p, now) && !Votable(p, now)
  {
  }

  // ---- table constraints ----

  predicate PollIdLess(a: Poll, b: Poll) { a.id < b.id }
  predicate ChoiceIdLess(a: Choice, b: Choice) { a.id < b.id }
  predicate VoteIdLess(a: Vote, b: Vote) { a.id < b.id }

  /** `unique_together = ('poll', 'choice_text')` for one pair of rows. */
  predicate DistinctChoiceText(a: Choice, b: Choice) { a.poll == b.poll ==> a.text != b.text }

  /** `unique_together = ('user', 'poll')` for one pair of rows. */
  predicate DistinctVoter(a: Vote, b: Vote) { a.poll == b.poll ==> a.user != b.user }

  predicate PollExists(ps: seq<Poll>, id: PollId) {
    exists p :: p in ps && p.id == id
  }

  predicate ChoiceExists(cs: seq<Choice>, id: ChoiceId) {
    exists c :: c in cs && c.id == id
  }

  /** The vote's choice row exists and belongs to the vote's poll. */
  predicate VoteMatchesChoice(cs: seq<Choice>, v: Vote) {
    exists c :: c in cs && c.id == v.choice && c.poll == v.poll
  }

  /** Whether `user` already has a vote on poll `poll`. */
  predicate HasVoted(vs: seq<Vote>, user: UserId, poll: PollId) {
    exists i | 0 <= i < |vs| :: vs[i].user == user && vs[i].poll == poll
  }

  /** The texts of the choices of one poll. */
  function PollTexts(cs: seq<Choice>, poll: PollId): set<string> {
    set c | c in cs && c.poll == poll :: c.text
  }

  /** The database constraints of polls/models.py over the three tables:
      primary keys strictly increasing and below the next key to hand out,
      the two `unique_together` constraints, the foreign keys, and the
      `Vote.clean` rule that a vote's choice belongs to its poll. */
  ghost predicate Consistent(ps: seq<Poll>, cs: seq<Choice>, vs: seq<Vote>,
                             nextPoll: nat, nextChoice: nat, nextVote: nat) {
    && Pairwise(ps, PollIdLess) && (forall p :: p in ps ==> p.id < nextPoll)
    && Pairwise(cs, ChoiceIdLess) && (forall c :: c in cs ==> c.id < nextChoice)
    && Pairwise(vs, VoteIdLess) && (forall v :: v in vs ==> v.id < nextVote)
    && Pairwise(cs, DistinctChoiceText)
    && Pairwise(vs, DistinctVoter)
    && (forall c :: c in cs ==> PollExists(ps, c.poll))
    && (forall v :: v in vs ==> VoteMatchesChoice(cs, v))
  }

  /** At most one vote per (user, poll) in a consistent store. */
  lemma OneVotePerUserAndPoll(ps: seq<Poll>, cs: seq<Choice>, vs: seq<Vote>, np: nat, nc: nat, nv: nat)
    requires Consistent(ps, cs, vs, np, nc, nv)
    ensures forall i, j :: 0 <= i < |vs| && 0 <= j < |vs| && vs[i].user == vs[j].user && vs[i].poll == vs[j].poll ==> i == j
  {
    forall i, j | 0 <= i < |vs| && 0 <= j < |vs| && vs[i].user == vs[j].user && vs[i].poll == vs[j].poll
      ensures i == j
    {
    }
  }

  /** No vote of a consistent store is rejected by `Vote.clean`. */
  lemma StoredVotesPassClean(ps: seq<Poll>, cs: seq<Choice>, vs: seq<Vote>, np: nat, nc: nat, nv: nat,
                             v: Vote, c: Choice)
    requires Consistent(ps, cs, vs, np, nc, nv)
    requires v in vs && c in cs && c.id == v.choice
    ensures !VoteCleanRejects(v, c)
  {
    var c' :| c' in cs && c'.id == v.choice && c'.poll == v.poll;
    var i :| 0 <= i < |cs| && cs[i] == c;
    var j :| 0 <= j < |cs| && cs[j] == c';
  }

  // ---- row batches and their effect on the invariant ----

  /** The rows `bulk_create` adds for `texts` on poll `poll`, numbered from `firstId`. */
  function NewChoices(poll: PollId, texts: seq<string>, firstId: nat): (r: seq<Choice>)
    ensures |r| == |texts|
    ensures forall i :: 0 <= i < |r| ==> r[i] == Choice(firstId + i, poll, texts[i])
  {
    seq(|texts|, i requires 0 <= i < |texts| => Choice(firstId + i, poll, texts[i]))
  }

  /** The texts of a poll over two batches of rows. */
  lemma PollTextsConcat(a: seq<Choice>, b: seq<Choice>, x: PollId)
    ensures PollTexts(a + b, x) == PollTexts(a, x) + PollTexts(b, x)
  {
  }

  /** The texts of poll `x` among a batch of new rows for poll `poll`. */
  lemma PollTextsOfNew(poll: PollId, texts: seq<string>, firstId: nat, x: PollId)
    ensures PollTexts(NewChoices(poll, texts, firstId), x) == if x == poll then set t | t in texts else {}
  {
    var added := NewChoices(poll, texts, firstId);
    if x == poll {
      forall t | t in texts ensures t in PollTexts(added, x) {
        var k :| 0 <= k < |texts| && texts[k] == t;
        assert added[k] in added;
      }
    }
  }

  /** Adding a poll with the next key keeps the store consistent. */
  lemma InsertPollKeeps(ps: seq<Poll>, cs: seq<Choice>, vs: seq<Vote>, np: nat, nc: nat, nv: nat, p: Poll)
    requires Consistent(ps, cs, vs, np, nc, nv)
    requires p.id == np
    ensures Consistent(ps + [p], cs, vs, np + 1, nc, nv)
  {
    PairwiseConcat(ps, [p], PollIdLess);
    forall c | c in cs ensures PollExists(ps + [p], c.poll) {
      var q :| q in ps && q.id == c.poll;
      assert q in ps + [p];
    }
  }

  /** Adding a batch of choices to an existing poll, with texts that are
      pairwise different and new to that poll, keeps the store consistent:
      in particular no (poll, text) pair is duplicated. */
  lemma InsertChoicesKeeps(ps: seq<Poll>, cs: seq<Choice>, vs: seq<Vote>, np: nat, nc: nat, nv: nat,
                           poll: PollId, texts: seq<string>)
    requires Consistent(ps, cs, vs, np, nc, nv)
    requires PollExists(ps, poll)
    requires forall i, j :: 0 <= i < j < |texts| ==> texts[i] != texts[j]
    requires forall t :: t in texts ==> t !in PollTexts(cs, poll)
    ensures Consistent(ps, cs + NewChoices(poll, texts, nc), vs, np, nc + |texts|, nv)
  {
    var added := NewChoices(poll, texts, nc);
    var all := cs + added;
    assert Pairwise(added, ChoiceIdLess);
    PairwiseConcat(cs, added, ChoiceIdLess);
    assert Pairwise(added, DistinctChoiceText);
    forall x, y | x in cs && y in added ensures DistinctChoiceText(x, y) {
      var k :| 0 <= k < |added| && added[k] == y;
      if x.poll == y.poll {
        assert x.text in PollTexts(cs, poll);
      }
    }
    PairwiseConcat(cs, added, DistinctChoiceText);
    forall v | v in vs ensures VoteMatchesChoice(all, v) {
      var c :| c in cs && c.id == v.choice && c.poll == v.poll;
      assert c in all;
    }
  }

  /** Adding a vote whose choice belongs to its poll, by a user with no vote
      on that poll yet, keeps the store consistent. */
  lemma InsertVoteKeeps(ps: seq<Poll>, cs: seq<Choice>, vs: seq<Vote>, np: nat, nc: nat, nv: nat, v: Vote)
    requires Consistent(ps, cs, vs, np, nc, nv)
    requires v.id == nv && VoteMatchesChoice(cs, v) && !HasVoted(vs, v.user, v.poll)
    ensures Consistent(ps, cs, vs + [v], np, nc, nv + 1)
  {
    PairwiseConcat(vs, [v], VoteIdLess);
    PairwiseConcat(vs, [v], DistinctVoter);
  }

  /** Replacing a poll row by one with the same key keeps the store consistent. */
  lemma ReplacePollKeeps(ps: seq<Poll>, cs: seq<Choice>, vs: seq<Vote>, np: nat, nc: nat, nv: nat,
                         k: nat, q: Poll)
    requires Consistent(ps, cs, vs, np, nc, nv)
    requires k < |ps| && q.id == ps[k].id
    ensures Consistent(ps[k := q], cs, vs, np, nc, nv)
  {
    var ps' := ps[k := q];
    forall i, j | 0 <= i < j < |ps'| ensures PollIdLess(ps'[i], ps'[j]) {
      assert PollIdLess(ps[i], ps[j]);
    }
    forall c | c in cs ensures PollExists(ps', c.poll) {
      var p :| p in ps && p.id == c.poll;
      var i :| 0 <= i < |ps| && ps[i] == p;
      assert ps'[i] in ps';
    }
  }

  /** Renaming a choice to a text no other choice of its poll has keeps the
      store consistent. */
  lemma RenameChoiceKeeps(ps: seq<Poll>, cs: seq<Choice>, vs: seq<Vote>, np: nat, nc: nat, nv: nat,
                          k: nat, text: string)
    requires Consistent(ps, cs, vs, np, nc, nv)
    requires k < |cs|
    requires forall i :: 0 <= i < |cs| && i != k && cs[i].poll == cs[k].poll ==> cs[i].text != text
    ensures Consistent(ps, cs[k := cs[k].(text := text)], vs, np, nc, nv)
  {
    var cs' := cs[k := cs[k].(text := text)];
    forall i, j | 0 <= i < j < |cs'| ensures ChoiceIdLess(cs'[i], cs'[j]) && DistinctChoiceText(cs'[i], cs'[j]) {
      assert ChoiceIdLess(cs[i], cs[j]) && DistinctChoiceText(cs[i], cs[j]);
    }
    forall c | c in cs' ensures PollExists(ps, c.poll) {
      var i :| 0 <= i < |cs'| && cs'[i] == c;
      assert cs[i] in cs;
    }
    forall v | v in vs ensures VoteMatchesChoice(cs', v) {
      var c :| c in cs && c.id == v.choice && c.poll == v.poll;
      var i :| 0 <= i < |cs| && cs[i] == c;
      assert cs'[i] in cs';
    }
  }

  // ---- cascading deletes ----

  /** Ids of the choices of poll `poll`: the rows a poll delete cascades to. */
  function ChoiceIdsOf(cs: seq<Choice>, poll: PollId): set<ChoiceId> {
    set c | c in cs && c.poll == poll :: c.id
  }

  /** The three tables after deleting poll `id`: the poll, its choices
      (`Choice.poll` cascades) and every vote on the poll or on one of those
      choices (`Vote.poll` and `Vote.choice` cascade). */
  function PollsAfterPollDelete(ps: seq<Poll>, id: PollId): seq<Poll> {
    Filter(ps, (p: Poll) => p.id != id)
  }

  function ChoicesAfterPollDelete(cs: seq<Choice>, id: PollId): seq<Choice> {
    Filter(cs, (c: Choice) => c.poll != id)
  }

  function VotesAfterPollDelete(vs: seq<Vote>, id: PollId, doomed: set<ChoiceId>): seq<Vote> {
    Filter(vs, (v: Vote) => v.poll != id && v.choice !in doomed)
  }

  /** The choice table and vote table after deleting choice `id`
      (`Vote.choice` cascades). */
  function ChoicesAfterChoiceDelete(cs: seq<Choice>, id: ChoiceId): seq<Choice> {
    Filter(cs, (c: Choice) => c.id != id)
  }

  function VotesAfterChoiceDelete(vs: seq<Vote>, id: ChoiceId): seq<Vote> {
    Filter(vs, (v: Vote) => v.choice != id)
  }

  /** Deleting a poll with its cascade keeps the store consistent, and
      leaves no choice or vote that refers to the deleted poll. */
  lemma DeletePollKeeps(ps: seq<Poll>, cs: seq<Choice>, vs: seq<Vote>, np: nat, nc: nat, nv: nat, id: PollId)
    requires Consistent(ps, cs, vs, np, nc, nv)
    ensures var doomed := ChoiceIdsOf(cs, id);
      && Consistent(PollsAfterPollDelete(ps, id), ChoicesAfterPollDelete(cs, id),
                    VotesAfterPollDelete(vs, id, doomed), np, nc, nv)
      && !PollExists(PollsAfterPollDelete(ps, id), id)
      && (forall c :: c in ChoicesAfterPollDelete(cs, id) ==> c.poll != id)
      && (forall v :: v in VotesAfterPollDelete(vs, id, doomed) ==> v.poll != id)
  {
    var doomed := ChoiceIdsOf(cs, id);
    var ps', cs', vs' := PollsAfterPollDelete(ps, id), ChoicesAfterPollDelete(cs, id), VotesAfterPollDelete(vs, id, doomed);
    FilterPairwise(ps, (p: Poll) => p.id != id, PollIdLess);
    FilterPairwise(cs, (c: Choice) => c.poll != id, ChoiceIdLess);
    FilterPairwise(cs, (c: Choice) => c.poll != id, DistinctChoiceText);
    FilterPairwise(vs, (v: Vote) => v.poll != id && v.choice !in doomed, VoteIdLess);
    FilterPairwise(vs, (v: Vote) => v.poll != id && v.choice !in doomed, DistinctVoter);
    forall c | c in cs' ensures PollExists(ps', c.poll) {
      var p :| p in ps && p.id == c.poll;
      assert p in ps';
    }
    forall v | v in vs' ensures VoteMatchesChoice(cs', v) {
      var c :| c in cs && c.id == v.choice && c.poll == v.poll;
      assert c in cs';
    }
  }

  /** Deleting a choice with its cascade keeps the store consistent and
      leaves no vote on the deleted choice. */
  lemma DeleteChoiceKeeps(ps: seq<Poll>, cs: seq<Choice>, vs: seq<Vote>, np: nat, nc: nat, nv: nat, id: ChoiceId)
    requires Consistent(ps, cs, vs, np, nc, nv)
    ensures Consistent(ps, ChoicesAfterChoiceDelete(cs, id), VotesAfterChoiceDelete(vs, id), np, nc, nv)
    ensures !ChoiceExists(ChoicesAfterChoiceDelete(cs, id), id)
    ensures forall v :: v in VotesAfterChoiceDelete(vs, id) ==> v.choice != id
  {
    var cs', vs' := ChoicesAfterChoiceDelete(cs, id), VotesAfterChoiceDelete(vs, id);
    FilterPairwise(cs, (c: Choice) => c.id != id, ChoiceIdLess);
    FilterPairwise(cs, (c: Choice) => c.id != id, DistinctChoiceText);
    FilterPairwise(vs, (v: Vote) => v.choice != id, VoteIdLess);
    FilterPairwise(vs, (v: Vote) => v.choice != id, DistinctVoter);
    forall v | v in vs' ensures VoteMatchesChoice(cs', v) {
      var c :| c in cs && c.id == v.choice && c.poll == v.poll;
      assert c in cs';
    }
  }
}
