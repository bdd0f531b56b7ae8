/** The management command add_default_choices_to_existing_polls: for every
    poll, in table order, bulk-create the default choices it lacks, and
    count the polls that got some and the choices added. The loop of
    `Command.handle` is `Handle`; `Backfill` is the same run as a left fold,
    which the lemmas below reason about. */
module Backfill {
  import opened Seqs
  import opened Models
  import opened Storage

  /** Earlier than in the default order. */
  predicate RankLess(a: string, b: string) { DefaultRank(a) < DefaultRank(b) }

  /** The default texts poll `poll` already has a choice for (the command's
      `filter(poll=poll, choice_text__in=default_texts)`). */
  function ExistingDefaultTexts(cs: seq<Choice>, poll: PollId): set<string> {
    set c | c in cs && c.poll == poll && c.text in DefaultTexts :: c.text
  }

  /** The default texts not in `existing`, in the default order (the
      command's `missing_default_texts`). */
  function MissingDefaults(existing: set<string>): seq<string> {
    Filter(DefaultTexts, (t: string) => t !in existing)
  }

  /** The default texts poll `poll` lacks among the choices `cs`. */
  function MissingFor(cs: seq<Choice>, poll: PollId): seq<string> {
    MissingDefaults(ExistingDefaultTexts(cs, poll))
  }

  /** The existing default texts of a poll are the default texts among its
      choices' texts. */
  lemma ExistingDefaultTextsSpec(cs: seq<Choice>, poll: PollId)
    ensures forall t :: t in ExistingDefaultTexts(cs, poll) <==> t in DefaultTexts && t in PollTexts(cs, poll)
  {
  }

  /** The missing texts are exactly the default texts not in `existing`,
      none at all exactly when every default text is there, at most three,
      and in the default order (so pairwise different). */
  lemma MissingDefaultsSpec(existing: set<string>)
    ensures var r := MissingDefaults(existing);
      && (forall t :: t in r <==> t in DefaultTexts && t !in existing)
      && (r == [] <==> forall t :: t in DefaultTexts ==> t in existing)
      && |r| <= |DefaultTexts|
      && (forall i, j :: 0 <= i < j < |r| ==> RankLess(r[i], r[j]))
  {
    var keep := (t: string) => t !in existing;
    assert MissingDefaults(existing) == Filter(DefaultTexts, keep);
    DefaultTextsOrdered();
    assert Pairwise(DefaultTexts, RankLess);
    FilterPairwise(DefaultTexts, keep, RankLess);
    FilterEmpty(DefaultTexts, keep);
  }

  /** What a poll lacks: exactly the default texts none of its choices
      carries, none exactly when it has them all, at most three, in the
      default order. */
  lemma MissingForSpec(cs: seq<Choice>, poll: PollId)
    ensures var r := MissingFor(cs, poll);
      && (forall t :: t in r <==> t in DefaultTexts && t !in PollTexts(cs, poll))
      && (r == [] <==> forall t :: t in DefaultTexts ==> t in PollTexts(cs, poll))
      && |r| <= 3
      && (forall i, j :: 0 <= i < j < |r| ==> RankLess(r[i], r[j]))
  {
    ExistingDefaultTextsSpec(cs, poll);
    MissingDefaultsSpec(ExistingDefaultTexts(cs, poll));
  }

  /** What a poll lacks can be bulk-created: the texts are pairwise
      different and new to the poll. */
  lemma MissingForFits(cs: seq<Choice>, poll: PollId)
    ensures var missing := MissingFor(cs, poll);
      && (forall i, j :: 0 <= i < j < |missing| ==> missing[i] != missing[j])
      && (forall t :: t in missing ==> t !in PollTexts(cs, poll))
  {
    var missing := MissingFor(cs, poll);
    MissingForSpec(cs, poll);
    forall i, j | 0 <= i < j < |missing| ensures missing[i] != missing[j] {
      assert RankLess(missing[i], missing[j]);
    }
  }

  /** A poll whose default choices were bulk-created with it (as the poll
      view's create does) lacks nothing, whatever else is in the table. */
  lemma FreshPollLacksNothing(cs: seq<Choice>, poll: PollId, firstId: nat)
    ensures MissingFor(cs + NewChoices(poll, DefaultTexts, firstId), poll) == []
  {
    var all := cs + NewChoices(poll, DefaultTexts, firstId);
    PollTextsConcat(cs, NewChoices(poll, DefaultTexts, firstId), poll);
    PollTextsOfNew(poll, DefaultTexts, firstId, poll);
    MissingForSpec(all, poll);
  }

  /** What the command has written and counted so far. */
  datatype BackfillState = BackfillState(choices: seq<Choice>, nextChoiceId: nat, pollsUpdated: nat, choicesAdded: nat)

  /** One turn of the loop, for poll `p`. */
  function Step(st: BackfillState, p: Poll): BackfillState {
    var missing := MissingFor(st.choices, p.id);
    if missing == [] then st
    else BackfillState(st.choices + NewChoices(p.id, missing, st.nextChoiceId), st.nextChoiceId + |missing|,
                       st.pollsUpdated + 1, st.choicesAdded + |missing|)
  }

  /** The loop over the polls `ps`, from state `st`. */
  function Backfill(ps: seq<Poll>, st: BackfillState): BackfillState
    decreases |ps|
  {
    if ps == [] then st else Step(Backfill(ps[..|ps| - 1], st), ps[|ps| - 1])
  }

  /** One turn of the loop of `Command.handle`: bulk-create the default
      choices poll `p` lacks and bump the counters. */
  method HandlePoll(s: Store, p: Poll, pollsUpdated: nat, choicesAdded: nat)
    returns (pollsUpdated': nat, choicesAdded': nat)
    requires s.Valid() && p in s.polls
    modifies s
    ensures s.Valid()
    ensures BackfillState(s.choices, s.nextChoiceId, pollsUpdated', choicesAdded')
            == Step(BackfillState(old(s.choices), old(s.nextChoiceId), pollsUpdated, choicesAdded), p)
    ensures s.polls == old(s.polls) && s.votes == old(s.votes)
    ensures s.nextPollId == old(s.nextPollId) && s.nextVoteId == old(s.nextVoteId)
  {
    pollsUpdated', choicesAdded' := pollsUpdated, choicesAdded;
    ghost var before := BackfillState(s.choices, s.nextChoiceId, pollsUpdated, choicesAdded);
    var missing := MissingFor(s.choices, p.id);
    if missing != [] {
      assert PollExists(s.polls, p.id);
      MissingForFits(s.choices, p.id);
      var created := s.BulkCreateChoices(p.id, missing);
      pollsUpdated' := pollsUpdated' + 1;
      choicesAdded' := choicesAdded' + |created|;
      assert Step(before, p) == BackfillState(before.choices + created, before.nextChoiceId + |missing|,
                                              pollsUpdated', choicesAdded');
    } else {
      assert Step(before, p) == before;
    }
  }

  /** `Command.handle`, without its console output. */
  method Handle(s: Store) returns (pollsUpdated: nat, choicesAdded: nat)
    requires s.Valid()
    modifies s
    ensures s.Valid()
    ensures var run := Backfill(old(s.polls), BackfillState(old(s.choices), old(s.nextChoiceId), 0, 0));
      s.choices == run.choices && s.nextChoiceId == run.nextChoiceId
      && pollsUpdated == run.pollsUpdated && choicesAdded == run.choicesAdded
    ensures s.polls == old(s.polls) && s.votes == old(s.votes)
    ensures s.nextPollId == old(s.nextPollId) && s.nextVoteId == old(s.nextVoteId)
  {
    var allPolls := s.polls;
    ghost var start := BackfillState(s.choices, s.nextChoiceId, 0, 0);
    pollsUpdated, choicesAdded := 0, 0;
    for i := 0 to |allPolls|
      invariant s.Valid()
      invariant s.polls == allPolls && s.votes == old(s.votes)
      invariant s.nextPollId == old(s.nextPollId) && s.nextVoteId == old(s.nextVoteId)
      invariant Backfill(allPolls[..i], start) == BackfillState(s.choices, s.nextChoiceId, pollsUpdated, choicesAdded)
    {
      ghost var before := BackfillState(s.choices, s.nextChoiceId, pollsUpdated, choicesAdded);
      assert allPolls[..i + 1][..i] == allPolls[..i];
      assert Backfill(allPolls[..i + 1], start) == Step(before, allPolls[i]);
      assert allPolls[i] in s.polls;
      pollsUpdated, choicesAdded := HandlePoll(s, allPolls[i], pollsUpdated, choicesAdded);
    }
    assert allPolls[..|allPolls|] == allPolls;
  }

  // ---- what a run achieves ----

  /** The texts of poll `x` after one turn: those it had, plus the missing
      defaults when the turn was for `x`. */
  lemma StepTexts(st: BackfillState, p: Poll, x: PollId)
    ensures PollTexts(Step(st, p).choices, x)
            == PollTexts(st.choices, x) + (if x == p.id then set t | t in MissingFor(st.choices, p.id) else {})
  {
    var missing := MissingFor(st.choices, p.id);
    if missing != [] {
      PollTextsConcat(st.choices, NewChoices(p.id, missing, st.nextChoiceId), x);
      PollTextsOfNew(p.id, missing, st.nextChoiceId, x);
    }
  }

  /** After the run every poll it went over has a choice for every default
      text. */
  lemma {:induction false} BackfillCompletes(ps: seq<Poll>, st: BackfillState)
    ensures forall p, t :: p in ps && t in DefaultTexts ==> t in PollTexts(Backfill(ps, st).choices, p.id)
  {
    if ps != [] {
      var init, last := ps[..|ps| - 1], ps[|ps| - 1];
      var mid := Backfill(init, st);
      assert Backfill(ps, st) == Step(mid, last);
      BackfillCompletes(init, st);
      forall p, t | p in ps && t in DefaultTexts ensures t in PollTexts(Backfill(ps, st).choices, p.id) {
        StepTexts(mid, last, p.id);
        if p != last {
          assert p in init by {
            var k :| 0 <= k < |ps| && ps[k] == p;
            assert k < |ps| - 1;
            assert init[k] == p;
          }
        }
      }
    }
  }

  /** One turn only appends, with the next keys in turn, and the choice
      counter and the "choices added" count grow by the rows appended. */
  lemma StepAppends(st: BackfillState, p: Poll)
    ensures var r := Step(st, p);
      && |st.choices| <= |r.choices| && r.choices[..|st.choices|] == st.choices
      && r.choicesAdded == st.choicesAdded + (|r.choices| - |st.choices|)
      && r.nextChoiceId == st.nextChoiceId + (|r.choices| - |st.choices|)
      && (forall k :: |st.choices| <= k < |r.choices| ==> r.choices[k].id == st.nextChoiceId + (k - |st.choices|))
  {
    var missing := MissingFor(st.choices, p.id);
    if missing != [] {
      var added := NewChoices(p.id, missing, st.nextChoiceId);
      var all := st.choices + added;
      assert Step(st, p).choices == all;
      assert all[..|st.choices|] == st.choices;
      forall k | |st.choices| <= k < |all| ensures all[k].id == st.nextChoiceId + (k - |st.choices|) {
        assert all[k] == added[k - |st.choices|];
      }
    }
  }

  /** A run only appends: the rows it started from stay as they were, in
      front; the added rows have the next keys in turn; and the choice
      counter and the "choices added" count both grow by the number of rows
      added. */
  lemma {:induction false} BackfillAppendsOnly(ps: seq<Poll>, st: BackfillState)
    ensures var r := Backfill(ps, st);
      && |st.choices| <= |r.choices| && r.choices[..|st.choices|] == st.choices
      && r.choicesAdded == st.choicesAdded + (|r.choices| - |st.choices|)
      && r.nextChoiceId == st.nextChoiceId + (|r.choices| - |st.choices|)
      && (forall k :: |st.choices| <= k < |r.choices| ==> r.choices[k].id == st.nextChoiceId + (k - |st.choices|))
  {
    if ps != [] {
      var mid := Backfill(ps[..|ps| - 1], st);
      BackfillAppendsOnly(ps[..|ps| - 1], st);
      var r := Step(mid, ps[|ps| - 1]);
      assert Backfill(ps, st) == r;
      StepAppends(mid, ps[|ps| - 1]);
      assert r.choices[..|st.choices|] == mid.choices[..|st.choices|];
      forall k | |st.choices| <= k < |mid.choices| ensures r.choices[k] == mid.choices[k] {
        assert r.choices[k] == r.choices[..|mid.choices|][k];
      }
    }
  }

  /** The rows one turn adds are default choices of its poll. */
  lemma StepAddsDefaultsOnly(st: BackfillState, p: Poll)
    ensures forall c :: c in Step(st, p).choices && c !in st.choices ==> c.text in DefaultTexts && c.poll == p.id
  {
    var missing := MissingFor(st.choices, p.id);
    if missing != [] {
      var added := NewChoices(p.id, missing, st.nextChoiceId);
      forall c | c in st.choices + added && c !in st.choices ensures c.text in DefaultTexts && c.poll == p.id {
        var k :| 0 <= k < |added| && added[k] == c;
        assert missing[k] in missing;
      }
    }
  }

  /** Every row a run adds carries a default text and belongs to one of the
      polls it went over. */
  lemma {:induction false} BackfillAddsDefaultsOnly(ps: seq<Poll>, st: BackfillState)
    ensures forall c :: c in Backfill(ps, st).choices && c !in st.choices ==>
              c.text in DefaultTexts && exists p :: p in ps && p.id == c.poll
  {
    if ps != [] {
      var init, last := ps[..|ps| - 1], ps[|ps| - 1];
      var mid := Backfill(init, st);
      assert Backfill(ps, st) == Step(mid, last);
      BackfillAddsDefaultsOnly(init, st);
      StepAddsDefaultsOnly(mid, last);
      forall c | c in Backfill(ps, st).choices && c !in st.choices
        ensures c.text in DefaultTexts && exists p :: p in ps && p.id == c.poll
      {
        if c in mid.choices {
          var p :| p in init && p.id == c.poll;
          var k :| 0 <= k < |init| && init[k] == p;
          assert ps[k] == p;
        } else {
          assert last in ps;
        }
      }
    }
  }

  /** The counters of a run: at most one update per poll, between one and
      three choices per updated poll. */
  lemma {:induction false} BackfillCounters(ps: seq<Poll>, st: BackfillState)
    ensures var r := Backfill(ps, st);
      && st.pollsUpdated <= r.pollsUpdated <= st.pollsUpdated + |ps|
      && r.pollsUpdated - st.pollsUpdated <= r.choicesAdded - st.choicesAdded
      && r.choicesAdded - st.choicesAdded <= 3 * (r.pollsUpdated - st.pollsUpdated)
  {
    if ps != [] {
      var mid := Backfill(ps[..|ps| - 1], st);
      assert Backfill(ps, st) == Step(mid, ps[|ps| - 1]);
      BackfillCounters(ps[..|ps| - 1], st);
      assert |MissingFor(mid.choices, ps[|ps| - 1].id)| <= 3;
    }
  }

  /** A run over polls that already have every default text changes
      nothing and counts nothing. */
  lemma {:induction false} BackfillIdempotent(ps: seq<Poll>, st: BackfillState)
    requires forall p, t :: p in ps && t in DefaultTexts ==> t in PollTexts(st.choices, p.id)
    ensures Backfill(ps, st) == st
  {
    if ps != [] {
      var init := ps[..|ps| - 1];
      forall p | p in init ensures p in ps {
        var k :| 0 <= k < |init| && init[k] == p;
        assert ps[k] == p;
      }
      BackfillIdempotent(init, st);
      assert Backfill(ps, st) == Step(st, ps[|ps| - 1]);
      assert ps[|ps| - 1] in ps;
    }
  }

  /** Running the command a second time adds no choice and reports zero
      updated polls and zero added choices. */
  lemma SecondRunAddsNothing(ps: seq<Poll>, cs: seq<Choice>, next: nat)
    ensures var first := Backfill(ps, BackfillState(cs, next, 0, 0));
            var second := Backfill(ps, BackfillState(first.choices, first.nextChoiceId, 0, 0));
      second.choices == first.choices && second.nextChoiceId == first.nextChoiceId
      && second.pollsUpdated == 0 && second.choicesAdded == 0
  {
    var first := Backfill(ps, BackfillState(cs, next, 0, 0));
    BackfillCompletes(ps, BackfillState(cs, next, 0, 0));
    BackfillIdempotent(ps, BackfillState(first.choices, first.nextChoiceId, 0, 0));
  }

  /** A run over polls other than `x` leaves the texts of `x` alone. */
  lemma {:induction false} BackfillOtherPolls(ps: seq<Poll>, st: BackfillState, x: PollId)
    requires forall p :: p in ps ==> p.id != x
    ensures PollTexts(Backfill(ps, st).choices, x) == PollTexts(st.choices, x)
  {
    if ps != [] {
      var init, last := ps[..|ps| - 1], ps[|ps| - 1];
      forall p | p in init ensures p in ps {
        var k :| 0 <= k < |init| && init[k] == p;
        assert ps[k] == p;
      }
      BackfillOtherPolls(init, st, x);
      assert Backfill(ps, st) == Step(Backfill(init, st), last);
      assert last in ps;
      StepTexts(Backfill(init, st), last, x);
    }
  }

  /** How many default choices the polls `ps` lack among `cs`, in total. */
  function MissingCount(ps: seq<Poll>, cs: seq<Choice>): nat
    decreases |ps|
  {
    if ps == [] then 0 else MissingCount(ps[..|ps| - 1], cs) + |MissingFor(cs, ps[|ps| - 1].id)|
  }

  /** How many of the polls `ps` lack some default choice among `cs`. */
  function NeedyCount(ps: seq<Poll>, cs: seq<Choice>): nat
    decreases |ps|
  {
    if ps == [] then 0 else NeedyCount(ps[..|ps| - 1], cs) + (if MissingFor(cs, ps[|ps| - 1].id) == [] then 0 else 1)
  }

  /** What a poll lacks depends only on its texts. */
  lemma MissingForSameTexts(a: seq<Choice>, b: seq<Choice>, x: PollId)
    requires PollTexts(a, x) == PollTexts(b, x)
    ensures MissingFor(a, x) == MissingFor(b, x)
  {
    ExistingDefaultTextsSpec(a, x);
    ExistingDefaultTextsSpec(b, x);
    assert ExistingDefaultTexts(a, x) == ExistingDefaultTexts(b, x);
  }

  /** With increasing keys, the polls before the last one still have
      increasing keys, and none has the last one's key. */
  lemma DistinctKeysSplit(ps: seq<Poll>)
    requires ps != [] && Pairwise(ps, PollIdLess)
    ensures Pairwise(ps[..|ps| - 1], PollIdLess)
    ensures forall p :: p in ps[..|ps| - 1] ==> p.id != ps[|ps| - 1].id
  {
    var init := ps[..|ps| - 1];
    forall i, j | 0 <= i < j < |init| ensures PollIdLess(init[i], init[j]) {
      assert init[i] == ps[i] && init[j] == ps[j];
    }
    forall p | p in init ensures p.id != ps[|ps| - 1].id {
      var k :| 0 <= k < |init| && init[k] == p;
      assert PollIdLess(ps[k], ps[|ps| - 1]);
    }
  }

  /** Over polls with distinct keys the run adds exactly the default
      choices that were missing when it started, and updates exactly the
      polls that lacked one. */
  lemma {:induction false} BackfillAddsExactlyMissing(ps: seq<Poll>, st: BackfillState)
    requires Pairwise(ps, PollIdLess)
    ensures Backfill(ps, st).choicesAdded == st.choicesAdded + MissingCount(ps, st.choices)
    ensures Backfill(ps, st).pollsUpdated == st.pollsUpdated + NeedyCount(ps, st.choices)
  {
    if ps != [] {
      var init, last := ps[..|ps| - 1], ps[|ps| - 1];
      DistinctKeysSplit(ps);
      BackfillAddsExactlyMissing(init, st);
      var mid := Backfill(init, st);
      BackfillOtherPolls(init, st, last.id);
      MissingForSameTexts(mid.choices, st.choices, last.id);
      assert Backfill(ps, st) == Step(mid, last);
    }
  }
}
