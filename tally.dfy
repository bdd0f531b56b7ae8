/** The read-only aggregation of the `results` action in polls/views.py:
    the poll's total vote count, and one entry per choice of the poll with
    its own count and percentage. */
module Tally {
  import opened Seqs
  import opened Models
  import opened Serializers

  datatype ChoiceResult = ChoiceResult(choiceText: string, voteCount: nat, percentage: Percent)

  /** The choices of poll `poll`, in table order. */
  function ChoicesOf(cs: seq<Choice>, poll: PollId): seq<Choice> {
    Filter(cs, (c: Choice) => c.poll == poll)
  }

  /** `Vote.objects.filter(poll=poll).count()`. */
  function VotesForPoll(vs: seq<Vote>, poll: PollId): nat {
    |Filter(vs, (v: Vote) => v.poll == poll)|
  }

  /** `annotate(vote_count=Count('votes'))` for one choice: the votes whose
      choice is that choice. */
  function VotesForChoice(vs: seq<Vote>, choice: ChoiceId): nat {
    |Filter(vs, (v: Vote) => v.choice == choice)|
  }

  /** One result entry per choice, in order, each with the choice's own
      count and its percentage of `total`. */
  function ChoiceResults(cs: seq<Choice>, vs: seq<Vote>, total: nat): (r: seq<ChoiceResult>)
    ensures |r| == |cs|
    ensures forall i :: 0 <= i < |r| ==> r[i].choiceText == cs[i].text && r[i].voteCount == VotesForChoice(vs, cs[i].id)
    ensures forall i :: 0 <= i < |r| ==> r[i].percentage == Percentage(r[i].voteCount, total)
  {
    if cs == [] then []
    else
      var n := VotesForChoice(vs, cs[0].id);
      [ChoiceResult(cs[0].text, n, Percentage(n, total))] + ChoiceResults(cs[1..], vs, total)
  }

  /** The sum of the per-choice counts. */
  function SumCounts(cs: seq<Choice>, vs: seq<Vote>): nat {
    if cs == [] then 0 else VotesForChoice(vs, cs[0].id) + SumCounts(cs[1..], vs)
  }

  /** The sum of the percentage numerators of a list of entries. */
  function SumPercentNums(rs: seq<ChoiceResult>): nat {
    if rs == [] then 0 else rs[0].percentage.num + SumPercentNums(rs[1..])
  }

  /** How many of the choices carry the key `id`. */
  function Hits(cs: seq<Choice>, id: ChoiceId): nat {
    if cs == [] then 0 else (if cs[0].id == id then 1 else 0) + Hits(cs[1..], id)
  }

  /** With distinct keys a key is carried by one choice or by none. */
  lemma {:induction false} HitsDistinct(cs: seq<Choice>, id: ChoiceId)
    requires Pairwise(cs, ChoiceIdLess)
    ensures Hits(cs, id) == if exists c :: c in cs && c.id == id then 1 else 0
  {
    if cs != [] {
      PairwiseTail(cs, ChoiceIdLess);
      HitsDistinct(cs[1..], id);
      if cs[0].id == id {
        forall c | c in cs[1..] ensures c.id != id {
          var k :| 0 <= k < |cs[1..]| && cs[1..][k] == c;
          assert ChoiceIdLess(cs[0], cs[k + 1]);
        }
      } else {
        assert forall c :: c in cs && c.id == id ==> c in cs[1..];
      }
    }
  }

  lemma {:induction false} SumCountsNoVotes(cs: seq<Choice>)
    ensures SumCounts(cs, []) == 0
  {
    if cs != [] {
      SumCountsNoVotes(cs[1..]);
    }
  }

  /** Peeling the first vote off every per-choice count at once. */
  lemma {:induction false} SumCountsFirstVote(cs: seq<Choice>, vs: seq<Vote>)
    requires vs != []
    ensures SumCounts(cs, vs) == Hits(cs, vs[0].choice) + SumCounts(cs, vs[1..])
  {
    if cs != [] {
      SumCountsFirstVote(cs[1..], vs);
    }
  }

  /** When exactly the votes on poll `poll` point at one of the choices `cs`
      (which have distinct keys), the per-choice counts add up to the poll's
      total: every vote is counted once, under its own choice. */
  lemma {:induction false} SumCountsIsPollTotal(cs: seq<Choice>, vs: seq<Vote>, poll: PollId)
    requires Pairwise(cs, ChoiceIdLess)
    requires forall v :: v in vs ==> (v.poll == poll <==> exists c :: c in cs && c.id == v.choice)
    ensures SumCounts(cs, vs) == VotesForPoll(vs, poll)
  {
    if vs == [] {
      SumCountsNoVotes(cs);
    } else {
      SumCountsIsPollTotal(cs, vs[1..], poll);
      SumCountsFirstVote(cs, vs);
      HitsDistinct(cs, vs[0].choice);
      assert vs[0] in vs;
    }
  }

  /** A single choice's count never exceeds the sum of all counts. */
  lemma {:induction false} CountAtMostSum(cs: seq<Choice>, vs: seq<Vote>, k: nat)
    requires k < |cs|
    ensures VotesForChoice(vs, cs[k].id) <= SumCounts(cs, vs)
  {
    if k > 0 {
      CountAtMostSum(cs[1..], vs, k - 1);
    }
  }

  /** With a positive total, the exact percentages of the entries add up to
      the counts' sum over that total, times 100. */
  lemma {:induction false} PercentNumsAreScaledCounts(cs: seq<Choice>, vs: seq<Vote>, total: nat)
    ensures total > 0 ==> SumPercentNums(ChoiceResults(cs, vs, total)) == 100 * SumCounts(cs, vs)
    ensures total == 0 ==> SumPercentNums(ChoiceResults(cs, vs, total)) == 0
  {
    if cs != [] {
      PercentNumsAreScaledCounts(cs[1..], vs, total);
      var rs := ChoiceResults(cs, vs, total);
      assert rs[1..] == ChoiceResults(cs[1..], vs, total);
    }
  }

  /** The choices of one poll in a consistent store are exactly the targets
      of that poll's votes. */
  lemma ChoicesOfPollAreVoteTargets(ps: seq<Poll>, cs: seq<Choice>, vs: seq<Vote>, np: nat, nc: nat, nv: nat, poll: PollId)
    requires Consistent(ps, cs, vs, np, nc, nv)
    ensures Pairwise(ChoicesOf(cs, poll), ChoiceIdLess)
    ensures forall v :: v in vs ==> (v.poll == poll <==> exists c :: c in ChoicesOf(cs, poll) && c.id == v.choice)
  {
    var mine := ChoicesOf(cs, poll);
    FilterPairwise(cs, (c: Choice) => c.poll == poll, ChoiceIdLess);
    forall v | v in vs ensures v.poll == poll <==> exists c :: c in mine && c.id == v.choice {
      var c :| c in cs && c.id == v.choice && c.poll == v.poll;
      if v.poll == poll {
        assert c in mine;
      }
      if exists c' :: c' in mine && c'.id == v.choice {
        var c' :| c' in mine && c'.id == v.choice;
        var i :| 0 <= i < |cs| && cs[i] == c;
        var j :| 0 <= j < |cs| && cs[j] == c';
        assert i == j;
      }
    }
  }

  /** The results of poll `poll` in a consistent store: the per-choice
      counts add up to the total, every percentage lies between 0 and 100,
      all are 0 when there are no votes, and otherwise they add up to
      exactly 100. */
  lemma ResultsAddUp(ps: seq<Poll>, cs: seq<Choice>, vs: seq<Vote>, np: nat, nc: nat, nv: nat, poll: PollId)
    requires Consistent(ps, cs, vs, np, nc, nv)
    ensures var total := VotesForPoll(vs, poll);
            var mine := ChoicesOf(cs, poll);
            var rs := ChoiceResults(mine, vs, total);
      && SumCounts(mine, vs) == total
      && (forall i :: 0 <= i < |rs| ==> rs[i].voteCount <= total)
      && (forall i :: 0 <= i < |rs| ==> rs[i].percentage.num <= 100 * rs[i].percentage.den)
      && (total == 0 ==> forall i :: 0 <= i < |rs| ==> rs[i].percentage.num == 0)
      && (total > 0 ==> (forall i :: 0 <= i < |rs| ==> rs[i].percentage.den == total)
                        && SumPercentNums(rs) == 100 * total)
  {
    var total := VotesForPoll(vs, poll);
    var mine := ChoicesOf(cs, poll);
    ChoicesOfPollAreVoteTargets(ps, cs, vs, np, nc, nv, poll);
    SumCountsIsPollTotal(mine, vs, poll);
    forall k | 0 <= k < |mine| ensures VotesForChoice(vs, mine[k].id) <= total {
      CountAtMostSum(mine, vs, k);
    }
    PercentNumsAreScaledCounts(mine, vs, total);
  }
}
