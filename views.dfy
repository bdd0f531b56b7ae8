/** polls/views.py: `PollViewSet` and `ChoiceViewSet`. Each action first runs
    the permission classes its `get_permissions` picks (an unauthenticated
    user gets an authentication error, anyone else a permission error),
    then looks the object up (not found), then validates the request, then
    writes. The request's user and the clock are explicit parameters. */
module Views {
  import opened Wrappers
  import opened Seqs
  import opened Models
  import opened Storage
  import opened Permissions
  import opened Serializers
  import opened Tally

  // ---- get_permissions ----

  datatype PollAction = PollCreate | PollList | PollRetrieve | PollUpdate | PollPartialUpdate
                      | PollDestroy | PollResults | PollVote | PollOtherAction

  datatype ChoiceAction = ChoiceCreate | ChoiceList | ChoiceRetrieve | ChoiceUpdate
                        | ChoicePartialUpdate | ChoiceDestroy | ChoiceOtherAction

  /** The permission class `PollViewSet.get_permissions` installs for an
      action. It overrides the `CanVote` of the `vote` action's decorator. */
  function PollPermissionFor(a: PollAction): PermissionClass {
    if a == PollCreate then IsAuthenticatedClass
    else if a in {PollUpdate, PollPartialUpdate, PollDestroy} then IsAdminOnlyClass
    else if a in {PollList, PollRetrieve, PollResults, PollVote} then IsAuthenticatedClass
    else IsAuthenticatedClass
  }

  /** The permission class `ChoiceViewSet.get_permissions` installs. */
  function ChoicePermissionFor(a: ChoiceAction): PermissionClass {
    if a == ChoiceCreate then IsAuthenticatedClass
    else if a in {ChoiceList, ChoiceRetrieve, ChoiceUpdate, ChoicePartialUpdate, ChoiceDestroy} then IsAdminOnlyClass
    else IsAdminOnlyClass
  }

  function PollActionMethod(a: PollAction): HttpMethod {
    match a
    case PollCreate => Post
    case PollUpdate => Put
    case PollPartialUpdate => Patch
    case PollDestroy => Delete
    case PollVote => Post
    case _ => Get
  }

  function ChoiceActionMethod(a: ChoiceAction): HttpMethod {
    match a
    case ChoiceCreate => Post
    case ChoiceUpdate => Put
    case ChoicePartialUpdate => Patch
    case ChoiceDestroy => Delete
    case _ => Get
  }

  /** DRF's `check_permissions` with one class: pass, or the error a denial
      turns into. */
  function CheckPermission(cls: PermissionClass, u: Actor, m: HttpMethod): (r: Option<Error>)
    ensures r.None? <==> HasPermission(cls, u, m)
    ensures r.Some? ==> r.value == (if u.Anonymous? then AuthError else PermissionError(NotPermitted))
  {
    if HasPermission(cls, u, m) then None
    else if u.Anonymous? then Some(AuthError)
    else Some(PermissionError(NotPermitted))
  }

  class PollViewSet {
    var permissionClasses: seq<PermissionClass>

    constructor ()
      ensures permissionClasses == [IsAuthenticatedClass]
    {
      permissionClasses := [IsAuthenticatedClass];
    }

    /** `PollViewSet.get_permissions`: set the field, return its classes. */
    method GetPermissions(a: PollAction) returns (perms: seq<PermissionClass>)
      modifies this
      ensures permissionClasses == [PollPermissionFor(a)] && perms == permissionClasses
    {
      if a == PollCreate {
        permissionClasses := [IsAuthenticatedClass];
      } else if a in {PollUpdate, PollPartialUpdate, PollDestroy} {
        permissionClasses := [IsAdminOnlyClass];
      } else if a in {PollList, PollRetrieve, PollResults, PollVote} {
        permissionClasses := [IsAuthenticatedClass];
      } else {
        permissionClasses := [IsAuthenticatedClass];
      }
      perms := permissionClasses;
    }
  }

  class ChoiceViewSet {
    var permissionClasses: seq<PermissionClass>

    constructor ()
      ensures permissionClasses == [IsAdminOnlyClass]
    {
      permissionClasses := [IsAdminOnlyClass];
    }

    /** `ChoiceViewSet.get_permissions`: set the field, return its classes. */
    method GetPermissions(a: ChoiceAction) returns (perms: seq<PermissionClass>)
      modifies this
      ensures permissionClasses == [ChoicePermissionFor(a)] && perms == permissionClasses
    {
      if a == ChoiceCreate {
        permissionClasses := [IsAuthenticatedClass];
      } else if a in {ChoiceList, ChoiceRetrieve, ChoiceUpdate, ChoicePartialUpdate, ChoiceDestroy} {
        permissionClasses := [IsAdminOnlyClass];
      } else {
        permissionClasses := [IsAdminOnlyClass];
      }
      perms := permissionClasses;
    }
  }

  // ---- the capability matrix the dispatch implements ----

  datatype Role = Unauthenticated | Administrator | Voter

  function RoleOf(u: Actor): Role {
    match u
    case Anonymous => Unauthenticated
    case Member(_, staff) => if staff then Administrator else Voter
  }

  datatype Operation = CreatePollOp | ReadPollOp | UpdatePollOp | DeletePollOp | CastVoteOp | ReadResultsOp
                     | CreateChoiceOp | ReadChoiceOp | UpdateChoiceOp | DeleteChoiceOp

  /** Who may do what, by role; `ownProposal` says the target poll is a
      proposal the user created. Administrators may do everything, the
      unauthenticated nothing; other users may create polls, read polls and
      results, vote, and add choices to their own proposals. */
  predicate Capability(role: Role, op: Operation, ownProposal: bool) {
    match role
    case Unauthenticated => false
    case Administrator => true
    case Voter =>
      op in {CreatePollOp, ReadPollOp, CastVoteOp, ReadResultsOp} || (op == CreateChoiceOp && ownProposal)
  }

  function PollOperation(a: PollAction): Operation
    requires a != PollOtherAction
  {
    match a
    case PollCreate => CreatePollOp
    case PollList => ReadPollOp
    case PollRetrieve => ReadPollOp
    case PollUpdate => UpdatePollOp
    case PollPartialUpdate => UpdatePollOp
    case PollDestroy => DeletePollOp
    case PollResults => ReadResultsOp
    case PollVote => CastVoteOp
  }

  function ChoiceOperation(a: ChoiceAction): Operation
    requires a != ChoiceOtherAction && a != ChoiceCreate
  {
    match a
    case ChoiceList => ReadChoiceOp
    case ChoiceRetrieve => ReadChoiceOp
    case ChoiceUpdate => UpdateChoiceOp
    case ChoicePartialUpdate => UpdateChoiceOp
    case ChoiceDestroy => DeleteChoiceOp
  }

  /** The poll view's permission dispatch grants exactly what the matrix
      grants, and a denial is an authentication error exactly for the
      unauthenticated user. */
  lemma PollDispatchMatchesMatrix(u: Actor, a: PollAction)
    requires a != PollOtherAction
    ensures CheckPermission(PollPermissionFor(a), u, PollActionMethod(a)).None?
            <==> Capability(RoleOf(u), PollOperation(a), false)
    ensures CheckPermission(PollPermissionFor(a), u, PollActionMethod(a)) == Some(AuthError) <==> u.Anonymous?
  {
  }

  /** The same for the choice view's actions other than create (which has
      its own gate below): even a proposal's owner may not list, read,
      change or delete choices. */
  lemma ChoiceDispatchMatchesMatrix(u: Actor, a: ChoiceAction, ownProposal: bool)
    requires a != ChoiceOtherAction && a != ChoiceCreate
    ensures CheckPermission(ChoicePermissionFor(a), u, ChoiceActionMethod(a)).None?
            <==> Capability(RoleOf(u), ChoiceOperation(a), ownProposal)
  {
  }

  // ---- PollViewSet actions ----

  /** `create` + `perform_create`: save the poll with the user as creator,
      a proposal exactly when the user is not staff, then bulk-create the
      three default choices (two writes, not one transaction). */
  method CreatePoll(s: Store, u: Actor, title: string, description: string, deadline: Option<Time>, now: Time)
    returns (r: Outcome<PollId>)
    requires s.Valid()
    modifies s
    ensures s.Valid()
    ensures u.Anonymous? ==> r == Err(AuthError) && s.polls == old(s.polls) && s.choices == old(s.choices)
                             && s.nextPollId == old(s.nextPollId) && s.nextChoiceId == old(s.nextChoiceId)
    ensures u.Member? ==>
      && r == Ok(old(s.nextPollId))
      && s.polls == old(s.polls) + [Poll(r.value, title, description, u.id, now, deadline, true, !u.isStaff)]
      && s.choices == old(s.choices) + NewChoices(r.value, DefaultTexts, old(s.nextChoiceId))
      && s.nextPollId == r.value + 1 && s.nextChoiceId == old(s.nextChoiceId) + 3
    ensures s.votes == old(s.votes) && s.nextVoteId == old(s.nextVoteId)
  {
    var denied := CheckPermission(PollPermissionFor(PollCreate), u, Post);
    if denied.Some? {
      return Err(denied.value);
    }
    var id := s.InsertPoll(title, description, u.id, now, deadline, true, !u.isStaff);
    assert s.polls[|s.polls| - 1].id == id;
    assert PollTexts(s.choices, id) == {} by {
      forall c | c in s.choices ensures c.poll != id {
        assert PollExists(old(s.polls), c.poll);
      }
    }
    var created := s.BulkCreateChoices(id, DefaultTexts);
    r := Ok(id);
  }

  /** A poll created through the view has one choice per default text and
      no other choice: the backfill command has nothing to add to it. */
  lemma CreatedPollHasExactlyDefaults(cs: seq<Choice>, poll: PollId, firstId: nat)
    requires forall c :: c in cs ==> c.poll != poll
    ensures PollTexts(cs + NewChoices(poll, DefaultTexts, firstId), poll) == set t | t in DefaultTexts
    ensures |ChoicesOf(cs + NewChoices(poll, DefaultTexts, firstId), poll)| == 3
  {
    var added := NewChoices(poll, DefaultTexts, firstId);
    PollTextsConcat(cs, added, poll);
    PollTextsOfNew(poll, DefaultTexts, firstId, poll);
    assert PollTexts(cs, poll) == {};
    var mine := (c: Choice) => c.poll == poll;
    FilterConcat(cs, added, mine);
    FilterAll(added, mine);
    FilterEmpty(cs, mine);
  }

  /** The fields a poll update may carry: `PollSerializer` makes `is_active`,
      `is_proposal`, `created_by` and `created_at` read-only. */
  datatype PollPatch = PollPatch(title: Option<string>, description: Option<string>, deadline: Option<Option<Time>>)

  /** `serializer.save()` of an update: the given fields change, nothing else. */
  function ApplyPatch(p: Poll, patch: PollPatch): (q: Poll)
    ensures q.id == p.id && q.createdBy == p.createdBy && q.createdAt == p.createdAt
    ensures q.isActive == p.isActive && q.isProposal == p.isProposal
    ensures q.title == (if patch.title.Some? then patch.title.value else p.title)
    ensures q.description == (if patch.description.Some? then patch.description.value else p.description)
    ensures q.deadline == (if patch.deadline.Some? then patch.deadline.value else p.deadline)
  {
    p.(title := if patch.title.Some? then patch.title.value else p.title,
       description := if patch.description.Some? then patch.description.value else p.description,
       deadline := if patch.deadline.Some? then patch.deadline.value else p.deadline)
  }

  /** Position of poll `id` in the table. */
  function PollIndex(ps: seq<Poll>, id: PollId): (k: nat)
    requires PollExists(ps, id)
    ensures k < |ps| && ps[k].id == id
  {
    if ps[0].id == id then 0
    else
      assert PollExists(ps[1..], id) by {
        var p :| p in ps && p.id == id;
        assert p in ps[1..];
      }
      1 + PollIndex(ps[1..], id)
  }

  /** Permission check and lookup shared by update, partial update and
      destroy: admins only, then the poll must exist. */
  function AdminPollGate(ps: seq<Poll>, u: Actor, m: HttpMethod, id: PollId): (r: Option<Error>)
    ensures r.None? <==> u.Member? && u.isStaff && PollExists(ps, id)
    ensures !(u.Member? && u.isStaff) ==> r == Some(if u.Anonymous? then AuthError else PermissionError(NotPermitted))
    ensures u.Member? && u.isStaff && !PollExists(ps, id) ==> r == Some(NotFound)
  {
    var denied := CheckPermission(IsAdminOnlyClass, u, m);
    if denied.Some? then denied
    else if !PollExists(ps, id) then Some(NotFound)
    else None
  }

  /** `update` / `partial_update` + `perform_update`. */
  method UpdatePoll(s: Store, u: Actor, partial: bool, id: PollId, patch: PollPatch) returns (r: Outcome<PollId>)
    requires s.Valid()
    modifies s
    ensures s.Valid()
    ensures var gate := AdminPollGate(old(s.polls), u, if partial then Patch else Put, id);
      && (gate.Some? ==> r == Err(gate.value) && s.polls == old(s.polls))
      && (gate.None? ==>
            r == Ok(id)
            && var k := PollIndex(old(s.polls), id);
               s.polls == old(s.polls)[k := ApplyPatch(old(s.polls)[k], patch)])
    ensures s.choices == old(s.choices) && s.votes == old(s.votes)
    ensures s.nextPollId == old(s.nextPollId) && s.nextChoiceId == old(s.nextChoiceId) && s.nextVoteId == old(s.nextVoteId)
  {
    var gate := AdminPollGate(s.polls, u, if partial then Patch else Put, id);
    if gate.Some? {
      return Err(gate.value);
    }
    var k := PollIndex(s.polls, id);
    s.ReplacePoll(k, ApplyPatch(s.polls[k], patch));
    r := Ok(id);
  }

  /** `destroy` + `perform_destroy`: delete the poll with its cascade. */
  method DestroyPoll(s: Store, u: Actor, id: PollId) returns (r: Outcome<PollId>)
    requires s.Valid()
    modifies s
    ensures s.Valid()
    ensures var gate := AdminPollGate(old(s.polls), u, Delete, id);
      && (gate.Some? ==> r == Err(gate.value) && s.polls == old(s.polls)
                         && s.choices == old(s.choices) && s.votes == old(s.votes))
      && (gate.None? ==>
            r == Ok(id)
            && s.polls == PollsAfterPollDelete(old(s.polls), id)
            && s.choices == ChoicesAfterPollDelete(old(s.choices), id)
            && s.votes == VotesAfterPollDelete(old(s.votes), id, ChoiceIdsOf(old(s.choices), id))
            && !PollExists(s.polls, id)
            && (forall c :: c in s.choices ==> c.poll != id) && (forall v :: v in s.votes ==> v.poll != id))
    ensures s.nextPollId == old(s.nextPollId) && s.nextChoiceId == old(s.nextChoiceId) && s.nextVoteId == old(s.nextVoteId)
  {
    var gate := AdminPollGate(s.polls, u, Delete, id);
    if gate.Some? {
      return Err(gate.value);
    }
    s.DeletePoll(id);
    r := Ok(id);
  }

  /** The `vote` action: authenticated users only, the poll must exist, the
      submitted choice key must name a choice, then `VoteSerializer.create`
      with the poll in its context. */
  method VoteOnPoll(s: Store, u: Actor, pollId: PollId, choiceId: ChoiceId, now: Time, raced: bool)
    returns (r: Outcome<VoteId>)
    requires s.Valid()
    modifies s
    ensures s.Valid()
    ensures u.Anonymous? ==> r == Err(AuthError)
    ensures u.Member? && !PollExists(old(s.polls), pollId) ==> r == Err(NotFound)
    ensures (u.Member? && PollExists(old(s.polls), pollId) && !ChoiceExists(old(s.choices), choiceId))
              ==> r == Err(ValidationError(ChoiceField, InvalidPk))
    ensures r.Ok? ==>
      && u.Member?
      && VoteGuards(old(s.GetPoll(pollId)), old(s.GetChoice(choiceId)).value, old(s.votes), u.id, now).None?
      && s.votes == old(s.votes) + [Vote(r.value, u.id, pollId, choiceId, now)]
    ensures u.Member? && PollExists(old(s.polls), pollId) && ChoiceExists(old(s.choices), choiceId) ==>
      var guards := VoteGuards(old(s.GetPoll(pollId)), old(s.GetChoice(choiceId)).value, old(s.votes), u.id, now);
      && (guards.Some? ==> r == Err(guards.value))
      && (guards.None? ==> r == if raced then Err(ValidationError(NonFieldErrors, PossibleDuplicity)) else Ok(old(s.nextVoteId)))
    ensures r.Err? ==> s.votes == old(s.votes) && s.nextVoteId == old(s.nextVoteId)
    ensures r.Ok? ==> s.nextVoteId == old(s.nextVoteId) + 1
    ensures s.polls == old(s.polls) && s.choices == old(s.choices)
    ensures s.nextPollId == old(s.nextPollId) && s.nextChoiceId == old(s.nextChoiceId)
  {
    var denied := CheckPermission(PollPermissionFor(PollVote), u, Post);
    if denied.Some? {
      return Err(denied.value);
    }
    if s.GetPoll(pollId).None? {
      return Err(NotFound);
    }
    if s.GetChoice(choiceId).None? {
      return Err(ValidationError(ChoiceField, InvalidPk));
    }
    r := CreateVote(s, u.id, Some(pollId), choiceId, now, raced);
  }

  datatype PollResultsData = PollResultsData(
    pollId: PollId,
    pollTitle: string,
    totalVotes: nat,
    choicesResults: seq<ChoiceResult>,
    isActive: bool,
    deadline: Option<Time>)

  /** The `results` action: authenticated users only, the poll must exist;
      it reads the store and writes nothing. */
  function Results(s: Store, u: Actor, pollId: PollId): (r: Outcome<PollResultsData>)
    reads s
    ensures u.Anonymous? ==> r == Err(AuthError)
    ensures u.Member? && !PollExists(s.polls, pollId) ==> r == Err(NotFound)
    ensures u.Member? && PollExists(s.polls, pollId) ==> r.Ok?
    ensures r.Ok? ==>
      var p := s.GetPoll(pollId).value;
      var mine := ChoicesOf(s.choices, pollId);
      && r.value.pollId == pollId && r.value.pollTitle == p.title
      && r.value.isActive == p.isActive && r.value.deadline == p.deadline
      && r.value.totalVotes == VotesForPoll(s.votes, pollId)
      && |r.value.choicesResults| == |mine|
      && forall i :: 0 <= i < |mine| ==>
           r.value.choicesResults[i].choiceText == mine[i].text
           && r.value.choicesResults[i].voteCount == VotesForChoice(s.votes, mine[i].id)
  {
    var denied := CheckPermission(PollPermissionFor(PollResults), u, Get);
    if denied.Some? then Err(denied.value)
    else match s.GetPoll(pollId)
      case None => Err(NotFound)
      case Some(p) =>
        var total := VotesForPoll(s.votes, pollId);
        Ok(PollResultsData(p.id, p.title, total, ChoiceResults(ChoicesOf(s.choices, pollId), s.votes, total),
                           p.isActive, p.deadline))
  }

  // ---- ChoiceViewSet actions ----

  /** `create` on choices: authenticated users only; the serializer then
      checks that the poll key names a poll and that the poll has no choice
      with this text; `perform_create` then lets through staff, and other
      users only on a proposal they created. */
  function ChoiceCreateGate(ps: seq<Poll>, cs: seq<Choice>, u: Actor, pollId: PollId, text: string): (r: Option<Error>)
    ensures r.None? <==>
      && u.Member? && PollExists(ps, pollId) && text !in PollTexts(cs, pollId)
      && var p := Find(ps, (p: Poll) => p.id == pollId).value;
         (u.isStaff || (p.isProposal && p.createdBy == u.id))
    ensures u.Anonymous? ==> r == Some(AuthError)
    ensures u.Member? && !PollExists(ps, pollId) ==> r == Some(ValidationError(PollField, InvalidPk))
    ensures (u.Member? && PollExists(ps, pollId) && text in PollTexts(cs, pollId))
              ==> r == Some(ValidationError(NonFieldErrors, NotUniqueTogether))
    ensures (u.Member? && PollExists(ps, pollId) && text !in PollTexts(cs, pollId) && r.Some?)
              ==> r == Some(PermissionError(OnlyOwnProposals))
  {
    var denied := CheckPermission(ChoicePermissionFor(ChoiceCreate), u, Post);
    if denied.Some? then denied
    else match Find(ps, (p: Poll) => p.id == pollId)
      case None => Some(ValidationError(PollField, InvalidPk))
      case Some(p) =>
        if text in PollTexts(cs, pollId) then Some(ValidationError(NonFieldErrors, NotUniqueTogether))
        else if !u.isStaff && !(p.isProposal && p.createdBy == u.id) then Some(PermissionError(OnlyOwnProposals))
        else None
  }

  /** Choice creation for a valid request (an existing poll, a text new to
      it): staff may add a choice to any poll; any other user exactly to a
      proposal of their own, and is otherwise refused with a permission
      error. This is the matrix's "create choice" column. */
  lemma ChoiceCreationMatchesMatrix(ps: seq<Poll>, cs: seq<Choice>, u: Actor, p: Poll, text: string)
    requires Pairwise(ps, PollIdLess)
    requires p in ps && text !in PollTexts(cs, p.id)
    ensures var r := ChoiceCreateGate(ps, cs, u, p.id, text);
      && (r.None? <==> Capability(RoleOf(u), CreateChoiceOp, p.isProposal && u.Is(p.createdBy)))
      && (u.Member? && r.Some? ==> r == Some(PermissionError(OnlyOwnProposals)))
  {
    var q := Find(ps, (x: Poll) => x.id == p.id).value;
    var i :| 0 <= i < |ps| && ps[i] == p;
    var j :| 0 <= j < |ps| && ps[j] == q;
    assert i == j;
  }

  /** The choice view's `create`: the gate, then `serializer.save()`. */
  method CreateChoice(s: Store, u: Actor, pollId: PollId, text: string) returns (r: Outcome<ChoiceId>)
    requires s.Valid()
    modifies s
    ensures s.Valid()
    ensures var gate := ChoiceCreateGate(old(s.polls), old(s.choices), u, pollId, text);
      && (gate.Some? ==> r == Err(gate.value) && s.choices == old(s.choices))
      && (gate.None? ==> r == Ok(old(s.nextChoiceId)) && s.choices == old(s.choices) + [Choice(r.value, pollId, text)])
    ensures s.nextChoiceId == old(s.nextChoiceId) + (if r.Ok? then 1 else 0)
    ensures s.polls == old(s.polls) && s.votes == old(s.votes)
    ensures s.nextPollId == old(s.nextPollId) && s.nextVoteId == old(s.nextVoteId)
  {
    var gate := ChoiceCreateGate(s.polls, s.choices, u, pollId, text);
    if gate.Some? {
      return Err(gate.value);
    }
    var created := s.BulkCreateChoices(pollId, [text]);
    r := Ok(created[0].id);
  }

  /** Position of choice `id` in the table. */
  function ChoiceIndex(cs: seq<Choice>, id: ChoiceId): (k: nat)
    requires ChoiceExists(cs, id)
    ensures k < |cs| && cs[k].id == id
  {
    if cs[0].id == id then 0
    else
      assert ChoiceExists(cs[1..], id) by {
        var c :| c in cs && c.id == id;
        assert c in cs[1..];
      }
      1 + ChoiceIndex(cs[1..], id)
  }

  /** Admins only, then the choice must exist. */
  function AdminChoiceGate(cs: seq<Choice>, u: Actor, m: HttpMethod, id: ChoiceId): (r: Option<Error>)
    ensures r.None? <==> u.Member? && u.isStaff && ChoiceExists(cs, id)
    ensures !(u.Member? && u.isStaff) ==> r == Some(if u.Anonymous? then AuthError else PermissionError(NotPermitted))
    ensures u.Member? && u.isStaff && !ChoiceExists(cs, id) ==> r == Some(NotFound)
  {
    var denied := CheckPermission(IsAdminOnlyClass, u, m);
    if denied.Some? then denied
    else if !ChoiceExists(cs, id) then Some(NotFound)
    else None
  }

  /** `update` / `partial_update` of a choice's text: admins only; the
      unique-together validator (which ignores the choice itself) rejects a
      text another choice of the same poll has. */
  method UpdateChoice(s: Store, u: Actor, partial: bool, id: ChoiceId, text: string) returns (r: Outcome<ChoiceId>)
    requires s.Valid()
    modifies s
    ensures s.Valid()
    ensures var gate := AdminChoiceGate(old(s.choices), u, if partial then Patch else Put, id);
      && (gate.Some? ==> r == Err(gate.value) && s.choices == old(s.choices))
      && (gate.None? ==>
            var k := ChoiceIndex(old(s.choices), id);
            var clash := exists i | 0 <= i < |old(s.choices)| :: i != k && old(s.choices)[i].poll == old(s.choices)[k].poll
                                                                 && old(s.choices)[i].text == text;
            && (clash ==> r == Err(ValidationError(NonFieldErrors, NotUniqueTogether)) && s.choices == old(s.choices))
            && (!clash ==> r == Ok(id) && s.choices == old(s.choices)[k := old(s.choices)[k].(text := text)]))
    ensures s.polls == old(s.polls) && s.votes == old(s.votes)
    ensures s.nextPollId == old(s.nextPollId) && s.nextChoiceId == old(s.nextChoiceId) && s.nextVoteId == old(s.nextVoteId)
  {
    var gate := AdminChoiceGate(s.choices, u, if partial then Patch else Put, id);
    if gate.Some? {
      return Err(gate.value);
    }
    var k := ChoiceIndex(s.choices, id);
    var clash := exists i | 0 <= i < |s.choices| :: i != k && s.choices[i].poll == s.choices[k].poll && s.choices[i].text == text;
    if clash {
      return Err(ValidationError(NonFieldErrors, NotUniqueTogether));
    }
    s.RenameChoice(k, text);
    r := Ok(id);
  }

  /** `update` of a choice as the code is written: `ChoiceSerializer` also
      accepts a new `poll`, which must name a poll, and the unique-together
      validator then checks the text against the other choices of that
      poll. The choice's votes keep their old poll. */
  method MoveChoice(s: Store, u: Actor, id: ChoiceId, poll: PollId, text: string) returns (r: Outcome<ChoiceId>)
    requires s.Valid()
    modifies s
    ensures var gate := AdminChoiceGate(old(s.choices), u, Put, id);
      && (gate.Some? ==> r == Err(gate.value) && s.choices == old(s.choices))
      && (gate.None? && !PollExists(old(s.polls), poll) ==>
            r == Err(ValidationError(PollField, InvalidPk)) && s.choices == old(s.choices))
      && (gate.None? && PollExists(old(s.polls), poll) ==>
            var k := ChoiceIndex(old(s.choices), id);
            var clash := exists i | 0 <= i < |old(s.choices)| :: i != k && old(s.choices)[i].poll == poll
                                                                 && old(s.choices)[i].text == text;
            && (clash ==> r == Err(ValidationError(NonFieldErrors, NotUniqueTogether)) && s.choices == old(s.choices))
            && (!clash ==> r == Ok(id) && s.choices == old(s.choices)[k := Choice(id, poll, text)]))
    ensures s.polls == old(s.polls) && s.votes == old(s.votes)
    ensures s.nextPollId == old(s.nextPollId) && s.nextChoiceId == old(s.nextChoiceId) && s.nextVoteId == old(s.nextVoteId)
  {
    var gate := AdminChoiceGate(s.choices, u, Put, id);
    if gate.Some? {
      return Err(gate.value);
    }
    if s.GetPoll(poll).None? {
      return Err(ValidationError(PollField, InvalidPk));
    }
    var k := ChoiceIndex(s.choices, id);
    var clash := exists i | 0 <= i < |s.choices| :: i != k && s.choices[i].poll == poll && s.choices[i].text == text;
    if clash {
      return Err(ValidationError(NonFieldErrors, NotUniqueTogether));
    }
    s.ReplaceChoice(k, Choice(id, poll, text));
    r := Ok(id);
  }

  // A consistent store on which `MoveChoice` goes wrong: poll 1 has a
  // choice with three votes, poll 2 a choice with one vote.
  const ExamplePolls: seq<Poll> := [Poll(1, "a", "", 1, 0, None, true, false), Poll(2, "b", "", 1, 0, None, true, false)]
  const ExampleChoices: seq<Choice> := [Choice(1, 1, "x"), Choice(2, 2, "y")]
  const ExampleVotes: seq<Vote> := [Vote(1, 1, 1, 1, 0), Vote(2, 2, 1, 1, 0), Vote(3, 3, 1, 1, 0), Vote(4, 4, 2, 2, 0)]
  /** The choice table after `MoveChoice` moves choice 1 to poll 2. */
  const ExampleMoved: seq<Choice> := ExampleChoices[0 := Choice(1, 2, "x")]

  lemma ExampleVotesAreDistinct()
    ensures Pairwise(ExampleVotes, VoteIdLess) && Pairwise(ExampleVotes, DistinctVoter)
    ensures forall v :: v in ExampleVotes ==> v.id < 5
  {
    var vs := ExampleVotes;
    forall i, j | 0 <= i < j < |vs| ensures VoteIdLess(vs[i], vs[j]) && DistinctVoter(vs[i], vs[j]) {
      assert vs[i].id == i + 1 && vs[i].user == i + 1;
      assert vs[j].id == j + 1 && vs[j].user == j + 1;
    }
  }

  lemma ExampleKeysExist()
    ensures forall c :: c in ExampleChoices ==> PollExists(ExamplePolls, c.poll)
    ensures forall v :: v in ExampleVotes ==> VoteMatchesChoice(ExampleChoices, v)
  {
    assert ExamplePolls[0] in ExamplePolls && ExamplePolls[1] in ExamplePolls;
    assert ExampleChoices[0] in ExampleChoices && ExampleChoices[1] in ExampleChoices;
  }

  lemma ExampleIsConsistent()
    ensures Consistent(ExamplePolls, ExampleChoices, ExampleVotes, 3, 3, 5)
  {
    ExampleVotesAreDistinct();
    ExampleKeysExist();
  }

  /** After the move, the votes of choice 1 still name poll 1 while their
      choice belongs to poll 2: the `Vote.clean` rule no longer holds. */
  lemma ExampleMoveBreaksConsistency()
    ensures !Consistent(ExamplePolls, ExampleMoved, ExampleVotes, 3, 3, 5)
    ensures !VoteMatchesChoice(ExampleMoved, ExampleVotes[0])
  {
    assert ExampleVotes[0] in ExampleVotes;
  }

  /** `ExampleMoved` is the choice table `MoveChoice` leaves when an admin
      moves choice 1 to poll 2 under its own text: the gate passes, poll 2
      exists, no other choice of poll 2 has the text, and so its contract
      gives back the row at position 0 with the new poll. */
  lemma ExampleMoveIsMoveChoice(admin: UserId)
    ensures AdminChoiceGate(ExampleChoices, Member(admin, true), Put, 1).None?
    ensures PollExists(ExamplePolls, 2)
    ensures ChoiceIndex(ExampleChoices, 1) == 0
    ensures !exists i | 0 <= i < |ExampleChoices| :: i != 0 && ExampleChoices[i].poll == 2 && ExampleChoices[i].text == "x"
    ensures ExampleChoices[0 := Choice(1, 2, "x")] == ExampleMoved
  {
    assert ExampleChoices[0] in ExampleChoices;
    assert ExamplePolls[1] in ExamplePolls;
  }

  /** After the move, `results` for poll 2 reports a total of 1 vote and,
      for the moved choice, 3 votes: 300 percent. */
  lemma MoveChoiceBreaksResults()
    ensures var total := VotesForPoll(ExampleVotes, 2);
            var rs := ChoiceResults(ChoicesOf(ExampleMoved, 2), ExampleVotes, total);
      && Consistent(ExamplePolls, ExampleChoices, ExampleVotes, 3, 3, 5)
      && !Consistent(ExamplePolls, ExampleMoved, ExampleVotes, 3, 3, 5)
      && total == 1 && |rs| == 2
      && rs[0].voteCount == 3 && rs[0].percentage == Percent(300, 1)
      && rs[0].percentage.num > 100 * rs[0].percentage.den
  {
    ExampleIsConsistent();
    ExampleMoveBreaksConsistency();
    FilterAll(ExampleMoved, (c: Choice) => c.poll == 2);
    assert ChoicesOf(ExampleMoved, 2) == ExampleMoved;
    assert VotesForPoll(ExampleVotes, 2) == 1;
    assert VotesForChoice(ExampleVotes, 1) == 3;
  }

  /** `destroy` of a choice: admins only; its votes go with it. */
  method DestroyChoice(s: Store, u: Actor, id: ChoiceId) returns (r: Outcome<ChoiceId>)
    requires s.Valid()
    modifies s
    ensures s.Valid()
    ensures var gate := AdminChoiceGate(old(s.choices), u, Delete, id);
      && (gate.Some? ==> r == Err(gate.value) && s.choices == old(s.choices) && s.votes == old(s.votes))
      && (gate.None? ==>
            r == Ok(id)
            && s.choices == ChoicesAfterChoiceDelete(old(s.choices), id)
            && s.votes == VotesAfterChoiceDelete(old(s.votes), id)
            && !ChoiceExists(s.choices, id))
    ensures s.polls == old(s.polls)
    ensures s.nextPollId == old(s.nextPollId) && s.nextChoiceId == old(s.nextChoiceId) && s.nextVoteId == old(s.nextVoteId)
  {
    var gate := AdminChoiceGate(s.choices, u, Delete, id);
    if gate.Some? {
      return Err(gate.value);
    }
    s.DeleteChoice(id);
    r := Ok(id);
  }
}
