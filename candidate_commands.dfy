/**
 * The commands that act on candidates: rate, move, delete and clear. Each
 * resolves its target in a displayed list, makes its checks in the order
 * the command makes them, and then changes the registry through the
 * registry's own operations. Each command's effect is first stated as a
 * function of the candidate list and the display filter; `Execute` is
 * proved to have exactly that effect on the model.
 */
module CandidateCommands {
  import opened Text
  import Stages
  import Ratings
  import opened Names
  import opened Tags
  import opened Persons
  import opened UniqueLists
  import opened Registry
  import opened Sequences
  import opened Catalogues
  import opened Models

  /** Where a candidate of a displayed list sits in the registry's list. */
  function PositionOf(ps: seq<Person>, p: Person): (k: nat)
    requires p in ps
    ensures k < |ps| && PersonKey(ps[k]) == PersonKey(p)
  {
    var j :| 0 <= j < |ps| && ps[j] == p;
    Find(ps, PersonKey, p)
  }

  /** In a list unique by identity, a candidate sits at its own position. */
  lemma PositionOfEntry(ps: seq<Person>, p: Person)
    requires Unique(ps, PersonKey) && p in ps
    ensures ps[PositionOf(ps, p)] == p
  {
    var j :| 0 <= j < |ps| && ps[j] == p;
    FindOfEntry(ps, PersonKey, j);
  }

  // ---------------------------------------------------------------------------
  // rate

  function RateSuccess(name: Name, r: Ratings.Rating): string
  {
    "Rating for " + name.fullName + ": " + Ratings.DisplayName(r)
  }

  function InvalidIndexForStage(st: Stages.Stage): string
  {
    "Invalid index for stage " + Stages.DisplayName(st)
  }

  /** The candidate at position `k` with a new rating; everything else stays. */
  function Rerated(ps: seq<Person>, k: nat, r: Ratings.Rating): (qs: seq<Person>)
    requires k < |ps|
  {
    ps[k := ps[k].(rating := r)]
  }

  /** A rating changes nothing `equals` or the identity looks at, and keeps the list unique. */
  lemma RerateKeepsCandidate(ps: seq<Person>, k: nat, r: Ratings.Rating)
    requires k < |ps|
    ensures PersonEquals(ps[k], Rerated(ps, k, r)[k]) && IsSamePerson(ps[k], Rerated(ps, k, r)[k])
    ensures Rerated(ps, k, r)[k].rating == r && Rerated(ps, k, r)[k].date == ps[k].date
    ensures forall j :: 0 <= j < |ps| && j != k ==> Rerated(ps, k, r)[j] == ps[j]
    ensures Unique(ps, PersonKey) ==> Unique(Rerated(ps, k, r), PersonKey)
  {
    EqualityIgnoresRatingAndDate(ps[k], r, ps[k].date);
    assert ps[k].(rating := r, date := ps[k].date) == Rerated(ps, k, r)[k];
  }

  /** A later rating overwrites an earlier one; rating twice with the same value is rating once. */
  lemma RerateOverwrites(ps: seq<Person>, k: nat, r1: Ratings.Rating, r2: Ratings.Rating)
    requires k < |ps|
    ensures Rerated(Rerated(ps, k, r1), k, r2) == Rerated(ps, k, r2)
    ensures Rerated(Rerated(ps, k, r1), k, r1) == Rerated(ps, k, r1)
  {
  }

  /** With every candidate shown and no stage, the index is a position in the registry's list. */
  lemma RateAllShown(ps: seq<Person>, i: nat, r: Ratings.Rating)
    requires Unique(ps, PersonKey) && i < |ps|
    ensures RateCommand(Index(i), r, None).Outcome(ps, ShowAll) == Ok((Rerated(ps, i, r), Says(RateSuccess(ps[i].name, r))))
  {
    FilterAll(ps, ShowAll);
    assert ps[i] in ps;
    PositionOfEntry(ps, ps[i]);
    FindOfEntry(ps, PersonKey, i);
  }

  datatype RateCommand = RateCommand(index: Index, rating: Ratings.Rating, fromStage: Option<Stages.Stage>)
  {
    /**
     * What `execute` does, given the candidate list and the display filter:
     * the error, or the new candidate list and the feedback.
     */
    function Outcome(ps: seq<Person>, shown: Person -> bool): Result<(seq<Person>, Feedback), CommandError>
    {
      var list := Scope(Filter(ps, shown), fromStage);
      if index.zeroBased >= |list| then
        Err(if fromStage.Some? then Refused(InvalidIndexForStage(fromStage.value)) else InvalidCandidateIndex)
      else
        var target := list[index.zeroBased];
        ScopeMembers(ps, shown, fromStage, target);
        Ok((Rerated(ps, PositionOf(ps, target), rating), Says(RateSuccess(target.name, rating))))
    }

    /** `equals`: index, rating and the optional stage all equal. */
    predicate Equals(other: RateCommand)
    {
      index == other.index && rating == other.rating && fromStage == other.fromStage
    }

    /**
     * The index counts the scoped list; a success re-rates exactly the
     * candidate found there and keeps it the same candidate.
     */
    lemma OutcomeMeaning(ps: seq<Person>, shown: Person -> bool)
      requires Unique(ps, PersonKey)
      ensures Outcome(ps, shown).Err? <==> index.zeroBased >= |Scope(Filter(ps, shown), fromStage)|
      ensures Outcome(ps, shown).Err? && fromStage.None? ==> Outcome(ps, shown).error == InvalidCandidateIndex
      ensures Outcome(ps, shown).Ok? ==>
        var target := Scope(Filter(ps, shown), fromStage)[index.zeroBased];
        var qs := Outcome(ps, shown).value.0;
        target in ps && shown(target) && (fromStage.Some? ==> target.stage == fromStage.value) &&
        |qs| == |ps| && qs[PositionOf(ps, target)] == target.(rating := rating) &&
        forall j :: 0 <= j < |ps| && j != PositionOf(ps, target) ==> qs[j] == ps[j]
      ensures Outcome(ps, shown).Ok? ==> Unique(Outcome(ps, shown).value.0, PersonKey)
    {
      var list := Scope(Filter(ps, shown), fromStage);
      if index.zeroBased < |list| {
        var target := list[index.zeroBased];
        ScopeMembers(ps, shown, fromStage, target);
        PositionOfEntry(ps, target);
        RerateKeepsCandidate(ps, PositionOf(ps, target), rating);
      }
    }

    /**
     * On the whole list, shown in full, a second rating of the same index
     * overwrites the first: the state is as if only the second was given.
     */
    lemma RateTwice(ps: seq<Person>, second: Ratings.Rating)
      requires Unique(ps, PersonKey) && fromStage.None?
      requires Outcome(ps, ShowAll).Ok?
      ensures var again := RateCommand(index, second, None);
        again.Outcome(Outcome(ps, ShowAll).value.0, ShowAll).Ok? &&
        again.Outcome(Outcome(ps, ShowAll).value.0, ShowAll).value.0 == again.Outcome(ps, ShowAll).value.0
    {
      var i := index.zeroBased;
      FilterAll(ps, ShowAll);
      RateAllShown(ps, i, rating);
      RateAllShown(ps, i, second);
      RerateKeepsCandidate(ps, i, rating);
      RateAllShown(Rerated(ps, i, rating), i, second);
      RerateOverwrites(ps, i, rating, second);
    }

    /**
     * `execute`: the scoped list is resolved against the displayed list;
     * an index beyond it fails and changes nothing; otherwise the candidate
     * is replaced by its re-rated copy and every candidate is shown again.
     */
    method Execute(m: Model) returns (r: Result<Feedback, CommandError>)
      requires m.Valid()
      modifies m, m.registry
      ensures m.Valid() && m.registry.tags == old(m.registry.tags)
      ensures r == (match Outcome(old(m.registry.persons), old(m.shown))
                    case Ok(v) => Ok(v.1)
                    case Err(e) => Err(e))
      ensures r.Ok? ==> m.registry.persons == Outcome(old(m.registry.persons), old(m.shown)).value.0 && m.shown == ShowAll
      ensures r.Err? ==> m.registry.persons == old(m.registry.persons) && m.shown == old(m.shown)
    {
      var list := Scope(m.Displayed(), fromStage);
      if index.zeroBased >= |list| {
        if fromStage.Some? {
          return Err(Refused(InvalidIndexForStage(fromStage.value)));
        }
        return Err(InvalidCandidateIndex);
      }
      var target := list[index.zeroBased];
      ScopeMembers(m.registry.persons, m.shown, fromStage, target);
      var edited := target.(rating := rating);
      var o := m.registry.SetPerson(target, edited);
      m.UpdateFilter(ShowAll);
      r := Ok(Says(RateSuccess(target.name, rating)));
    }
  }

  // ---------------------------------------------------------------------------
  // move

  const SameStageMessage := "The candidate is already in this list"

  function WrongCurrentStage(actual: Stages.Stage): string
  {
    "The candidate is not in the specified current stage. Current stage: " + Stages.DisplayName(actual)
  }

  function MoveLead(from: Stages.Stage, to: Stages.Stage): string
  {
    "Moved candidate from " + Stages.DisplayName(from) + " to " + Stages.DisplayName(to) + ": "
  }

  /**
   * The moved candidate: rebuilt from its contact details and tags with the
   * new stage, added `now` and unrated.
   */
  function Moved(p: Person, to: Stages.Stage, now: DateAdded): (q: Person)
    ensures IsSamePerson(q, p) && q.tags == p.tags && q.stage == to
    ensures q.phone == p.phone && q.email == p.email && q.address == p.address
    ensures q.stage != p.stage ==> !PersonEquals(q, p)
  {
    NewPerson(p.name, p.phone, p.email, p.address, p.tags, now).(stage := to)
  }

  datatype MoveCommand = MoveCommand(index: Index, fromStage: Stages.Stage, toStage: Stages.Stage)
  {
    /** What `execute` does, given the candidate list, the display filter and the clock. */
    function Outcome(ps: seq<Person>, shown: Person -> bool, now: DateAdded): Result<(seq<Person>, Feedback), CommandError>
    {
      var list := Filter(ps, shown);
      if index.zeroBased >= |list| then Err(InvalidCandidateIndex)
      else
        var p := list[index.zeroBased];
        if p.stage != fromStage then Err(Refused(WrongCurrentStage(p.stage)))
        else if fromStage == toStage then Err(Refused(SameStageMessage))
        else
          ScopeMembers(ps, shown, None, p);
          var moved := Moved(p, toStage, now);
          Ok((ps[PositionOf(ps, p) := moved], SaysAbout(MoveLead(fromStage, toStage), moved)))
    }

    predicate Equals(other: MoveCommand)
    {
      index == other.index && fromStage == other.fromStage && toStage == other.toStage
    }

    /**
     * The checks come in order: the index, then the candidate's actual
     * stage, then a move onto the same stage. A success moves exactly the
     * candidate at the index to the target stage and touches no other.
     */
    lemma OutcomeMeaning(ps: seq<Person>, shown: Person -> bool, now: DateAdded)
      requires Unique(ps, PersonKey)
      ensures index.zeroBased >= |Filter(ps, shown)| ==> Outcome(ps, shown, now) == Err(InvalidCandidateIndex)
      ensures index.zeroBased < |Filter(ps, shown)| && Filter(ps, shown)[index.zeroBased].stage != fromStage ==>
        Outcome(ps, shown, now) == Err(Refused(WrongCurrentStage(Filter(ps, shown)[index.zeroBased].stage)))
      ensures fromStage == toStage ==> Outcome(ps, shown, now).Err?
      ensures Outcome(ps, shown, now).Ok? ==>
        var p := Filter(ps, shown)[index.zeroBased];
        var qs := Outcome(ps, shown, now).value.0;
        p in ps && p.stage == fromStage && |qs| == |ps| &&
        qs[PositionOf(ps, p)].stage == toStage && qs[PositionOf(ps, p)].tags == p.tags &&
        IsSamePerson(qs[PositionOf(ps, p)], p) &&
        (forall j :: 0 <= j < |ps| && j != PositionOf(ps, p) ==> qs[j] == ps[j]) &&
        Unique(qs, PersonKey)
    {
      var list := Filter(ps, shown);
      if index.zeroBased < |list| {
        var p := list[index.zeroBased];
        ScopeMembers(ps, shown, None, p);
        if p.stage == fromStage && fromStage != toStage {
          var k := PositionOf(ps, p);
          var qs := ps[k := Moved(p, toStage, now)];
          assert forall j :: 0 <= j < |qs| ==> PersonKey(qs[j]) == PersonKey(ps[j]);
        }
      }
    }

    /**
     * `execute`: every check precedes the update, so a failure leaves the
     * model as it was; a success replaces the candidate by its moved copy.
     * The display filter is left alone.
     */
    method Execute(m: Model, now: DateAdded) returns (r: Result<Feedback, CommandError>)
      requires m.Valid()
      modifies m.registry
      ensures m.Valid() && m.registry.tags == old(m.registry.tags)
      ensures r == (match Outcome(old(m.registry.persons), m.shown, now)
                    case Ok(v) => Ok(v.1)
                    case Err(e) => Err(e))
      ensures m.registry.persons ==
        if r.Ok? then Outcome(old(m.registry.persons), m.shown, now).value.0 else old(m.registry.persons)
    {
      var list := m.Displayed();
      if index.zeroBased >= |list| {
        return Err(InvalidCandidateIndex);
      }
      var p := list[index.zeroBased];
      if p.stage != fromStage {
        return Err(Refused(WrongCurrentStage(p.stage)));
      }
      if fromStage == toStage {
        return Err(Refused(SameStageMessage));
      }
      ScopeMembers(m.registry.persons, m.shown, None, p);
      var moved := Moved(p, toStage, now);
      var o := m.registry.SetPerson(p, moved);
      r := Ok(SaysAbout(MoveLead(fromStage, toStage), moved));
    }
  }

  // ---------------------------------------------------------------------------
  // delete

  const DeleteLead := "Deleted Candidate: "

  /**
   * A deletion names a stage column; the index-only form, which has no
   * stage, counts in a column that matches no candidate.
   */
  datatype DeleteCommand = DeleteCommand(index: Index, fromStage: Option<Stages.Stage>)
  {
    function Column(displayed: seq<Person>): seq<Person>
    {
      if fromStage.Some? then Scope(displayed, fromStage) else []
    }

    /** What `execute` does, given the candidate list and the display filter. */
    function Outcome(ps: seq<Person>, shown: Person -> bool): Result<(seq<Person>, Feedback), CommandError>
    {
      var list := Column(Filter(ps, shown));
      if index.zeroBased >= |list| then Err(InvalidCandidateIndex)
      else
        var p := list[index.zeroBased];
        ScopeMembers(ps, shown, fromStage, p);
        var k := PositionOf(ps, p);
        Ok((ps[..k] + ps[k + 1..], SaysAbout(DeleteLead, p)))
    }

    predicate Equals(other: DeleteCommand)
    {
      index == other.index && fromStage == other.fromStage
    }

    /**
     * A success removes exactly the candidate at the index of the stage
     * column, and the others keep their order; an index past the column,
     * and so any index into an empty column, fails.
     */
    lemma OutcomeMeaning(ps: seq<Person>, shown: Person -> bool)
      requires Unique(ps, PersonKey)
      ensures Outcome(ps, shown).Err? <==> index.zeroBased >= |Column(Filter(ps, shown))|
      ensures Outcome(ps, shown).Err? ==> Outcome(ps, shown).error == InvalidCandidateIndex
      ensures fromStage.None? ==> Outcome(ps, shown).Err?
      ensures Outcome(ps, shown).Ok? ==>
        var p := Column(Filter(ps, shown))[index.zeroBased];
        var qs := Outcome(ps, shown).value.0;
        p in ps && shown(p) && p.stage == fromStage.value && p !in qs &&
        (forall q :: q in ps && q != p ==> q in qs) && |qs| == |ps| - 1 &&
        Unique(qs, PersonKey) &&
        exists k :: 0 <= k < |ps| && ps[k] == p && qs == ps[..k] + ps[k + 1..]
    {
      var list := Column(Filter(ps, shown));
      if index.zeroBased < |list| {
        var p := list[index.zeroBased];
        ScopeMembers(ps, shown, fromStage, p);
        PositionOfEntry(ps, p);
        var k := PositionOf(ps, p);
        RemoveAt(ps, PersonKey, k, ps[..k] + ps[k + 1..]);
        RemoveAtMembers(ps, PersonKey, k);
      }
    }

    /** `execute`: the resolved candidate is removed; the catalogue and the filter are untouched. */
    method Execute(m: Model) returns (r: Result<Feedback, CommandError>)
      requires m.Valid()
      modifies m.registry
      ensures m.Valid() && m.registry.tags == old(m.registry.tags)
      ensures r == (match Outcome(old(m.registry.persons), m.shown)
                    case Ok(v) => Ok(v.1)
                    case Err(e) => Err(e))
      ensures m.registry.persons ==
        if r.Ok? then Outcome(old(m.registry.persons), m.shown).value.0 else old(m.registry.persons)
    {
      var list := Column(m.Displayed());
      if index.zeroBased >= |list| {
        return Err(InvalidCandidateIndex);
      }
      var p := list[index.zeroBased];
      RemovesTarget(m.registry.persons, m.shown);
      var o := m.registry.RemovePerson(p);
      r := Ok(SaysAbout(DeleteLead, p));
    }

    /** The registry's removal of the resolved candidate is the deletion's outcome. */
    lemma RemovesTarget(ps: seq<Person>, shown: Person -> bool)
      requires index.zeroBased < |Column(Filter(ps, shown))|
      ensures var p := Column(Filter(ps, shown))[index.zeroBased];
        Remove(ps, PersonKey, p, PersonNotFound) == Ok(Outcome(ps, shown).value.0)
    {
      var p := Column(Filter(ps, shown))[index.zeroBased];
      ScopeMembers(ps, shown, fromStage, p);
      assert Find(ps, PersonKey, p) == PositionOf(ps, p);
    }
  }

  // ---------------------------------------------------------------------------
  // clear

  const ClearedAllMessage := "All candidates have been cleared!"

  function ClearedStageMessage(st: Stages.Stage): string
  {
    "All candidates from " + Stages.DisplayName(st) + " have been cleared!"
  }

  /** The candidates a stage clear removes: those displayed in that stage. */
  function ClearedBy(shown: Person -> bool, st: Stages.Stage): Person -> bool
  {
    And(shown, InStage(st))
  }

  /** The candidate list after clearing a stage. */
  function AfterClear(ps: seq<Person>, shown: Person -> bool, st: Stages.Stage): seq<Person>
  {
    Filter(ps, Not(ClearedBy(shown, st)))
  }

  /**
   * Clearing a stage removes the displayed candidates of that stage and
   * keeps every other candidate, in order; clearing it again changes
   * nothing, and clearing a stage with no displayed candidate changes
   * nothing either.
   */
  lemma ClearMeaning(ps: seq<Person>, shown: Person -> bool, st: Stages.Stage)
    ensures forall p :: p in AfterClear(ps, shown, st) <==> p in ps && !(shown(p) && p.stage == st)
    ensures AfterClear(AfterClear(ps, shown, st), shown, st) == AfterClear(ps, shown, st)
    ensures (forall p :: p in ps ==> !(shown(p) && p.stage == st)) ==> AfterClear(ps, shown, st) == ps
    ensures Unique(ps, PersonKey) ==> Unique(AfterClear(ps, shown, st), PersonKey)
  {
    FilterMembers(ps, Not(ClearedBy(shown, st)));
    FilterIdempotent(ps, Not(ClearedBy(shown, st)));
    if forall p :: p in ps ==> !(shown(p) && p.stage == st) {
      FilterAll(ps, Not(ClearedBy(shown, st)));
    }
    if Unique(ps, PersonKey) {
      FilterUnique(ps, Not(ClearedBy(shown, st)), PersonKey);
    }
  }

  datatype ClearCommand = ClearAll | ClearStage(stage: Stages.Stage)
  {
    /** `equals`: two clear-all commands are equal; stage clears are equal when their stages are. */
    predicate Equals(other: ClearCommand)
    {
      ClearAll? == other.ClearAll? && (ClearAll? || stage == other.stage)
    }

    /**
     * `execute`: clearing all installs an empty registry, dropping every
     * candidate and every tag; clearing a stage deletes, one at a time,
     * each displayed candidate of that stage and leaves the catalogue alone.
     */
    method Execute(m: Model) returns (r: Feedback)
      requires m.Valid()
      modifies m.registry
      ensures m.Valid()
      ensures ClearAll? ==> r == Says(ClearedAllMessage) && m.registry.persons == [] && m.registry.tags == []
      ensures ClearStage? ==>
        && r == Says(ClearedStageMessage(stage))
        && m.registry.tags == old(m.registry.tags)
        && m.registry.persons == AfterClear(old(m.registry.persons), m.shown, stage)
    {
      if ClearAll? {
        var o := m.registry.ResetData([], []);
        assert Unique([], TagKey) && Unique([], PersonKey) && UsedTags([]) == {};
        ExtendsFirstAdded([], m.registry.tags, TagKey, UsedTags([]));
        return Says(ClearedAllMessage);
      }
      ClearStageOf(m, stage);
      return Says(ClearedStageMessage(stage));
    }
  }

  /** Deletes, one at a time, each displayed candidate of the stage. */
  method ClearStageOf(m: Model, stage: Stages.Stage)
    requires m.Valid()
    modifies m.registry
    ensures m.Valid() && m.registry.tags == old(m.registry.tags)
    ensures m.registry.persons == AfterClear(old(m.registry.persons), m.shown, stage)
  {
    var toDelete := Scope(m.Displayed(), Some(stage));
    ghost var ps := m.registry.persons;
    ClearStart(ps, m.shown, stage);
    var i := 0;
    while i < |toDelete|
      invariant 0 <= i <= |toDelete|
      invariant m.Valid() && m.registry.tags == old(m.registry.tags)
      invariant m.registry.persons == Without(ps, PersonKey, Keys(toDelete[..i], PersonKey))
    {
      var p := toDelete[i];
      ClearStep(ps, m.shown, stage, toDelete, i);
      var o := m.registry.RemovePerson(p);
      i := i + 1;
    }
    ClearEnd(ps, m.shown, stage);
  }

  /** Before the first deletion: the stage column is unique and nothing is removed yet. */
  lemma ClearStart(ps: seq<Person>, shown: Person -> bool, st: Stages.Stage)
    requires Unique(ps, PersonKey)
    ensures Unique(Scope(Filter(ps, shown), Some(st)), PersonKey)
    ensures Without(ps, PersonKey, Keys(Scope(Filter(ps, shown), Some(st))[..0], PersonKey)) == ps
  {
    FilterUnique(ps, shown, PersonKey);
    FilterUnique(Filter(ps, shown), InStage(st), PersonKey);
    WithoutNothing(ps, PersonKey);
    assert Keys(Scope(Filter(ps, shown), Some(st))[..0], PersonKey) == {};
  }

  /** After the last deletion: removing the whole column's keys is the stage clear. */
  lemma ClearEnd(ps: seq<Person>, shown: Person -> bool, st: Stages.Stage)
    requires Unique(ps, PersonKey)
    ensures var toDelete := Scope(Filter(ps, shown), Some(st));
      Without(ps, PersonKey, Keys(toDelete[..|toDelete|], PersonKey)) == AfterClear(ps, shown, st)
  {
    var toDelete := Scope(Filter(ps, shown), Some(st));
    assert toDelete[..|toDelete|] == toDelete;
    FilterFilter(ps, shown, InStage(st));
    WithoutFiltered(ps, PersonKey, ClearedBy(shown, st));
  }

  /** One deletion of the stage clear removes the next candidate's key as well. */
  lemma ClearStep(ps: seq<Person>, shown: Person -> bool, st: Stages.Stage, toDelete: seq<Person>, i: nat)
    requires Unique(ps, PersonKey) && toDelete == Scope(Filter(ps, shown), Some(st))
    requires Unique(toDelete, PersonKey) && i < |toDelete|
    ensures Remove(Without(ps, PersonKey, Keys(toDelete[..i], PersonKey)), PersonKey, toDelete[i], PersonNotFound)
      == Ok(Without(ps, PersonKey, Keys(toDelete[..i + 1], PersonKey)))
  {
    KeysSnoc(toDelete[..i], PersonKey, toDelete[i]);
    assert toDelete[..i + 1] == toDelete[..i] + [toDelete[i]];
    var p := toDelete[i];
    assert p in toDelete;
    ScopeMembers(ps, shown, Some(st), p);
    assert PersonKey(p) !in Keys(toDelete[..i], PersonKey) by {
      forall j | 0 <= j < i ensures PersonKey(toDelete[..i][j]) != PersonKey(p) {
        assert toDelete[..i][j] == toDelete[j];
      }
    }
    RemoveFromWithout(ps, PersonKey, Keys(toDelete[..i], PersonKey), p, PersonNotFound);
  }
}
