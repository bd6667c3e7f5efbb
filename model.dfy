/**
 * The model the commands work on: the registry, and the filter that decides
 * which of its candidates are displayed. Also the index a command names a
 * displayed candidate by, and what a command reports.
 */
module Models {
  import opened Text
  import opened Tags
  import opened Stages
  import opened Persons
  import opened Registry
  import opened Sequences

  /** A position in a displayed list, kept zero-based. */
  datatype Index = Index(zeroBased: nat)

  /** The one-based position the user typed. */
  function OneBased(i: Index): (n: nat)
    ensures n >= 1
  {
    i.zeroBased + 1
  }

  /** `Index.fromOneBased`: positions start at one. */
  function FromOneBased(n: nat): (i: Index)
    requires n >= 1
    ensures OneBased(i) == n
  {
    Index(n - 1)
  }

  /** What a successful command reports. */
  datatype Feedback =
    | Says(text: string)
      /** A message followed by the display form of a candidate. */
    | SaysAbout(lead: string, candidate: Person)

  /** Why a command failed. */
  datatype CommandError =
    | Refused(message: string)
      /** The shared "invalid candidate index" message. */
    | InvalidCandidateIndex
      /** A registry exception nobody catches. */
    | Unchecked(fault: RegistryError)
      /** A tag constructor rejecting its arguments. */
    | IllegalArgument(invalid: TagError)

  /** `PREDICATE_SHOW_ALL_PERSONS` */
  const ShowAll: Person -> bool := (p: Person) => true

  /** The candidates of one stage column. */
  function InStage(st: Stage): Person -> bool
  {
    (p: Person) => p.stage == st
  }

  /** The list an index is counted in: one stage column of the displayed list, or all of it. */
  function Scope(displayed: seq<Person>, stage: Option<Stage>): seq<Person>
  {
    match stage
    case Some(st) => Filter(displayed, InStage(st))
    case None => displayed
  }

  /** A stage column keeps the displayed order: with A, C in Candidates and B in Contacted, the second Candidates entry is C. */
  lemma StageScopedIndexExample(a: Person, b: Person, c: Person)
    requires a.stage == Candidates && b.stage == Contacted && c.stage == Candidates
    ensures Scope([a, b, c], Some(Candidates)) == [a, c]
    ensures Scope([a, b, c], Some(Candidates))[FromOneBased(2).zeroBased] == c
  {
    var f := InStage(Candidates);
    FilterSnoc([], f, a);
    FilterSnoc([a], f, b);
    FilterSnoc([a, b], f, c);
    assert [] + [a] == [a] && [a] + [b] == [a, b] && [a, b] + [c] == [a, b, c];
  }

  /** Every candidate of a scoped list is a candidate of the registry. */
  lemma ScopeMembers(ps: seq<Person>, shown: Person -> bool, stage: Option<Stage>, p: Person)
    requires p in Scope(Filter(ps, shown), stage)
    ensures p in ps && shown(p)
    ensures stage.Some? ==> p.stage == stage.value
  {
    FilterMembers(ps, shown);
    if stage.Some? {
      FilterMembers(Filter(ps, shown), InStage(stage.value));
    }
  }

  /**
   * The model: the registry, which commands change through its own
   * operations, and the predicate filtering the displayed candidates.
   */
  class Model {
    const registry: Findr
    var shown: Person -> bool

    predicate Valid()
      reads this, registry
    {
      registry.Valid()
    }

    constructor (r: Findr)
      requires r.Valid()
      ensures Valid() && registry == r && shown == ShowAll
    {
      registry := r;
      shown := ShowAll;
    }

    /** The displayed candidates, in registry order. */
    function Displayed(): (ds: seq<Person>)
      reads this, registry
      ensures forall p :: p in ds <==> p in registry.persons && shown(p)
    {
      FilterMembers(registry.persons, shown);
      Filter(registry.persons, shown)
    }

    /** `updateFilteredCandidateList` */
    method UpdateFilter(keep: Person -> bool)
      modifies this
      ensures shown == keep
    {
      shown := keep;
    }
  }
}
