/** The recruitment stage of a candidate: one column of the board. */
module Stages {
  import opened Text

  const StageConstraintsMessage := "Stage should be one of: Candidates, Contacted, Interviewed, Hired (case-insensitive)"

  datatype Stage = Candidates | Contacted | Interviewed | Hired

  /** The name of the enum constant. */
  function EnumName(s: Stage): string
  {
    match s
    case Candidates => "CANDIDATES"
    case Contacted => "CONTACTED"
    case Interviewed => "INTERVIEWED"
    case Hired => "HIRED"
  }

  /** `getDisplayName`, which is also `toString`. */
  function DisplayName(s: Stage): string
  {
    match s
    case Candidates => "Candidates"
    case Contacted => "Contacted"
    case Interviewed => "Interviewed"
    case Hired => "Hired"
  }

  /** `Stage.valueOf`: the constant whose name is exactly the argument. */
  function ValueOf(name: string): (r: Option<Stage>)
    ensures r.Some? ==> EnumName(r.value) == name
    ensures r.None? ==> forall s: Stage :: EnumName(s) != name
  {
    if name == "CANDIDATES" then Some(Candidates)
    else if name == "CONTACTED" then Some(Contacted)
    else if name == "INTERVIEWED" then Some(Interviewed)
    else if name == "HIRED" then Some(Hired)
    else None
  }

  /** The lookup key: `test.trim().toUpperCase()`. */
  function Normalized(test: string): string
  {
    ToUpper(Trim(test))
  }

  /** `isValidStage` */
  predicate IsValidStage(test: string)
  {
    ValueOf(Normalized(test)).Some?
  }

  /** `fromString`: the stage whose constant name is the trimmed, upper-cased input. */
  function FromString(test: string): (r: Result<Stage, string>)
    ensures r.Ok? <==> IsValidStage(test)
    ensures r.Ok? ==> EnumName(r.value) == Normalized(test)
    ensures r.Err? ==> r.error == StageConstraintsMessage
  {
    match ValueOf(Normalized(test))
    case Some(s) => Ok(s)
    case None => Err(StageConstraintsMessage)
  }

  lemma UpperOfDisplayName(s: Stage)
    ensures Trim(DisplayName(s)) == DisplayName(s)
    ensures Normalized(DisplayName(s)) == EnumName(s)
  {
    var d := DisplayName(s);
    TrimOfTrimmed(d);
    match s
    case Candidates => assert ToUpper(d) == "CANDIDATES";
    case Contacted => assert ToUpper(d) == "CONTACTED";
    case Interviewed => assert ToUpper(d) == "INTERVIEWED";
    case Hired => assert ToUpper(d) == "HIRED";
  }

  /** Reading back a stage's display name gives the stage. */
  lemma StageRoundTrip(s: Stage)
    ensures FromString(DisplayName(s)) == Ok(s)
  {
    UpperOfDisplayName(s);
    ValueOfEnumName(s);
  }

  /** `valueOf(s.name())` is `s`. */
  lemma ValueOfEnumName(s: Stage)
    ensures ValueOf(EnumName(s)) == Some(s)
  {
    match s
    case Candidates =>
    case Contacted =>
    case Interviewed =>
    case Hired =>
  }

  /** Stage words are matched ignoring case and surrounding blanks. */
  lemma StageIgnoresCaseAndBlanks(s: Stage, test: string)
    requires ToLower(Trim(test)) == ToLower(DisplayName(s))
    ensures FromString(test) == Ok(s)
  {
    UpperOfDisplayName(s);
    NormalizedByLower(test, DisplayName(s));
    ValueOfEnumName(s);
  }

  lemma NormalizedByLower(test: string, d: string)
    requires ToLower(Trim(test)) == ToLower(d) && Trim(d) == d
    ensures Normalized(test) == Normalized(d)
  {
    UpperDeterminedByLower(Trim(test), d);
  }

  /** Words that are not stage names are rejected. */
  lemma StageRejects()
    ensures FromString("Rejected").Err?
    ensures FromString("").Err?
  {
    TrimOfTrimmed("Rejected");
    assert |Normalized("Rejected")| == 8;
    assert |Normalized("")| == 0;
  }
}
