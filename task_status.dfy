/** The closed vocabulary of task states, with Spanish raw values. */
module TaskStatus {
  import opened Wrappers
  import opened Text

  datatype Status = Pending | InProgress | Completed {

    /** The raw value stored in the `status` column and sent by clients. */
    function Value(): (v: string)
      ensures v != [] && NoCapitals(v) && !IsTrimmed(v[0])
    {
      match this
      case Pending => "pendiente"
      case InProgress => "en progreso"
      case Completed => "completada"
    }

    /**
     * `label()`: the raw value with only its first character capitalised.
     * Lower-casing the label gives the raw value back, which is what the
     * task form does before it submits a status it was shown.
     */
    function Label(): (l: string)
      ensures |l| == |Value()| && l[1..] == Value()[1..]
      ensures l[0] == UpperChar(Value()[0])
      ensures Lower(l) == Value()
    {
      LowerUndoesUcFirst(Value());
      UcFirst(Value())
    }
  }

  /** `cases()`: every status, in declaration order. */
  function All(): (ss: seq<Status>)
    ensures |ss| == 3
  {
    [Pending, InProgress, Completed]
  }

  /** `cases()` leaves no status out. */
  lemma AllComplete(x: Status)
    ensures x in All()
  {
  }

  /** `values()`: the raw values of `All()`, in the same order. */
  function Values(): (vs: seq<string>)
    ensures |vs| == |All()|
    ensures forall i :: 0 <= i < |vs| ==> vs[i] == All()[i].Value()
  {
    ["pendiente", "en progreso", "completada"]
  }

  /** Distinct statuses have distinct raw values. */
  lemma ValueInjective(a: Status, b: Status)
    requires a.Value() == b.Value()
    ensures a == b
  {
  }

  /** `values()` has no duplicates. */
  lemma ValuesDistinct()
    ensures forall i, j :: 0 <= i < j < |Values()| ==> Values()[i] != Values()[j]
  {
  }

  /** `Status::tryFrom`: the status whose raw value is `s`, if there is one. */
  function FromValue(s: string): (r: Option<Status>)
    ensures r.Some? <==> s in Values()
    ensures r.Some? ==> r.value.Value() == s
  {
    if s == "pendiente" then Some(Pending)
    else if s == "en progreso" then Some(InProgress)
    else if s == "completada" then Some(Completed)
    else None
  }

  /** Raw value and status are a bijection: reading a status's raw value gives the status. */
  lemma FromValueOfValue(x: Status)
    ensures FromValue(x.Value()) == Some(x)
  {
  }

  /** The raw value recovered from a label by lower-casing it is accepted as that status. */
  lemma FromLoweredLabel(x: Status)
    ensures FromValue(Lower(x.Label())) == Some(x)
  {
  }
}
