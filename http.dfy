/** Request fields and response outcomes as the controllers see them. */
module Http {
  /**
   * One field of a JSON request body: the key is missing, present with
   * `null`, or present with a value.
   */
  datatype Input<+T> = Absent | Null | Given(value: T)

  /**
   * The outcome of a controller action: 200 with data, 201 with data,
   * 404, or 422 naming the fields that failed validation.
   */
  datatype Reply<+T> = Ok(data: T) | Created(data: T) | NotFound | Unprocessable(errors: set<string>) {

    /** The HTTP status code of the response. */
    function Code(): (c: int)
      ensures c in {200, 201, 404, 422}
      ensures c == 422 <==> Unprocessable?
      ensures c == 404 <==> NotFound?
    {
      match this
      case Ok(_) => 200
      case Created(_) => 201
      case NotFound => 404
      case Unprocessable(_) => 422
    }
  }

  /**
   * `$request->validate([...])`: the names of the fields whose rule fails,
   * given each field's name and whether its rule passes.
   */
  function Failures(rules: seq<(bool, string)>): set<string> {
    if rules == [] then {}
    else (if rules[0].0 then {} else {rules[0].1}) + Failures(rules[1..])
  }

  /** Only the named fields can fail. */
  lemma {:induction false} FailuresWithin(rules: seq<(bool, string)>, names: set<string>)
    requires forall k :: 0 <= k < |rules| ==> rules[k].1 in names
    ensures Failures(rules) <= names
  {
    if rules != [] {
      FailuresWithin(rules[1..], names);
    }
  }

  /** A name no rule carries is never reported. */
  lemma {:induction false} FailuresAbsent(rules: seq<(bool, string)>, f: string)
    requires forall k :: 0 <= k < |rules| ==> rules[k].1 != f
    ensures f !in Failures(rules)
  {
    if rules != [] {
      FailuresAbsent(rules[1..], f);
    }
  }

  /** With distinct names, a field is reported exactly when its own rule fails. */
  lemma {:induction false} FailuresByField(rules: seq<(bool, string)>)
    requires forall i, j :: 0 <= i < j < |rules| ==> rules[i].1 != rules[j].1
    ensures forall k :: 0 <= k < |rules| ==> (rules[k].1 in Failures(rules) <==> !rules[k].0)
  {
    if rules != [] {
      FailuresByField(rules[1..]);
      FailuresAbsent(rules[1..], rules[0].1);
      forall k | 1 <= k < |rules|
        ensures rules[k].1 in Failures(rules) <==> !rules[k].0
      {
        assert rules[1..][k - 1] == rules[k];
      }
    }
  }
}
