/** The closed vocabulary of task categories, with Spanish raw values. */
module TaskCategory {
  import opened Wrappers
  import opened Text

  datatype Category = Work | Study | Home | Personal | Finance | Health | Travel | Social | Technology {

    /** The raw value stored in the `category` column and sent by clients. */
    function Value(): (v: string)
      ensures v != [] && NoCapitals(v) && !IsTrimmed(v[0])
    {
      match this
      case Work => "trabajo"
      case Study => "estudio"
      case Home => "casa"
      case Personal => "personal"
      case Finance => "finanzas"
      case Health => "salud"
      case Travel => "viaje"
      case Social => "social"
      case Technology => "tecnología"
    }

    /**
     * `label()`: the raw value with only its first character capitalised
     * (`tecnología` becomes `Tecnología`; the accented letter is kept).
     * Lower-casing the label gives the raw value back.
     */
    function Label(): (l: string)
      ensures |l| == |Value()| && l[1..] == Value()[1..]
      ensures l[0] == UpperChar(Value()[0])
      ensures Lower(l) == Value()
    {
      LowerUndoesUcFirst(Value());
      UcFirst(Value())
    }
  }

  /** `cases()`: every category, in declaration order. */
  function All(): (cs: seq<Category>)
    ensures |cs| == 9
  {
    [Work, Study, Home, Personal, Finance, Health, Travel, Social, Technology]
  }

  /** `cases()` leaves no category out. */
  lemma AllComplete(x: Category)
    ensures x in All()
  {
  }

  /** Each category occurs exactly once in `All()`. */
  lemma AllDistinct()
    ensures forall i, j :: 0 <= i < j < |All()| ==> All()[i] != All()[j]
  {
  }

  /** `values()`: the raw values of `All()`, in the same order. */
  function Values(): (vs: seq<string>)
    ensures |vs| == |All()|
    ensures forall i :: 0 <= i < |vs| ==> vs[i] == All()[i].Value()
  {
    ["trabajo", "estudio", "casa", "personal", "finanzas", "salud", "viaje", "social", "tecnología"]
  }

  /** Distinct categories have distinct raw values. */
  lemma ValueInjective(a: Category, b: Category)
    requires a.Value() == b.Value()
    ensures a == b
  {
  }

  /** `values()` has no duplicates. */
  lemma ValuesDistinct()
    ensures forall i, j :: 0 <= i < j < |Values()| ==> Values()[i] != Values()[j]
  {
  }

  /** `Category::tryFrom`: the category whose raw value is `s`, if there is one. */
  function FromValue(s: string): (r: Option<Category>)
    ensures r.Some? <==> s in Values()
    ensures r.Some? ==> r.value.Value() == s
  {
    if s == "trabajo" then Some(Work)
    else if s == "estudio" then Some(Study)
    else if s == "casa" then Some(Home)
    else if s == "personal" then Some(Personal)
    else if s == "finanzas" then Some(Finance)
    else if s == "salud" then Some(Health)
    else if s == "viaje" then Some(Travel)
    else if s == "social" then Some(Social)
    else if s == "tecnología" then Some(Technology)
    else None
  }

  /** Raw value and category are a bijection. */
  lemma FromValueOfValue(x: Category)
    ensures FromValue(x.Value()) == Some(x)
  {
  }

  /** The raw value recovered from a label by lower-casing it is accepted as that category. */
  lemma FromLoweredLabel(x: Category)
    ensures FromValue(Lower(x.Label())) == Some(x)
  {
  }
}
