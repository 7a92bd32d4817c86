/** The records exchanged between the upload form, the report and the client:
    the result of one validation job and the static descriptor of a category. */
module Types {
  import opened Wrappers

  datatype Status = Completed | Processing | Failed

  /** One validation job's outcome. `date` is the creation instant in
      milliseconds, an opaque value here. */
  datatype ValidationResult = ValidationResult(
    id: string,
    date: int,
    fileName: Option<string>,
    totalEmails: int,
    valid: seq<string>,
    invalid: seq<string>,
    risky: seq<string>,
    disposable: seq<string>,
    spamTraps: seq<string>,
    creditsUsed: int,
    status: Status)

  /** The five values of ValidationCategory's `type` field. */
  datatype CategoryType = Valid | Invalid | Risky | Disposable | SpamTraps

  /** Presentation metadata of one category; `kind` and `title` are the source's `type` and `label`, both keywords in Dafny. */
  datatype ValidationCategory = ValidationCategory(
    kind: CategoryType,
    title: string,
    color: string,
    description: string,
    icon: string)

  /** The string that names a category type in the source. */
  function TypeName(t: CategoryType): string {
    match t
    case Valid => "valid"
    case Invalid => "invalid"
    case Risky => "risky"
    case Disposable => "disposable"
    case SpamTraps => "spamTraps"
  }

  /** The category type a string names, if any. */
  function ParseCategoryType(name: string): (t: Option<CategoryType>)
    ensures t.Some? ==> TypeName(t.value) == name
  {
    if name == "valid" then Some(Valid)
    else if name == "invalid" then Some(Invalid)
    else if name == "risky" then Some(Risky)
    else if name == "disposable" then Some(Disposable)
    else if name == "spamTraps" then Some(SpamTraps)
    else None
  }

  /** Every category type's name parses back to it, so the names are distinct. */
  lemma CategoryNamesRoundTrip(t: CategoryType)
    ensures ParseCategoryType(TypeName(t)) == Some(t)
  {
  }

  /** The field of a result that holds the addresses of one category. */
  function Bucket(result: ValidationResult, t: CategoryType): seq<string> {
    match t
    case Valid => result.valid
    case Invalid => result.invalid
    case Risky => result.risky
    case Disposable => result.disposable
    case SpamTraps => result.spamTraps
  }
}
