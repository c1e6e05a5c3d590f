/** The persisted documents of one boundary and the validators that guard every read and write of them.
    A JSON object keyed by a unique ID is a map, so no result depends on its iteration order. */
module Documents {
  datatype Option<+T> = None | Some(value: T)

  datatype Result<+T, +E> = Ok(value: T) | Err(error: E)

  /** SHA-256 and other digests are never computed here: a hasher is any function giving non-empty text. */
  type Digest = text: string | text != "" witness "0"
  type Byte = b: int | 0 <= b < 256
  type Bytes = seq<Byte>
  type Hasher = Bytes -> Digest

  /** A path below the boundary directory, as its components. */
  type Path = seq<string>

  datatype Phase = Scan | Judge | Extract | Done {
    function Rank(): nat {
      match this
      case Scan => 0
      case Judge => 1
      case Extract => 2
      case Done => 3
    }
  }

  /** The phases that a source command works in. */
  type Stage = p: Phase | p != Done witness Scan

  function Next(s: Stage): Phase {
    match s
    case Scan => Judge
    case Judge => Extract
    case Extract => Done
  }

  datatype Availability = Available | Absent

  datatype BoundaryRecord = BoundaryRecord(backendId: string, boundary: string, availability: Availability,
                                           phase: Phase)

  // Scan targets

  datatype TargetStatus = Pending | Running | Scanned | Failed {
    predicate Settled() { Scanned? || Failed? }
  }

  datatype TargetResult = TargetResult(
    status: TargetStatus,
    errors: seq<string>,
    returnCode: Option<int>,
    startedAt: Option<int>,
    finishedAt: Option<int>)

  const FRESH_RESULT := TargetResult(TargetStatus.Pending, [], None, None, None)

  datatype Scope = Scope(kind: string, id: string, version: string)

  datatype Target = Target(scope: Scope, result: TargetResult)

  function TargetIdFor(scope: Scope): string { scope.id + "@" + scope.version }

  datatype Inventory = Inventory(generatedAt: int, boundary: string, targets: map<string, Target>,
                                 errors: seq<string>) {
    predicate Valid() {
      && (forall id <- targets :: id == TargetIdFor(targets[id].scope))
      && (forall a <- targets, b <- targets ::
            a != b ==> (targets[a].scope.kind, targets[a].scope.id) != (targets[b].scope.kind, targets[b].scope.id))
    }

    ghost predicate Settled() { forall id <- targets :: targets[id].result.status.Settled() }
  }

  // Titus reports

  datatype Match = Match(filePath: string)

  datatype Finding = Finding(ruleId: string, findingId: string, groups: seq<string>, matches: seq<Match>)

  datatype Report = Report(boundaryId: string, generatedAt: string, errors: seq<string>, findings: seq<Finding>)

  // Credentials

  datatype Verdict = IsValid | IsInvalid | IsUnknown

  datatype JudgmentStatus = Pending | Completed | Failed

  datatype Judgment = Judgment(status: JudgmentStatus, verdict: Option<Verdict>, reasoning: string,
                               error: Option<string>) {
    predicate Valid() {
      && (if status.Completed? then verdict.Some? && error.None? else verdict.None?)
      && (status.Failed? ==> error.Some? && error.value != "")
    }

    predicate RuledInvalid() { verdict.Some? && verdict.value.IsInvalid? }

    predicate PermitsExtraction() { verdict.Some? && (verdict.value.IsValid? || verdict.value.IsUnknown?) }
  }

  const FRESH_JUDGMENT := Judgment(JudgmentStatus.Pending, None, "", None)

  datatype ExtractionStatus = Pending | Skipped | Retained | Failed

  datatype Extraction = Extraction(
    status: ExtractionStatus,
    outputPath: Option<Path>,
    size: Option<int>,
    sha256: Option<string>,
    error: Option<string>,
    reason: Option<string>)
  {
    predicate Valid() {
      && (if status.Retained?
          then outputPath.Some? && outputPath.value != [] && size.Some? && sha256.Some? && sha256.value != ""
          else outputPath.None? && size.None? && sha256.None?)
      && (size.Some? ==> 0 <= size.value)
      && (status.Failed? ==> error.Some? && error.value != "")
      && (status.Skipped? ==> reason.Some? && reason.value != "")
    }
  }

  const FRESH_EXTRACTION := Extraction(ExtractionStatus.Pending, None, None, None, None, None)

  const JUDGED_INVALID := "credential judged invalid"
  const JUDGMENT_FAILED := "judgment failed"

  /** An occurrence is its locator. */
  datatype Credential = Credential(
    credentialId: string,
    value: Option<string>,
    occurrences: seq<string>,
    judgment: Judgment,
    extraction: Extraction)
  {
    predicate Valid() {
      occurrences != [] && "" !in occurrences && judgment.Valid() && extraction.Valid()
    }
  }

  datatype CredentialsDocument = CredentialsDocument(
    boundaryId: string,
    reportGeneratedAt: string,
    credentials: map<string, Credential>,
    errors: seq<string>)
  {
    predicate Valid() {
      forall id <- credentials :: id == credentials[id].credentialId && credentials[id].Valid()
    }
  }

  ghost predicate NoDuplicates<T>(s: seq<T>) {
    forall i, j :: 0 <= i < j < |s| ==> s[i] != s[j]
  }
}
