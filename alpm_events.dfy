/** Decoding of what the engine passes to the wrapper's callbacks: the event kind, the
    question kind and its prompt, the progress report, and the package named by a package
    operation event. Pointers become values: a null pointer, a readable one, or one whose read
    faults. The handlers of `AlpmManager` raise the notices computed here. */
module AlpmEvents {
  import opened Wrappers
  import opened Text
  import opened AlpmTypes

  /** `AlpmEventType`, whose values are 1 to 37 in declaration order. */
  datatype EventType =
    | CheckDepsStart | CheckDepsDone | FileConflictsStart | FileConflictsDone
    | ResolveDepsStart | ResolveDepsDone | InterConflictsStart | InterConflictsDone
    | TransactionStart | TransactionDone | PackageOperationStart | PackageOperationDone
    | IntegrityStart | IntegrityDone | LoadStart | LoadDone | ScriptletInfo
    | DbRetrieveStart | DbRetrieveDone | DbRetrieveFailed
    | PkgRetrieveStart | PkgRetrieveDone | PkgRetrieveFailed
    | DiskspaceStart | DiskspaceDone | OptdepRemoval | DatabaseMissing
    | KeyringStart | KeyringDone | KeyDownloadStart | KeyDownloadDone
    | PacnewCreated | PacsaveCreated | HookStart | HookDone | HookRunStart | HookRunDone

  /** The value of each member of `AlpmEventType`. */
  function EventCode(e: EventType): int {
    match e
    case CheckDepsStart => 1
    case CheckDepsDone => 2
    case FileConflictsStart => 3
    case FileConflictsDone => 4
    case ResolveDepsStart => 5
    case ResolveDepsDone => 6
    case InterConflictsStart => 7
    case InterConflictsDone => 8
    case TransactionStart => 9
    case TransactionDone => 10
    case PackageOperationStart => 11
    case PackageOperationDone => 12
    case IntegrityStart => 13
    case IntegrityDone => 14
    case LoadStart => 15
    case LoadDone => 16
    case ScriptletInfo => 17
    case DbRetrieveStart => 18
    case DbRetrieveDone => 19
    case DbRetrieveFailed => 20
    case PkgRetrieveStart => 21
    case PkgRetrieveDone => 22
    case PkgRetrieveFailed => 23
    case DiskspaceStart => 24
    case DiskspaceDone => 25
    case OptdepRemoval => 26
    case DatabaseMissing => 27
    case KeyringStart => 28
    case KeyringDone => 29
    case KeyDownloadStart => 30
    case KeyDownloadDone => 31
    case PacnewCreated => 32
    case PacsaveCreated => 33
    case HookStart => 34
    case HookDone => 35
    case HookRunStart => 36
    case HookRunDone => 37
  }

  /** The range check of `HandleEvent` followed by the cast: a value outside 1..37 is no
      event kind. */
  function DecodeEvent(n: int): (r: Option<EventType>)
    ensures r.Some? <==> 1 <= n <= 37
    ensures r.Some? ==> EventCode(r.value) == n
  {
    if 1 <= n <= 12 then Some(EventLow(n))
    else if 13 <= n <= 24 then Some(EventMiddle(n))
    else if 25 <= n <= 37 then Some(EventHigh(n))
    else None
  }

  function EventLow(n: int): (e: EventType)
    requires 1 <= n <= 12
    ensures EventCode(e) == n
  {
    if n == 1 then CheckDepsStart
    else if n == 2 then CheckDepsDone
    else if n == 3 then FileConflictsStart
    else if n == 4 then FileConflictsDone
    else if n == 5 then ResolveDepsStart
    else if n == 6 then ResolveDepsDone
    else if n == 7 then InterConflictsStart
    else if n == 8 then InterConflictsDone
    else if n == 9 then TransactionStart
    else if n == 10 then TransactionDone
    else if n == 11 then PackageOperationStart
    else PackageOperationDone
  }

  function EventMiddle(n: int): (e: EventType)
    requires 13 <= n <= 24
    ensures EventCode(e) == n
  {
    if n == 13 then IntegrityStart
    else if n == 14 then IntegrityDone
    else if n == 15 then LoadStart
    else if n == 16 then LoadDone
    else if n == 17 then ScriptletInfo
    else if n == 18 then DbRetrieveStart
    else if n == 19 then DbRetrieveDone
    else if n == 20 then DbRetrieveFailed
    else if n == 21 then PkgRetrieveStart
    else if n == 22 then PkgRetrieveDone
    else if n == 23 then PkgRetrieveFailed
    else DiskspaceStart
  }

  function EventHigh(n: int): (e: EventType)
    requires 25 <= n <= 37
    ensures EventCode(e) == n
  {
    if n == 25 then DiskspaceDone
    else if n == 26 then OptdepRemoval
    else if n == 27 then DatabaseMissing
    else if n == 28 then KeyringStart
    else if n == 29 then KeyringDone
    else if n == 30 then KeyDownloadStart
    else if n == 31 then KeyDownloadDone
    else if n == 32 then PacnewCreated
    else if n == 33 then PacsaveCreated
    else if n == 34 then HookStart
    else if n == 35 then HookDone
    else if n == 36 then HookRunStart
    else HookRunDone
  }

  /** Every event kind is in range and decodes back to itself. */
  lemma EventCodeRoundTrip(e: EventType)
    ensures 1 <= EventCode(e) <= 37
    ensures DecodeEvent(EventCode(e)) == Some(e)
  {
  }

  // ---------------------------------------------------------------------------------------
  // Pointers

  /** A `char*`: null, a readable UTF-8 string, or a pointer whose read faults. */
  datatype StrPtr = NullStr | Str(s: string) | BadStr

  /** An `alpm_pkg_t*`: null, a package whose name pointer is `name`, or a pointer whose read
      faults. */
  datatype PkgPtr = NullPkg | Pkg(name: StrPtr) | BadPkg

  /** An `alpm_event_t*`: null, a pointer whose reads fault, or an event whose type field
      holds `kind` and whose package-operation fields hold the old and new package. */
  datatype EventPtr = NullEvent | BadEvent | Event(kind: int, oldPkg: PkgPtr, newPkg: PkgPtr)

  /** The string a `char*` points to: null for a null pointer, and an exception for a read
      that faults. */
  function ReadString(p: StrPtr): Result<Option<string>, ()> {
    match p
    case NullStr => Ok(None)
    case Str(s) => Ok(Some(s))
    case BadStr => Err(())
  }

  // ---------------------------------------------------------------------------------------
  // HandleEvent

  /** What `HandleEvent` raises: nothing for a null event, when the handle is zero, when the
      type cannot be read or is out of range; a package-operation notice without package
      name for the start and end of a transaction; nothing (only a log line) for any other
      kind. */
  function EventNotices(handleLive: bool, e: EventPtr): seq<Act> {
    if e.NullEvent? || !handleLive || e.BadEvent? then []
    else match DecodeEvent(e.kind)
      case None => []
      case Some(t) =>
        if t == TransactionStart || t == TransactionDone then [OperationNotice(EventCode(t), None)]
        else []
  }

  /** A notice is raised exactly for transaction start (9) and done (10), on a live handle,
      and it carries that kind and no package name. */
  lemma EventNoticesMeaning(handleLive: bool, e: EventPtr)
    ensures EventNotices(handleLive, e) != [] <==> (handleLive && e.Event? && (e.kind == 9 || e.kind == 10))
    ensures EventNotices(handleLive, e) != [] ==> EventNotices(handleLive, e) == [OperationNotice(e.kind, None)]
  {
    if e.Event? && 1 <= e.kind <= 37 {
      var t := DecodeEvent(e.kind).value;
      EventCodeRoundTrip(t);
      if e.kind == 9 {
        EventCodeRoundTrip(TransactionStart);
      } else if e.kind == 10 {
        EventCodeRoundTrip(TransactionDone);
      }
    }
  }

  // ---------------------------------------------------------------------------------------
  // HandleQuestion

  /** The question kinds of libalpm's `alpm_question_type_t` (`AlpmQuestionType` is not part
      of this model; its values are those of libalpm's header). */
  datatype QuestionKind =
    | InstallIgnorePkg | ReplacePkg | ConflictPkg | CorruptedPkg | RemovePkgs | SelectProvider | ImportKey

  function QuestionCode(k: QuestionKind): int {
    match k
    case InstallIgnorePkg => 1
    case ReplacePkg => 2
    case ConflictPkg => 4
    case CorruptedPkg => 8
    case RemovePkgs => 16
    case SelectProvider => 32
    case ImportKey => 64
  }

  /** The cast of the question's type field to the question enumeration. */
  function DecodeQuestion(n: int): (r: Option<QuestionKind>)
    ensures r.Some? ==> QuestionCode(r.value) == n
    ensures r.None? ==> forall k :: QuestionCode(k) != n
  {
    if n == 1 then Some(InstallIgnorePkg)
    else if n == 2 then Some(ReplacePkg)
    else if n == 4 then Some(ConflictPkg)
    else if n == 8 then Some(CorruptedPkg)
    else if n == 16 then Some(RemovePkgs)
    else if n == 32 then Some(SelectProvider)
    else if n == 64 then Some(ImportKey)
    else None
  }

  const UnknownQuestionPrefix := "Unknown question type: "

  /** The prompt shown for a question whose type field holds `n`. */
  function QuestionText(n: int): string {
    match DecodeQuestion(n)
    case Some(InstallIgnorePkg) => "Install IgnorePkg?"
    case Some(ReplacePkg) => "Replace package?"
    case Some(ConflictPkg) => "Conflict found. Remove?"
    case Some(CorruptedPkg) => "Corrupted pkg. Delete?"
    case Some(ImportKey) => "Import GPG key?"
    case Some(SelectProvider) => "Select provider?"
    case _ => UnknownQuestionPrefix + DecimalString(n)
  }

  /** The kinds with a prompt of their own; every other value, `RemovePkgs` included, gets
      the unknown-question text. */
  predicate HasPrompt(n: int) {
    n in {1, 2, 4, 8, 32, 64}
  }

  /** A value without a prompt of its own is shown as the prefix followed by its decimal
      representation, from which the value can be read back. */
  lemma UnknownQuestionTextNamesCode(n: int)
    requires !HasPrompt(n) && Int32Min <= n <= Int32Max
    ensures StartsWith(QuestionText(n), UnknownQuestionPrefix)
    ensures TryParseInt32(QuestionText(n)[|UnknownQuestionPrefix|..]) == Some(n)
  {
    assert QuestionText(n) == UnknownQuestionPrefix + DecimalString(n);
    assert QuestionText(n)[|UnknownQuestionPrefix|..] == DecimalString(n);
    DecimalStringParses(n, Int32Min, Int32Max);
  }

  /** Distinct question values are shown with distinct prompts. */
  lemma QuestionTextInjective(a: int, b: int)
    requires Int32Min <= a <= Int32Max && Int32Min <= b <= Int32Max
    requires QuestionText(a) == QuestionText(b)
    ensures a == b
  {
    if !HasPrompt(a) && !HasPrompt(b) {
      UnknownQuestionTextNamesCode(a);
      UnknownQuestionTextNamesCode(b);
    }
  }

  /** The answer written back into the question: the observer's response, which is 1 (yes,
      or the first provider) unless an observer changed it. */
  function QuestionAnswer(response: Option<int>): (answer: int)
    ensures response.None? ==> answer == 1
    ensures response.Some? ==> answer == response.value
  {
    response.GetOr(1)
  }

  // ---------------------------------------------------------------------------------------
  // HandleProgress

  /** What `HandleProgress` raises: one report forwarding every argument, with the package
      name read from its pointer; a read that faults is caught and nothing is raised. */
  function ProgressNotices(code: int, namePtr: StrPtr, percent: int, howMany: int, current: int): seq<Act> {
    match ReadString(namePtr)
    case Err(_) => []
    case Ok(name) => [ProgressNotice(ProgressReport(EngineProgress(code), name, percent, howMany, current))]
  }

  /** The report carries the arguments unchanged, and its package name is null exactly when
      the name pointer is. */
  lemma ProgressNoticesMeaning(code: int, namePtr: StrPtr, percent: int, howMany: int, current: int)
    ensures var notices := ProgressNotices(code, namePtr, percent, howMany, current);
      |notices| <= 1 && (notices == [] <==> namePtr.BadStr?)
    ensures var notices := ProgressNotices(code, namePtr, percent, howMany, current);
      notices != [] ==>
        var r := notices[0].report;
        notices[0].ProgressNotice? && r.kind == EngineProgress(code) && r.percent == percent
        && r.howMany == howMany && r.current == current
        && (r.packageName.None? <==> namePtr.NullStr?)
        && (namePtr.Str? ==> r.packageName == Some(namePtr.s))
  {
  }

  // ---------------------------------------------------------------------------------------
  // ReadPackageNameFromEvent

  /** The name of the package a package-operation event is about: the new package if its
      pointer is non-null, the old one otherwise; null when that pointer or its name pointer
      is null, and null when any read faults. */
  function ReadPackageNameFromEvent(e: EventPtr): (r: Option<string>) {
    match e
    case Event(_, oldPkg, newPkg) =>
      var pkg := if newPkg != NullPkg then newPkg else oldPkg;
      (match pkg
       case Pkg(Str(s)) => Some(s)
       case _ => None)
    case _ => None
  }

  /** The name read through a package pointer, if one could be read. */
  function PackageName(p: PkgPtr): Option<string> {
    if p.Pkg? && p.name.Str? then Some(p.name.s) else None
  }

  /** The new package wins whenever its pointer is non-null, even when reading it fails, and
      the old one is consulted only when the new pointer is null; so null comes back when
      both are null, and whenever the event itself cannot be read. */
  lemma ReadPackageNamePrefersNew(e: EventPtr)
    ensures !e.Event? ==> ReadPackageNameFromEvent(e).None?
    ensures e.Event? && e.newPkg != NullPkg ==> ReadPackageNameFromEvent(e) == PackageName(e.newPkg)
    ensures e.Event? && e.newPkg == NullPkg ==> ReadPackageNameFromEvent(e) == PackageName(e.oldPkg)
    ensures e.Event? && e.newPkg == NullPkg && e.oldPkg == NullPkg ==> ReadPackageNameFromEvent(e).None?
  {
  }
}
