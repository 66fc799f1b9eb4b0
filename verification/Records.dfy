/** Memory records and the canonical form in which they are stored. */
module Records {
  import opened Basics
  import opened Text
  import opened Utf8

  const GLOBAL: string := "global"

  const GIST_CHARS: nat := 180
  const MAX_COUNT: nat := 0x7FFF_FFFF_FFFF_FFFF

  type MemoryId = string

  datatype Kind =
    | UserPreference | ProjectRule | ArchitectureDecision | TechnicalFact | WorkingPattern | FailedApproach
    | OpenIssue | ProjectState | Episodic | PersonalFact | Routine

  datatype Sensitivity = Public | Personal | Private | Secret | Ephemeral {
    function Rank(): nat {
      match this
      case Public => 0
      case Personal => 1
      case Private => 2
      case Secret => 3
      case Ephemeral => 4
    }

    function MostRestrictive(other: Sensitivity): Sensitivity {
      if Rank() >= other.Rank() then this else other
    }
  }

  datatype Scope = Global | Workspace | Conversation

  datatype Status = Active | Superseded | Archived | Candidate

  /** Where a memory lives and who can see it. */
  datatype Address = Address(namespace: string, workspace: string, scope: Scope, scopeKey: Option<string>)

  /** The columns computed from the content. */
  datatype Derived = Derived(normalized: string, contentHash: ContentHash, gist: string, tokensEst: nat)

  /** The columns that reading changes. */
  datatype Access = Access(lastAt: Option<int>, count: nat)

  datatype Record = Record(
    id: MemoryId,
    address: Address,
    kind: Kind,
    content: string,
    derived: Derived,
    status: Status,
    sensitivity: Sensitivity,
    importance: real,
    confidence: real,
    createdAt: int,
    updatedAt: int,
    access: Access,
    validFrom: Option<int>,
    validUntil: Option<int>,
    supersedesId: Option<MemoryId>,
    pinned: bool,
    metadata: string)

  function Coalesce(key: Option<string>): string {
    if key.Some? then key.value else ""
  }

  predicate IntervalOk(r: Record) {
    r.validFrom.Some? && r.validUntil.Some? ==> r.validFrom.value <= r.validUntil.value
  }

  predicate ScoresOk(r: Record) {
    0.0 <= r.importance <= 1.0 && 0.0 <= r.confidence <= 1.0
  }

  predicate IsValidAt(r: Record, at: int) {
    && (r.validFrom.Some? ==> r.validFrom.value <= at)
    && (r.validUntil.Some? ==> r.validUntil.value > at)
  }

  // ---------- canonical form ----------

  function DerivedOf(rules: LibraryRules, content: string): Derived {
    var normalized := Normalized(rules, content);
    Derived(normalized, Sha256(normalized), Gist(content, GIST_CHARS), Tokens(content))
  }

  function TrimKey(key: Option<string>): Option<string> {
    if key.Some? && Trim(key.value) != [] then Some(Trim(key.value)) else None
  }

  datatype Invalid =
    EmptyNamespace | EmptyWorkspace | MissingScopeKey | ScoreOutOfRange | BadMetadata | EmptyContent | InvalidInterval | CountOutOfRange

  /** The trimmed address, with the key dropped outside conversations and one shared workspace for
      everything global. */
  function CanonicalAddress(a: Address): Result<Address, Invalid> {
    var namespace, workspace, key := Trim(a.namespace), Trim(a.workspace), TrimKey(a.scopeKey);
    if namespace == [] then Err(EmptyNamespace)
    else if workspace == [] then Err(EmptyWorkspace)
    else if a.scope.Conversation? && key.None? then Err(MissingScopeKey)
    else
      Ok(Address(namespace, if a.scope.Global? then GLOBAL else workspace, a.scope,
                 if a.scope.Conversation? then key else None))
  }

  /** `canonicalized_for_storage`. */
  function Canonicalized(rules: LibraryRules, r: Record): Result<Record, Invalid> {
    var address, content := CanonicalAddress(r.address), Trim(r.content);
    if address.Err? && !address.error.MissingScopeKey? then Err(address.error)
    else if !ScoresOk(r) then Err(ScoreOutOfRange)
    else if !rules.jsonObject(r.metadata) then Err(BadMetadata)
    else if content == [] then Err(EmptyContent)
    else if address.Err? then Err(address.error)
    else if !IntervalOk(r) then Err(InvalidInterval)
    else if r.access.count > MAX_COUNT then Err(CountOutOfRange)
    else Ok(r.(address := address.value, content := content, derived := DerivedOf(rules, content)))
  }

  /** A row is tied to the one revision counter that every reader who can see it sums. */
  predicate AddressOk(a: Address) {
    && (a.scope.Global? ==> a.workspace == GLOBAL)
    && (a.scope.Conversation? <==> a.scopeKey.Some?)
    && (a.scopeKey.Some? ==> !Blank(a.scopeKey.value))
  }

  predicate Blank(s: string) {
    forall i :: 0 <= i < |s| ==> s[i] == ' '
  }

  /** The validation triggers. */
  predicate ConstraintsOk(r: Record) {
    && IntervalOk(r) && ScoresOk(r)
    && (r.address.scope.Conversation? ==> r.address.scopeKey.Some? && !Blank(r.address.scopeKey.value))
  }

  /** What every stored row satisfies. */
  predicate RowOk(rules: LibraryRules, r: Record) {
    ConstraintsOk(r) && AddressOk(r.address) && r.derived == DerivedOf(rules, r.content)
  }

  lemma CanonicalAddressOk(a: Address)
    requires CanonicalAddress(a).Ok?
    ensures AddressOk(CanonicalAddress(a).value)
  {
    var key := CanonicalAddress(a).value.scopeKey;
    if key.Some? {
      TrimTrims(a.scopeKey.value);
    }
    assert key.Some? ==> key.value[0] != ' ';
  }

  lemma CanonicalRowOk(rules: LibraryRules, r: Record)
    requires Canonicalized(rules, r).Ok?
    ensures RowOk(rules, Canonicalized(rules, r).value)
  {
    CanonicalAddressOk(r.address);
  }

  predicate AddressTrimmed(a: Address) {
    && a.namespace != [] && Trimmed(a.namespace) && a.workspace != [] && Trimmed(a.workspace)
    && (a.scopeKey.Some? ==> a.scopeKey.value != [] && Trimmed(a.scopeKey.value))
  }

  lemma CanonicalAddressTrimmed(a: Address)
    requires CanonicalAddress(a).Ok?
    ensures AddressTrimmed(CanonicalAddress(a).value)
  {
    TrimTrims(a.namespace);
    TrimTrims(a.workspace);
    if a.scopeKey.Some? {
      TrimTrims(a.scopeKey.value);
    }
  }

  lemma AddressFixed(a: Address)
    requires AddressOk(a) && AddressTrimmed(a)
    ensures CanonicalAddress(a) == Ok(a)
  {
    TrimTrims(a.namespace);
    TrimTrims(a.workspace);
    if a.scopeKey.Some? {
      TrimTrims(a.scopeKey.value);
    }
  }

  lemma RecordFixed(rules: LibraryRules, r: Record)
    requires RowOk(rules, r) && CanonicalAddress(r.address) == Ok(r.address) && r.access.count <= MAX_COUNT
    requires r.content != [] && Trim(r.content) == r.content && rules.jsonObject(r.metadata)
    ensures Canonicalized(rules, r) == Ok(r)
  {
  }

  /** Canonical form is a fixed point. */
  lemma CanonicalIdempotent(rules: LibraryRules, r: Record)
    requires Canonicalized(rules, r).Ok?
    ensures Canonicalized(rules, Canonicalized(rules, r).value) == Canonicalized(rules, r)
  {
    var c := Canonicalized(rules, r).value;
    CanonicalRowOk(rules, r);
    CanonicalAddressTrimmed(r.address);
    AddressFixed(c.address);
    TrimTrims(r.content);
    TrimTrims(c.content);
    RecordFixed(rules, c);
  }

  /** The partial unique index: an active row's identity. */
  datatype Identity = Identity(namespace: string, workspace: string, scope: Scope, scopeKey: string, kind: Kind, contentHash: ContentHash)

  function IdentityOf(r: Record): Identity {
    Identity(r.address.namespace, r.address.workspace, r.address.scope, Coalesce(r.address.scopeKey), r.kind, r.derived.contentHash)
  }

  /** Two rows the partial unique index will not hold together. */
  predicate Twins(a: Record, b: Record) {
    a.status.Active? && b.status.Active? && IdentityOf(a) == IdentityOf(b)
  }

  type Rows = map<MemoryId, Record>

  ghost predicate RowsKeyed(rows: Rows) {
    forall id :: id in rows ==> rows[id].id == id
  }

  ghost predicate ActiveUnique(rows: Rows) {
    forall a, b :: a in rows && b in rows && Twins(rows[a], rows[b]) ==> a == b
  }

  /** SQL's `CASE WHEN valid_until IS NULL OR valid_until > now THEN now ELSE valid_until END`. */
  function ClosedAt(until: Option<int>, now: int): Option<int> {
    if until.None? || until.value > now then Some(now) else until
  }

  /** A row that starts in the future cannot be closed now: the interval trigger aborts. */
  lemma ClosingNeedsPastStart(r: Record, now: int)
    requires IntervalOk(r)
    ensures IntervalOk(r.(validUntil := ClosedAt(r.validUntil, now))) <==> !(r.validFrom.Some? && r.validFrom.value > now)
  {
  }
}
