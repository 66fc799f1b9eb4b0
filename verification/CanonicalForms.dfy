/** What canonical form is and which records have one, column by column. */
module CanonicalForms {
  import opened Basics
  import opened Text
  import opened Utf8
  import opened Records

  /** The levels from least to most restrictive; of two, the more restrictive is kept. */
  lemma Levels(a: Sensitivity, b: Sensitivity)
    ensures Public.Rank() < Personal.Rank() < Private.Rank() < Secret.Rank() < Ephemeral.Rank()
    ensures a.MostRestrictive(b) in {a, b}
    ensures a.MostRestrictive(b).Rank() >= a.Rank() && a.MostRestrictive(b).Rank() >= b.Rank()
  {
  }

  predicate HasOwnKey(a: Address) {
    a.scopeKey.Some? && Trim(a.scopeKey.value) != []
  }

  predicate InRange(x: real) {
    !(x < 0.0) && !(x > 1.0)
  }

  predicate Backwards(r: Record) {
    r.validFrom.Some? && r.validUntil.Some? && r.validUntil.value < r.validFrom.value
  }

  /** A record has a canonical form exactly when it passes every one of these checks. */
  lemma CanonicalOkIff(rules: LibraryRules, r: Record)
    ensures Canonicalized(rules, r).Ok? <==>
            && Trim(r.address.namespace) != [] && Trim(r.address.workspace) != [] && Trim(r.content) != []
            && (r.address.scope.Conversation? ==> HasOwnKey(r.address))
            && InRange(r.importance) && InRange(r.confidence)
            && rules.jsonObject(r.metadata)
            && !Backwards(r)
            && r.access.count <= 9223372036854775807
  {
    hide Trim, DerivedOf;
  }

  /** The error names the first check that fails, in this order. */
  lemma FirstFault(rules: LibraryRules, r: Record)
    ensures var c := Canonicalized(rules, r);
            if Trim(r.address.namespace) == [] then c == Err(EmptyNamespace)
            else if Trim(r.address.workspace) == [] then c == Err(EmptyWorkspace)
            else if !InRange(r.importance) || !InRange(r.confidence) then c == Err(ScoreOutOfRange)
            else if !rules.jsonObject(r.metadata) then c == Err(BadMetadata)
            else if Trim(r.content) == [] then c == Err(EmptyContent)
            else if r.address.scope.Conversation? && !HasOwnKey(r.address) then c == Err(MissingScopeKey)
            else if Backwards(r) then c == Err(InvalidInterval)
            else c.Err? ==> c == Err(CountOutOfRange)
  {
    hide Trim, DerivedOf;
  }

  /** Everything global shares one workspace, only a conversation has a key, names and content are trimmed, four columns follow the
      content, and nothing else changes. */
  lemma CanonicalIs(rules: LibraryRules, r: Record)
    requires Canonicalized(rules, r).Ok?
    ensures var c := Canonicalized(rules, r).value;
            && c.content == Trim(r.content)
            && c.address.namespace == Trim(r.address.namespace) && c.address.scope == r.address.scope
            && (r.address.scope.Global? ==> c.address.workspace == "global" && c.address.scopeKey.None?)
            && (r.address.scope.Workspace? ==> c.address.workspace == Trim(r.address.workspace) && c.address.scopeKey.None?)
            && (r.address.scope.Conversation? ==>
                  r.address.scopeKey.Some? && c.address.workspace == Trim(r.address.workspace)
                  && c.address.scopeKey == Some(Trim(r.address.scopeKey.value)))
            && c.derived.normalized == Join(Words(rules, c.content)) && c.derived.contentHash == Sha256(c.derived.normalized)
            && c.derived.gist == Gist(c.content, 180) && c.derived.tokensEst == Tokens(c.content)
            && c == r.(address := c.address, content := c.content, derived := c.derived)
  {
    hide Trim, Gist, Tokens, Words, Join;
  }

  /** The triggers refuse a row that ends before it begins, has a score outside 0..1, or is a conversation's without a key. */
  lemma ConstraintsIff(r: Record)
    ensures ConstraintsOk(r) <==>
            && !Backwards(r) && InRange(r.importance) && InRange(r.confidence)
            && (r.address.scope.Conversation? ==>
                  r.address.scopeKey.Some? && exists i :: 0 <= i < |r.address.scopeKey.value| && r.address.scopeKey.value[i] != ' ')
  {
  }
}
