/** Decoders for the untagged responses of the IMAP ACL extension (RFC 4314
    sections 3.6 to 3.8, grammar in section 7):

      acl-data        = "ACL" SP mailbox 1*(SP identifier SP rights)
      listrights-data = "LISTRIGHTS" SP mailbox SP identifier SP rights *(SP rights)
      myrights-data   = "MYRIGHTS" SP mailbox SP rights

    The keyword is matched without regard to letter case together with exactly
    one following space; every later separator is nom's `space1`, which takes
    any non-empty run of spaces and tabs. */
module AclCodec {
  import opened Bytes
  import opened AclTypes
  import opened Parsing

  const ACL_TAG: seq<byte> := Ascii("ACL ")
  const LISTRIGHTS_TAG: seq<byte> := Ascii("LISTRIGHTS ")
  const MYRIGHTS_TAG: seq<byte> := Ascii("MYRIGHTS ")

  /** `s` opens with a separator run followed by the first byte of an atom. */
  predicate StartsWithSpacedAtom(s: seq<byte>) {
    |s| > 0 && IsBlank(s[0]) &&
    var n := SpanLen(s, Blank);
    n < |s| && IsAstringChar(s[n])
  }

  /** `preceded(space1, astring)`: a separator run, then one astring. */
  function SpacedAstring(s: seq<byte>): (r: ParseResult<AString>)
    ensures r.Success? <==> StartsWithSpacedAtom(s)
    ensures r.Success? ==>
              IsAtom(r.value.bytes) && IsProperSuffix(r.remaining, s) &&
              EndsToken(r.remaining)
  {
    match Space1(s)
    case Failure => Failure
    case Success(rest, _) =>
      var r := Astring(rest);
      if r.Failure? then r else
        SuffixTransitive(r.remaining, rest, s);
        r
  }

  /** `acl_entry`: `identifier SP rights`, the separator again being `space1`. */
  function AclEntryOf(s: seq<byte>): (r: ParseResult<AclEntry>)
    ensures r.Success? ==> |s| > 0 && IsAstringChar(s[0])
    ensures r.Success? ==>
              IsAtom(r.value.identifier.bytes) && IsAtom(r.value.rights.bytes) &&
              IsProperSuffix(r.remaining, s)
  {
    match Astring(s)
    case Failure => Failure
    case Success(afterIdentifier, identifier) =>
      match SpacedAstring(afterIdentifier)
      case Failure => Failure
      case Success(remaining, rights) =>
        SuffixTransitive(remaining, afterIdentifier, s);
        Success(remaining, AclEntry(identifier, rights))
  }

  /** `preceded(space1, acl_entry)`: one repetition of the ACL response's tail. */
  function SpacedAclEntry(s: seq<byte>): (r: ParseResult<AclEntry>)
    ensures r.Success? ==> StartsWithSpacedAtom(s)
    ensures r.Success? ==>
              IsProperSuffix(r.remaining, s) &&
              IsAtom(r.value.identifier.bytes) && IsAtom(r.value.rights.bytes)
  {
    match Space1(s)
    case Failure => Failure
    case Success(rest, _) =>
      var r := AclEntryOf(rest);
      if r.Failure? then r else
        SuffixTransitive(r.remaining, rest, s);
        r
  }

  /** `acl_entry` on an identifier followed by a separated rights token. */
  lemma AclEntryOfSteps(s: seq<byte>, identifier: AString, afterIdentifier: seq<byte>, rights: AString, t: seq<byte>)
    requires Astring(s) == Success(afterIdentifier, identifier)
    requires SpacedAstring(afterIdentifier) == Success(t, rights)
    ensures AclEntryOf(s) == Success(t, AclEntry(identifier, rights))
  {
  }

  /** `preceded(space1, acl_entry)` once `space1` has succeeded. */
  lemma SpacedAclEntrySteps(s: seq<byte>, w: seq<byte>, rest: seq<byte>)
    requires Space1(s) == Success(rest, w)
    ensures SpacedAclEntry(s) == AclEntryOf(rest)
  {
  }

  /** Both element parsers make progress, so `many0`/`many1` over them terminate. */
  lemma ElementParsersConsume()
    ensures Consumes(SpacedAstring)
    ensures Consumes(SpacedAclEntry)
  {
  }

  /** Every value `many0(p)` collects is one that `p` can produce, so a property
      of all of `p`'s results holds of each collected value. */
  lemma {:induction false} Many0Values<T>(p: seq<byte> -> ParseResult<T>, s: seq<byte>, valid: T -> bool)
    requires Consumes(p)
    requires forall t :: p(t).Success? ==> valid(p(t).value)
    ensures forall i | 0 <= i < |Many0(p, s).0| :: valid(Many0(p, s).0[i])
    decreases |s|
  {
    match p(s)
    case Failure =>
    case Success(rest, v) =>
      Many0Values(p, rest, valid);
  }

  /** The keyword and the mailbox are consumed before the rest: what is left
      at the end is a proper suffix of the whole input. */
  lemma ConsumedSoFar(s: seq<byte>, afterTag: seq<byte>, afterMailbox: seq<byte>, rest: seq<byte>)
    requires IsProperSuffix(afterTag, s)
    requires MailboxName(afterTag).Success? && MailboxName(afterTag).remaining == afterMailbox
    requires IsSuffix(rest, afterMailbox)
    ensures IsProperSuffix(rest, s)
  {
    ConcatSuffix(MailboxName(afterTag).value.name, afterMailbox);
    SuffixTransitive(rest, afterMailbox, afterTag);
    SuffixTransitive(rest, afterTag, s);
  }

  predicate IsAtomEntry(e: AclEntry) {
    IsAtom(e.identifier.bytes) && IsAtom(e.rights.bytes)
  }

  predicate IsAtomRights(a: AString) {
    IsAtom(a.bytes)
  }

  /** The entry list of an `ACL` response: one or more entries, each after a
      separator run, collected until the next one fails. */
  function AclEntries(s: seq<byte>): (r: ParseResult<seq<AclEntry>>)
    ensures r.Success? <==> SpacedAclEntry(s).Success?
    ensures r.Success? ==> |r.value| >= 1 && forall i | 0 <= i < |r.value| :: IsAtomEntry(r.value[i])
    ensures r.Success? ==> IsProperSuffix(r.remaining, s) && SpacedAclEntry(r.remaining).Failure?
  {
    ElementParsersConsume();
    Many0Values(SpacedAclEntry, s, IsAtomEntry);
    Many1(SpacedAclEntry, s)
  }

  /** `acl_response`: the keyword `ACL ` in any letter case, a mailbox, then one
      or more `identifier rights` pairs, each preceded by a separator run. */
  function AclResponse(s: seq<byte>): (r: ParseResult<Data>)
    ensures r.Success? ==> |s| >= |ACL_TAG| && IsCaseVariant(s[..|ACL_TAG|], ACL_TAG)
    ensures r.Success? ==> r.value.Acl? && |r.value.entries| >= 1
    ensures r.Success? ==> IsAtom(r.value.mailbox.name)
    ensures r.Success? ==> forall i | 0 <= i < |r.value.entries| :: IsAtomEntry(r.value.entries[i])
    ensures r.Success? ==> IsProperSuffix(r.remaining, s) && SpacedAclEntry(r.remaining).Failure?
  {
    match TagNoCase(ACL_TAG, s)
    case Failure => Failure
    case Success(afterTag, _) =>
      match MailboxName(afterTag)
      case Failure => Failure
      case Success(afterMailbox, mailbox) =>
        match AclEntries(afterMailbox)
        case Failure => Failure
        case Success(remaining, entries) =>
          ConsumedSoFar(s, afterTag, afterMailbox, remaining);
          Success(remaining, AclData(mailbox, entries))
  }

  /** The optional rights of a `LISTRIGHTS` response: zero or more rights
      tokens, each after a separator run, collected until the next one fails. */
  function OptionalRights(s: seq<byte>): (r: (seq<AString>, seq<byte>))
    ensures IsSuffix(r.1, s) && SpacedAstring(r.1).Failure?
    ensures r.0 == [] <==> r.1 == s
    ensures r.0 == [] <==> SpacedAstring(s).Failure?
    ensures forall i | 0 <= i < |r.0| :: IsAtomRights(r.0[i])
  {
    ElementParsersConsume();
    Many0Values(SpacedAstring, s, IsAtomRights);
    Many0(SpacedAstring, s)
  }

  /** What follows the mailbox in a `LISTRIGHTS` response: an identifier, one
      required rights token, then zero or more optional ones, each token after
      a separator run. */
  function ListRightsTokens(s: seq<byte>): (r: ParseResult<(AString, AString, seq<AString>)>)
    ensures r.Success? ==> StartsWithSpacedAtom(s)
    ensures r.Success? ==>
              IsAtom(r.value.0.bytes) && IsAtom(r.value.1.bytes) &&
              forall i | 0 <= i < |r.value.2| :: IsAtomRights(r.value.2[i])
    ensures r.Success? ==> IsProperSuffix(r.remaining, s) && SpacedAstring(r.remaining).Failure?
  {
    match SpacedAstring(s)
    case Failure => Failure
    case Success(afterIdentifier, identifier) =>
      match SpacedAstring(afterIdentifier)
      case Failure => Failure
      case Success(afterRequired, required) =>
        var optional := OptionalRights(afterRequired);
        SuffixTransitive(afterRequired, afterIdentifier, s);
        SuffixTransitive(optional.1, afterRequired, s);
        Success(optional.1, (identifier, required, optional.0))
  }

  /** `listrights_response`: the keyword `LISTRIGHTS ` in any letter case, a
      mailbox, an identifier, one required rights token, then zero or more
      optional rights tokens. */
  function ListRightsResponse(s: seq<byte>): (r: ParseResult<Data>)
    ensures r.Success? ==> |s| >= |LISTRIGHTS_TAG| && IsCaseVariant(s[..|LISTRIGHTS_TAG|], LISTRIGHTS_TAG)
    ensures r.Success? ==> r.value.ListRights?
    ensures r.Success? ==>
              IsAtom(r.value.mailbox.name) && IsAtom(r.value.identifier.bytes) &&
              IsAtom(r.value.required.bytes) &&
              forall i | 0 <= i < |r.value.optional| :: IsAtomRights(r.value.optional[i])
    ensures r.Success? ==> IsProperSuffix(r.remaining, s) && SpacedAstring(r.remaining).Failure?
  {
    match TagNoCase(LISTRIGHTS_TAG, s)
    case Failure => Failure
    case Success(afterTag, _) =>
      match MailboxName(afterTag)
      case Failure => Failure
      case Success(afterMailbox, mailbox) =>
        match ListRightsTokens(afterMailbox)
        case Failure => Failure
        case Success(remaining, (identifier, required, optional)) =>
          ConsumedSoFar(s, afterTag, afterMailbox, remaining);
          Success(remaining, ListRightsData(mailbox, identifier, required, optional))
  }

  /** `myrights_response`: the keyword `MYRIGHTS ` in any letter case, a
      mailbox, and exactly one rights token; anything after it is left over. */
  function MyRightsResponse(s: seq<byte>): (r: ParseResult<Data>)
    ensures r.Success? ==> |s| >= |MYRIGHTS_TAG| && IsCaseVariant(s[..|MYRIGHTS_TAG|], MYRIGHTS_TAG)
    ensures r.Success? ==> r.value.MyRights?
    ensures r.Success? ==> IsAtom(r.value.mailbox.name) && IsAtom(r.value.rights.bytes)
    ensures r.Success? ==>
              IsProperSuffix(r.remaining, s) &&
              EndsToken(r.remaining)
  {
    match TagNoCase(MYRIGHTS_TAG, s)
    case Failure => Failure
    case Success(afterTag, _) =>
      match MailboxName(afterTag)
      case Failure => Failure
      case Success(afterMailbox, mailbox) =>
        match SpacedAstring(afterMailbox)
        case Failure => Failure
        case Success(remaining, rights) =>
          ConsumedSoFar(s, afterTag, afterMailbox, remaining);
          Success(remaining, MyRightsData(mailbox, rights))
  }

  // ---------------------------------------------------------------------------
  // The element lists in terms of `many0`, for the proofs about the wire

  lemma AclEntriesIsMany1(s: seq<byte>)
    requires SpacedAclEntry(s).Success?
    ensures Consumes(SpacedAclEntry)
    ensures AclEntries(s) == Success(Many0(SpacedAclEntry, s).1, Many0(SpacedAclEntry, s).0)
  {
    ElementParsersConsume();
  }

  lemma OptionalRightsIsMany0(s: seq<byte>)
    ensures Consumes(SpacedAstring)
    ensures OptionalRights(s) == Many0(SpacedAstring, s)
  {
    ElementParsersConsume();
  }

  // ---------------------------------------------------------------------------
  // The response parsers, one step at a time

  lemma AclResponseSteps(s: seq<byte>, afterTag: seq<byte>, keyword: seq<byte>, afterMailbox: seq<byte>,
                         mailbox: Mailbox, remaining: seq<byte>, entries: seq<AclEntry>)
    requires TagNoCase(ACL_TAG, s) == Success(afterTag, keyword)
    requires MailboxName(afterTag) == Success(afterMailbox, mailbox)
    requires AclEntries(afterMailbox) == Success(remaining, entries)
    ensures AclResponse(s) == Success(remaining, Acl(mailbox, entries))
  {
  }

  lemma ListRightsTokensSteps(s: seq<byte>, afterIdentifier: seq<byte>, identifier: AString,
                              afterRequired: seq<byte>, required: AString, optional: seq<AString>, remaining: seq<byte>)
    requires SpacedAstring(s) == Success(afterIdentifier, identifier)
    requires SpacedAstring(afterIdentifier) == Success(afterRequired, required)
    requires OptionalRights(afterRequired) == (optional, remaining)
    ensures ListRightsTokens(s) == Success(remaining, (identifier, required, optional))
  {
    var r := ListRightsTokens(s);
    assert r == Success(remaining, (identifier, required, optional));
  }

  lemma ListRightsResponseSteps(s: seq<byte>, afterTag: seq<byte>, keyword: seq<byte>, afterMailbox: seq<byte>, mailbox: Mailbox,
                                remaining: seq<byte>, identifier: AString, required: AString, optional: seq<AString>)
    requires TagNoCase(LISTRIGHTS_TAG, s) == Success(afterTag, keyword)
    requires MailboxName(afterTag) == Success(afterMailbox, mailbox)
    requires ListRightsTokens(afterMailbox) == Success(remaining, (identifier, required, optional))
    ensures ListRightsResponse(s) == Success(remaining, Data.ListRights(mailbox, identifier, required, optional))
  {
  }

  lemma ListRightsTokensNeedsRequired(s: seq<byte>, afterIdentifier: seq<byte>, identifier: AString)
    requires SpacedAstring(s) == Success(afterIdentifier, identifier)
    ensures ListRightsTokens(s).Failure? <==> SpacedAstring(afterIdentifier).Failure?
  {
  }

  lemma ListRightsResponseNeedsTokens(s: seq<byte>, afterTag: seq<byte>, keyword: seq<byte>, afterMailbox: seq<byte>,
                                      mailbox: Mailbox)
    requires TagNoCase(LISTRIGHTS_TAG, s) == Success(afterTag, keyword)
    requires MailboxName(afterTag) == Success(afterMailbox, mailbox)
    ensures ListRightsResponse(s).Failure? <==> ListRightsTokens(afterMailbox).Failure?
  {
  }

  lemma MyRightsResponseSteps(s: seq<byte>, afterTag: seq<byte>, keyword: seq<byte>, afterMailbox: seq<byte>,
                              mailbox: Mailbox, remaining: seq<byte>, rights: AString)
    requires TagNoCase(MYRIGHTS_TAG, s) == Success(afterTag, keyword)
    requires MailboxName(afterTag) == Success(afterMailbox, mailbox)
    requires SpacedAstring(afterMailbox) == Success(remaining, rights)
    ensures MyRightsResponse(s) == Success(remaining, Data.MyRights(mailbox, rights))
  {
  }
}
