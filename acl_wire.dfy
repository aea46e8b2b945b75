/** The wire text of the three ACL responses as RFC 4314 section 7 lays them
    out, and the proofs that each decoder reads that text back: parse-of-print
    for every well-formed value, the keyword and separator rules, and the
    responses a missing token makes fail. Each printer takes the bytes `rest`
    that follow the response on the wire, so that what the decoder leaves over
    can be stated exactly. */
module AclWire {
  import opened Bytes
  import opened AclTypes
  import opened Parsing
  import opened AclCodec

  // ---------------------------------------------------------------------------
  // Printing per the grammar. Every gap after the keyword (SP in the RFC) is a
  // separator run of its own, since the decoders read each one with `space1`.

  /** The two gaps of one ACL entry: before its identifier and before its rights. */
  datatype EntryGaps = EntryGaps(beforeIdentifier: seq<byte>, beforeRights: seq<byte>)

  predicate IsEntryGaps(g: EntryGaps) {
    IsSeparator(g.beforeIdentifier) && IsSeparator(g.beforeRights)
  }

  predicate AllEntryGaps(gaps: seq<EntryGaps>) {
    forall i | 0 <= i < |gaps| :: IsEntryGaps(gaps[i])
  }

  predicate AllSeparators(seps: seq<seq<byte>>) {
    forall i | 0 <= i < |seps| :: IsSeparator(seps[i])
  }

  /** Each entry as `gap identifier gap rights` with its own gaps, in order, then `rest`. */
  function EntriesThen(gaps: seq<EntryGaps>, entries: seq<AclEntry>, rest: seq<byte>): seq<byte>
    requires |gaps| == |entries|
  {
    if entries == [] then rest
    else
      gaps[0].beforeIdentifier + (entries[0].identifier.bytes +
      (gaps[0].beforeRights + (entries[0].rights.bytes + EntriesThen(gaps[1..], entries[1..], rest))))
  }

  /** Each rights token as `sep rights` with its own separator, in order, then `rest`. */
  function RightsThen(seps: seq<seq<byte>>, rights: seq<AString>, rest: seq<byte>): seq<byte>
    requires |seps| == |rights|
  {
    if rights == [] then rest else seps[0] + (rights[0].bytes + RightsThen(seps[1..], rights[1..], rest))
  }

  /** `"ACL" SP mailbox 1*(SP identifier SP rights)`, the keyword spelt `tag`. */
  function AclText(tag: seq<byte>, mailbox: Mailbox, gaps: seq<EntryGaps>, entries: seq<AclEntry>, rest: seq<byte>): seq<byte>
    requires |gaps| == |entries|
  {
    tag + (mailbox.name + EntriesThen(gaps, entries, rest))
  }

  /** `"LISTRIGHTS" SP mailbox SP identifier SP rights *(SP rights)`. */
  function ListRightsText(tag: seq<byte>, mailbox: Mailbox, beforeIdentifier: seq<byte>, identifier: AString,
                          beforeRequired: seq<byte>, required: AString, seps: seq<seq<byte>>, optional: seq<AString>,
                          rest: seq<byte>): seq<byte>
    requires |seps| == |optional|
  {
    tag + (mailbox.name + (beforeIdentifier + (identifier.bytes + (beforeRequired + (required.bytes + RightsThen(seps, optional, rest))))))
  }

  /** `"MYRIGHTS" SP mailbox SP rights`. */
  function MyRightsText(tag: seq<byte>, mailbox: Mailbox, sep: seq<byte>, rights: AString, rest: seq<byte>): seq<byte>
  {
    tag + (mailbox.name + (sep + (rights.bytes + rest)))
  }

  /** After the last token, `rest` neither extends it nor begins another
      separated token: end of input, CRLF, or a separator run with nothing
      token-like after it. */
  predicate EndsResponse(rest: seq<byte>) {
    EndsToken(rest) && !StartsWithSpacedAtom(rest)
  }

  /** After the last entry, `rest` neither extends its rights token nor holds
      a whole separated entry: `many1` stops there. A separated identifier
      without rights, which `many1` gives back, is allowed. */
  predicate EndsEntries(rest: seq<byte>) {
    EndsToken(rest) && SpacedAclEntry(rest).Failure?
  }

  predicate AllAtomEntries(entries: seq<AclEntry>) {
    forall i | 0 <= i < |entries| :: IsAtomEntry(entries[i])
  }

  predicate AllAtomRights(rights: seq<AString>) {
    forall i | 0 <= i < |rights| :: IsAtomRights(rights[i])
  }

  lemma AllAtomEntriesSplit(entries: seq<AclEntry>)
    requires AllAtomEntries(entries) && entries != []
    ensures IsAtomEntry(entries[0]) && AllAtomEntries(entries[1..])
  {
  }

  lemma AllAtomRightsSplit(rights: seq<AString>)
    requires AllAtomRights(rights) && rights != []
    ensures IsAtomRights(rights[0]) && AllAtomRights(rights[1..])
  {
  }

  // ---------------------------------------------------------------------------
  // One token at a time

  /** A separator never extends a token. */
  lemma SeparatorEndsToken(sep: seq<byte>, t: seq<byte>)
    requires IsSeparator(sep)
    ensures EndsToken(sep + t)
  {
    assert (sep + t)[0] == sep[0];
  }

  /** An atom is not a blank run's continuation. */
  lemma AtomEndsBlanks(a: seq<byte>, t: seq<byte>)
    requires IsAtom(a)
    ensures (a + t)[0] == a[0] && !IsBlank((a + t)[0])
  {
  }

  /** `space1` takes the whole separator run and `astring` the whole atom. */
  lemma SpacedAstringOfWire(sep: seq<byte>, a: AString, t: seq<byte>)
    requires IsSeparator(sep) && IsAtom(a.bytes) && EndsToken(t)
    ensures SpacedAstring(sep + (a.bytes + t)) == Success(t, a)
  {
    AtomEndsBlanks(a.bytes, t);
    Space1OfRun(sep, a.bytes + t);
    AstringOfAtom(a, t);
  }

  /** `identifier SP rights` preceded by a separator gives back the entry,
      whatever separator run stands in each of its two gaps. */
  lemma SpacedAclEntryOfWire(g: EntryGaps, e: AclEntry, t: seq<byte>)
    requires IsEntryGaps(g) && IsAtomEntry(e) && EndsToken(t)
    ensures SpacedAclEntry(g.beforeIdentifier + (e.identifier.bytes + (g.beforeRights + (e.rights.bytes + t))))
            == Success(t, e)
  {
    var afterIdentifier := g.beforeRights + (e.rights.bytes + t);
    var afterSep := e.identifier.bytes + afterIdentifier;
    AtomEndsBlanks(e.identifier.bytes, afterIdentifier);
    Space1OfRun(g.beforeIdentifier, afterSep);
    SpacedAclEntrySteps(g.beforeIdentifier + afterSep, g.beforeIdentifier, afterSep);
    SeparatorEndsToken(g.beforeRights, e.rights.bytes + t);
    AstringOfAtom(e.identifier, afterIdentifier);
    SpacedAstringOfWire(g.beforeRights, e.rights, t);
    AclEntryOfSteps(afterSep, e.identifier, afterIdentifier, e.rights, t);
  }

  // ---------------------------------------------------------------------------
  // The repetitions

  lemma AllEntryGapsSplit(gaps: seq<EntryGaps>)
    requires AllEntryGaps(gaps) && gaps != []
    ensures IsEntryGaps(gaps[0]) && AllEntryGaps(gaps[1..])
  {
  }

  lemma AllSeparatorsSplit(seps: seq<seq<byte>>)
    requires AllSeparators(seps) && seps != []
    ensures IsSeparator(seps[0]) && AllSeparators(seps[1..])
  {
  }

  /** One more printed entry in front of what `many0` already reads back. */
  lemma EntriesStep(gaps: seq<EntryGaps>, entries: seq<AclEntry>, rest: seq<byte>)
    requires |gaps| == |entries| && entries != []
    requires IsEntryGaps(gaps[0]) && IsAtomEntry(entries[0])
    requires EndsToken(EntriesThen(gaps[1..], entries[1..], rest))
    requires Many0(SpacedAclEntry, EntriesThen(gaps[1..], entries[1..], rest)) == (entries[1..], rest)
    ensures Many0(SpacedAclEntry, EntriesThen(gaps, entries, rest)) == (entries, rest)
  {
    ElementParsersConsume();
    var e := entries[0];
    var g := gaps[0];
    var tail := EntriesThen(gaps[1..], entries[1..], rest);
    var input := EntriesThen(gaps, entries, rest);
    assert input == g.beforeIdentifier + (e.identifier.bytes + (g.beforeRights + (e.rights.bytes + tail)));
    SpacedAclEntryOfWire(g, e, tail);
    Many0Step(SpacedAclEntry, input, e, tail);
    HeadTail(entries);
  }

  /** `many0(preceded(space1, acl_entry))` reads back every printed entry, in
      order, and stops where the response ends. */
  lemma {:induction false} EntriesParse(gaps: seq<EntryGaps>, entries: seq<AclEntry>, rest: seq<byte>)
    requires |gaps| == |entries| && AllEntryGaps(gaps) && AllAtomEntries(entries) && EndsEntries(rest)
    ensures Many0(SpacedAclEntry, EntriesThen(gaps, entries, rest)) == (entries, rest)
    ensures EndsToken(EntriesThen(gaps, entries, rest))
    decreases |entries|
  {
    if entries == [] {
      ElementParsersConsume();
      Many0Stop(SpacedAclEntry, rest);
    } else {
      AllEntryGapsSplit(gaps);
      AllAtomEntriesSplit(entries);
      EntriesParse(gaps[1..], entries[1..], rest);
      EntriesStep(gaps, entries, rest);
      var e := entries[0];
      SeparatorEndsToken(gaps[0].beforeIdentifier,
                         e.identifier.bytes + (gaps[0].beforeRights + (e.rights.bytes + EntriesThen(gaps[1..], entries[1..], rest))));
    }
  }

  /** `many0(preceded(space1, astring))` reads back every printed rights token. */
  lemma {:induction false} RightsParse(seps: seq<seq<byte>>, rights: seq<AString>, rest: seq<byte>)
    requires |seps| == |rights| && AllSeparators(seps) && AllAtomRights(rights) && EndsResponse(rest)
    ensures Many0(SpacedAstring, RightsThen(seps, rights, rest)) == (rights, rest)
    ensures EndsToken(RightsThen(seps, rights, rest))
    decreases |rights|
  {
    ElementParsersConsume();
    if rights == [] {
      Many0Stop(SpacedAstring, rest);
    } else {
      AllSeparatorsSplit(seps);
      AllAtomRightsSplit(rights);
      var tail := RightsThen(seps[1..], rights[1..], rest);
      assert RightsThen(seps, rights, rest) == seps[0] + (rights[0].bytes + tail);
      RightsParse(seps[1..], rights[1..], rest);
      SpacedAstringOfWire(seps[0], rights[0], tail);
      SeparatorEndsToken(seps[0], rights[0].bytes + tail);
      Many0Step(SpacedAstring, RightsThen(seps, rights, rest), rights[0], tail);
      HeadTail(rights);
    }
  }

  // ---------------------------------------------------------------------------
  // Parse of print

  /** Every well-formed `ACL` response, whatever the keyword's letter case and
      whichever separator run stands in each gap, decodes to its mailbox and
      its entries in order, leaving exactly what followed it, a half entry
      (a separated identifier without rights) included. */
  lemma AclParsesWire(tag: seq<byte>, mailbox: Mailbox, gaps: seq<EntryGaps>, entries: seq<AclEntry>, rest: seq<byte>)
    requires IsCaseVariant(tag, ACL_TAG) && IsAtom(mailbox.name)
    requires |gaps| == |entries| && AllEntryGaps(gaps)
    requires entries != [] && AllAtomEntries(entries) && EndsEntries(rest)
    ensures AclResponse(AclText(tag, mailbox, gaps, entries, rest)) == Success(rest, Acl(mailbox, entries))
  {
    var body := EntriesThen(gaps, entries, rest);
    TagNoCaseOfVariant(ACL_TAG, tag, mailbox.name + body);
    EntriesParse(gaps, entries, rest);
    AstringOfAtom(AString(mailbox.name), body);
    assert MailboxName(mailbox.name + body) == Success(body, mailbox);
    ElementParsersConsume();
    assert SpacedAclEntry(body).Success? by {
      if SpacedAclEntry(body).Failure? {
        Many0Stop(SpacedAclEntry, body);
      }
    }
    AclEntriesIsMany1(body);
    AclResponseSteps(AclText(tag, mailbox, gaps, entries, rest), mailbox.name + body, tag, body, mailbox, rest, entries);
  }

  /** Every well-formed `LISTRIGHTS` response, each gap its own separator run,
      decodes to its identifier, its required rights and its optional rights in
      order, the last possibly none. */
  lemma ListRightsParsesWire(tag: seq<byte>, mailbox: Mailbox, beforeIdentifier: seq<byte>, identifier: AString,
                             beforeRequired: seq<byte>, required: AString, seps: seq<seq<byte>>, optional: seq<AString>,
                             rest: seq<byte>)
    requires IsCaseVariant(tag, LISTRIGHTS_TAG) && IsAtom(mailbox.name)
    requires IsSeparator(beforeIdentifier) && IsSeparator(beforeRequired)
    requires |seps| == |optional| && AllSeparators(seps)
    requires IsAtom(identifier.bytes) && IsAtom(required.bytes) && AllAtomRights(optional)
    requires EndsResponse(rest)
    ensures ListRightsResponse(ListRightsText(tag, mailbox, beforeIdentifier, identifier, beforeRequired, required,
                                              seps, optional, rest))
            == Success(rest, Data.ListRights(mailbox, identifier, required, optional))
  {
    var others := RightsThen(seps, optional, rest);
    var afterIdentifier := beforeRequired + (required.bytes + others);
    var afterMailbox := beforeIdentifier + (identifier.bytes + afterIdentifier);
    TagNoCaseOfVariant(LISTRIGHTS_TAG, tag, mailbox.name + afterMailbox);
    SeparatorEndsToken(beforeIdentifier, identifier.bytes + afterIdentifier);
    AstringOfAtom(AString(mailbox.name), afterMailbox);
    assert MailboxName(mailbox.name + afterMailbox) == Success(afterMailbox, mailbox);
    SeparatorEndsToken(beforeRequired, required.bytes + others);
    SpacedAstringOfWire(beforeIdentifier, identifier, afterIdentifier);
    RightsParse(seps, optional, rest);
    SpacedAstringOfWire(beforeRequired, required, others);
    OptionalRightsIsMany0(others);
    ListRightsTokensSteps(afterMailbox, afterIdentifier, identifier, others, required, optional, rest);
    ListRightsResponseSteps(ListRightsText(tag, mailbox, beforeIdentifier, identifier, beforeRequired, required,
                                           seps, optional, rest),
                            mailbox.name + afterMailbox, tag, afterMailbox, mailbox,
                            rest, identifier, required, optional);
  }

  /** Every well-formed `MYRIGHTS` response decodes to its mailbox and its one
      rights token; whatever follows, further tokens included, is left over. */
  lemma MyRightsParsesWire(tag: seq<byte>, mailbox: Mailbox, sep: seq<byte>, rights: AString, rest: seq<byte>)
    requires IsCaseVariant(tag, MYRIGHTS_TAG) && IsSeparator(sep)
    requires IsAtom(mailbox.name) && IsAtom(rights.bytes) && EndsToken(rest)
    ensures MyRightsResponse(MyRightsText(tag, mailbox, sep, rights, rest)) == Success(rest, Data.MyRights(mailbox, rights))
  {
    var afterMailbox := sep + (rights.bytes + rest);
    TagNoCaseOfVariant(MYRIGHTS_TAG, tag, mailbox.name + afterMailbox);
    SeparatorEndsToken(sep, rights.bytes + rest);
    AstringOfAtom(AString(mailbox.name), afterMailbox);
    assert MailboxName(mailbox.name + afterMailbox) == Success(afterMailbox, mailbox);
    SpacedAstringOfWire(sep, rights, rest);
    MyRightsResponseSteps(MyRightsText(tag, mailbox, sep, rights, rest), mailbox.name + afterMailbox, tag,
                          afterMailbox, mailbox, rest, rights);
  }

  // ---------------------------------------------------------------------------
  // The keyword

  /** The keyword is matched without regard to ASCII letter case: any case
      variant of it gives the same result as the upper-case keyword. */
  lemma KeywordIgnoresCase(keyword: seq<byte>, t: seq<byte>)
    ensures IsCaseVariant(keyword, ACL_TAG) ==> AclResponse(keyword + t) == AclResponse(ACL_TAG + t)
    ensures IsCaseVariant(keyword, LISTRIGHTS_TAG) ==>
              ListRightsResponse(keyword + t) == ListRightsResponse(LISTRIGHTS_TAG + t)
    ensures IsCaseVariant(keyword, MYRIGHTS_TAG) ==> MyRightsResponse(keyword + t) == MyRightsResponse(MYRIGHTS_TAG + t)
  {
    if IsCaseVariant(keyword, ACL_TAG) {
      TagNoCaseOfVariant(ACL_TAG, keyword, t);
      TagNoCaseOfVariant(ACL_TAG, ACL_TAG, t);
    }
    if IsCaseVariant(keyword, LISTRIGHTS_TAG) {
      TagNoCaseOfVariant(LISTRIGHTS_TAG, keyword, t);
      TagNoCaseOfVariant(LISTRIGHTS_TAG, LISTRIGHTS_TAG, t);
    }
    if IsCaseVariant(keyword, MYRIGHTS_TAG) {
      TagNoCaseOfVariant(MYRIGHTS_TAG, keyword, t);
      TagNoCaseOfVariant(MYRIGHTS_TAG, MYRIGHTS_TAG, t);
    }
  }

  /** The space after the keyword is part of the keyword: the mailbox must
      follow it directly, so a second space or a tab there is rejected. */
  lemma KeywordTakesOneSpace(keyword: seq<byte>, t: seq<byte>)
    requires t != [] && IsBlank(t[0])
    ensures IsCaseVariant(keyword, ACL_TAG) ==> AclResponse(keyword + t).Failure?
    ensures IsCaseVariant(keyword, LISTRIGHTS_TAG) ==> ListRightsResponse(keyword + t).Failure?
    ensures IsCaseVariant(keyword, MYRIGHTS_TAG) ==> MyRightsResponse(keyword + t).Failure?
  {
    if IsCaseVariant(keyword, ACL_TAG) {
      TagNoCaseOfVariant(ACL_TAG, keyword, t);
    }
    if IsCaseVariant(keyword, LISTRIGHTS_TAG) {
      TagNoCaseOfVariant(LISTRIGHTS_TAG, keyword, t);
    }
    if IsCaseVariant(keyword, MYRIGHTS_TAG) {
      TagNoCaseOfVariant(MYRIGHTS_TAG, keyword, t);
    }
  }

  // ---------------------------------------------------------------------------
  // Missing tokens

  /** An `ACL` response needs at least one entry (`many1`): after the mailbox
      it fails exactly when no separated `identifier SP rights` pair can be
      read, e.g. for nothing token-like, or an identifier with no rights. */
  lemma AclNeedsAnEntry(tag: seq<byte>, mailbox: Mailbox, rest: seq<byte>)
    requires IsCaseVariant(tag, ACL_TAG) && IsAtom(mailbox.name) && EndsToken(rest)
    ensures AclResponse(tag + (mailbox.name + rest)).Failure? <==> SpacedAclEntry(rest).Failure?
  {
    TagNoCaseOfVariant(ACL_TAG, tag, mailbox.name + rest);
    AstringOfAtom(AString(mailbox.name), rest);
    assert MailboxName(mailbox.name + rest) == Success(rest, mailbox);
  }

  /** A separated identifier with no rights token after it is not an entry. */
  lemma IdentifierAloneIsNoEntry(sep: seq<byte>, identifier: AString, rest: seq<byte>)
    requires IsSeparator(sep) && IsAtom(identifier.bytes) && EndsResponse(rest)
    ensures SpacedAclEntry(sep + (identifier.bytes + rest)).Failure?
  {
    var afterSep := identifier.bytes + rest;
    AtomEndsBlanks(identifier.bytes, rest);
    Space1OfRun(sep, afterSep);
    SpacedAclEntrySteps(sep + afterSep, sep, afterSep);
    AstringOfAtom(identifier, rest);
  }

  /** `many1` gives back a half-read entry: an `ACL` response followed by a
      separated identifier without rights decodes as without it, and leaves
      that identifier over. */
  lemma AclLeavesHalfEntry(tag: seq<byte>, mailbox: Mailbox, gaps: seq<EntryGaps>, entries: seq<AclEntry>,
                           sep: seq<byte>, identifier: AString, rest: seq<byte>)
    requires IsCaseVariant(tag, ACL_TAG) && IsAtom(mailbox.name)
    requires |gaps| == |entries| && AllEntryGaps(gaps) && entries != [] && AllAtomEntries(entries)
    requires IsSeparator(sep) && IsAtom(identifier.bytes) && EndsResponse(rest)
    ensures AclResponse(AclText(tag, mailbox, gaps, entries, sep + (identifier.bytes + rest)))
            == Success(sep + (identifier.bytes + rest), Acl(mailbox, entries))
  {
    IdentifierAloneIsNoEntry(sep, identifier, rest);
    SeparatorEndsToken(sep, identifier.bytes + rest);
    AclParsesWire(tag, mailbox, gaps, entries, sep + (identifier.bytes + rest));
  }

  /** A `LISTRIGHTS` response needs the required rights token after the
      identifier: it fails exactly when no separated token follows it. */
  lemma ListRightsNeedsRequiredRights(tag: seq<byte>, sep: seq<byte>, mailbox: Mailbox, identifier: AString, rest: seq<byte>)
    requires IsCaseVariant(tag, LISTRIGHTS_TAG) && IsSeparator(sep)
    requires IsAtom(mailbox.name) && IsAtom(identifier.bytes) && EndsToken(rest)
    ensures ListRightsResponse(tag + (mailbox.name + (sep + (identifier.bytes + rest)))).Failure?
            <==> SpacedAstring(rest).Failure?
  {
    var afterMailbox := sep + (identifier.bytes + rest);
    TagNoCaseOfVariant(LISTRIGHTS_TAG, tag, mailbox.name + afterMailbox);
    SeparatorEndsToken(sep, identifier.bytes + rest);
    AstringOfAtom(AString(mailbox.name), afterMailbox);
    assert MailboxName(mailbox.name + afterMailbox) == Success(afterMailbox, mailbox);
    SpacedAstringOfWire(sep, identifier, rest);
    ListRightsTokensNeedsRequired(afterMailbox, rest, identifier);
    ListRightsResponseNeedsTokens(tag + (mailbox.name + afterMailbox), mailbox.name + afterMailbox, tag, afterMailbox, mailbox);
  }

  /** After the keyword and a mailbox, a `MYRIGHTS` response fails exactly when
      no separated rights token follows. */
  lemma MyRightsNeedsRights(tag: seq<byte>, mailbox: Mailbox, rest: seq<byte>)
    requires IsCaseVariant(tag, MYRIGHTS_TAG) && IsAtom(mailbox.name) && EndsToken(rest)
    ensures MyRightsResponse(tag + (mailbox.name + rest)).Failure? <==> SpacedAstring(rest).Failure?
  {
    TagNoCaseOfVariant(MYRIGHTS_TAG, tag, mailbox.name + rest);
    AstringOfAtom(AString(mailbox.name), rest);
    assert MailboxName(mailbox.name + rest) == Success(rest, mailbox);
  }
}
