/** The value types of the IMAP ACL extension (RFC 4314): the ACL variants of
    the host's `CommandBody` and `Data` enums, the `AclEntry` record, the
    builders that package their arguments into those variants, and the
    validation error `AclError`. */
module AclTypes {
  import opened Bytes

  /** An IMAP `astring` once decoded: its logical bytes. */
  datatype AString = AString(bytes: seq<byte>)

  /** A mailbox name once decoded. */
  datatype Mailbox = Mailbox(name: seq<byte>)

  /** One grantee and the rights it holds on a mailbox. */
  datatype AclEntry = AclEntry(identifier: AString, rights: AString)

  /** The untagged response data of the ACL extension. */
  datatype Data =
    | Acl(mailbox: Mailbox, entries: seq<AclEntry>)
    | ListRights(mailbox: Mailbox, identifier: AString, required: AString, optional: seq<AString>)
    | MyRights(mailbox: Mailbox, rights: AString)

  /** The commands of the ACL extension. */
  datatype CommandBody =
    | SetAcl(mailbox: Mailbox, identifier: AString, modRights: AString)
    | DeleteAcl(mailbox: Mailbox, identifier: AString)
    | GetAcl(mailbox: Mailbox)
    | ListRights(mailbox: Mailbox, identifier: AString)
    | MyRights(mailbox: Mailbox)

  // ---------------------------------------------------------------------------
  // Command builders

  /** `SETACL`: `modRights` is kept as given; a leading `+` or `-` is not looked at. */
  function SetAclCommand(mailbox: Mailbox, identifier: AString, modRights: AString): (c: CommandBody)
    ensures c.SetAcl?
    ensures c.mailbox == mailbox && c.identifier == identifier && c.modRights == modRights
  {
    SetAcl(mailbox, identifier, modRights)
  }

  function DeleteAclCommand(mailbox: Mailbox, identifier: AString): (c: CommandBody)
    ensures c.DeleteAcl?
    ensures c.mailbox == mailbox && c.identifier == identifier
  {
    DeleteAcl(mailbox, identifier)
  }

  function GetAclCommand(mailbox: Mailbox): (c: CommandBody)
    ensures c.GetAcl? && c.mailbox == mailbox
  {
    GetAcl(mailbox)
  }

  function ListRightsCommand(mailbox: Mailbox, identifier: AString): (c: CommandBody)
    ensures c.ListRights?
    ensures c.mailbox == mailbox && c.identifier == identifier
  {
    CommandBody.ListRights(mailbox, identifier)
  }

  function MyRightsCommand(mailbox: Mailbox): (c: CommandBody)
    ensures c.MyRights? && c.mailbox == mailbox
  {
    CommandBody.MyRights(mailbox)
  }

  /** Two builder calls give the same command exactly when they are the same
      builder applied to the same arguments. */
  lemma BuildersAreInjective(m: Mailbox, m': Mailbox, i: AString, i': AString, r: AString, r': AString)
    ensures SetAclCommand(m, i, r) == SetAclCommand(m', i', r') <==> m == m' && i == i' && r == r'
    ensures DeleteAclCommand(m, i) == DeleteAclCommand(m', i') <==> m == m' && i == i'
    ensures GetAclCommand(m) == GetAclCommand(m') <==> m == m'
    ensures ListRightsCommand(m, i) == ListRightsCommand(m', i') <==> m == m' && i == i'
    ensures MyRightsCommand(m) == MyRightsCommand(m') <==> m == m'
    ensures DeleteAclCommand(m, i) != ListRightsCommand(m', i')
    ensures GetAclCommand(m) != MyRightsCommand(m')
  {
  }

  // ---------------------------------------------------------------------------
  // Data builders

  /** `Data::acl`: the entries are stored as given, in order; an empty list is
      not rejected here (the decoder is what guarantees at least one). */
  function AclData(mailbox: Mailbox, entries: seq<AclEntry>): (d: Data)
    ensures d.Acl? && d.mailbox == mailbox && d.entries == entries
  {
    Acl(mailbox, entries)
  }

  function ListRightsData(mailbox: Mailbox, identifier: AString, required: AString, optional: seq<AString>): (d: Data)
    ensures d.ListRights?
    ensures d.mailbox == mailbox && d.identifier == identifier
    ensures d.required == required && d.optional == optional
  {
    Data.ListRights(mailbox, identifier, required, optional)
  }

  function MyRightsData(mailbox: Mailbox, rights: AString): (d: Data)
    ensures d.MyRights? && d.mailbox == mailbox && d.rights == rights
  {
    Data.MyRights(mailbox, rights)
  }

  /** Two response values built by the same builder are equal exactly when
      their arguments are, and the three builders never build the same value. */
  lemma DataBuildersAreInjective(m: Mailbox, m': Mailbox, i: AString, i': AString, r: AString, r': AString,
                                 es: seq<AclEntry>, es': seq<AclEntry>, os: seq<AString>, os': seq<AString>)
    ensures AclData(m, es) == AclData(m', es') <==> m == m' && es == es'
    ensures ListRightsData(m, i, r, os) == ListRightsData(m', i', r', os') <==> m == m' && i == i' && r == r' && os == os'
    ensures MyRightsData(m, r) == MyRightsData(m', r') <==> m == m' && r == r'
    ensures AclData(m, es) != ListRightsData(m', i', r', os') && AclData(m, es) != MyRightsData(m', r')
    ensures ListRightsData(m, i, r, os) != MyRightsData(m', r')
  {
  }

  /** `AclEntry` equality is field-wise equality. */
  lemma AclEntryEquality(e: AclEntry, e': AclEntry)
    ensures e == e' <==> e.identifier == e'.identifier && e.rights == e'.rights
  {
  }

  // ---------------------------------------------------------------------------
  // Errors

  /** Validation error for an identifier or rights string supplied by the caller. */
  datatype AclError = Identifier(reason: string) | Rights(reason: string)

  const IDENTIFIER_PREFIX: string := "Invalid identifier: "
  const RIGHTS_PREFIX: string := "Invalid rights: "

  /** The display text of an error: a fixed prefix naming the kind, then the reason. */
  function Message(e: AclError): (m: string)
    ensures e.Identifier? ==>
              |m| == |IDENTIFIER_PREFIX| + |e.reason| &&
              m[..|IDENTIFIER_PREFIX|] == IDENTIFIER_PREFIX && m[|IDENTIFIER_PREFIX|..] == e.reason
    ensures e.Rights? ==>
              |m| == |RIGHTS_PREFIX| + |e.reason| &&
              m[..|RIGHTS_PREFIX|] == RIGHTS_PREFIX && m[|RIGHTS_PREFIX|..] == e.reason
  {
    match e
    case Identifier(s) => IDENTIFIER_PREFIX + s
    case Rights(s) => RIGHTS_PREFIX + s
  }

  /** The message determines the error: the two kinds never print alike, and
      within a kind the reason is recovered from the message. */
  lemma MessageIsInjective(e: AclError, e': AclError)
    ensures Message(e) == Message(e') <==> e == e'
  {
    // The prefixes differ at index 8: 'i' for identifier, 'r' for rights.
    assert Message(e)[8] == (if e.Identifier? then 'i' else 'r');
    assert Message(e')[8] == (if e'.Identifier? then 'i' else 'r');
    if Message(e) == Message(e') && e.Identifier? == e'.Identifier? {
      var n := if e.Identifier? then |IDENTIFIER_PREFIX| else |RIGHTS_PREFIX|;
      assert e.reason == Message(e)[n..] == e'.reason;
    }
  }
}
