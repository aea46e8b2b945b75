/** Worked ACL, LISTRIGHTS and MYRIGHTS responses (RFC 4314 sections 3.6 to
    3.8) through the three decoders: what each decodes to, what it leaves
    over, and the near misses each rejects. */
module AclExamples {
  import opened Bytes
  import opened AclTypes
  import opened Parsing
  import opened AclCodec
  import opened AclWire

  const CRLF: seq<byte> := [0x0D, 0x0A]

  function Token(s: string): (a: AString)
    requires IsAsciiString(s)
    ensures a.bytes == Ascii(s)
  {
    AString(Ascii(s))
  }

  function Inbox(): (m: Mailbox)
    ensures m.name == Ascii("INBOX")
  {
    Mailbox(Ascii("INBOX"))
  }

  lemma InboxIsAtom()
    ensures IsAtom(Inbox().name)
  {
  }

  /** The octets of a concatenation are the concatenated octets. */
  lemma AsciiConcat(a: string, b: string)
    requires IsAsciiString(a) && IsAsciiString(b)
    ensures IsAsciiString(a + b) && Ascii(a + b) == Ascii(a) + Ascii(b)
  {
    assert forall i | 0 <= i < |a + b| :: (a + b)[i] == if i < |a| then a[i] else b[i - |a|];
  }

  // ---------------------------------------------------------------------------
  // ACL

  lemma AclOneEntryText()
    ensures Ascii("ACL INBOX alice lrs")
            == AclText(ACL_TAG, Inbox(), [EntryGaps([SP], [SP])], [AclEntry(Token("alice"), Token("lrs"))], [])
  {
    var e := AclEntry(Token("alice"), Token("lrs"));
    assert "ACL INBOX alice lrs" == "ACL " + ("INBOX" + (" " + ("alice" + (" " + "lrs"))));
    AsciiConcat(" ", "lrs");
    AsciiConcat("alice", " " + "lrs");
    AsciiConcat(" ", "alice" + (" " + "lrs"));
    AsciiConcat("INBOX", " " + ("alice" + (" " + "lrs")));
    AsciiConcat("ACL ", "INBOX" + (" " + ("alice" + (" " + "lrs"))));
    assert Ascii(" ") == [SP];
    assert EntriesThen([EntryGaps([SP], [SP])][1..], [e][1..], []) == [];
  }

  /** `ACL INBOX alice lrs` decodes to one entry and consumes everything. */
  lemma AclOneEntry()
    ensures AclResponse(Ascii("ACL INBOX alice lrs"))
            == Success([], Acl(Inbox(), [AclEntry(Token("alice"), Token("lrs"))]))
  {
    var e := AclEntry(Token("alice"), Token("lrs"));
    assert AllAtomEntries([e]);
    AclOneEntryText();
    assert AllEntryGaps([EntryGaps([SP], [SP])]);
    AclParsesWire(ACL_TAG, Inbox(), [EntryGaps([SP], [SP])], [e], []);
  }

  function LenientGaps(): (g: EntryGaps)
    ensures g.beforeIdentifier == Ascii("  ") && g.beforeRights == [HTAB]
  {
    EntryGaps(Ascii("  "), [HTAB])
  }

  lemma LenientEntryText()
    ensures Ascii("  alice\tlrs \r\n") == EntriesThen([LenientGaps()], [AclEntry(Token("alice"), Token("lrs"))], [SP] + CRLF)
  {
    var e := AclEntry(Token("alice"), Token("lrs"));
    assert "  alice\tlrs \r\n" == "  " + ("alice" + ("\t" + ("lrs" + " \r\n")));
    AsciiConcat("lrs", " \r\n");
    AsciiConcat("\t", "lrs" + " \r\n");
    AsciiConcat("alice", "\t" + ("lrs" + " \r\n"));
    AsciiConcat("  ", "alice" + ("\t" + ("lrs" + " \r\n")));
    assert Ascii(" \r\n") == [SP] + CRLF;
    assert Ascii("\t") == [HTAB];
    assert EntriesThen([LenientGaps()][1..], [e][1..], [SP] + CRLF) == [SP] + CRLF;
  }

  lemma AclLenientText()
    ensures Ascii("acl INBOX  alice\tlrs \r\n")
            == AclText(Ascii("acl "), Inbox(), [LenientGaps()], [AclEntry(Token("alice"), Token("lrs"))], [SP] + CRLF)
  {
    assert "acl INBOX  alice\tlrs \r\n" == "acl " + ("INBOX" + "  alice\tlrs \r\n");
    AsciiConcat("INBOX", "  alice\tlrs \r\n");
    AsciiConcat("acl ", "INBOX" + "  alice\tlrs \r\n");
    LenientEntryText();
  }

  lemma LenientSpellings()
    ensures IsCaseVariant(Ascii("acl "), ACL_TAG)
    ensures AllEntryGaps([LenientGaps()])
  {
  }

  /** The keyword in lower case, two spaces before the identifier, a tab before
      the rights, and a trailing space before the CRLF: the same entry, and
      since no token follows that space, `many1` does not take it, so the space
      and the CRLF are left over. */
  lemma AclLenientSpelling()
    ensures AclResponse(Ascii("acl INBOX  alice\tlrs \r\n"))
            == Success([SP] + CRLF, Acl(Inbox(), [AclEntry(Token("alice"), Token("lrs"))]))
  {
    var e := AclEntry(Token("alice"), Token("lrs"));
    assert AllAtomEntries([e]);
    LenientSpellings();
    AclLenientText();
    AclParsesWire(Ascii("acl "), Inbox(), [LenientGaps()], [e], [SP] + CRLF);
  }

  /** `ACL INBOX` has no entry, and `many1` needs one. */
  lemma AclWithoutEntries()
    ensures AclResponse(Ascii("ACL INBOX")).Failure?
  {
    assert "ACL INBOX" == "ACL " + "INBOX";
    AsciiConcat("ACL ", "INBOX");
    assert Ascii("ACL INBOX") == ACL_TAG + (Inbox().name + []);
    AclNeedsAnEntry(ACL_TAG, Inbox(), []);
    assert SpacedAclEntry([]).Failure?;
  }

  lemma IdentifierOnlyText()
    ensures Ascii("ACL INBOX alice\r\n") == ACL_TAG + (Inbox().name + Ascii(" alice\r\n"))
    ensures Ascii(" alice\r\n") == [SP] + (Token("alice").bytes + CRLF)
  {
    assert "ACL INBOX alice\r\n" == "ACL " + ("INBOX" + " alice\r\n");
    AsciiConcat("INBOX", " alice\r\n");
    AsciiConcat("ACL ", "INBOX" + " alice\r\n");
    assert " alice\r\n" == " " + ("alice" + "\r\n");
    AsciiConcat("alice", "\r\n");
    AsciiConcat(" ", "alice" + "\r\n");
    assert Ascii(" ") == [SP];
    assert Ascii("\r\n") == CRLF;
  }

  /** An identifier with no rights after it is not an entry, so
      `ACL INBOX alice` followed by CRLF is rejected. */
  lemma AclIdentifierWithoutRights()
    ensures AclResponse(Ascii("ACL INBOX alice\r\n")).Failure?
  {
    var alice := Token("alice");
    var afterMailbox := Ascii(" alice\r\n");
    IdentifierOnlyText();
    InboxIsAtom();
    assert IsAtom(alice.bytes) && EndsResponse(CRLF);
    IdentifierAloneIsNoEntry([SP], alice, CRLF);
    AclNeedsAnEntry(ACL_TAG, Inbox(), afterMailbox);
  }

  lemma HalfEntryText()
    ensures Ascii("ACL INBOX a b alice\r\n")
            == AclText(ACL_TAG, Inbox(), [EntryGaps([SP], [SP])], [AclEntry(Token("a"), Token("b"))], Ascii(" alice\r\n"))
  {
    var e := AclEntry(Token("a"), Token("b"));
    assert "ACL INBOX a b alice\r\n" == "ACL " + ("INBOX" + (" " + ("a" + (" " + ("b" + " alice\r\n")))));
    AsciiConcat("b", " alice\r\n");
    AsciiConcat(" ", "b" + " alice\r\n");
    AsciiConcat("a", " " + ("b" + " alice\r\n"));
    AsciiConcat(" ", "a" + (" " + ("b" + " alice\r\n")));
    AsciiConcat("INBOX", " " + ("a" + (" " + ("b" + " alice\r\n"))));
    AsciiConcat("ACL ", "INBOX" + (" " + ("a" + (" " + ("b" + " alice\r\n")))));
    assert Ascii(" ") == [SP];
    assert EntriesThen([EntryGaps([SP], [SP])][1..], [e][1..], Ascii(" alice\r\n")) == Ascii(" alice\r\n");
  }

  /** `many1` gives back a half-read entry: in `ACL INBOX a b alice` followed
      by CRLF, the identifier `alice` has no rights, so the response holds the
      one entry (a, b) and ` alice` with the CRLF is left over. */
  lemma AclHalfEntryLeftOver()
    ensures AclResponse(Ascii("ACL INBOX a b alice\r\n"))
            == Success(Ascii(" alice\r\n"), Acl(Inbox(), [AclEntry(Token("a"), Token("b"))]))
  {
    var e := AclEntry(Token("a"), Token("b"));
    assert AllAtomEntries([e]);
    assert AllEntryGaps([EntryGaps([SP], [SP])]);
    assert IsAtom(Token("alice").bytes) && EndsResponse(CRLF);
    IdentifierOnlyText();
    HalfEntryText();
    AclLeavesHalfEntry(ACL_TAG, Inbox(), [EntryGaps([SP], [SP])], [e], [SP], Token("alice"), CRLF);
  }

  /** A second space after the keyword is rejected. */
  lemma AclTwoSpacesAfterKeyword()
    ensures AclResponse(Ascii("ACL  INBOX alice lrs")).Failure?
  {
    assert "ACL  INBOX alice lrs" == "ACL " + " INBOX alice lrs";
    AsciiConcat("ACL ", " INBOX alice lrs");
    KeywordTakesOneSpace(ACL_TAG, Ascii(" INBOX alice lrs"));
  }

  /** Too short for the keyword, or the keyword misspelt. */
  lemma AclKeywordMissing()
    ensures AclResponse(Ascii("ACL")).Failure?
    ensures AclResponse(Ascii("ACLX INBOX alice lrs")).Failure?
  {
    var s := Ascii("ACLX INBOX alice lrs");
    assert ToLower(s[3]) != ToLower(ACL_TAG[3]);
  }

  // ---------------------------------------------------------------------------
  // LISTRIGHTS

  lemma OptionalRightsText()
    ensures Ascii(" wi d") == RightsThen([[SP], [SP]], [Token("wi"), Token("d")], [])
  {
    var optional := [Token("wi"), Token("d")];
    assert " wi d" == " " + ("wi" + (" " + "d"));
    AsciiConcat(" ", "d");
    AsciiConcat("wi", " " + "d");
    AsciiConcat(" ", "wi" + (" " + "d"));
    assert Ascii(" ") == [SP];
    assert optional[1..] == [Token("d")] && optional[1..][1..] == [];
    assert RightsThen([[SP]], [Token("d")], []) == [SP] + Ascii("d");
    assert RightsThen([[SP], [SP]], optional, []) == [SP] + (Ascii("wi") + ([SP] + Ascii("d")));
  }

  lemma ListRightsTokensText()
    ensures Ascii(" alice lrs wi d")
            == [SP] + (Ascii("alice") + ([SP] + (Ascii("lrs") + RightsThen([[SP], [SP]], [Token("wi"), Token("d")], []))))
  {
    assert " alice lrs wi d" == " " + ("alice" + (" " + ("lrs" + " wi d")));
    AsciiConcat("lrs", " wi d");
    AsciiConcat(" ", "lrs" + " wi d");
    AsciiConcat("alice", " " + ("lrs" + " wi d"));
    AsciiConcat(" ", "alice" + (" " + ("lrs" + " wi d")));
    assert Ascii(" ") == [SP];
    OptionalRightsText();
  }

  lemma ListRightsTwoOptionalText()
    ensures Ascii("LISTRIGHTS INBOX alice lrs wi d")
            == ListRightsText(LISTRIGHTS_TAG, Inbox(), [SP], Token("alice"), [SP], Token("lrs"),
                              [[SP], [SP]], [Token("wi"), Token("d")], [])
  {
    assert "LISTRIGHTS INBOX alice lrs wi d" == "LISTRIGHTS " + ("INBOX" + " alice lrs wi d");
    AsciiConcat("INBOX", " alice lrs wi d");
    AsciiConcat("LISTRIGHTS ", "INBOX" + " alice lrs wi d");
    ListRightsTokensText();
  }

  /** One required rights token and two optional ones, in order. */
  lemma ListRightsTwoOptional()
    ensures ListRightsResponse(Ascii("LISTRIGHTS INBOX alice lrs wi d"))
            == Success([], Data.ListRights(Inbox(), Token("alice"), Token("lrs"), [Token("wi"), Token("d")]))
  {
    var optional := [Token("wi"), Token("d")];
    assert AllAtomRights(optional);
    ListRightsTwoOptionalText();
    assert AllSeparators([[SP], [SP]]);
    ListRightsParsesWire(LISTRIGHTS_TAG, Inbox(), [SP], Token("alice"), [SP], Token("lrs"), [[SP], [SP]], optional, []);
  }

  // ---------------------------------------------------------------------------
  // MYRIGHTS

  /** `MYRIGHTS` takes exactly one rights token: a second one is left over. */
  lemma MyRightsLeavesSecondToken()
    ensures MyRightsResponse(Ascii("MYRIGHTS INBOX lrs wi"))
            == Success(Ascii(" wi"), Data.MyRights(Inbox(), Token("lrs")))
  {
    assert "MYRIGHTS INBOX lrs wi" == "MYRIGHTS " + ("INBOX" + (" " + ("lrs" + " wi")));
    AsciiConcat("lrs", " wi");
    AsciiConcat(" ", "lrs" + " wi");
    AsciiConcat("INBOX", " " + ("lrs" + " wi"));
    AsciiConcat("MYRIGHTS ", "INBOX" + (" " + ("lrs" + " wi")));
    assert Ascii(" ") == [SP];
    MyRightsParsesWire(MYRIGHTS_TAG, Inbox(), [SP], Token("lrs"), Ascii(" wi"));
  }

  /** `MYRIGHTS INBOX` has no rights token after the mailbox. */
  lemma MyRightsWithoutRights()
    ensures MyRightsResponse(Ascii("MYRIGHTS INBOX")).Failure?
  {
    assert "MYRIGHTS INBOX" == "MYRIGHTS " + "INBOX";
    AsciiConcat("MYRIGHTS ", "INBOX");
    assert Ascii("MYRIGHTS INBOX") == MYRIGHTS_TAG + (Inbox().name + []);
    MyRightsNeedsRights(MYRIGHTS_TAG, Inbox(), []);
    assert SpacedAstring([]).Failure?;
  }
}
