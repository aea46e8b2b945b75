# IMAP ACL extension (RFC 4314) of imap-codec, in Dafny

This project models the ACL extension of the `imap-codec` / `imap-types` Rust
crates and proves properties of that model.

- **The value types** (`imap-types/src/extensions/acl.rs`). `AclEntry`, the ACL
  variants of the host's `Data` and `CommandBody` enums, the eight builders
  that package their arguments into those variants, and the `AclError` enum
  with its display text. Module `AclTypes`.
- **The response decoders** (`imap-codec/src/extensions/acl.rs`).
  `acl_response`, `acl_entry`, `listrights_response` and `myrights_response`.
  Each is a pure function from bytes to `Failure` or `Success(remaining, value)`.
  Module `AclCodec`. The nom combinators they are built from (`tag_no_case`,
  `space1`, `many0`, `many1`, `preceded`/`tuple` as sequencing) are in module
  `Parsing`, with complete-input semantics.
- **The wire text** (module `AclWire`). A printer per RFC 4314 section 7
  grammar rule, and the proofs about it:
  - Every well-formed response reads back to the same mailbox, identifier and
    rights, in order. This holds whatever the keyword's letter case, and each
    gap between tokens may be its own non-empty run of spaces and tabs.
    What follows the response is left in `remaining`, including a trailing
    separator with no token after it and, for `ACL`, a separated identifier
    with no rights.
  - The keyword is case-insensitive.
  - The keyword carries exactly one space.
  - After the mailbox, `ACL` fails exactly when no separated entry follows.
  - After the identifier, `LISTRIGHTS` fails exactly when no separated rights
    token follows.
  - After the mailbox, `MYRIGHTS` fails exactly when no separated rights
    token follows.
- **Worked responses** (module `AclExamples`). Concrete inputs and what each
  decoder makes of them.

`astring` and `mailbox` are parsers of the host codec and are not part of this
model. They are stood in for by the atom form of an astring: the longest
non-empty run of ASTRING-CHAR bytes (RFC 3501 section 9). The decoders' own
contracts give necessary conditions for success and the shape of the result.
The parse-of-print lemmas in `AclWire` state which well-formed inputs are
accepted and what they decode to. The keyword and missing-token lemmas there
state which near misses are rejected.

Two points about the code:

- Rights are plain `AString` values, and `SETACL`'s `mod_rights` is an
  `AString` kept as given (`imap-types/src/extensions/acl.rs:36`, `:98`). There
  is no typed `Rights` wrapper and no `+`/`-` modifier dispatch.
- The separator between tokens after the keyword is nom's `space1`: one or
  more spaces or tabs, not a single SP. Only the space after the keyword is
  exactly one SP, because it is part of the keyword literal.

## Model

| member | source | states |
|---|---|---|
| Parsing.TagNoCase | imap-codec/src/extensions/acl.rs:24 | succeeds exactly when the input starts with the tag up to ASCII letter case; then it consumes exactly the tag's length and the value plus the remainder is the input |
| Parsing.TagNoCaseOfVariant | imap-codec/src/extensions/acl.rs:24 | any case variant of the tag, followed by anything, is accepted and consumed exactly |
| Parsing.Space1 | imap-codec/src/extensions/acl.rs:26 | fails only on empty input or a non-blank first byte; on success it takes the whole maximal run of spaces and tabs and leaves a rest that does not start with one |
| Parsing.Space1OfRun | imap-codec/src/extensions/acl.rs:37 | a separator run followed by a non-blank byte or end of input is consumed whole |
| Parsing.Astring | imap-codec/src/extensions/acl.rs:12 | atom stand-in for `astring`: fails only when the first byte cannot start an atom; on success takes the maximal atom and leaves a rest that cannot extend it |
| Parsing.AstringOfAtom | imap-codec/src/extensions/acl.rs:12 | an atom followed by a byte that cannot extend it is read back exactly |
| Parsing.MailboxName | imap-codec/src/extensions/acl.rs:25 | atom stand-in for `mailbox`: succeeds exactly when the first byte is an ASTRING-CHAR, and then the name plus the remainder is the input |
| Parsing.Many0 | imap-codec/src/extensions/acl.rs:53 | `many0` collects values until the element parser first fails, so the element parser fails on what is left; it collects nothing exactly when it consumes nothing |
| Parsing.Many1 | imap-codec/src/extensions/acl.rs:26 | `many1` succeeds exactly when the first repetition does; it then equals `many0`, with at least one value and a proper suffix left |
| AclCodec.SpacedAstring | imap-codec/src/extensions/acl.rs:51 | `preceded(space1, astring)` succeeds exactly when the input is a separator run followed by an atom byte; it yields an atom and a rest that cannot extend it |
| AclCodec.AclEntryOf | imap-codec/src/extensions/acl.rs:35-40 | `acl_entry` succeeds only on input starting with an atom byte and yields an identifier and rights that are both atoms, consuming input |
| AclCodec.SpacedAclEntry | imap-codec/src/extensions/acl.rs:26 | one repetition of the ACL tail succeeds only on a separator run followed by an atom byte, and consumes input |
| AclCodec.ElementParsersConsume | imap-codec/src/extensions/acl.rs:53 | both repeated element parsers consume input whenever they succeed, so the repetitions over them end |
| AclCodec.Many0Values | imap-codec/src/extensions/acl.rs:53 | every value `many0` collects is a value its element parser can produce |
| AclCodec.ConsumedSoFar | imap-codec/src/extensions/acl.rs:29 | after the keyword and the mailbox, what the decoder leaves is a proper suffix of its input |
| AclCodec.AclEntries | imap-codec/src/extensions/acl.rs:26 | the entry list succeeds exactly when one separated entry can be read; it yields at least one entry, all atoms, and stops where the next entry fails |
| AclCodec.AclResponse | imap-codec/src/extensions/acl.rs:22-32 | on success the input starts with `ACL ` in some letter case, the value is `Data::Acl` with at least one entry, all tokens are atoms, and the remainder is a proper suffix on which a further entry fails |
| AclCodec.OptionalRights | imap-codec/src/extensions/acl.rs:53 | the optional rights are empty exactly when nothing is consumed, which is exactly when the first separated astring fails; collection stops where the next one fails |
| AclCodec.ListRightsTokens | imap-codec/src/extensions/acl.rs:51-53 | after the mailbox there are an identifier, one required rights token and the optional list; the remainder is a proper suffix on which a further rights token fails |
| AclCodec.ListRightsResponse | imap-codec/src/extensions/acl.rs:47-62 | on success the input starts with `LISTRIGHTS ` in some letter case, the value is `Data::ListRights` whose tokens are all atoms, and a further rights token fails on the remainder |
| AclCodec.MyRightsResponse | imap-codec/src/extensions/acl.rs:69-75 | on success the input starts with `MYRIGHTS ` in some letter case, the value is `Data::MyRights` with one atom as rights, and the remainder is a proper suffix that cannot extend that token |
| AclWire.SpacedAstringOfWire | imap-codec/src/extensions/acl.rs:70 | a separator run and an atom followed by a non-token byte read back as that atom, leaving exactly what followed |
| AclWire.SpacedAclEntryOfWire | imap-codec/src/extensions/acl.rs:35-40 | a printed `gap identifier gap rights`, each gap any separator run, reads back as the same entry |
| AclWire.EntriesStep | imap-codec/src/extensions/acl.rs:26 | one more printed entry in front adds exactly that entry in front of what `many0` reads |
| AclWire.EntriesParse | imap-codec/src/extensions/acl.rs:26 | `many0` over printed entries, every gap its own separator run, returns all of them in order and leaves exactly what follows, provided no whole separated entry follows (a separated identifier without rights may) |
| AclWire.RightsParse | imap-codec/src/extensions/acl.rs:53 | `many0` over printed rights tokens, every gap its own separator run, returns all of them in order and leaves exactly the bytes after the response |
| AclWire.AclParsesWire | imap-codec/src/extensions/acl.rs:19-21 | every `ACL` response printed per the grammar, with any keyword case and any separator run in each gap, decodes to its mailbox and entries in order and leaves exactly what follows, whenever no whole separated entry follows: a trailing separator with no token after it and a separated identifier without rights are both left over |
| AclWire.AclLeavesHalfEntry | imap-codec/src/extensions/acl.rs:26 | an `ACL` response followed by a separated identifier without rights decodes to the entries before it and leaves that identifier and what follows it over |
| AclWire.ListRightsParsesWire | imap-codec/src/extensions/acl.rs:44-46 | every printed `LISTRIGHTS` response, each gap its own separator run, decodes to its identifier, required rights and optional rights in order, the optional list possibly empty |
| AclWire.MyRightsParsesWire | imap-codec/src/extensions/acl.rs:66-68 | every printed `MYRIGHTS` response decodes to its mailbox and single rights token, and anything after that token, further tokens included, is left over |
| AclWire.KeywordIgnoresCase | imap-codec/src/extensions/acl.rs:24 | for each of the three decoders, any letter-case variant of the keyword gives the same result as the upper-case keyword |
| AclWire.KeywordTakesOneSpace | imap-codec/src/extensions/acl.rs:49 | for each of the three decoders, a space or tab directly after the keyword's own space makes the decoder fail |
| AclWire.AclNeedsAnEntry | imap-codec/src/extensions/acl.rs:26 | after the keyword and a mailbox, an `ACL` response fails exactly when no separated identifier/rights pair can be read from what follows |
| AclWire.IdentifierAloneIsNoEntry | imap-codec/src/extensions/acl.rs:35-40 | a separated identifier with no rights token after it is not an entry |
| AclWire.ListRightsNeedsRequiredRights | imap-codec/src/extensions/acl.rs:52 | after the keyword, a mailbox and an identifier, a `LISTRIGHTS` response fails exactly when no separated rights token follows |
| AclWire.MyRightsNeedsRights | imap-codec/src/extensions/acl.rs:70 | after the keyword and a mailbox, a `MYRIGHTS` response fails exactly when no separated rights token follows |
| AclExamples.AclOneEntry | imap-codec/src/extensions/acl.rs:35-40 | `ACL INBOX alice lrs` decodes to the single entry (alice, lrs) and consumes everything |
| AclExamples.AclLenientSpelling | imap-codec/src/extensions/acl.rs:24-26 | `acl INBOX`, two spaces, `alice`, a tab, `lrs`, then SP CRLF decodes to the same entry and leaves the trailing space and the CRLF |
| AclExamples.AclWithoutEntries | imap-codec/src/extensions/acl.rs:20 | `ACL INBOX` is rejected |
| AclExamples.AclIdentifierWithoutRights | imap-codec/src/extensions/acl.rs:26 | `ACL INBOX alice` followed by CRLF, an identifier with no rights, is rejected |
| AclExamples.AclHalfEntryLeftOver | imap-codec/src/extensions/acl.rs:26 | `ACL INBOX a b alice` followed by CRLF gives the one entry (a, b) and leaves ` alice` and the CRLF, since `many1` gives back the half entry |
| AclExamples.AclTwoSpacesAfterKeyword | imap-codec/src/extensions/acl.rs:24 | `ACL  INBOX alice lrs`, with two spaces after the keyword, is rejected |
| AclExamples.AclKeywordMissing | imap-codec/src/extensions/acl.rs:24 | `ACL` alone and `ACLX INBOX alice lrs` are rejected |
| AclExamples.ListRightsTwoOptional | imap-codec/src/extensions/acl.rs:47-62 | `LISTRIGHTS INBOX alice lrs wi d` gives identifier alice, required lrs and optional [wi, d] |
| AclExamples.MyRightsLeavesSecondToken | imap-codec/src/extensions/acl.rs:69-75 | `MYRIGHTS INBOX lrs wi` gives rights lrs and leaves ` wi` |
| AclExamples.MyRightsWithoutRights | imap-codec/src/extensions/acl.rs:69-75 | `MYRIGHTS INBOX` is rejected |
| AclTypes.SetAclCommand | imap-types/src/extensions/acl.rs:36-42 | `setacl` builds `SetAcl` holding mailbox, identifier and mod_rights unchanged, with no look at a `+`/`-` prefix |
| AclTypes.DeleteAclCommand | imap-types/src/extensions/acl.rs:44-49 | `deleteacl` builds `DeleteAcl` holding exactly the given mailbox and identifier |
| AclTypes.GetAclCommand | imap-types/src/extensions/acl.rs:51-53 | `getacl` builds `GetAcl` holding only the given mailbox |
| AclTypes.ListRightsCommand | imap-types/src/extensions/acl.rs:55-60 | `listrights` builds `ListRights` holding exactly the given mailbox and identifier |
| AclTypes.MyRightsCommand | imap-types/src/extensions/acl.rs:62-64 | `myrights` builds `MyRights` holding only the given mailbox |
| AclTypes.BuildersAreInjective | imap-types/src/extensions/acl.rs:36-64 | two commands from the same builder are equal exactly when their arguments are; `deleteacl`/`listrights` and `getacl`/`myrights` never coincide |
| AclTypes.AclData | imap-types/src/extensions/acl.rs:68-70 | `Data::acl` stores the mailbox and the entries list unchanged, in order and of the same length, and accepts an empty list |
| AclTypes.ListRightsData | imap-types/src/extensions/acl.rs:72-84 | `Data::listrights` stores identifier, required rights and the possibly empty optional list unchanged |
| AclTypes.MyRightsData | imap-types/src/extensions/acl.rs:86-88 | `Data::myrights` stores the mailbox and rights unchanged |
| AclTypes.DataBuildersAreInjective | imap-types/src/extensions/acl.rs:67-89 | two response values from the same builder are equal exactly when their arguments are, and values from different builders differ |
| AclTypes.AclEntryEquality | imap-types/src/extensions/acl.rs:95-99 | two entries are equal exactly when identifier and rights are both equal |
| AclTypes.Message | imap-types/src/extensions/acl.rs:105-111 | the message is `Invalid identifier: ` or `Invalid rights: ` followed by the reason, by variant |
| AclTypes.MessageIsInjective | imap-types/src/extensions/acl.rs:105-111 | two errors have the same message exactly when they are the same error: the kinds never print alike, and the reason is recovered from the message |

## Left out

- Parsing.Astring, Parsing.MailboxName: only the atom form of `astring` is modelled. Quoted strings with escapes, `{n}` literals and their continuation, and INBOX normalisation of mailbox names are not. Those parsers belong to the host codec and are not part of this model.
- nom's error taxonomy: `Incomplete`, `Error` and `Failure` are one `Failure` case. Input is treated as complete. A token that reaches the end of the buffer is taken as finished, so a response cut off inside its last token decodes with that token shortened, and one cut off before a required token fails; neither asks for more input.
- Typed `Rights`/`ModRights` and the `+`/`-`/bare dispatch: this code has none. Rights and mod_rights are plain astrings.
- Encoding to wire bytes: the crate's encoder is not part of this model. The printers in `AclWire` follow the RFC 4314 grammar, with a separator run of its own in every gap. They stand in for the encoder only as the left side of the parse-of-print lemmas.
- The ACL capability gating is documentation only and nothing enforces it (`imap-types/src/extensions/acl.rs:32-34`).
- The derives (`Arbitrary`, `serde`, `ToStatic`, `Hash`, `Ord`), lifetimes, and borrowed versus owned token storage.
- The other variants of the host's `Data` and `CommandBody` enums: only the ACL variants are declared.
