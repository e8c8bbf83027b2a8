# Verified model of a VGI worker

A VGI worker serves catalogs of functions and tables to a query engine. This
project models the parts of it whose behaviour spans many calls, and proves what
those parts promise for every input and every run:

- **Attach tickets.** The binary payload and its strict reader, the UTF-8
  validator, the base64url gate, minting and opening under an AEAD, issuing a
  ticket for an ATTACH request and redeeming it, and the attachment value that
  ATTACH hands out, with its secret options kept apart.
- **Aggregates.** Group states, window partitions and streaming sessions in one
  shared key/value store, driven by calls that may reach different processes.
- **Constraints.** Constraint records, the nullability of served columns, record
  validation, the referential closure of foreign keys, capability negotiation.
- **Discovery.** Catalog snapshots and their revalidation by etag, the function
  registries, the listing cache and requests racing on it, version requests.

`dafny verify dfyconfig.toml` checks everything. One module per file:

| component | modules |
|---|---|
| shared | Basics, Decimals, NulSeparated, Wire, Catalogs, LawWitnesses |
| attach tickets | Utf8, TicketPayload, Ticket, TicketRedemption, AttachExact, TicketCases, AttachValue |
| aggregates | AggregateStore, Aggregate, Window, AggregateService |
| constraints | ConstraintRecords, ServedSchema, RecordValidation, RecordsExact, BuiltRecords, ForeignKeys, CatalogClosure, Capabilities |
| discovery | SchemaPaths, ContentsFrame, TableItems, CatalogContents, ContentsExact, HandledTables, Registry, RegistryService, ListingChanges, ListingRaces, ListingInFlight, Versions, VersionRanges, VersionMeaning, Negotiation |

## Conventions

A C++ `std::string` is a sequence of bytes. 64-bit fields are written out where
their width matters: two's complement in payloads, `stoul` past 64 bits, the
truncation to 32 bits of a version part. Code the worker only calls is a
function-valued parameter with laws: an ideal AEAD and a canonical base64
(`IdealAead`, `LawfulBase64`), an Arrow encoding that reads back (`LawfulIpc`),
a user's aggregate (`Lawful`: update folds, combining two folds is folding both
row lists), a hash that does not collide on what one run hashes. LawWitnesses
shows that the AEAD, base64, Arrow, codec and aggregate laws can be met. The
clock is a real number given to each call. Objects that change in place are
classes whose methods are proved against functions of the state; each exception
is an error value. Where the source's own behaviour is undefined (an empty optional read, a
signed sum past 64 bits, a batch whose columns disagree on their length), the
model has an outcome that says so (`Undefined`, `Overflow`, `Ragged`).

Methods are proved against functions, and functions against statements that do not
name them: AttachExact, RecordsExact, BuiltRecords, CatalogClosure, ContentsExact and
VersionMeaning say what is merged, issued, decoded, accepted, served and resolved by
quantifiers over the inputs alone.

## What turned out to be conditional

Where the code does not do what a reader would expect, the exact condition is
proved, usually with a concrete case beside it.

- Minting does not check that its texts are UTF-8, and opening does: such a
  ticket is issued and never opens (`Ticket.OpenOfMint`; `TicketCases.UnreadableTicket`
  is one).
- A version pinned by a ticket is restored only into a column the redeeming
  request already has: an attach by ticket is the direct one if and only if both
  pinned versions have their column (`TicketRedemption.PinnedVersionsExact`;
  `TicketCases.LostVersion` loses one).
- The attachment value reads back exactly when its fields are NUL-free and, on a
  transport that does not seal it, secret options have an id and names of their
  own (`AttachValue.RoundTripExact`).
- Replaying the streaming log gives the map the last chunk ended with exactly
  when partition keys are NUL-free and no key was dropped
  (`Aggregate.ReplayExact`, `Aggregate.DroppedKeyComesBack`).
- `validate_records` reads a FOREIGN_KEY record's references without checking
  that there are any. `RecordValidation.ValidateRecords` says exactly when it gets
  there, and `RecordValidation.HollowIsUndefined` is such a record; no record this
  worker builds is one.
- Nothing keeps a schema from declaring two tables of one name, and their records
  are then searched together. A foreign key hits exactly when the first of them to
  serve a record of the referenced id serves it as a key over those columns
  (`ForeignKeys.HitsExact`), so a key that is served can be hidden
  (`ForeignKeys.SecondTableIsHidden`).
- `path_key` joins with NUL, so a component that holds a NUL can stand in for a
  parent that is missing (`SchemaPaths.NulStandsInForParent`). What the check
  decides for any paths at all is `SchemaPaths.CheckSeesFlattened`.
- A registration can come too late for a listing request under way. Run to its
  answer, the request is answered right if and only if the registration is of another
  scope, of a hidden name, or of a kind whose listing the request does not hold yet;
  the cache is then right, and also when the request had nothing to list
  (`ListingInFlight.RegistrationInFlight`; `ListingInFlight.HidingInFlight` for hiding a
  name). Registrations that catch no request in flight keep everything right over whole
  runs (`ListingRaces.CacheIsFaithful`), and that guard is exact
  (`ListingInFlight.GuardIsExact`). The comment at `src/dispatcher.h:463-466` excludes
  registrations in flight altogether.
- A client that revalidates is current as long as an etag determines the contents.
  An etag used again for other contents, or two contents with one hash, leaves it
  stale (`CatalogContents.ReusedEtagIsStale`, `CatalogContents.HashCollisionIsStale`,
  `CatalogContents.FixedEtagIsStale`); for sources with etags of their own the two meet in
  one equivalence over all runs (`CatalogContents.TagsExact`).
- Version numbers are kept in 32 bits. A range request is answered right, in the
  numbers as written, with every worker of narrow versions if and only if its own
  numbers are below 2^32 (`VersionMeaning.RequestExact`), and a supported version is
  harmless to every narrow request in every narrow company if and only if its parts
  are (`VersionMeaning.TextExact`). The exact and `X.Y` forms pin a text and are right
  at any width (`VersionMeaning.LiteralIsRight`). A number past 64 bits raises
  (`VersionMeaning.HugeRequest`).
- A request without a dot goes through `stoul`, which skips white space, takes a
  sign and ignores what follows the digits. It means the number spelled exactly when
  that is from 0 up to 2^32 (`VersionMeaning.DotFreeExact`); a minus wraps around.

## Model

| member | source | states |
|---|---|---|
| Utf8.MasksAreRanges | src/attach_ticket.cpp:77-93 | each mask test of the validator is the range test it stands for, and each payload mask a subtraction, on all 256 bytes |
| Utf8.FirstCharacter | src/attach_ticket.cpp:68-102 | one turn of the validator is exact: a text is UTF-8 if and only if its first character passes the checks and the rest is UTF-8 |
| Utf8.CheckCharacter | src/attach_ticket.cpp:71-99 | the checks accept exactly a complete, shortest-form, non-surrogate character of at most U+10FFFF |
| Utf8.ValidUtf8 | src/attach_ticket.cpp:68-102 | accepts a byte string if and only if it is the encoding of some sequence of Unicode scalar values (section 4 of RFC 3629), at every length |
| TicketPayload.LayoutLength | src/attach_ticket.cpp:235-250 | a payload has exactly 28 bytes plus the text and option bytes |
| TicketPayload.EncodePayload | src/attach_ticket.cpp:45-65 | the appending writer produces the layout, two's-complement integers included, or the error of a field too long |
| TicketPayload.DecodePayload | src/attach_ticket.cpp:140-164 | the position-advancing reader computes the strict parse |
| TicketPayload.Reader.Take | src/attach_ticket.cpp:106-138 | a read takes the next bytes and moves past them, or fails without moving |
| TicketPayload.DecodeOfLayout | src/attach_ticket.cpp:106-164 | well-formed claims decode from their own layout |
| TicketPayload.LayoutOfDecode | src/attach_ticket.cpp:106-164 | every payload that decodes is well formed and is the layout of what it decodes to |
| TicketPayload.DecodeExact | src/attach_ticket.cpp:140-164 | a payload decodes to claims if and only if they are well formed and it is their layout: a bijection |
| TicketCases.PayloadBytes | src/attach_ticket.cpp:235-250 | a concrete payload, byte by byte: field order, lengths, negative times, lowest byte first |
| Ticket.StrictDecodeExact | src/attach_ticket.cpp:169-181 | the gate accepts exactly the canonical spelling of each byte string |
| Ticket.AadInjective | src/attach_ticket.cpp:230-233 | associated data tells principals apart |
| Ticket.MintExact | src/attach_ticket.cpp:252-274 | minting succeeds exactly for a principal, a catalog, an id of 32 lowercase hexadecimal digits, a lifetime that ends later or never, and fields and a token within their sizes; and gives that token |
| Ticket.OpenAttachTicket | src/attach_ticket.cpp:276-306 | the opening steps, in order, compute the opening rule with its two kinds of refusal |
| Ticket.OpenOfMint | src/attach_ticket.cpp:252-306 | for every key, caller and time: a minted ticket gives its claims back exactly for its own key and principal, from issued - 60 s up to but not including expires + 60 s (no end when expires is 0), when its texts are UTF-8; otherwise it is invalid or expired accordingly |
| Ticket.OpenedWasMinted | src/attach_ticket.cpp:276-306 | only what minting gives for this key and principal opens, character for character |
| Ticket.OneSpelling | src/attach_ticket.cpp:169-181 | two accepted tokens over the same envelope bytes are the same text |
| TicketRedemption.RedeemAttachTicket | src/attach_ticket.cpp:317-409 | the column loops compute redemption: no ticket, each refusal, or the restored request |
| TicketRedemption.RestoreKeeps | src/attach_ticket.cpp:383-409 | every column but the four sealed ones comes through untouched and in place |
| TicketRedemption.RestoredReads | src/attach_ticket.cpp:383-409 | what the four sealed columns read as afterwards, where the request has them |
| TicketRedemption.SealAttach | src/attach_ticket_service.cpp:65-148 | issuing: denial, malformed options, all violations in order, a lifetime that overflows, and otherwise the sealed claims; without a ttl or a ceiling they have no end, and else they end after the smaller of those there are |
| TicketRedemption.Validate | src/attach_ticket_service.cpp:82-130 | every violation of a request, accumulated in the order they are reported, and the options that get sealed |
| TicketRedemption.NoNameViolation | src/attach_ticket_service.cpp:100-110 | no violation of a name if and only if every name is declared, in any letter case, and none is reserved |
| TicketRedemption.NoRequiredViolation | src/attach_ticket_service.cpp:111-118 | no missing-option violation if and only if every required option is supplied |
| TicketRedemption.SealedIsComplete | src/catalog.cpp:120-165 | what was sealed never fails the merge for a missing required option |
| TicketRedemption.SealedHoldsNoTicket | src/attach_ticket_service.cpp:100-110 | sealed options never hold a ticket option |
| TicketRedemption.SealedOpens | src/attach_ticket_service.cpp:130-148 | an issued ticket opens, for its principal and inside its window, to the claims sealed |
| AttachExact.ViolationsExact | src/attach_ticket_service.cpp:82-130 | the violations reported of a request are exactly those that hold of it, kind by kind, with names compared letter by letter |
| AttachExact.ViolationsInOrder | src/attach_ticket_service.cpp:82-130 | they are reported in order: lifetime, rows, catalog or names, missing options, size |
| AttachExact.SealIs | src/attach_ticket_service.cpp:65-148 | issuing is denied exactly without a principal, reports exactly the violations that hold, and otherwise mints the request's own claims, which end as the ttl and the ceiling say |
| AttachExact.SealSucceeds | src/attach_ticket_service.cpp:132-148 | with no violation and a lifetime that fits, those claims are issued unless they cannot be minted |
| AttachExact.RedeemIs | src/attach_ticket.cpp:317-382 | a request is left alone if and only if it carries no ticket, malformed if and only if its options do not read, refused as not alone if and only if there is another option beside the ticket |
| AttachExact.RedeemOfMint | src/attach_ticket.cpp:317-409 | the whole outcome of redeeming a minted ticket, for every key of the worker, every caller and every time: invalid, expired, or the restored request |
| AttachExact.MergeExact | src/catalog.cpp:120-165 | each merged option is the first supplied column of its name in any letter case, cast; else its default; else null and not required. The merge fails if and only if some option can hold none of these |
| AttachExact.FieldReads | src/wire.cpp:87-125 | an optional field is read from the one column of its name: a value of its type, or nothing where it is null or no one column has the name |
| AttachExact.AttachIs | src/catalog.cpp:553-627 | field by field, what an ATTACH selects: the memory catalog, or the first catalog of the name (the primary if none has it), the alias, the versions asked for and the merged options |
| AttachExact.AttachFails | src/catalog.cpp:553-627 | an ATTACH fails if and only if a field is not of its type, options do not read, or an option of the chosen catalog can hold nothing |
| TicketRedemption.TicketedEqualsDirect | src/attach_ticket.cpp:317-409 | redeeming an issued ticket and attaching selects the same catalog, versions and merged options as attaching directly, never lacks a required option, and the restored request holds no ticket for anyone |
| TicketRedemption.PinnedVersionsExact | src/attach_ticket.cpp:383-409 | an attach by ticket selects what the direct one does if and only if the request has a column for each version the ticket pins |
| TicketCases.UnreadableTicket | src/attach_ticket.cpp:252-274 | a concrete ticket over bytes that are not UTF-8: minted, and invalid for every key, caller and time |
| TicketCases.LostVersion | src/attach_ticket.cpp:383-409 | a concrete redeeming request that loses the pinned version the direct attach asks for |
| AttachValue.Dispatcher.SealAttachment | src/catalog.cpp:1844-1870 | the value returned and the store afterwards |
| AttachValue.Dispatcher.AttachmentOf | src/catalog.cpp:1872-1910 | reading a value: default, rejection on a sealing transport, options that are no record, or the attachment with options restored |
| AttachValue.Dispatcher.RestoreSecretOptions | src/catalog.cpp:1912-1945 | the options after restoring, in declared order, or stored bytes that are no record |
| AttachValue.RoundTripExact | src/catalog.cpp:1844-1945 | reading a sealed value gives the attachment back if and only if its fields are NUL-free and its options restorable; with a NUL in a field it is rejected on a sealing transport, and elsewhere read as the first catalog with nothing else |
| AttachValue.OptionsRestored | src/catalog.cpp:1912-1945 | secret and plain options recombine to the original record if and only if restorable, on both transports |
| AttachValue.GatherExact | src/catalog.cpp:1925-1945 | a restored record holds each declared option's value, from the attach value if it is there and from the store otherwise, and nothing else |
| AttachValue.SelectExact | src/catalog.cpp:1925-1945 | gathering by name puts a record back if and only if no name repeats |
| AttachValue.EveryAttachmentReadsBack | src/catalog.cpp:1844-1945 | over any run of attaches with ids of their own, each still reads back as made |
| AttachValue.OtherSealKeeps | src/catalog.cpp:1844-1870 | sealing one attachment changes nothing about reading another |
| AttachValue.UnsealedValueHidesSecrets | src/catalog.cpp:1844-1870 | on an unsealed transport, attachments differing only in secret values have the same value |
| AttachValue.UnsealedParts | src/catalog.cpp:1844-1870 | on an unsealed transport the value holds the four fields and exactly the options not declared secret, and the store exactly the others |
| AttachValue.SealedParts | src/catalog.cpp:1844-1870 | on a sealing transport the value holds all options, and nothing is stored |
| AttachValue.ForeignValue | src/catalog.cpp:1872-1899 | no value reads as the first catalog with nothing else; so does one that is not of five fields or names no served catalog, unless the transport seals, which rejects it |
| AttachValue.MergeIsAligned | src/catalog.cpp:120-165 | merged options follow the declaration, name by name, so every attachment made is one the round trip is about |
| AggregateStore.KeyTextInjective | src/aggregate.cpp:55-73 | no two groups, partitions or stashed values share a printed key |
| Aggregate.GroupStateIsFold | src/aggregate.cpp:144-256 | after every run over any executions, a group's stored state is the fold of exactly the rows contributed to it, its own and those merged into it, in order |
| Aggregate.StatelessExact | src/aggregate.cpp:144-176 | a group has no state if and only if none of its rows starts one |
| Aggregate.PartitionIsLive | src/aggregate.cpp:356-423 | after every run exactly the live partitions are stored, as last given |
| Aggregate.PartitionStored | src/aggregate.cpp:356-423 | the four values of a live partition, each under its own key; none of any other |
| Aggregate.ArgumentsAreStashed | src/aggregate.cpp:100-142 | the argument stash holds what the last bind of that execution left, until it is destroyed |
| Aggregate.SessionIsOpened | src/aggregate.cpp:258-287 | a session's settings are those it was last opened with |
| Aggregate.SessionStored | src/aggregate.cpp:258-287 | the three settings of an open session, each under its own key; none without one |
| Aggregate.ReplayAppended | src/aggregate.cpp:289-328 | appended entries override key by key, whatever bytes the states hold |
| Aggregate.ReplayExact | src/aggregate.cpp:289-328 | the log replays to the map a chunk ended with if and only if keys are NUL-free and none was dropped |
| Aggregate.DroppedKeyComesBack | src/aggregate.cpp:289-328 | a concrete chunk that drops a key: the next one sees its old state |
| Aggregate.LogIsStreamStates | src/aggregate.cpp:289-328 | over every run, with a function that drops no key, the replay at a chunk's start is the map the previous chunk ended with |
| AggregateService.QuerySeesLive | src/aggregate.cpp:430-496 | a query on a live partition sees the data, schema and mask last stored for it; on any other it is refused |
| AggregateService.FinalizeGivesFolds | src/aggregate.cpp:211-256 | after any run, finalize hands out the fold of exactly the rows contributed to each group asked for, and the arguments last bound |
| AggregateService.ReplayLog | src/aggregate.cpp:313-319 | the loop over the log keeps the newest entry of each key |
| AggregateService.Dispatcher.DoBind | src/aggregate.cpp:100-142 | the store after a bind |
| AggregateService.Dispatcher.DoUpdate | src/aggregate.cpp:144-176 | the store after an update: only the batch's groups, from the states they had |
| AggregateService.Dispatcher.DoCombine | src/aggregate.cpp:178-209 | the store after merging source groups into targets, pair by pair |
| AggregateService.Dispatcher.DoFinalize | src/aggregate.cpp:211-256 | finalize hands out exactly the stored states and changes nothing |
| AggregateService.Dispatcher.DoDestroy | src/aggregate.cpp:498-519 | an execution's keys are gone and no other execution changes |
| AggregateService.Dispatcher.DoWindowInit | src/aggregate.cpp:356-384 | the four values of a partition are stored, nothing else changes |
| AggregateService.Dispatcher.DoWindowQuery | src/aggregate.cpp:430-496 | the partition as stored; without counts one row that pairs start and end position by position, and with exact counts frame k of a row pairs those at the sum of the counts before it plus k |
| AggregateService.Dispatcher.DoWindowDestroy | src/aggregate.cpp:400-423 | one partition's values are gone and nothing else changes |
| AggregateService.Dispatcher.DoStreamOpen | src/aggregate.cpp:258-287 | the session's settings are stored |
| AggregateService.Dispatcher.DoStreamChunk | src/aggregate.cpp:289-341 | a chunk runs on the replayed map and appends the map it ends with |
| Window.SplitFrames | src/aggregate.cpp:460-470 | each row gets its stretch of the frames, for any counts |
| Window.RowPairsUp | src/aggregate.cpp:460-470 | with exact counts, a row has its count of frames, and frame k is the start and the end at the sum of the counts before it plus k |
| Window.SplitConcatenates | src/aggregate.cpp:460-470 | the rows end to end are the frame list, as far as the counts reach |
| Window.SplitIsExact | src/aggregate.cpp:460-470 | with non-negative counts that add up, the split concatenates back and row i starts at the sum of the counts before it |
| Window.UnpackMask | src/aggregate.cpp:77-86 | the mask loop reads least significant bits first and stops at the end of the bytes |
| Window.UnpackOfPack | src/aggregate.cpp:77-86 | unpacking inverts packing |
| ConstraintRecords.SpellingsInvert | src/constraints.cpp:31-61 | reading a spelling gives back the value spelled, for every one-to-one table |
| ConstraintRecords.TablesOneToOne | src/constraints.cpp:31-46 | the three tables are one-to-one |
| ConstraintRecords.ConstraintRecord | src/constraints.cpp:177-268 | a specification is refused exactly when inconsistent, and otherwise gives its record |
| BuiltRecords.BuildableExactly | src/constraints.cpp:177-199 | the specifications that are not refused, kind by kind |
| ConstraintRecords.RecordRoundTrip | src/constraints.cpp:287-355 | every accepted specification decodes to a view with the same owner, id, kind, paths, modes, name, CHECK text and reference |
| ConstraintRecords.RecordsAreDistinct | src/constraints.cpp:177-268 | different specifications give different records |
| RecordsExact.DecodeExact | src/constraints.cpp:287-355 | any wire record decodes to a record if and only if it says it, field by field, in the spellings of the wire |
| ServedSchema.ServeKeepsShape | src/constraints.cpp:372-386 | serving changes nothing but nullability |
| ServedSchema.ServeSchemaIdempotent | src/constraints.cpp:388-394 | serving what is served changes nothing |
| ServedSchema.WalkNeverFails | src/constraints.cpp:538-553 | the final nullability walk over served columns succeeds, whatever the paths |
| ServedSchema.NonNullIsRequired | src/constraints.cpp:361-394 | the non-nullable reachable paths of served columns are the required paths among the reachable ones, at every depth |
| ServedSchema.ResolvedIsReached | src/constraints.cpp:398-412 | a path that resolves by unique names is a reachable one |
| RecordsExact.ResolveIs | src/constraints.cpp:398-412 | a path resolves if and only if it leads to a column that is no row id, through plain STRUCTs, by names that one field each has |
| ServedSchema.ResolveServed | src/constraints.cpp:398-412 | serving changes no resolution |
| RecordValidation.ValidateRecords | src/constraints.cpp:414-554 | accepts exactly the good record sets, is undefined exactly where it reads an absent reference before anything else fails, rejects the rest; its last walk never rejects |
| RecordsExact.AcceptedExactly | src/constraints.cpp:414-554 | any records whatever are accepted if and only if their number and sizes are in bounds, each decodes and passes, and they pass together, said of raw columns, literal spellings and letters |
| BuiltRecords.BuiltAccepted | src/constraints.cpp:414-554 | the records a worker builds are accepted if and only if plain conditions on their specifications and columns hold: owner, sizes, ENFORCED and ALL_ROWS, a column for every path, references in the schema, a CHECK the grammar takes, ids and names distinct, one primary key; otherwise they are rejected |
| RecordValidation.UndefinedExactly | src/constraints.cpp:502-508 | the one kind of record on which the check reads absent references |
| RecordValidation.BuiltNeverUndefined | src/constraints.cpp:177-268 | no record the worker builds is such a record |
| RecordValidation.UndefinedLacksForeignKey | src/constraints.cpp:502-508 | a set of records that is undefined has a FOREIGN_KEY record without its definition |
| RecordValidation.HollowIsUndefined | src/constraints.cpp:502-508 | a concrete record that decodes and makes the verdict undefined, whatever the columns |
| RecordValidation.AcceptedNullability | src/constraints.cpp:414-554 | served with an accepted set, the non-nullable reachable paths are exactly its NOT_NULL and PRIMARY_KEY paths |
| RecordValidation.ServedVerdictIsRaw | src/constraints.cpp:432-432 | raw and already served columns get the same verdict, be it acceptance, rejection or undefined |
| ForeignKeys.AcceptedOffer | src/catalog.cpp:1058-1077 | the validator's acceptance of a version gives readable records, no id twice, and a reference in every foreign key |
| ForeignKeys.CheckSchemas | src/catalog.cpp:1109-1176 | validates every version of every table in order, then looks every foreign key up; the verdict is the first that is no acceptance, and else whether all hit |
| ForeignKeys.HitsExact | src/catalog.cpp:1136-1176 | for any tables: a foreign key hits if and only if the first declared table of that path and name to serve a record of that id serves it as a key over the same columns in order |
| ForeignKeys.ClosureExact | src/catalog.cpp:1109-1176 | the catalog is accepted if and only if every version of every table passes the validator and every foreign key of every version hits in that sense |
| CatalogClosure.TablesAre | src/catalog.cpp:1109-1120 | every table of every schema is checked, in order of declaration |
| CatalogClosure.CatalogExact | src/catalog.cpp:1109-1176 | from the schemas as declared: a catalog is accepted if and only if every version of every table of every schema passes, and every FOREIGN_KEY among their records lands on the first table of the referenced path and name to serve the id in its newest version, as a key over the same columns |
| ForeignKeys.TargetsIsServed | src/catalog.cpp:1136-1176 | with table names declared once, hitting is that some table of the name currently serves that PRIMARY_KEY or UNIQUE record over the same columns |
| ForeignKeys.SecondTableIsHidden | src/catalog.cpp:1136-1176 | two valid tables of one name: the key the second one serves is hidden by the first one's record of its id |
| Capabilities.SelectCapabilities | src/constraints.cpp:626-655 | intersecting and erasing computes the selection |
| Capabilities.SelectIsGreatest | src/constraints.cpp:626-655 | the selection is the greatest closed set of profiles both sides name |
| Capabilities.SelectIsMonotone | src/constraints.cpp:626-655 | more on offer never selects less |
| Capabilities.SelectKeepsOrder | src/constraints.cpp:628-635 | the worker's order is kept |
| Capabilities.SelectIsIdempotent | src/constraints.cpp:626-655 | selecting again, from the selection or against it, changes nothing |
| SchemaPaths.KeyOf | src/catalog_contents.cpp:25-32 | the appending loop computes the key |
| SchemaPaths.KeysAlias | src/catalog_contents.cpp:25-32 | two paths share a key if and only if they are alike once cut at NULs |
| SchemaPaths.PathKeyInjective | src/catalog_contents.cpp:25-32 | NUL-free paths have a key each |
| SchemaPaths.CheckPaths | src/catalog_contents.cpp:43-71 | accepts exactly the sound snapshots, and reports the first faulty schema, or the first orphan if none is faulty |
| SchemaPaths.CheckSeesFlattened | src/catalog_contents.cpp:43-71 | what is accepted of any paths whatever |
| SchemaPaths.CheckIsExact | src/catalog_contents.cpp:43-71 | with NUL-free components, rejects exactly the empty, duplicate, orphaned or misreported paths |
| SchemaPaths.NulStandsInForParent | src/catalog_contents.cpp:63-70 | a concrete orphan that passes |
| SchemaPaths.ParentsFirstSorts | src/catalog_contents.cpp:74-79 | the serving order is sorted by depth, keeps each depth's order and is a permutation |
| SchemaPaths.StableOrderIsUnique | src/catalog_contents.cpp:74-79 | a stable sort by depth has only one result |
| SchemaPaths.AncestorsComeFirst | src/catalog_contents.cpp:74-79 | each schema comes after its whole chain of ancestors |
| ContentsFrame.EncodeCollections | src/catalog_contents.cpp:116-132 | the gathering loop computes the six streams |
| ContentsExact.EncodePlaces | src/catalog_contents.cpp:116-132 | each stream reads back to exactly the items of its kinds, schema by schema, and there is none if and only if every schema's lists of those kinds are empty |
| ContentsExact.EncodeFails | src/catalog_contents.cpp:116-132 | encoding fails if and only if one of the six lists of items cannot be written |
| ContentsFrame.OrderKeepsItems | src/catalog_contents.cpp:116-132 | the serving order loses, repeats and adds no item of any kind |
| ContentsFrame.Absorb | src/catalog_contents.cpp:134-153 | what the hash is fed is the frame |
| ContentsFrame.FrameInjective | src/catalog_contents.cpp:134-153 | different collections are hashed as different bytes |
| ContentsExact.FrameParts | src/catalog_contents.cpp:134-153 | the frame is the domain and the six collections under their names, in order |
| ContentsExact.FrameOneIs | src/catalog_contents.cpp:134-153 | the bytes of an absent collection and of one with one byte |
| TableItems.ServeTableItem | src/catalog_contents.cpp:84-105 | the steps compute the served item, a refusal, or the undefined read of an absent reference |
| TableItems.ServeItemFails | src/catalog_contents.cpp:84-105 | an item is refused if and only if it does not read or its records are rejected, and passed on as it is without columns |
| TableItems.HollowTableReadsAbsent | src/catalog_contents.cpp:94-94 | a handler's table with such a record has that outcome |
| TableItems.ServedItemAgrees | src/catalog_contents.cpp:84-105 | a handler's table is served as it was but for columns whose non-nullable paths are exactly what its records require |
| TableItems.ServeItemIdempotent | src/catalog_contents.cpp:84-105 | an item already served is passed on byte for byte |
| CatalogContents.AnswerCatalogContents | src/catalog_contents.cpp:161-204 | the steps compute the answer or its error |
| CatalogContents.AnswerRules | src/catalog_contents.cpp:161-204 | "not modified" only repeats the caller's etag; a full answer never carries it and is the current snapshot, parents first |
| ContentsExact.RefusalExact | src/catalog_contents.cpp:161-204 | exactly when each error is the answer |
| ContentsExact.AnswerExact | src/catalog_contents.cpp:161-204 | an answer is "not modified" if and only if the source's etag is the caller's, or the source has none and the content hash is; a full answer has the source's etag, or else the hash in content-hash mode |
| ContentsExact.SnapshotHolds | src/catalog_contents.cpp:116-132 | a snapshot holds every item of every schema it serves |
| CatalogContents.ServedAncestorsFirst | src/catalog_contents.cpp:186-191 | every snapshot served, composed or handled, lists each schema after all its ancestors |
| CatalogContents.ClientIsCurrent | src/catalog_contents.cpp:161-204 | over every run in which an etag determines the collections, the client holds the current ones after each reply |
| ContentsExact.ClientHasEverything | src/catalog_contents.cpp:161-204 | over every such run, after each reply the client has every item of every schema then served, with a body or without |
| CatalogContents.ContentHashDetermines | src/catalog_contents.cpp:134-153 | content hashes determine collections, because the framing does |
| CatalogContents.ContentHashRun | src/catalog_contents.cpp:193-203 | in content-hash mode the client is current after each reply, and the reply has no body exactly when nothing changed |
| CatalogContents.NoEtagIsAlwaysFull | src/catalog_contents.cpp:193-203 | with no etag every reply is full and current, whatever was asked |
| CatalogContents.ReusedEtagIsStale | src/catalog_contents.cpp:169-195 | a source that repeats an etag for other collections is answered "not modified" and leaves the client stale |
| CatalogContents.HashCollisionIsStale | src/catalog_contents.cpp:197-203 | two snapshots with one hash leave the client stale |
| CatalogContents.FixedEtagIsStale | src/catalog_contents.cpp:169-195 | a handler that never changes its etag leaves its client without the first schema |
| CatalogContents.TagsExact | src/catalog_contents.cpp:161-204 | over all runs drawn from moments whose sources serve under etags of their own, the client is current after every reply if and only if no two give one etag to different collections |
| HandledTables.AnswerHonoursRecords | src/catalog_contents.cpp:186-190 | every table of a handler's full answer is one it gave, served: its non-nullable paths are exactly what its records require, and serving it again changes nothing |
| Registry.PushedIsConsistent | src/dispatcher.cpp:157-177 | a registration keeps the lists parallel and each name's index exactly its registrations |
| Registry.IndexedExactly | src/dispatcher.h:491-494 | the index of a name is exactly its registrations, ascending |
| Registry.Find | src/function_dispatch.cpp:743-753 | lookup through the index finds the first registration a scan of all of them would |
| Registry.UntypedListingIsComplete | src/catalog.cpp:1984-2041 | the untyped listing is scalars, then all table kinds, then aggregates, each visible registration once and in order |
| Catalogs.Locate | src/dispatcher.cpp:234-239 | finds the first catalog of a name |
| RegistryService.Declare | src/dispatcher.cpp:224-232 | the schemas declared afterwards are those before, the one asked for, and `main` of a new catalog |
| RegistryService.Dispatcher.RegisterIn | src/dispatcher.cpp:97-177 | each refusal exactly for its reason; otherwise the function and its scope are the last of their kind, the scope is declared, the cache cleared, and the invariant kept |
| RegistryService.Dispatcher.HideFunction | src/dispatcher.h:88-91 | the name is hidden, the cache cleared, and the invariant kept |
| RegistryService.Dispatcher.SetCatalog | src/dispatcher.cpp:217-222 | the primary is replaced; cached listings stay right |
| RegistryService.Dispatcher.FunctionListing | src/catalog.cpp:1965-1982 | answers what a rebuild would give, cached or not |
| RegistryService.Dispatcher.BuildFunctionListing | src/catalog.cpp:1984-2041 | builds the listing, the untyped one through the cached typed ones |
| ListingRaces.NextKeepsInv | src/catalog.cpp:1965-1998 | every step of every thread, and every registration or hidden name that catches no request in flight, keeps cached listings faithful and each request on course to the rebuild |
| ListingRaces.CacheIsFaithful | src/catalog.cpp:1965-1982 | at every moment of every run, with registrations in flight that catch no request, each cached listing is a rebuild's and each request was answered the rebuild of what was registered at its answer |
| ListingRaces.RacingRequestsAgree | src/catalog.cpp:1976-1981 | requests answered with no registration in between all return the same listing, the rebuild |
| ListingRaces.EveryStepCounts | src/catalog.cpp:1965-1998 | every step of a request brings it closer to its answer, whatever the others do |
| ListingChanges.AddedItems | src/catalog.cpp:2007-2040 | a registration adds its own item at the end of its kind, where it is listed and not hidden, and nothing else |
| ListingChanges.AddedListing | src/catalog.cpp:1984-2041 | a listing is unchanged by a registration if and only if it is of another scope, of a kind not listed, or hidden |
| ListingChanges.HidListing | src/dispatcher.h:88-91 | a listing is unchanged by hiding a name if and only if it lists no function of that name |
| ListingInFlight.OutcomeIsBlend | src/catalog.cpp:1984-1998 | run to its answer after a change, a request ends with the types it holds as they were and the others as they are, and caches just that |
| ListingInFlight.RegistrationInFlight | src/catalog.cpp:1965-1998 | for every request in flight at any place: after a registration it is answered right if and only if that is of another scope, of a hidden name or of a kind it does not hold; the cache is left right exactly then or when it had nothing to list |
| ListingInFlight.HidingInFlight | src/catalog.cpp:1965-1998 | after a name is hidden, the answer and the cache are right if and only if the request holds no listing with a function of that name |
| ListingInFlight.GuardIsExact | src/catalog.cpp:1965-1998 | a registration or hidden name keeps the invariant if and only if it catches no request in flight |
| ListingInFlight.StaleListing | src/catalog.cpp:1976-1981 | a typed request caught between build and insertion leaves its listing cached without the newest function |
| ListingInFlight.StaleWhole | src/catalog.cpp:1987-1996 | an untyped request caught between two typed parts leaves the whole listing cached without the newest function |
| ListingInFlight.EmptyIsNotKept | src/catalog.cpp:1979-1979 | an untyped request caught with nothing to list is answered nothing, and nothing is kept |
| Versions.ParseSemver | src/catalog.cpp:222-240 | the loop computes the reading, numbers past 64 bits included |
| Versions.ReadVersionExact | src/catalog.cpp:222-240 | a text is a version if and only if it is three numerals with a dot between two, read modulo 2^32 |
| Versions.ReadOfRender | src/catalog.cpp:222-240 | a printed version of 32-bit parts reads back as itself |
| VersionRanges.ResolveVersion | src/catalog.cpp:249-312 | returns the fallback, the literal text, or a supported version the range covers with no greater one covered, and fails exactly when there is none |
| VersionRanges.ExactForm | src/catalog.cpp:273-278 | `X.Y.Z` is taken literally |
| VersionRanges.RangedForms | src/catalog.cpp:280-290 | `^X.Y.Z` and `~X.Y.Z` are ranges from that base |
| VersionRanges.MajorForm | src/catalog.cpp:292-301 | `X` is a major |
| VersionRanges.MinorForm | src/catalog.cpp:302-312 | `X.Y` pins the text `X.Y.0`, which is that version |
| VersionRanges.HighestIsUnique | src/catalog.cpp:265-271 | two highest texts read as the same version |
| VersionMeaning.ReadsInFull | src/catalog.cpp:229-231 | a reading is the version named if and only if every part fits 32 bits |
| VersionMeaning.NarrowIsRight | src/catalog.cpp:249-312 | from the request's text: with all numbers below 2^32, the answer is a supported version that satisfies what the caret, the tilde or the major says in numbers, with none above it, and a refusal means there is none |
| VersionMeaning.WideRequestIsWrong | src/catalog.cpp:280-301 | a range with a number past 32 bits is answered a version it does not cover by a worker of narrow versions |
| VersionMeaning.RequestExact | src/catalog.cpp:249-312 | a range request is right with every worker of narrow versions if and only if its own numbers are below 2^32 |
| VersionMeaning.TextExact | src/catalog.cpp:249-312 | a supported version is harmless to every narrow request beside any narrow versions if and only if its parts are below 2^32 |
| VersionMeaning.WideMajorRequest | src/catalog.cpp:292-301 | the request 4294967297 is answered 1.0.0 |
| VersionMeaning.WideMajorWraps | src/catalog.cpp:229-231 | a supported 4294967297.0.0 is answered to a request for major 1 |
| VersionMeaning.LiteralIsRight | src/catalog.cpp:273-312 | the exact and `X.Y` forms answer the text they pin exactly when it is supported, and it names the version written at any width |
| VersionMeaning.HugeRequest | src/catalog.cpp:273-290 | a request of any form with a number past 64 bits raises |
| VersionMeaning.HugeSupported | src/catalog.cpp:255-257 | a supported version with a number past 64 bits makes every request raise |
| VersionMeaning.DotFreeExact | src/catalog.cpp:292-301 | a request without a dot is accepted if and only if it is white space, an optional sign, a numeral of at most 64 bits and then anything; it means the number spelled if and only if that is from 0 up to 2^32 |
| VersionMeaning.NegativeMajorWraps | src/catalog.cpp:292-301 | a concrete negative request that means major 1 |
| Negotiation.Negotiate | src/catalog.cpp:557-618 | the outcomes of ATTACH's version negotiation, refusals included |
| Negotiation.NegotiatedIsServed | src/catalog.cpp:557-618 | ATTACH lands only on supported versions or its own default, with schemas where versions have them, and refuses a caller who asks for nothing only for a default without schemas |
| Negotiation.LiteralNegotiation | src/catalog.cpp:570-618 | without ranges a request is answered with the very version it names if and only if that is supported, and no request with the default |
| Negotiation.OneImplementation | src/catalog.cpp:601-618 | with no implementation versions listed, the one implementation is all a request may name |
| Negotiation.RangedNegotiation | src/catalog.cpp:564-609 | with ranges a request is answered as its range resolves, and no request or an empty one with the default |
| Negotiation.Unversioned | src/catalog.cpp:557-618 | a catalog without data versions, or without an implementation, resolves none, whatever is asked |

## Left out

- TicketRedemption.TicketedEqualsDirect: for options records of one row and UTF-8 texts. A ticket over other texts never opens; merging checks no row count, and what it makes of another one is the outcome `Ragged`, not followed further.
- Ticket.OpenAttachTicket: the clock is a real number and so is each time compared with it; the rounding of 64-bit times to doubles is not modelled.
- Aggregate.GroupStateIsFold: each call is one step; two processes folding the same group at once can lose an update in the source, whose load and store are no transaction.
- Aggregate.LogIsStreamStates: for functions that keep every key and name partitions without NULs; what happens otherwise is `Aggregate.ReplayExact`.
- ForeignKeys.CheckSchemas: the checks of a table beside its records (column metadata, expressions, filters, revision) are two flags per version, those ahead of the records and those behind; views and macros are not checked.
- CatalogContents.ContentHashRun: assumes that the hash does not collide on what the run hashes and that stream lengths fit 64 bits.
- ListingInFlight.RegistrationInFlight: the request is run to its answer with no other thread between; with others, what the first of them inserts is kept.
- RegistryService.Dispatcher.RegisterIn: one method for the five kinds; the overloads that fill in the primary catalog and `main` are not repeated.
- ListingRaces.NextKeepsInv: building reads the registries in one step; a registration in the middle of that scan is a data race in the source.
- Registry.Find: lookup by name and scope; choosing among overloads by argument types is not modelled.
- SchemaPaths.ParentsFirstSorts: `std::stable_sort` is an insertion on values, not an in-place merge; the result is the only stable one.
- VersionRanges.ResolveVersion: which of several texts that read as the same version is returned is left open, as `std::sort` leaves it.
- Arrow arrays, builders, casts and IPC bytes: records are values, and encoding is a function that reads back.
- AEAD, SHA-256, base64 and random id internals: only the laws above.
- The text of error messages; which exception type carries them.
- The CHECK expression grammar: a predicate on the text and the served columns.
- The storage backend behind the key/value store, and the sealing of values on HTTP: a map with logs, and a flag.
- In-memory catalogs and their DDL: only that their names declare no options.
- Encoding of function, view, macro, setting and secret-type records, the landing page, tracing and RPC registration: field copying.
- Cache control, copy functions, buffering execution and argument schemas: small adapters with no property across calls.
