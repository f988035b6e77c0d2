# DnsPro: a verified model of parsing, building, zone storage and resolving

DnsPro reads a DNS packet into a message (Parser), writes a message as an
uncompressed packet (Builder), keeps resource records under their canonical
names (ZoneStore) and answers raw queries from them (Resolver). This project
models these four components in Dafny and proves how they fit together.

`dafny verify dfyconfig.toml` checks everything.

| file | holds |
|---|---|
| Packet.dfy, Encoding.dfy | the packet structures; the uncompressed wire format as byte sequences |
| NameWalk.dfy, NameMeaning.dfy, NameFailures.dfy | the label/pointer walk, its step budget, the inductive meaning of a name, and the octets that refuse one |
| Reading.dfy, Parser.dfy, MessageMeaning.dfy | what is read at an offset, the parser's methods, and the relation they decide |
| Truncation.dfy, Conforming.dfy | the effect of adding and cutting bytes; names whose pointers lead to earlier names |
| Layout.dfy, Failures.dfy | sizes and slices of a parse, and which buffers are refused with which status |
| ByteVectors.dfy, Builder.dfy, WireLength.dfy | the output buffer, the writers, the length of a packet |
| RoundTrip.dfy, Rebuild.dfy | build then parse, parse then build, canonical forms |
| CanonicalName.dfy | canonical keys and name equality |
| ZoneList.dfy, ZoneIndex.dfy, ZoneStores.dfy | the zone as a list, the nested index as a value, the store |
| Resolvers.dfy, Interleaving.dfy | resolving, end to end and beside concurrent writers |
| Bits.dfy | the bit operators that the methods apply, and what their masks and shifts come to |

Conventions. A reader that advances an `offset` reference returns the advanced
offset with its value (`Parsed`). Buffers that are only read are sequences; the
output buffer and the zone store are classes with the fields of the original.
Spans of fixed-size fields that can fail in one way only are bounds-checked at
once in the specification functions of Reading.dfy; the methods of Parser.dfy
read field by field as the code does. The methods compute with the masks and
shifts of the code; the specifications say the same in arithmetic. The loop over
a section of records, written out three times in `parse` and in `build`, is one
method here, and the pointer and label branches of the name loop are one method
each.

## Where the code and its documentation differ

The model follows the code.

* src/DnsPro/Parser.cpp:137-140, include/DnsPro/Parser.h:43-48 and
  tests/custom/suite/unit/compression.cpp:10-18 say that strictly backward
  pointers already exclude loops. They do not: `BackwardPointersCanLoop` gives
  four bytes that loop. README.md:109-116 of the repository is right, and
  `BudgetIsExact` shows that the step counter cuts off exactly the endless walks.
* include/DnsPro/Parser.h:41-43 says that the buffer is walked once, start to
  finish. A pointer back into an earlier label can make a name read bytes behind
  the end of the message, so a packet may parse only thanks to bytes that
  follow it (`ParseCanReachPastItsEnd`). The exact truncation threshold is
  therefore not the number of consumed bytes but the furthest byte looked at
  (`TruncationThreshold`); `ConsumedIsThreshold` says when the two agree, and
  `ConformingReach` that they do when every pointer leads to a name that stands
  wholly before the pointing one, as section 4.1.4 of RFC 1035 has it.
* include/DnsPro/Packet/Message.h:41-43 promises SECTION_COUNT_MISMATCH for a
  count that does not match its section. `ParseFailures` shows that it is never
  returned.
* include/DnsPro/Resolver.h:71-75 says that every status other than OK of
  `resolve` is a failure to parse the query. Building the answer can fail as
  well (`AnswerCanBeRefused`); `AnsweredIffEncodable` says exactly when.
* include/DnsPro/ZoneStore.h:35-38 describes the key as the labels joined with
  dots. A dot may also stand inside a label, and then different names share a
  key (`DottedLabelsCollide`). `KeysReadAlike` says for all names which ones do.
* A NODATA response is not always true: between the two reads of the zone a
  record of the asked type may arrive. `NodataCanBeWrongThroughout` gives a
  schedule in which the response is right at no instant. `ResponseIsTrueAtARead`
  gives the exact condition under which it is right at the hasName check and at
  every other instant from the lookup on, and `ResponseIsEverTrueIff` the exact
  condition under which it is right at any instant of the two reads or between.

## Model

| member | source | states |
|---|---|---|
| NameWalk.BudgetIsExact | src/DnsPro/Parser.cpp:141-194 | COMPRESSION_LOOP is returned if and only if the unbounded cursor walk never ends, and if and only if it revisits an offset |
| NameWalk.BudgetSuffices | src/DnsPro/Parser.cpp:141-145 | a walk that finishes under any budget finishes under `buffer.size() + 1` with the same result |
| NameWalk.MovesAreBounded | src/DnsPro/Parser.cpp:137-141 | pigeonhole: a walk without revisits makes at most `buffer.size()` moves, and fewer if it rests inside the buffer |
| NameWalk.RevisitNeverEnds | src/DnsPro/Parser.cpp:143-194 | a walk that comes back to an offset makes every number of moves |
| NameWalk.CutMeansMoves | src/DnsPro/Parser.cpp:143-145 | a budget of k runs out exactly when the walk makes k moves |
| NameWalk.BackwardPointersCanLoop | src/DnsPro/Parser.cpp:138-168 | a four-byte name whose only pointer is strictly backward and which loops |
| NameWalk.WalkEndsInPlace | src/DnsPro/Parser.cpp:159-162 | the offset handed back is the end of the in-place encoding: behind the zero octet or behind the first pointer |
| NameWalk.NameShape | src/DnsPro/Parser.cpp:129-198 | a name that was read has fewer labels than the buffer has bytes, each of 1 to 63 bytes, and the offset advances within the buffer to the in-place end |
| NameMeaning.WalkIsSound | src/DnsPro/Parser.cpp:143-197 | labels that the walk yields are encoded at the offset in the sense of section 4.1.4 of RFC 1035 |
| NameMeaning.WalkIsComplete | src/DnsPro/Parser.cpp:143-197 | an encoding with a derivation of height k is found within k looks |
| NameMeaning.NameAtDecidesMeaning | src/DnsPro/Parser.cpp:129-198 | parseName is OK with labels L and end e exactly when L is derivable at the offset by label-then-rest, backward pointer or zero octet, ending at e |
| NameMeaning.NameIsUnique | src/DnsPro/Parser.cpp:129-198 | at most one name is encoded at an offset |
| NameMeaning.NameAtReportsTheStop | src/DnsPro/Parser.cpp:146-188 | a status other than COMPRESSION_LOOP is the one that the unbounded walk stops with; NameFailsIff says by which octets |
| NameFailures.NameFailsIff | src/DnsPro/Parser.cpp:143-192 | parseName is COMPRESSION_FORWARD_POINTER exactly when the path of labels and pointers from the offset meets a pointer at o with target >= o, MALFORMED_NAME exactly when it meets a length octet from 0x40 to 0xBF, BUFFER_TOO_SMALL exactly when it leaves the buffer or meets a pointer or label that is cut, COMPRESSION_LOOP exactly when it comes back to an offset; no other failure, all of it told by octets |
| Parser.ReadU16 | src/DnsPro/Parser.cpp:249-257 | two big-endian octets, or BUFFER_TOO_SMALL |
| Parser.ReadU32 | src/DnsPro/Parser.cpp:259-269 | four big-endian octets, or BUFFER_TOO_SMALL |
| Parser.UnpackFlags | src/DnsPro/Parser.cpp:105-116 | the shifts and masks on the two flag octets yield the fields that FlagsUnpack characterises |
| Parser.ReadPointer | src/DnsPro/Parser.cpp:152-172 | a pointer's target, or BUFFER_TOO_SMALL for a cut pointer and COMPRESSION_FORWARD_POINTER for one that does not lead back, as StopByOctets has it |
| Parser.ReadLabel | src/DnsPro/Parser.cpp:180-193 | the text of a label and where it ends, or its refusal as reserved kind or truncated |
| Parser.ParseHeader | src/DnsPro/Parser.cpp:81-124 | the method reads the header that HeaderIsHeld characterises |
| Parser.ParseName | src/DnsPro/Parser.cpp:129-198 | the loop returns the name and offset that NameAtDecidesMeaning characterises, or the status that NameFailsIff does |
| Parser.ParseQuestion | src/DnsPro/Parser.cpp:203-212 | the question that QuestionAtDecidesMeaning ties to its octets, or the status that QuestionFailsIff does |
| Parser.ParseResourceRecord | src/DnsPro/Parser.cpp:214-244 | the record that RecordAtDecidesMeaning ties to its octets, or the status that RecordFailsIff does |
| Parser.ParseRecords | src/DnsPro/Parser.cpp:48-73 | the loop reads a section, or fails with its first failing record |
| Parser.Parse | src/DnsPro/Parser.cpp:33-76 | the message that MessageAtDecidesMeaning ties to the buffer, or the status that MessageFailsIff does |
| MessageMeaning.U16IsHeld | src/DnsPro/Parser.cpp:249-257 | reading 16 bits gives v exactly when the two octets written for v stand there |
| MessageMeaning.U32IsHeld | src/DnsPro/Parser.cpp:259-269 | the same for 32 bits |
| MessageMeaning.FlagsUnpack | src/DnsPro/Parser.cpp:105-116 | unpacking the two flag octets inverts packing all sixteen bits, both ways |
| MessageMeaning.HeaderIsHeld | src/DnsPro/Parser.cpp:81-124 | a header is read at an offset exactly when the twelve octets that HeaderOctets lists stand there, and otherwise the buffer is too small |
| MessageMeaning.QuestionAtDecidesMeaning | src/DnsPro/Parser.cpp:203-212 | a question is read exactly when a name, in any compression, and its type and class stand there |
| MessageMeaning.RecordAtDecidesMeaning | src/DnsPro/Parser.cpp:214-244 | a record is read exactly when a name, in any compression, its fields and rdlength octets of rdata stand there, rdataOffset being the place of the rdata |
| MessageMeaning.QuestionsAtDecidesMeaning | src/DnsPro/Parser.cpp:39-46 | a question section is read exactly when its entries stand one behind the other |
| MessageMeaning.RecordsAtDecidesMeaning | src/DnsPro/Parser.cpp:48-73 | the same for a record section |
| MessageMeaning.MessageAtDecidesMeaning | src/DnsPro/Parser.cpp:33-76 | parse is OK with m, consuming e bytes, exactly when m stands in the buffer under some legal compression of each name |
| MessageMeaning.MessageIsUnique | src/DnsPro/Parser.cpp:33-76 | at most one message, with one end, stands in a buffer |
| Failures.QuestionFailsIff | src/DnsPro/Parser.cpp:203-212 | parseQuestion is refused exactly with the status of its name, or with BUFFER_TOO_SMALL when the name stands and fewer than four octets follow |
| Failures.RecordFailsIff | src/DnsPro/Parser.cpp:214-230 | parseResourceRecord is refused exactly with the status of its name; with BUFFER_TOO_SMALL when the name stands and fewer than ten octets follow; with RDATA_LENGTH_MISMATCH when they follow and the last two count more than what is left |
| Failures.QuestionsFailIff | src/DnsPro/Parser.cpp:39-47 | the status is that of the first question that does not stand behind the questions before it |
| Failures.RecordsFailIff | src/DnsPro/Parser.cpp:49-56 | the status is that of the first record that does not stand behind the records before it |
| Failures.MessageFailsIff | src/DnsPro/Parser.cpp:33-76 | parse returns a status other than OK exactly when the buffer has fewer than 12 octets and it is BUFFER_TOO_SMALL, or it is the reason why the first entry that does not stand does not: sections are counted at octets 4, 6, 8 and 10, entries before it stand in the sense of QuestionsEncoded and RecordsEncoded |
| Failures.ParseFailures | src/DnsPro/Parser.cpp:33-76 | parse fails with five statuses only, never with SECTION_COUNT_MISMATCH |
| Truncation.NameAtStable | src/DnsPro/Parser.cpp:141-183 | appended bytes change the result of parseName only if it was BUFFER_TOO_SMALL; a loop stays a loop although the budget grows |
| Truncation.MessageAtStable | src/DnsPro/Parser.cpp:33-76 | appended bytes change the result of parse only if it was BUFFER_TOO_SMALL or RDATA_LENGTH_MISMATCH |
| Truncation.NameCut | src/DnsPro/Parser.cpp:146-188 | a prefix reads the same name down to the furthest byte looked at, and is BUFFER_TOO_SMALL below |
| Truncation.TruncationThreshold | src/DnsPro/Parser.cpp:33-269 | a prefix parses to the identical message if it covers the furthest byte looked at, and otherwise returns BUFFER_TOO_SMALL or RDATA_LENGTH_MISMATCH |
| Truncation.ConsumedIsThreshold | src/DnsPro/Parser.cpp:33-269 | every prefix that covers the consumed bytes parses identically if and only if no name reads past them |
| Truncation.ParseCanReachPastItsEnd | src/DnsPro/Parser.cpp:164-193 | a 22-byte packet that parses, consuming 18 bytes, whose first 18 bytes do not parse |
| Conforming.ConformingNameReads | src/DnsPro/Parser.cpp:129-198 | a name whose pointers each lead to a name standing wholly before the pointing one always reads, so never loops, and nothing behind its place is looked at |
| Conforming.ConformingReach | src/DnsPro/Parser.cpp:33-269 | if all names of a message are such, every prefix that covers the consumed bytes parses to the identical message |
| Layout.MessageBounds | src/DnsPro/Parser.cpp:33-76 | section lengths equal the counts, and 12 + 5 qdcount + 11 (ancount + nscount + arcount) <= consumed <= buffer size |
| Layout.RdataSlicesTheBuffer | src/DnsPro/Parser.cpp:232-241 | over all sections in order, each rdata is the buffer slice at its rdataOffset and starts at least 11 bytes behind the end of every earlier one |
| Builder.WriteU16 | src/DnsPro/Builder.cpp:136-139 | appends two big-endian octets and nothing else |
| Builder.WriteU32 | src/DnsPro/Builder.cpp:141-146 | appends four big-endian octets and nothing else |
| Builder.WriteHeader | src/DnsPro/Builder.cpp:69-84 | appends the twelve octets that HeaderOctets lists and HeaderIsHeld reads back |
| Builder.WriteName | src/DnsPro/Builder.cpp:89-102 | LABEL_TOO_LONG exactly when some label exceeds 63 octets, and otherwise OK with the uncompressed name appended |
| Builder.WriteQuestion | src/DnsPro/Builder.cpp:107-113 | LABEL_TOO_LONG exactly when some label of the name exceeds 63 octets, and otherwise OK with the question appended |
| Builder.WriteResourceRecord | src/DnsPro/Builder.cpp:115-131 | LABEL_TOO_LONG exactly when some label exceeds 63 octets, RDATA_LENGTH_MISMATCH exactly when none does and the rdata exceeds 65535, and otherwise OK with the record appended |
| Builder.WriteQuestions | src/DnsPro/Builder.cpp:46-49 | the status is that of the first question in violation; if none, all are appended in order |
| Builder.WriteRecords | src/DnsPro/Builder.cpp:50-61 | the status is that of the first record in violation; if none, all are appended in order |
| Builder.Build | src/DnsPro/Builder.cpp:28-64 | OK exactly when sections, labels and rdata all fit, and then the output is the message's encoding; SECTION_TOO_LARGE, with the output untouched, exactly when a section exceeds 65535 entries; otherwise LABEL_TOO_LONG when the first refused entry in wire order has a label over 63 octets, RDATA_LENGTH_MISMATCH when it has none |
| Builder.ViolationIsFirstRefused | src/DnsPro/Builder.cpp:46-63 | the first violation is the status of the first entry in wire order with a label over 63 octets or rdata over 65535, LABEL_TOO_LONG if it has such a label and RDATA_LENGTH_MISMATCH if not |
| Builder.NoViolationMeansEncodable | src/DnsPro/Builder.cpp:46-63 | past the size check no entry is in violation exactly when the message can be encoded |
| Builder.FirstViolationIsUnique | src/DnsPro/Builder.cpp:46-63 | the entries determine the status |
| Builder.SectionDecides | src/DnsPro/Builder.cpp:46-63 | the first violation of the first offending section is the first violation of the message |
| Encoding.RecordOctets | src/DnsPro/Builder.cpp:115-124 | the ten octets between an owner name and its rdata |
| WireLength.BuiltLength | src/DnsPro/Builder.cpp:28-131 | the exact length of a built packet as a sum over its entries |
| RoundTrip.BuiltNameIsRead | src/DnsPro/Builder.cpp:89-102 | a written name with non-empty labels reads back as it is, without meeting a pointer |
| RoundTrip.PlainNameIsBuilt | src/DnsPro/Parser.cpp:143-197 | a name read without a pointer stands in the buffer exactly as the builder writes it |
| RoundTrip.BuildThenParse | src/DnsPro/Builder.cpp:28-131 | any buffer that starts with the encoding of a message with non-empty labels parses to it, counts being the section sizes and each rdataOffset the place where that rdata was written, consuming exactly the encoding |
| Rebuild.ParsedMessage | fuzz/fuzz_parser.cpp:61-67 | a parsed message can always be built, has non-empty labels, and its counts are its section sizes |
| Rebuild.BytesOfContent | include/DnsPro/Builder.h:64-67 | build depends neither on the header counts nor on rdataOffset |
| Rebuild.BuiltFormIsCanonical | src/DnsPro/Builder.cpp:28-64 | build is injective up to counts and rdataOffset on messages with non-empty labels, and constant on equal content |
| Rebuild.CompressionIsInvisible | src/DnsPro/Builder.cpp:28-64 | two packets, compressed in any way, say the same exactly when rebuilding gives the same bytes |
| Rebuild.RoundTripNeedsLabels | src/DnsPro/Builder.cpp:89-102 | a buildable message survives build and parse exactly when none of its labels is empty |
| Rebuild.RebuildReachesFixedPoint | fuzz/fuzz_parser.cpp:54-75 | parse, build, parse, build: the build cannot fail, the rebuilt packet parses in full to the same content, and the second rebuild is byte-identical |
| Rebuild.RebuildIsByteExact | src/DnsPro/Builder.cpp:69-102 | rebuilding reproduces the consumed bytes exactly when no owner name or qname is compressed |
| Rebuild.PlainMessageReach | src/DnsPro/Parser.cpp:33-269 | without compressed names the consumed length is the truncation threshold |
| CanonicalName.Canonicalize | src/DnsPro/ZoneStore.cpp:175-188 | the nested loops build the key that KeyIsJoined spells out and KeysAreExact characterises |
| CanonicalName.KeyIsJoined | src/DnsPro/ZoneStore.cpp:175-188 | the root's key is empty, a label's is its octets with 65 to 90 raised by 32, and the key of joined names is their keys joined by one octet 46 |
| CanonicalName.LowerIsCaseFolding | src/DnsPro/ZoneStore.cpp:182-184 | two labels lower to the same text exactly when they agree octet by octet up to ASCII case |
| CanonicalName.KeysReadAlike | src/DnsPro/ZoneStore.cpp:175-188 | for all names: two share a key exactly when, every label taken apart at the octets 46 inside it, they are equal in the sense of section 2.3.3 of RFC 1035 |
| CanonicalName.KeysAreExact | src/DnsPro/ZoneStore.cpp:175-188 | if no label contains the octet 46, a shared key means equal names and conversely, for every pair but the root and the name of one empty label |
| CanonicalName.DottedLabelsCollide | src/DnsPro/ZoneStore.cpp:178-181 | the single label 97, 46, 98 and the two labels 97 and 98 are different names that share a key |
| ZoneList.BucketOfAdd | include/DnsPro/ZoneStore.h:103-105 | an added record goes to the end of its own bucket and to no other |
| ZoneList.BucketOfRest | include/DnsPro/ZoneStore.h:110-115 | removing a bucket empties it and leaves every other as it is |
| ZoneList.RestAndBucketMakeAll | include/DnsPro/ZoneStore.h:110-115 | a removal takes away exactly the records of the bucket |
| ZoneList.BucketMembers | include/DnsPro/ZoneStore.h:120-125 | a bucket holds exactly the records with its canonical name and type |
| ZoneList.BucketIsFound | src/DnsPro/ZoneStore.cpp:122-138 | the bucket of a name and a type, and nothing else, is the records with that type whose names read the same up to ASCII case, all of them, in insertion order |
| ZoneList.RestIsSpared | src/DnsPro/ZoneStore.cpp:91-116 | what a removal leaves, and nothing else, is all the other records in insertion order |
| ZoneList.MatchesIff | src/DnsPro/ZoneStore.cpp:122-138 | a record belongs to a bucket exactly when its type is the asked one and its name reads the same up to ASCII case |
| ZoneList.NameExistsIff | src/DnsPro/ZoneStore.cpp:152-156 | a name's key is borne exactly when some record's name reads the same up to ASCII case |
| ZoneList.SamePlacesSameRecords | include/DnsPro/ZoneStore.h:120-125 | which places are chosen determines the records and their order |
| ZoneIndex.InsertRepresents | src/DnsPro/ZoneStore.cpp:85-88 | appending to the nested entry represents appending to the list, and raises the double sum by one |
| ZoneIndex.EraseRepresents | src/DnsPro/ZoneStore.cpp:104-113 | erasing the type, and the name if it is left empty, represents the removal from the list, and lowers the double sum by the bucket's size |
| ZoneIndex.WriteRefines | src/DnsPro/ZoneStore.cpp:82-163 | add, remove and clear on the index are the same operations on the insertion-ordered list |
| ZoneIndex.RemovalRefines | src/DnsPro/ZoneStore.cpp:91-116 | a removal leaves exactly the other records in order, takes as many as the erased entry holds, and finds no entry exactly when no record has that type and name |
| ZoneIndex.EveryStateIsRepresented | src/DnsPro/ZoneStore.cpp:82-163 | after every sequence of writes the index stands for the list, without empty entries, and the double sum of list sizes is the list's length |
| ZoneIndex.IndexIsUnique | src/DnsPro/ZoneStore.cpp:108-113 | the list determines the index |
| ZoneIndex.KeysAreNames | src/DnsPro/ZoneStore.cpp:152-156 | a key is present exactly when some record bears the name, and every record sits under its own canonical name and type |
| ZoneStores.ZoneStore.constructor | include/DnsPro/ZoneStore.h:68-69 | a new store is empty |
| ZoneStores.ZoneStore.AddRecord | src/DnsPro/ZoneStore.cpp:82-89 | the list of records grows by the record at its end; index and count keep to it |
| ZoneStores.ZoneStore.RemoveRecord | src/DnsPro/ZoneStore.cpp:91-116 | exactly the records of that type whose names read the same are removed, the others keep their order; returns whether there were any, and if not nothing changes |
| ZoneStores.ZoneStore.Lookup | src/DnsPro/ZoneStore.cpp:122-138 | the records of that type whose names read the same up to ASCII case, all of them, in insertion order |
| ZoneStores.ZoneStore.Contains | src/DnsPro/ZoneStore.cpp:140-150 | whether some record has that type and a name that reads the same |
| ZoneStores.ZoneStore.HasName | src/DnsPro/ZoneStore.cpp:152-156 | whether some record of any type has a name that reads the same |
| ZoneStores.ZoneStore.Clear | src/DnsPro/ZoneStore.cpp:158-163 | no records are left |
| ZoneStores.ZoneStore.RecordCount | src/DnsPro/ZoneStore.cpp:165-169 | the length of the list of records |
| Resolvers.Resolver.Resolve | src/DnsPro/Resolver.cpp:32-69 | the parser's status for a query that does not parse, with the response untouched; otherwise the encoding of a response that AnswersQuery describes by header bits, names and types, or the status that build returns for it |
| Resolvers.ResponseAnswersQuery | src/DnsPro/Resolver.cpp:37-66 | for every query and zone the response has the query's id, opcode, tc, rd and z, qr = aa = 1, ra = 0, only the first question, all records of the qtype whose names read as the qname in insertion order, and rcode 3 exactly when no record's name does, else 0; without a question rcode 1 and empty sections |
| Resolvers.AnswersAreTheAsked | src/DnsPro/Resolver.cpp:56-59 | a record is an answer exactly when it is in the zone, its type is the qtype of the first question and its name reads as the qname up to ASCII case |
| Resolvers.AnswersAreAskedFor | src/DnsPro/Resolver.cpp:56-59 | the answers, and nothing else, are what a query asks for: all records of its qtype whose names read as its qname, in insertion order |
| Resolvers.AnsweredIffEncodable | src/DnsPro/Resolver.cpp:56-68 | a parsed query is answered exactly when the matching records can be encoded |
| Resolvers.AnswerReadsBackIff | src/DnsPro/Resolver.cpp:32-69 | over every zone, an answered query's response reads back as AnswersQuery describes by names and types, exactly when no matching record has an empty label |
| Resolvers.AnsweredAndReadBackIff | src/DnsPro/Resolver.cpp:32-69 | end to end over every zone: a parsed query is answered and the answer parses back in full as AnswersQuery describes exactly when the records of its qtype and qname are at most 65535, each with labels of 1 to 63 octets and at most 65535 octets of rdata |
| Resolvers.EveryQueryIsAnswered | src/DnsPro/Resolver.cpp:32-69 | the same for a whole zone: if all its records are such, every query that asks for at most 65535 of them is answered and the answer reads back |
| Resolvers.AnswerCanBeRefused | include/DnsPro/Resolver.h:69-75 | a query that parses and whose answer cannot be built: RDATA_LENGTH_MISMATCH for oversized rdata, LABEL_TOO_LONG when the record also has an oversized label |
| Interleaving.EveryRunIsExplained | src/DnsPro/Resolver.cpp:56-66 | invariant of every interleaving: what resolve knows was true at the instants of its reads |
| Interleaving.BucketStaysEmpty | src/DnsPro/Resolver.cpp:56-66 | a bucket empty at one instant is empty at a later one exactly when every record added between was gone again |
| Interleaving.NodataIsTrueWhen | src/DnsPro/Resolver.cpp:60-66 | NODATA is right at an instant exactly when the name exists then and no record of the asked type does |
| Interleaving.NodataIsTrueAfterMiss | src/DnsPro/Resolver.cpp:56-66 | from the missed lookup on, NODATA is right at an instant exactly when the name exists then and every matching addition since the lookup is undone |
| Interleaving.NodataIsTrueBetweenReads | src/DnsPro/Resolver.cpp:56-66 | NODATA is right at some instant between the reads exactly when the name existed at the lookup, and it is right at the lookup then, or when the writes leave added records of other types only for an instant |
| Interleaving.ResponseIsTrueAtARead | src/DnsPro/Resolver.cpp:56-66 | in every interleaving answers are the bucket at the lookup, NXDOMAIN is true at the hasName check, and NODATA is true there exactly when every matching addition since the lookup was undone, and at each instant from the lookup on exactly when besides the name exists then |
| Interleaving.ResponseIsEverTrueIff | src/DnsPro/Resolver.cpp:56-66 | in every interleaving the response is right at some instant from lookup to last read exactly when it has answers, is NXDOMAIN, the name existed at the lookup, or the writes leave added records of other types only for an instant |
| Interleaving.UndisturbedRunResponds | src/DnsPro/Resolver.cpp:56-66 | without writes a run gives the response of Resolve |
| Interleaving.NodataCanBeWrongThroughout | src/DnsPro/Resolver.cpp:56-66 | a schedule whose NODATA response is right at no instant |
| Bits.LengthOctet | src/DnsPro/Parser.cpp:152-182 | the mask 0xC0 tells pointers, plain lengths and reserved kinds apart |
| Bits.PointerTarget | src/DnsPro/Parser.cpp:156-157 | masking, shifting and or-ing give the 14-bit target |
| Bits.JoinTwo | src/DnsPro/Parser.cpp:253-254 | the shifted octets of a 16-bit field or-ed together |
| Bits.JoinFour | src/DnsPro/Parser.cpp:263-266 | the shifted octets of a 32-bit field or-ed together |
| Bits.UnpackFlags1 | src/DnsPro/Parser.cpp:108-112 | the shifts and masks for qr, opcode, aa, tc and rd |
| Bits.UnpackFlags2 | src/DnsPro/Parser.cpp:114-116 | the shifts and masks for ra, z and rcode |
| Bits.SplitTwo | src/DnsPro/Builder.cpp:136-139 | the octets of a 16-bit field by shift and mask |
| Bits.SplitFour | src/DnsPro/Builder.cpp:141-146 | the octets of a 32-bit field by shift and mask |
| Bits.PackFlags1 | src/DnsPro/Builder.cpp:74-75 | fields within their widths do not overlap in the first flag octet |
| Bits.PackFlags2 | src/DnsPro/Builder.cpp:76-76 | fields within their widths do not overlap in the second flag octet |

## Left out

- Copying and moving a ZoneStore, including the state of a moved-from store: only easy members, and the latter is up to the containers.
- VectorPro and HashMapPro internals, capacity, `reserve` and allocation failure: sequences and finite maps stand for them.
- The mutex itself: each ZoneStore operation is one atomic step; the two reads of one `resolve` are not assumed to be one step.
- Locale effects of `std::tolower`: ASCII folding, as include/DnsPro/ZoneStore.h:150-152 documents.
- Overflow of `size_t`: offsets and counts are unbounded naturals; the 16 and 32-bit fields and the bit-fields keep their ranges.
- Names inside rdata: rdata is opaque to parser and builder, and no claim is made that a name in it keeps its meaning in a rebuilt packet.
- The 255-octet name limit of section 2.3.4 of RFC 1035: the code does not enforce it.
- Builder.Build: says nothing about the output buffer when an entry is in violation, because include/DnsPro/Builder.h promises nothing about it.
- Parser.Parse: returns no message on failure, because the contents of the output object are then documented as unspecified.
- Interleaving.ResponseIsTrueAtARead: follows one resolve beside any number of writers; further readers change nothing and are not shown.
- Tests, examples, benchmarks, regression tools, packaging scripts and the build system.
