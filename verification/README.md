# Verified model of the Matter dissector's stateful core

A Dafny model of the parts of the Wireshark Matter dissector that keep state: the pull
parser for TLV and the cursor built on it, the tracker that threads message records on
chains, and the recovery of message keys. Run `dafny verify dfyconfig.toml` in this
directory.

## What is modelled

**TLV.** `TlvFormat` gives the encoding of Appendix A of the Matter Core Specification as a
tree of elements and its bytes; the dissector has no writer, so `Encode` is a specification.
`TlvReader` is the reader as a class, with its buffers, staging buffer, control byte, tag,
length and container type. Each of its methods is proved to do what `ReaderSpec` says about
one contiguous input, and the theorems are proved about that:

- `TagRules`: the tags each container takes, stated on tags as they are written, and every
  outcome of `VerifyElement`; `EncodingExamples` pins the encoding itself to concrete bytes;
- `AcceptedLanguage`: the full walk accepts exactly the encodings of the trees that
  `VerifyElement` allows, and finds that tree;
- `FlatScan`, `Skipping`, `SkipLanguage`: the skipping loop, which keeps one counter and one
  container type, is the recursive descent, and accepts exactly the encodings of a wider,
  described class of trees; on these the walk succeeds exactly for the trees it should;
- `ChunkIndependence`: no run of calls can tell how the input was split into buffers;
- `Visits`: leaving a container early is skipping it.

Three oddities are part of the model and not excluded by it. A string length is taken modulo
2^32 when data is skipped or copied out, so a well-formed tree has lengths below 2^32 and a
skippable one need not. A fully qualified tag whose packed 64-bit number is all ones passes
for no tag at all; the rules for tags are stated on packed numbers, so such tags are covered
by every theorem. An implicit tag is not read where no implicit profile is set; the element
then fails, and its length or value has been taken from the bytes of the tag. A path, like a
structure, rejects untagged members, as the code does.

**The cursor.** `TlvDissector` is a class around a reader with its element range, its stack of
frames in an array that doubles, and the items it adds to the tree as a sequence of lines with
byte ranges. `ElementRanges` proves that the ranges are the elements' encodings and tile a
container, and that balanced runs restore the stack; `Rendering` that `AddGenericTLVItem`
prints the tree in pre-order, with `Render` spelling every line from the element as it is
written; `ListItems` that `AddListItem` calls its handler once for each
member. A profile tag is printed with the literal text `:d = ` in place of its number, as the
format string in the code has it. `AddGenericTLVItem` does not get through every well-formed
element. On an empty byte string that ends the input it reports an underrun, because
`GetDataPtr` wants a byte to point to. On an empty byte string whose line has neither
indentation nor tag, such as a member of an array added by `AddListItem`, nothing is ever
appended to the text buffer, and emptying it writes through a null pointer; the model ends
such a call with the outcome `NullBuffer`. `GenericItemOutcome` says that these are all.

**The message tracker.** `MessageTracker` holds heap records linked in both directions on two
chains and tables of chain heads. Its invariant, kept by every method, says which records each
chain holds, in which order, and that every record points at the earliest acknowledgement
among the calls made since it was added. `ExchangeIsShared` and `CounterIsShared` say from the
messages' fields which records share a chain. `MessageChains` is what the queries compute, with the
theorems about it. The table choice is modelled as it is computed: session identifiers are
masked with 0x0F, so the tables for encrypted sessions are never chosen. `FindAckedMessages`
does something only over UDP and for message versions above 1.

**Keys.** `Hkdf` is `HKDF_expand` over an arbitrary keyed hash, in place in the output array.
`MessageKeys` is the key table as linked lists, `Decryption` the search for a key, over an
arbitrary cipher. Two keys count as the same whatever sender they are for, so a key that
decrypted a message is not always remembered in a form that decrypts it again;
`LearnedKeyServes` says exactly when it is. `Numerals`, `HintLines` and `HintPrinting` are the
parser of key hints. A decimal number with leading zeros is read as octal; `LeadingZeros`
says exactly when that makes a difference.

## Model

| member | source | states |
|---|---|---|
| `Bytes.ReadAfterWrite` | MatterMinimal/include/Matter/Core/MatterEncoding.h:27-89 | reading the little-endian bytes that were written gives the number back, for every width it fits in |
| `Bytes.WriteAfterRead` | MatterMinimal/include/Matter/Core/MatterEncoding.h:27-89 | writing the number that was read gives the same bytes back |
| `TlvFormat.TagFieldDecodes` | MatterMinimal/src/lib/core/MatterTLVReader.cpp:1345-1378 | reading the tag field of any tag form gives back that tag |
| `TlvFormat.DecodedTagEncodes` | MatterMinimal/src/lib/core/MatterTLVReader.cpp:1345-1378 | every tag field that is read is the field of the tag it is read as |
| `TlvFormat.TagRecovered` | MatterMinimal/include/Matter/Core/MatterTLVTags.h:54-79 | form and packed 64-bit number determine the written tag, unless an implicit tag had no profile |
| `TlvFormat.WellFormedIsSkippable` | MatterMinimal/src/lib/core/MatterTLVReader.cpp:1292-1343 | what the strict tag rules of a container allow, the rules a skip applies allow too |
| `TlvFormat.ClosingTags` | MatterMinimal/src/lib/core/MatterTLVReader.cpp:1292-1343 | an end of container passes exactly with no tag, or with one whose packed number is the anonymous one |
| `TagRules.AllowedTags` | MatterMinimal/src/lib/core/MatterTLVReader.cpp:1292-1343 | on written tags, container by container: an array takes exactly untagged members, a structure and a path exactly tagged ones, no container everything but context tags, an unknown one everything; fully qualified tags with reserved numbers included |
| `TagRules.VerifyOutcome` | MatterMinimal/src/lib/core/MatterTLVReader.cpp:1292-1343 | every outcome of VerifyElement and its order: unknown implicit tag, unknown container type, tag that does not fit, data beyond the maximum length; and those of an end of container |
| `TagRules.ReadOutcome` | MatterMinimal/src/lib/core/MatterTLVReader.cpp:1211-1290 | the errors of reading a head on arbitrary bytes, and what an underrun has read |
| `TagRules.UntaggedInPathFails` | MatterMinimal/src/lib/core/MatterTLVReader.cpp:1311-1314 | four bytes, a path with an untagged member, on which the member fails for its tag |
| `EncodingExamples.ShortIntegers` | MatterMinimal/include/Matter/Core/MatterTLVTypes.h:34-61 | integers of one and two bytes, down to their bytes |
| `EncodingExamples.LongIntegers` | MatterMinimal/include/Matter/Core/MatterTLVTypes.h:34-61 | the same for four and eight bytes |
| `EncodingExamples.Floats` | MatterMinimal/include/Matter/Core/MatterTLVTypes.h:34-61 | the same for floating-point bits |
| `EncodingExamples.Strings` | MatterMinimal/include/Matter/Core/MatterTLVTypes.h:34-61 | text and byte strings with length fields of one, two and four bytes |
| `EncodingExamples.ShortStructure` | MatterMinimal/include/Matter/Core/MatterTLVTypes.h:34-61 | a structure of two members with its end |
| `EncodingExamples.ShortTags` | MatterMinimal/include/Matter/Core/MatterTLVTags.h:34-44 | no tag, a context tag and common tags, down to their bytes |
| `EncodingExamples.ImplicitTags` | MatterMinimal/include/Matter/Core/MatterTLVTags.h:34-44 | the same for implicit tags |
| `EncodingExamples.LongTags` | MatterMinimal/include/Matter/Core/MatterTLVTags.h:34-44 | the same for fully qualified tags |
| `EncodingExamples.TagNumbers` | MatterMinimal/include/Matter/Core/MatterTLVTags.h:54-79 | the packed number of each form |
| `ReaderSpec.ReadElement` | MatterMinimal/src/lib/core/MatterTLVReader.cpp:1211-1290 | a head that is read moves the reader strictly forward, never past the input; a failed read gives nothing back |
| `FlatScan.DescendMembers` | MatterMinimal/src/lib/core/MatterTLVReader.cpp:1170-1209 | the recursive reading of the skipping loop: on success it stands on an end of container, and no byte is given back |
| `ReaderSpec.Next` | MatterMinimal/src/lib/core/MatterTLVReader.cpp:1021-1039 | a successful Next moves strictly forward and never past the input |
| `ReaderSpec.Skip` | MatterMinimal/src/lib/core/MatterTLVReader.cpp:1102-1131 | no byte is given back, and after success the reader is between elements |
| `ReaderSpec.GettersMatchTypes` | MatterMinimal/src/lib/core/MatterTLVReader.cpp:271-469 | the number and truth value getters take exactly the elements of their types |
| `ReaderSpec.StringGetters` | MatterMinimal/src/lib/core/MatterTLVReader.cpp:535-731 | and the string getters exactly strings |
| `ReaderSpec.ContainersAreEntered` | MatterMinimal/src/lib/core/MatterTLVReader.cpp:771-889 | exactly a structure, array or path is entered or opened |
| `ReaderSpec.ClosedOnce` | MatterMinimal/src/lib/core/MatterTLVReader.cpp:827-849 | closing a container a second time is refused |
| `FlatScan.LoopDescends` | MatterMinimal/src/lib/core/MatterTLVReader.cpp:1170-1209 | the loop at nesting level n is n + 1 recursive descents still to return, on every input, errors and end states included |
| `FlatScan.SkipIsDescent` | MatterMinimal/src/lib/core/MatterTLVReader.cpp:1170-1209 | SkipToEndOfContainer between members is one recursive descent to the matching end |
| `FlatScan.SkipFromContainerIsDescent` | MatterMinimal/src/lib/core/MatterTLVReader.cpp:1170-1209 | the same when the reader is on a nested container |
| `Skipping.HeadIsRead` | MatterMinimal/src/lib/core/MatterTLVReader.cpp:1211-1290 | reading where a head was written gives back its form, tag and field, but for the field behind an implicit tag that is not read |
| `Skipping.UnreadTagFails` | MatterMinimal/src/lib/core/MatterTLVReader.cpp:1356-1363 | an implicit tag without a profile is not read, and no element with one passes |
| `Skipping.UnreadTagIsTheField` | MatterMinimal/src/lib/core/MatterTLVReader.cpp:1356-1363 | after that failure the length or value has been read from the bytes of the tag |
| `Skipping.HeadIsRebuilt` | MatterMinimal/src/lib/core/MatterTLVReader.cpp:1211-1290 | the bytes of any head that is read are the head of what was read |
| `Skipping.ReadHeadIsHead` | MatterMinimal/src/lib/core/MatterTLVReader.cpp:1211-1290 | so a verified head stands in the input just behind where the reader was |
| `Skipping.ElementIsRead` | MatterMinimal/src/lib/core/MatterTLVReader.cpp:1211-1343 | on the encoding of an element its container allows, ReadElement succeeds and lands behind the head |
| `Skipping.ClosingIsRead` | MatterMinimal/src/lib/core/MatterTLVReader.cpp:1211-1343 | the same for an end of container |
| `Skipping.DescentOverMembers` | MatterMinimal/src/lib/core/MatterTLVReader.cpp:1170-1209 | descending over encoded members ends on their closing byte |
| `Skipping.SkipIsPast` | MatterMinimal/src/lib/core/MatterTLVReader.cpp:1102-1131 | Skip from the head of an encoded element lands just behind the whole element |
| `RoundTrip.SignedIsRead` | MatterMinimal/src/lib/core/MatterTLVReader.cpp:359-469 | 8, 16, 32 and 64-bit signed integers are read back with their sign |
| `RoundTrip.LeafIsRead` | MatterMinimal/src/lib/core/MatterTLVReader.cpp:1211-1378 | the getters give back a primitive or string with its tag form and width |
| `RoundTrip.StringIsCopied` | MatterMinimal/src/lib/core/MatterTLVReader.cpp:535-550 | a string is copied whole or, into a buffer shorter than it, not at all and without moving |
| `RoundTrip.ExpectedIsCompared` | MatterMinimal/src/lib/core/MatterTLVReader.cpp:1069-1079 | on a well-formed next element, Next with expectations always stops on it, and fails for its type before its tag |
| `RoundTrip.DecodeElement` | MatterMinimal/src/lib/core/MatterTLVReader.cpp:1021-1378 | walking the encoding of a well-formed element rebuilds exactly that element |
| `RoundTrip.DecodeMembers` | MatterMinimal/src/lib/core/MatterTLVReader.cpp:1021-1378 | the same for the members of a container, up to and including its end |
| `RoundTrip.EncodeElement` | MatterMinimal/src/lib/core/MatterTLVReader.cpp:1211-1343 | whenever a walk succeeds, re-encoding what it found gives the bytes it consumed |
| `RoundTrip.EncodeMembers` | MatterMinimal/src/lib/core/MatterTLVReader.cpp:1211-1343 | the same for the members of a container |
| `RoundTrip.SkipAfterVisit` | MatterMinimal/src/lib/core/MatterTLVReader.cpp:1102-1131 | Skip after visiting an element lands behind it |
| `AcceptedLanguage.WalkAcceptsEncodings` | MatterMinimal/src/lib/core/MatterTLVReader.cpp:1021-1378 | for every input: the full walk returns a tree if and only if the input is that tree's encoding and every member passes VerifyElement; it then ends at the last byte |
| `AcceptedLanguage.OnlyExhaustionEnds` | MatterMinimal/src/lib/core/MatterTLVReader.cpp:1021-1039 | outside containers Next reports the end exactly when the input is used up |
| `AcceptedLanguage.EncodingIsUnambiguous` | MatterMinimal/src/lib/core/MatterTLVReader.cpp:1211-1378 | no two well-formed trees share an encoding |
| `AcceptedLanguage.WalkedIsSkipped` | MatterMinimal/src/lib/core/MatterTLVReader.cpp:1102-1209 | whatever the full walk accepts, Skip accepts with the same length read |
| `SkipLanguage.DescentIsEncoding` | MatterMinimal/src/lib/core/MatterTLVReader.cpp:1170-1209 | whatever the skipping loop gets through is an encoding of skippable members and an end |
| `SkipLanguage.SkippedIsSkippable` | MatterMinimal/src/lib/core/MatterTLVReader.cpp:1102-1209 | Skip succeeds only on the encoding of a skippable element |
| `SkipLanguage.SkipAcceptsSkippable` | MatterMinimal/src/lib/core/MatterTLVReader.cpp:1102-1209 | for every input and container: Skip from a head succeeds if and only if an encoding of a skippable element stands there |
| `SkipLanguage.SkippableIsUnambiguous` | MatterMinimal/src/lib/core/MatterTLVReader.cpp:1155-1378 | equal bytes of two skippable elements are one element |
| `SkipLanguage.WalkAcceptsWellFormed` | MatterMinimal/src/lib/core/MatterTLVReader.cpp:1021-1378 | the exact gap between Skip and the walk: on an element that Skip accepts, the walk succeeds if and only if VerifyElement allows the element and all its members, with lengths below 2^32 |
| `SkipLanguage.UntaggedIsSkipped` | MatterMinimal/src/lib/core/MatterTLVReader.cpp:1170-1209 | nine bytes that Skip gets to the end of and the walk rejects: an untagged member behind a nested container |
| `SkipLanguage.WrappedLengthIsSkipped` | MatterMinimal/src/lib/core/MatterTLVReader.cpp:1155-1168 | nine more: a length of 2^32 |
| `TlvReaders.FeedsAhead` | MatterMinimal/src/lib/core/MatterTLVReader.cpp:1380-1438 | buffer, rest and pending buffers together hold exactly the unread input |
| `TlvReaders.TlvReader.constructor` | MatterMinimal/src/lib/core/MatterTLVReader.cpp:139-153 | a reader over one buffer starts before its first byte |
| `TlvReaders.TlvReader.FromBuffers` | MatterMinimal/src/lib/core/MatterTLVReader.cpp:139-153 | a reader over several buffers starts before the first byte of their concatenation |
| `TlvReaders.TlvReader.Copy` | MatterMinimal/src/lib/core/MatterTLVReader.cpp:162-182 | a copy stands where the original stands |
| `TlvReaders.TlvReader.EnsureData` | MatterMinimal/src/lib/core/MatterTLVReader.cpp:1409-1438 | an exhausted buffer is replaced by the next one, and the end is reported exactly when the input is used up |
| `TlvReaders.TlvReader.ReadData` | MatterMinimal/src/lib/core/MatterTLVReader.cpp:1380-1407 | bytes are taken across buffer boundaries as from one buffer |
| `TlvReaders.TlvReader.ReadTag` | MatterMinimal/src/lib/core/MatterTLVReader.cpp:1345-1378 | the packed tag of every tag form |
| `TlvReaders.TlvReader.VerifyElement` | MatterMinimal/src/lib/core/MatterTLVReader.cpp:1292-1343 | the container rules for tags, with the error of the rule that fails |
| `TlvReaders.TlvReader.ReadElement` | MatterMinimal/src/lib/core/MatterTLVReader.cpp:1211-1290 | a head is read as from contiguous input, through the staging buffer when it straddles a boundary |
| `TlvReaders.TlvReader.SkipData` | MatterMinimal/src/lib/core/MatterTLVReader.cpp:1155-1168 | the data of a string is passed over, its length taken modulo 2^32 |
| `TlvReaders.TlvReader.SkipToEndOfContainer` | MatterMinimal/src/lib/core/MatterTLVReader.cpp:1170-1209 | the loop does what the specification of one contiguous input says |
| `TlvReaders.TlvReader.EnterContainer` | MatterMinimal/src/lib/core/MatterTLVReader.cpp:876-889 | the new state, or the error off a container |
| `TlvReaders.TlvReader.ExitContainer` | MatterMinimal/src/lib/core/MatterTLVReader.cpp:927-939 | the new state, or the error of the skip |
| `TlvReaders.TlvReader.Skip` | MatterMinimal/src/lib/core/MatterTLVReader.cpp:1102-1131 | the new state and error of one skip |
| `TlvReaders.TlvReader.Next` | MatterMinimal/src/lib/core/MatterTLVReader.cpp:1021-1039 | the new state and error of one step |
| `TlvReaders.TlvReader.NextExpecting` | MatterMinimal/src/lib/core/MatterTLVReader.cpp:1069-1079 | the same with an expected type and tag |
| `TlvReaders.TlvReader.GetU64` | MatterMinimal/src/lib/core/MatterTLVReader.cpp:445-469 | the value, sign-extended for signed types |
| `TlvReaders.TlvReader.GetI64` | MatterMinimal/src/lib/core/MatterTLVReader.cpp:359-365 | the value as a signed number |
| `TlvReaders.TlvReader.GetBool` | MatterMinimal/src/lib/core/MatterTLVReader.cpp:271-281 | the truth value or the type error |
| `TlvReaders.TlvReader.GetBytes` | MatterMinimal/src/lib/core/MatterTLVReader.cpp:535-550 | the bytes of a string that fits the caller's buffer; it counts as read afterwards |
| `TlvReaders.TlvReader.DupString` | MatterMinimal/src/lib/core/MatterTLVReader.cpp:662-686 | a copy of a string; it counts as read afterwards |
| `TlvReaders.TlvReader.GetDataPtr` | MatterMinimal/src/lib/core/MatterTLVReader.cpp:710-731 | the bytes behind the returned pointer, or an underrun exactly if the input is used up or the current buffer does not hold them all |
| `TlvReaders.TlvReader.OpenContainer` | MatterMinimal/src/lib/core/MatterTLVReader.cpp:771-792 | the member reader and the parent afterwards |
| `TlvReaders.TlvReader.CloseContainer` | MatterMinimal/src/lib/core/MatterTLVReader.cpp:827-849 | the parent continues where the member reader's container ends |
| `ChunkIndependence.RunsAreSafe` | MatterMinimal/src/lib/core/MatterTLVReader.cpp:1021-1438 | in any run over arbitrary bytes the length read never falls, never passes the maximum, and grows with each successful Next |
| `ChunkIndependence.ReplayOn` | MatterMinimal/src/lib/core/MatterTLVReader.cpp:1380-1438 | any run of calls on a reader object reports what the run over contiguous input reports; over one buffer the read point stays at the data plus the length read |
| `ChunkIndependence.SplitsAreIndistinguishable` | MatterMinimal/src/lib/core/MatterTLVReader.cpp:1247-1261 | the same calls over any two splits of the same bytes report the same errors, types, tags, values and lengths read |
| `Visits.SkipFromSpot` | MatterMinimal/src/lib/core/MatterTLVReader.cpp:1102-1131 | from every place among a container's members, Skip lands behind the member |
| `Visits.NextFromSpot` | MatterMinimal/src/lib/core/MatterTLVReader.cpp:1021-1039 | from every place among a container's members, Next lands on the following member or on the end |
| `Visits.VisitsStay` | MatterMinimal/src/lib/core/MatterTLVReader.cpp:876-1131 | any mix of calls and nested visits keeps the reader among the container's members |
| `Visits.ExitFromSpot` | MatterMinimal/src/lib/core/MatterTLVReader.cpp:927-939 | from every place among the members, leaving the container ends on its end |
| `Visits.EarlyExitIsSkip` | MatterMinimal/src/lib/core/MatterTLVReader.cpp:876-939 | entering a container, any mix of calls stopped anywhere, and leaving it is one Skip |
| `Visits.OpenCloseIsSkip` | MatterMinimal/src/lib/core/MatterTLVReader.cpp:771-849 | the same with OpenContainer and CloseContainer, except that the parent still counts as having a container open |
| `Text.StringBuffer.AppendStringF` | TLVDissector.cpp:234-265 | the text grows by exactly what was printed, however often the buffer had to double |
| `Text.StringBuffer.AppendRepeated` | TLVDissector.cpp:267-272 | the text grows by the repeated string |
| `Text.CStrEndsAtNul` | TLVDissector.cpp:534-543 | a text is printed up to its first NUL |
| `Text.HexDumpAt` | TLVDissector.cpp:545-555 | a byte is printed as a blank and its two lower-case digits, the high one first |
| `DissectorSpec.FloatLooksFloat` | TLVDissector.cpp:525-533 | a printed float has a point or an exponent, and is the converted number unless that has neither |
| `DissectorSpec.PopUndoesPush` | TLVDissector.cpp:745-777 | the frame pushed last is what is restored |
| `TlvDissectors.TlvDissector.MarkElemStart` | TLVDissector.cpp:719-729 | off an element, the start mark is the number of bytes read so far; on one it is an error and nothing changes |
| `TlvDissectors.TlvDissector.MarkElemLength` | TLVDissector.cpp:731-743 | the length runs to where a skip of the element ends |
| `TlvDissectors.TlvDissector.Next` | TLVDissector.cpp:59-79 | the new state and error, marks included |
| `TlvDissectors.TlvDissector.EnterContainer` | TLVDissector.cpp:103-116 | the frame pushed and the reader inside the container |
| `TlvDissectors.TlvDissector.ExitContainer` | TLVDissector.cpp:118-130 | the frame popped and the reader behind the container |
| `TlvDissectors.TlvDissector.PushContainer` | TLVDissector.cpp:745-763 | the stack grows by the frame, also when its array has to be doubled |
| `TlvDissectors.TlvDissector.PopContainer` | TLVDissector.cpp:765-777 | the last frame, or no container type on an empty stack |
| `TlvDissectors.TlvDissector.AppendValue` | TLVDissector.cpp:494-573 | the printed value of the current element, or the error |
| `TlvDissectors.TlvDissector.AppendBytes` | TLVDissector.cpp:545-555 | two hexadecimal digits for each byte of a byte string |
| `TlvDissectors.TlvDissector.AddLine` | TLVDissector.cpp:469-583 | one line of indentation, tag and value |
| `TlvDissectors.TlvDissector.AddGenericTLVItem` | TLVDissector.cpp:469-617 | the lines and state the rendering specification gives |
| `TlvDissectors.TlvDissector.AddMembers` | TLVDissector.cpp:593-601 | the same for the loop over the members |
| `ElementRanges.NextMarks` | TLVDissector.cpp:59-79 | after a successful Next the marked range is exactly the current element's encoding, nested content and end included |
| `ElementRanges.NextSucceeds` | TLVDissector.cpp:59-79 | the exact condition under which Next succeeds: an element is read and it can be skipped |
| `ElementRanges.SiblingsAreAdjacent` | TLVDissector.cpp:59-79 | the ranges of two consecutive elements are adjacent |
| `ElementRanges.RangesTile` | TLVDissector.cpp:59-79 | on any input the ranges of one container tile it, up to the end that stopped the run |
| `ElementRanges.RangesAreMembers` | TLVDissector.cpp:59-79 | on well-formed members the ranges are those of the members, in order |
| `ElementRanges.RunsKeepStack` | TLVDissector.cpp:103-130 | no balanced run changes the frames below it |
| `ElementRanges.VisitKeepsStack` | TLVDissector.cpp:103-130 | nor does a nested visit, whether its calls succeed or not |
| `ElementRanges.ContainerIsLeft` | TLVDissector.cpp:103-130 | a balanced run inside a container restores, on leaving, the outer type and the container's own range, and ends where that range ends |
| `Rendering.ItemIsRendered` | TLVDissector.cpp:469-617 | on every well-formed element but those of the two failing cases below, AddGenericTLVItem adds exactly the element's rendering and consumes exactly the element |
| `Rendering.BodyIsRendered` | TLVDissector.cpp:588-611 | the members one level deeper, then the closing line |
| `Rendering.BracketsMatch` | TLVDissector.cpp:559-612 | the closing line is the indentation and the bracket that matches the opening one |
| `Rendering.LabelIsPrinted` | TLVDissector.cpp:482-492 | what is printed for each written form of tag: its number, its profile in eight digits, or nothing |
| `Rendering.StructureIsShown` | TLVDissector.cpp:469-617 | the three lines of a structure with one member, and the bytes each highlights |
| `Rendering.MembersAreRendered` | TLVDissector.cpp:593-601 | the members' renderings in order |
| `Rendering.GenericItemOutcome` | TLVDissector.cpp:469-617 | the exact outcome on every well-formed element: underrun for an empty byte string that ends the input, a write through a null buffer for an empty byte string whose line has neither indentation nor tag, and success on all others |
| `Rendering.MarginIsEmpty` | TLVDissector.cpp:477-492 | a line has neither exactly without indentation and with the tag suppressed or no tag to print |
| `Rendering.MembersHaveLines` | TLVDissector.cpp:593-601 | members of a container are indented, so only the topmost element can be without |
| `Rendering.LastEmptyStringFails` | TLVDissector.cpp:546-550 | an input for the first case, from a new dissector |
| `Rendering.UnmarkedEmptyStringFails` | TLVDissector.cpp:575-586 | an input for the second case, from a new dissector: an untagged empty byte string, though a null follows |
| `ListItems.MembersAreHandled` | TLVDissector.cpp:446-456 | a balanced handler is called once for each direct member, in order, and the count is theirs |
| `ListItems.ListIsHandled` | TLVDissector.cpp:429-467 | AddListItem reports that count, gives the handler's first error, and restores stack and range |
| `ListItems.OnlyListsAreHandled` | TLVDissector.cpp:436 | whatever is no array and no path is refused, with nothing added |
| `ListItems.GenericHandlerIsBalanced` | TLVDissector.cpp:424-427 | AddGenericTLVItem is such a handler, where it succeeds |
| `ListItems.GenericListMayFail` | TLVDissector.cpp:429-467 | AddListItem with it fails on an array that holds an empty byte string, from a new dissector |
| `MessageTrackers.SessionsShareChains` | MatterMessageTracker.cpp:288-341 | the session tables are never chosen, so messages of two sessions with one counter share a chain |
| `MessageTrackers.HeaderBits` | MatterMessageTracker.cpp:61-132 | bit 0 of the exchange header is the initiator, and bit 1 the acknowledgement |
| `MessageTrackers.ExchangeKeys` | MatterMessageTracker.cpp:72-74 | two messages have one exchange key exactly if they have one exchange id and the same nodes in the same roles: on the other side, source and destination turned round |
| `MessageTrackers.CounterKeys` | MatterMessageTracker.cpp:288-341 | two messages have one counter key exactly if sender and counter are equal, both or neither are encrypted, and both went over UDP or over one TCP stream |
| `MessageTrackers.AckAddresses` | MatterMessageTracker.cpp:127-136 | an acknowledgement addresses exactly the UDP messages its destination sent with that counter |
| `MessageTrackers.MessageTracker.ExchangeIsShared` | MatterMessageTracker.cpp:72-74 | two records are on one exchange chain exactly if their messages belong to one exchange |
| `MessageTrackers.MessageTracker.CounterIsShared` | MatterMessageTracker.cpp:288-341 | and on one counter chain exactly if their messages share sender, counter and transport |
| `MessageTrackers.MessageTracker.AddMessageToMessageIdTable` | MatterMessageTracker.cpp:208-237 | the record is appended to its counter chain; a table entry only changes for a new chain; all links stay inverse |
| `MessageTrackers.MessageTracker.AddMessageToExchangeTable` | MatterMessageTracker.cpp:256-286 | the same for exchange chains |
| `MessageTrackers.MessageTracker.FindMessageRecord` | MatterMessageTracker.cpp:39-43 | a record of that frame, and null exactly if no record was ever created for the frame |
| `MessageTrackers.MessageTracker.FindOrCreateMessageRecord` | MatterMessageTracker.cpp:45-80 | one record a packet, appended to the chain of its counter and of its exchange; the whole invariant is kept, in which each chain is exactly the records of its key in order of creation; the start of exchange, the retransmission number and the records retransmitted and reused of every older record stay the same, and its total never falls |
| `MessageTrackers.HistoryStays` | MatterMessageTracker.cpp:82-125 | a record at the end of a chain changes nobody's retransmission number, retransmitted or reused record, and no total falls |
| `MessageChains.HistoryIsStable` | MatterMessageTracker.cpp:82-125 | the same on chains, for any later messages |
| `MessageTrackers.StartStays` | MatterMessageTracker.cpp:155-178 | a record at the end of a chain changes nobody's start of exchange |
| `MessageTrackers.MessageTracker.OrderGrows` | MatterMessageTracker.cpp:45-80 | a new record at the tails keeps every chain the records of its key in order of creation |
| `MessageTrackers.MessageTracker.FramesDiffer` | MatterMessageTracker.cpp:45-80 | records of one chain belong to different packets |
| `MessageTrackers.MessageTracker.FindRetransmissions` | MatterMessageTracker.cpp:82-108 | the three answers, by position in the counter chain |
| `MessageTrackers.MessageTracker.FindReusedMessageIds` | MatterMessageTracker.cpp:110-125 | the record whose counter is reused, by position in the chain |
| `MessageTrackers.MessageTracker.FindStartOfExchange` | MatterMessageTracker.cpp:155-178 | the record at the start position of the exchange |
| `MessageTrackers.MessageTracker.FindAckedMessages` | MatterMessageTracker.cpp:127-153 | the call is logged, the latest acknowledged record is reported, and every record keeps its earliest acknowledgement |
| `MessageTrackers.MessageTracker.AckedByIsEarliest` | MatterMessageTracker.cpp:143-150 | a record's acknowledgement is the lowest-frame one above it among the calls made since the record was added |
| `MessageTrackers.MessageTracker.AcksAreAcyclic` | MatterMessageTracker.cpp:143-150 | following acknowledgements leads to ever later frames |
| `MessageTrackers.AcksIgnoreOrder` | MatterMessageTracker.cpp:127-153 | order and repetition of the calls do not matter |
| `MessageChains.StartIsInitiator` | MatterMessageTracker.cpp:155-178 | the start is an initiator message whenever there is one at or before the message |
| `MessageChains.StartIsExact` | MatterMessageTracker.cpp:155-178 | the exact start: the first of the unbroken run of initiator messages of one fingerprint that ends at the last initiator message |
| `MessageChains.RunIsMaximal` | MatterMessageTracker.cpp:165-172 | the message before the run is no initiator message or has another fingerprint |
| `MessageChains.StartWithoutInitiator` | MatterMessageTracker.cpp:176-177 | without one it is the chain's first message |
| `MessageChains.StartIsIdempotent` | MatterMessageTracker.cpp:155-178 | the start of the start is the start |
| `MessageChains.StartIsMonotone` | MatterMessageTracker.cpp:155-178 | later messages start no earlier |
| `MessageChains.ExchangeSegments` | MatterMessageTracker.cpp:155-178 | the starts cut the chain into contiguous segments that hold their own start |
| `MessageChains.StartIsStable` | MatterMessageTracker.cpp:155-178 | no later message changes an earlier answer |
| `MessageChains.RetransmissionsAreNumbered` | MatterMessageTracker.cpp:91-100 | the k-th record of a fingerprint class, from zero, has retransmission number k |
| `MessageChains.TotalIsClassSize` | MatterMessageTracker.cpp:91-107 | every record of a class reports the class size less one |
| `MessageChains.ClassIsAll` | MatterMessageTracker.cpp:91-107 | the class is every message of the chain with that fingerprint, in order |
| `MessageChains.RetransmissionsAndReuse` | MatterMessageTracker.cpp:82-125 | chain position is retransmission number plus earlier differing records; reuse is reported exactly when there are any, and names the lowest frame; likewise the retransmitted message |
| `MessageChains.EarliestIsLeast` | MatterMessageTracker.cpp:143-147 | what repeated calls leave is the lowest acknowledging frame above the message's own |
| `MessageChains.EarliestIgnoresOrder` | MatterMessageTracker.cpp:143-147 | in any order and with any repetition |
| `MessageChains.EarliestOnlyFalls` | MatterMessageTracker.cpp:143-147 | further calls only move it to earlier frames |
| `Hkdf.Expand` | HKDF.c:29-94 | it succeeds exactly for 1 to 255 blocks of output with every hash call working, the one of a round without octets included, and then the buffer holds the first octets of T(1), T(2), ... joined, of section 2.3 of RFC 5869; a failed run has written the blocks before the failing one; the bytes behind the output are never touched |
| `Hkdf.TextIsNext` | HKDF.c:51-66 | what a round hashes, read back from the output, is what the next T hashes |
| `Hkdf.Finished` | HKDF.c:67-78 | the cut last block completes the output, also in the round of length zero with the wrapped counter |
| `Hkdf.FirstBlocks` | HKDF.c:51-66 | the first two blocks spelled out, with counters 1 and 2 |
| `Hkdf.OutputIsPrefix` | HKDF.c:29-94 | shorter outputs are the beginnings of longer ones |
| `MessageKeys.TableIsKept` | MessageEncryptionKey.cpp:35-59 | however many keys are added, no list gets two same keys, no key is lost, and each added key is findable |
| `MessageKeys.AddKeeps` | MessageEncryptionKey.cpp:35-59 | the same for one key; adding a key that is there changes nothing |
| `MessageKeys.SameKeys` | MessageEncryptionKey.cpp:59-70 | keys are the same by session type and bytes, whatever their id and sender |
| `MessageKeys.MessageEncryptionKeyTable.FindKeysById` | MessageEncryptionKey.cpp:30-33 | the linked list for an id |
| `MessageKeys.MessageEncryptionKeyTable.FindSame` | MessageEncryptionKey.cpp:39-42 | the same key in a list, or none |
| `MessageKeys.MessageEncryptionKeyTable.AddKey` | MessageEncryptionKey.cpp:35-59 | the table afterwards, and a key of it that is the same |
| `Decryption.NonceIsInjective` | packet-matter-decrypt.cpp:185-200 | headers that differ in flags, counter or sender never share a nonce |
| `Decryption.NonceFields` | packet-matter-decrypt.cpp:188-200 | flags first, then the counter in four bytes and the sender in eight, low bytes first |
| `Decryption.AttemptIsCipher` | packet-matter-decrypt.cpp:173-205 | the cipher gets key, that nonce, header and data, and a key of another length than 16 is refused |
| `Decryption.OnlyUnsecuredIsClear` | packet-matter.cpp:382-386 | only a unicast message of session 0 is in the clear |
| `Decryption.CandidatesAre` | packet-matter.cpp:405-480 | the keys and senders tried are exactly those of the table, the preferences and the hints that apply |
| `Decryption.SearchIsFirst` | packet-matter.cpp:405-480 | the search fails exactly when every candidate fails |
| `Decryption.FirstIsTaken` | packet-matter.cpp:405-480 | the candidate taken is the first that authenticates |
| `Decryption.SourcesInOrder` | packet-matter.cpp:405-480 | table, preferences, hints of the file and hints of the capture are searched in this order |
| `Decryption.TableTeachesNothing` | packet-matter.cpp:405-415 | a message the table decrypts leaves the table unchanged |
| `Decryption.PrefsLearn` | packet-matter.cpp:418-438 | a preference that decrypts is remembered with its type and bytes, for the session and sender it was tried with |
| `Decryption.HintsLearn` | packet-matter.cpp:448-480 | a hint that decrypts is remembered for the session and for its own sender, or else that of the message |
| `Decryption.DecryptsExactly` | packet-matter.cpp:389-496 | a message decrypts if and only if some candidate authenticates it, and then as one of them says |
| `Decryption.GrowthLosesNothing` | packet-matter.cpp:389-496 | a growing table never loses a message |
| `Decryption.GrowthKeepsPlaintext` | packet-matter.cpp:389-496 | nor changes the plaintext of a message that at most one candidate authenticates |
| `Decryption.RunKeepsTable` | packet-matter.cpp:389-496 | decrypting any run of messages keeps the table free of duplicates and drops nothing |
| `Decryption.OnceDecryptedAlwaysDecrypted` | packet-matter.cpp:389-496 | so a message that decrypts once decrypts after any run of other messages |
| `Decryption.LearnedKeyServes` | packet-matter.cpp:440-476 | when the table alone will decrypt a message whose key was found elsewhere: exactly if the key was not there for another sender and is remembered with a sender that authenticates |
| `Decryption.LearningMayFail` | packet-matter.cpp:440-444 | a case where nothing is learned |
| `Decryption.HintedSenderMayFail` | packet-matter.cpp:464-474 | a case where the key is learned for a sender it does not fit |
| `Decryption.TryDecryptMessage` | packet-matter.cpp:389-496 | the plaintext and the table afterwards are those of the search |
| `Decryption.SearchTable` | packet-matter.cpp:405-415 | the first key of the list that authenticates |
| `Decryption.SearchPrefs` | packet-matter.cpp:418-438 | the first preference, and node, that authenticates |
| `Decryption.SearchHints` | packet-matter.cpp:448-480 | the first applicable hint that authenticates |
| `Decryption.PreloadHintKeyBySessionId` | packet-matter.cpp:274-287 | a hint that names its session is put in the table |
| `Numerals.NumeralIsRead` | packet-matter.cpp:171-184 | every decimal number without leading zeros and every 0x number is read back, or refused beyond 64 bits |
| `Numerals.LeadingZeros` | packet-matter.cpp:171-184 | the exact condition for decimal digits to be read back: no leading zero, or a value below 8 |
| `Numerals.SignIsTaken` | packet-matter.cpp:171-184 | a plus sign changes nothing, and a minus sign takes the number from 2^64 |
| `Numerals.NulEndsNumber` | packet-matter.cpp:171-184 | nothing behind a NUL is read |
| `Numerals.DecimalIsNumeral` | packet-matter.cpp:171-184 | numbers printed in decimal are such numbers |
| `Numerals.HexIsNumeral` | packet-matter.cpp:171-184 | so are numbers printed in hexadecimal at any width they fit in |
| `Numerals.NormalizeHex` | packet-matter.cpp:158-168 | the hexadecimal digits of a string |
| `Numerals.HexDigitIsKept` | packet-matter.cpp:158-168 | the twenty-two hexadecimal digits are kept and every other character is dropped |
| `Numerals.ParseHexKeyBytes` | packet-matter.cpp:187-203 | the sixteen bytes of a key, or failure with the output untouched |
| `Numerals.KeyIsRead` | packet-matter.cpp:187-203 | exactly the strings whose hexadecimal digits print the key are read as it |
| `HintLines.TrimStr` | packet-matter.cpp:144-155 | the string without the white space around it |
| `HintLines.TrimKeepsTokens` | packet-matter.cpp:218-229 | trimming does not change the words of a line |
| `HintLines.ParseMatterProxyHintLine` | packet-matter.cpp:206-271 | the hint of a line, or none |
| `HintPrinting.WordsAreRead` | packet-matter.cpp:213-229 | the words of a line are the words it was laid out from, whatever the separators |
| `HintPrinting.FieldsAreRead` | packet-matter.cpp:223-248 | each field holds its printed value, whatever the names and the order |
| `HintPrinting.BareWordIsAssigned` | packet-matter.cpp:229-235 | a word without an equals sign is the key only while none is known |
| `HintPrinting.LastAssignmentStays` | packet-matter.cpp:229-248 | a named key stays the key whatever bare words follow, and replaces whatever came before |
| `HintPrinting.SessionIsBounded` | packet-matter.cpp:254-260 | a session id beyond 16 bits is ignored |
| `HintPrinting.HintLineRoundTrip` | packet-matter.cpp:206-271 | a printed hint is read back under any of the names, in any order, with any separators, comment and meaningless words |

## Left out

- GetDataPtr: not among the calls of `ChunkIndependence`, because the pointer it returns addresses one buffer, and neither are `OpenContainer` and `CloseContainer`, which act on two readers.
- FromBuffers: the maximum length is taken to be the total of all buffers; `Init` as written sets it to the first buffer's length.
- AddListItem: modelled on values with the handler as a function, because Dafny has no method values; it does not capture a handler that updates other objects.
- DupString: malloc is taken to fail exactly for lengths of 2^32 and more.
- AddClosingLine: the closing line is built in a new text buffer instead of the emptied one.
- AddLine: what a line with a null text buffer shows before the program stops is not stated.
- AppendValue: the conversion of floating-point numbers to digits and the escaping of strings are parameters.
- ParseUIntAuto: `strtoull` is modelled as the C standard of 2011 has it, without the 0b prefix of later C libraries.
- TryDecryptMessage: the cipher is a parameter that gets key, nonce, header and encrypted data; messages shorter than an authentication tag are its affair.
- Expand: the keyed hash is a parameter, and so is in which rounds it fails; what a failing hash call has written into its own block is not stated.
- Errors of `GetNextBuffer`, empty further buffers, and failing `realloc`.
- The narrow integer getters, `Get(double)`, `GetString` and `DupBytes`, which wrap what is modelled.
- `Read16` to `Write64` are modelled on values, without the pointer they advance.
- `AddTypedItem`, `AddIMPathItem` and `AppendIMPath`: flat formatting.
- Wireshark's trees, tables and preferences beyond items, maps and sequences.
- OpenSSL, CRC fingerprints (a record's fingerprint is given) and TCP reassembly.
- The Interaction Model, CASE, PASE, UDC and echo message dissectors.
- Reading hint files and secrets blocks into lines, and noticing that a file changed.
- `imSubscription` and `caseExchangeRec` of message records.
