# Xmlrpc-c, a shared-memory ring and recoverable memory, in Dafny

This project models the stateful core of three programs and proves what they are for:

* **Xmlrpc-c** (`project3`): the XML-RPC codec (printer, tree builder, reader), the reference-counted
  value heap, the base64 and UTF-8 coders, the format-string builder and decomposer, the growable
  memory block, the method dispatcher with `system.multicall`, and the argument permuter of its tools.
* **A shared-memory ring** (`project2`): client threads, one server, counters that wrap, condition
  variables.
* **Recoverable memory** (`project4`): mapped segments, declared ranges, commit, abort, crash.

Code that changes state step by step is a class or a method with loops, proved against a function;
what the code promises is proved about the functions, for every input and every run.

| file | what it holds |
|---|---|
| `Bytes.dfy` | bytes, options, fault codes, results, powers of two, searching a sequence |
| `Base64.dfy` | the base64 coders as loops over a bit accumulator, and RFC 4648 section 4 / RFC 2045 section 6.8 |
| `Utf8.dfy` | the UTF-8 coders and RFC 3629 section 4 within UCS-2 |
| `Xml.dfy` | markup, escaping, and what an XML 1.0 processor makes of the markup the printer can write |
| `Sax.dfy` | the event handlers that build an element tree in place |
| `Values.dfy` | values, the documents printed for them, and the reader |
| `Codec.dfy`, `Messages.dfy` | round trips of values, calls, responses and faults |
| `Reading.dfy` | what any element tree means, and that the reader accepts exactly the trees that mean something |
| `Serializer.dfy` | the printer as it runs, appending to an output block |
| `Wire.dfy` | the printed text letter by letter |
| `Heap.dfy`, `ValueHeap.dfy` | what reference counts mean, DECREF with its cascade, arrays, structs as hash-filtered tables |
| `HeapRuns.dfy` | whole runs of the value API, cycles and leaks |
| `HeapParse.dfy` | the reader on the heap: it leaks nothing |
| `Formats.dfy`, `FormatCursors.dfy` | format strings, building and taking apart, with their cursors |
| `Getopt.dfy` | the argument permuter and a one-pass specification of it |
| `MemBlock.dfy`, `Multicall.dfy` | the growable block, the dispatcher |
| `Ring.dfy`, `Rvm.dfy` | the ring protocol, recoverable memory |

## Conventions

A fault is a code (`Fault(code)`, or `Some(code)` where a method returns nothing else). Allocation
succeeds. Strings of bytes are `seq<byte>`; element names are Dafny strings. The build is one with
wide characters, where texts are checked to be UTF-8.

On the heap a value is named by its place in a sequence of cells, and a freed cell stays behind as
`Dead`; addresses are not used again. `held`, a ghost multiset, is what the callers own.

In the ring, the code between taking the mutex and releasing it, or waiting, is one atomic step; a
signal wakes one waiter if there is one, and nobody wakes without a signal.

## What the code does that its promises do not say

* A text with a carriage return does not survive printing and parsing: XML section 2.11 turns it into a
  line feed. A control character, or a date that is not UTF-8, is printed as it is and refused by the XML
  processor (`Codec.TextsThatDoNotSurvive`). The round trips hold exactly for what `Portable` admits
  (`Codec.RoundTrip`, `Codec.PortableTexts`), given a processor that refuses whatever XML 1.0 has it refuse.
* `<i4></i4>` reads as 0 and `<boolean></boolean>` as false, because `strtol` reads no digits and leaves
  nothing over (`Values.NoDigitsAccepted`). An accepted number element holds a numeral if and only if its
  text is not empty (`Values.NumberElements`). The C library is taken to be one whose `strtol` leaves
  `errno` alone when it finds no digits.
* A format that built a struct never takes it apart again unless the group ends in an asterisk
  (`Formats.SameFormat`, and `Formats.StructNeedsAsterisk` for "{s:i}").
* When an option that takes no value is given one, or one lacks its required value, the scan has already
  stepped over it. The caller is then shown the next element; when there is none it is told nothing and
  carries on with an option index that was never set (`Getopt.OffendingIs`, `Getopt.MissedWhen`, `missed` in
  `Getopt.ProcessOptions`). The driver's table has no option that requires a value
  (cmdline_parser.c:58-60), so there it is a flag given a value (`Getopt.SteppedOver`), as `-v=1` is for
  a flag `v` (`Getopt.MissedFlag`).
* Scanning permuted arguments a second time can read differently: an option that wanted a value and stood
  last has an operand after it then (`Getopt.Rescan`, `Getopt.RescanTakesOperand`).
* With more clients than slots a client of the ring returns with the mutex locked (`Ring.EarlyReturn`).
* However many clients there are, up to 128, the ring can stop for good (`Ring.LostWakeup`): it has stopped if
  and only if the server and every client wait (`Ring.StuckIffAllWait`), and with at least one client only if
  some signal was sent while nobody waited for it (`Ring.StopsOnlyByLostSignal`).
* Were nested calls of `system.multicall` not refused, every call would still end, since values are finite.
  What the refusal buys is that no more than two dispatches are ever in progress at once
  (`Multicall.RefusalBounds`); without it there is no bound (`Multicall.UnboundedWithout`).
* An array appended to itself outlives its last reference (`HeapRuns.ArrayInItselfLeaks`).

## Model

| member | source | states |
|---|---|---|
| Base64.RoundTrip | project3/src/xmlrpc_base64.c:95-266 | decoding undoes encoding for every byte string, with and without newlines |
| Base64.Acceptance | project3/src/xmlrpc_base64.c:190-266 | a text of k sextets is accepted exactly when 4 divides k and the pads number at most two and at most the bytes; it then yields 6k/8 bytes less the pads |
| Base64.DecodedExactly | project3/src/xmlrpc_base64.c:190-266 | a text decodes to data if and only if, other characters thrown away and pads read as zero bits, it is the encoding of the data and one more byte for each of at most two pads |
| Base64.OthersIgnored | project3/src/xmlrpc_base64.c:230-232 | bytes whose low seven bits are neither an alphabet character nor a pad make no difference, wherever they stand |
| Base64.AlphabetOrder | project3/src/xmlrpc_base64.c:92-93 | the alphabet is that of RFC 4648, in its order |
| Base64.EndsInLine | project3/src/xmlrpc_base64.c:107-171 | with newlines the encoding of any bytes, of none too, ends in CRLF |
| Base64.Encode | project3/src/xmlrpc_base64.c:95-171 | the encoder writes the chunks of 57 bytes as RFC 4648 spells them, each followed by CRLF if newlines are asked for, and one empty line for no bytes |
| Base64.EncodeLine | project3/src/xmlrpc_base64.c:123-160 | one chunk fits the 128-byte line buffer and is spelled as RFC 4648 section 4 says |
| Base64.ShiftLine | project3/src/xmlrpc_base64.c:131-142 | the accumulator loop, with 32-bit shifts that never mask, emits the sextets of the chunk and holds back the right bits |
| Base64.ShiftAndTake | project3/src/xmlrpc_base64.c:133-141 | shifting a byte into the unmasked 32-bit accumulator loses no live bit |
| Base64.Decode | project3/src/xmlrpc_base64.c:190-266 | the decoder, whose writes stay inside its ((n+3)/4)*3 buffer, returns the decoded bytes or a parse fault |
| Base64.ByteOut | project3/src/xmlrpc_base64.c:233-243 | one turn of the decoding loop holds all bits back or completes one byte, as the sextets so far say |
| Base64.EncodingSpells | project3/src/xmlrpc_base64.c:95-171 | the sextets of an encoding spell the bytes, with one zero byte for each pad |
| Base64.EncodingCounts | project3/src/xmlrpc_base64.c:143-150 | an encoding has whole groups of four sextets and 0, 2 or 1 pads by the length modulo 3 |
| Base64.LineLengths | project3/src/xmlrpc_base64.c:117-162 | no line has more than 76 characters and all but the last have exactly 76 |
| Base64.PadPlace | project3/src/xmlrpc_base64.c:143-150 | a pad stands only in the last two places of the last line |
| Base64.RfcShape | project3/src/xmlrpc_base64.c:121-151 | an encoding has (n+2)/3*4 characters, and pads only at its end and only for a length not divisible by 3 |
| Base64.Alphabet | project3/src/xmlrpc_base64.c:77-93 | the two tables are inverse on the 64 characters, none of which is skipped, a pad or XML markup |
| Utf8.DecodeUtf8 | project3/src/xmlrpc_utf8.c:134-245 | with a buffer or only validating, exactly the sequences of RFC 3629 section 4 of one to three bytes, less U+FFFE and U+FFFF, are accepted, and the buffer gets their code points |
| Utf8.NextChar | project3/src/xmlrpc_utf8.c:156-228 | one turn of the loop accepts exactly one legal character and yields its length and code point |
| Utf8.TwoBytes | project3/src/xmlrpc_utf8.c:176-227 | the two-byte test of the code is the grammar of RFC 3629 |
| Utf8.ThreeBytes | project3/src/xmlrpc_utf8.c:186-227 | the three-byte test of the code, surrogates and overlong forms included, is the grammar of RFC 3629 |
| Utf8.Utf8ToWcs | project3/src/xmlrpc_utf8.c:249-285 | decoding into a block returns the code points or an invalid-UTF-8 fault |
| Utf8.WcsToUtf8 | project3/src/xmlrpc_utf8.c:295-352 | encoding returns the bytes of the characters, or an internal fault if one lies beyond UCS-2 |
| Utf8.PutChar | project3/src/xmlrpc_utf8.c:319-331 | one character is written where it belongs and takes at most three bytes |
| Utf8.EncodeThenDecode | project3/src/xmlrpc_utf8.c:134-352 | decoding what was encoded gives the text back if and only if the text is legal UCS-2 |
| Utf8.DecodeThenEncode | project3/src/xmlrpc_utf8.c:134-352 | encoding what was decoded gives back exactly the accepted bytes |
| Utf8.CoderBounds | project3/src/xmlrpc_utf8.c:250-352 | decoded texts are no longer than their bytes and encoded ones at most three times as long, as the buffers assume |
| Utf8.CharRoundTrip | project3/src/xmlrpc_utf8.c:319-331 | an encoded character is legal exactly if the character is, decodes to itself, and its first byte announces its length |
| Utf8.CharCanonical | project3/src/xmlrpc_utf8.c:62-95 | every legal sequence is the one the encoder writes for its code point |
| Serializer.EscapedSize | project3/src/xmlrpc_serialize.c:88-107 | the counting pass finds the size of the escaped text |
| Serializer.EscapeForXml | project3/src/xmlrpc_serialize.c:111-165 | the copying pass fills exactly that size with the escaped text |
| Serializer.Output.FormatOut | project3/src/xmlrpc_serialize.c:28-60 | short formatted text is appended to the block |
| Serializer.Output.Utf8Text | project3/src/xmlrpc_serialize.c:169-202 | text is appended escaped |
| Serializer.SerializeValue | project3/src/xmlrpc_serialize.c:282-401 | the printer appends the rendering of the value's document, and faults exactly for a value with a C pointer inside |
| Serializer.SerializeInner | project3/src/xmlrpc_serialize.c:300-392 | each type prints its element; a C pointer faults |
| Serializer.SerializeArray | project3/src/xmlrpc_serialize.c:329-346 | the items are printed in order, one to a line |
| Serializer.SerializeStruct | project3/src/xmlrpc_serialize.c:238-272 | the members are printed in order |
| Serializer.SerializeMember | project3/src/xmlrpc_serialize.c:253-264 | a member prints its key as text and its value |
| Serializer.SerializeBase64 | project3/src/xmlrpc_serialize.c:352-361 | binary data prints as its lines of base64 |
| Serializer.SerializeParams | project3/src/xmlrpc_serialize.c:411-445 | the parameters are printed in order |
| Serializer.SerializeCall | project3/src/xmlrpc_serialize.c:455-498 | a call prints as its message text |
| Serializer.SerializeResponse | project3/src/xmlrpc_serialize.c:508-531 | a response prints as its message text |
| Serializer.SerializeFault | project3/src/xmlrpc_serialize.c:546-583 | a fault prints as a struct with faultCode and faultString |
| Wire.ValueIs | project3/src/xmlrpc_serialize.c:88-401 | the text printed for a value is, letter by letter, its text on the wire |
| Wire.CallIs | project3/src/xmlrpc_serialize.c:411-498 | so is that of a call |
| Wire.ResponseIs | project3/src/xmlrpc_serialize.c:502-540 | so is that of a response |
| Wire.FaultIs | project3/src/xmlrpc_serialize.c:546-583 | so is that of a fault |
| Xml.LexNode | project3/src/xmlrpc_serialize.c:111-163 | an XML processor reads rendered markup back as its events if every text in it is UTF-8 without forbidden characters, and refuses it otherwise |
| Xml.LexText | project3/src/xmlrpc_serialize.c:111-163 | escaped text reads back as itself with line ends normalised, and text that is not UTF-8 or has a control character is refused |
| Xml.LexElem | project3/src/xmlrpc_serialize.c:282-401 | a rendered element, even as the document element, reads back as its events, or is refused for its text |
| Sax.ParseContext.StartElement | project3/src/xmlrpc_expat.c:240-286 | a start tag opens an element under the current one; the chain from the current element to the root stays the stack of open elements |
| Sax.ParseContext.CharacterData | project3/src/xmlrpc_expat.c:324-340 | text goes to the current element |
| Sax.ParseContext.EndElement | project3/src/xmlrpc_expat.c:290-320 | an end tag closes the current element and its parent becomes current |
| Sax.XmlElement.AppendCdata | project3/src/xmlrpc_expat.c:190-199 | text is appended to the element and nothing else changes |
| Sax.XmlElement.AppendChild | project3/src/xmlrpc_expat.c:205-220 | the child becomes the last child and its parent is set |
| Sax.XmlParse | project3/src/xmlrpc_expat.c:388-454 | running the handlers over the events of a document yields the root of exactly the tree the specification builds |
| Sax.BuildsTree | project3/src/xmlrpc_expat.c:205-340 | the events of any tree build exactly that tree, with no element left open |
| Sax.RunNode | project3/src/xmlrpc_expat.c:205-340 | inside any open elements, the events of a node add exactly that node to the innermost |
| Sax.ChunkingIrrelevant | project3/src/xmlrpc_expat.c:324-340 | however text is split into characterData calls, the result is the same |
| Sax.OpenIsUnclosed | project3/src/xmlrpc_expat.c:240-320 | after every prefix of the events the open elements are the start tags not yet closed, in order |
| Sax.AcceptedTextBuilds | project3/src/xmlrpc_expat.c:388-454 | whatever text the XML processor accepts makes the handlers build one closed tree |
| Sax.ParseRendered | project3/src/xmlrpc_expat.c:388-454 | parsing a rendered document after a prologue yields its tree, or a fault if some text in it is not UTF-8 or has a forbidden character |
| Sax.ParsedIsPrintable | project3/src/xmlrpc_expat.c:388-454 | every parsed text is UTF-8 without carriage returns and forbidden characters |
| Values.AtoiDecimal | project3/src/xmlrpc_parse.c:92-137 | a printed number reads back as itself if it lies in the range asked for, and faults otherwise |
| Values.AtoiAccepts | project3/src/xmlrpc_parse.c:92-137 | a text is read as a number if and only if the number is in range and the text is an optional sign and digits that denote it, or is empty and the number 0 |
| Values.AtoiEdges | project3/src/xmlrpc_parse.c:102-127 | a lone sign and leading white space are refused, the empty text is read as 0 |
| Values.NumberElements | project3/src/xmlrpc_parse.c:432-460 | what i4, int and boolean elements are accepted, with which value, and that an accepted one holds a numeral if and only if its text is not empty |
| Values.NoDigitsAccepted | project3/src/xmlrpc_parse.c:432-460 | an empty i4 element is 0 and an empty boolean element is false |
| Values.DecimalCanonical | project3/src/xmlrpc_serialize.c:306-313 | a number is printed as a numeral that denotes it, without plus sign or leading zero |
| Values.SetMemberLaws | project3/src/xmlrpc_struct.c:483-533 | setting a member keeps keys distinct, puts the new value in the old place or at the end, and leaves every other member alone |
| Values.ChildNamed | project3/src/xmlrpc_parse.c:65-82 | the first child of that name, or none |
| Codec.RoundTrip | project3/src/xmlrpc_parse.c:380-483 | a printed value parses back to itself, members in order, if and only if its texts survive XML and its nesting depth is within the limit; a deeper one faults |
| Codec.DocConverts | project3/src/xmlrpc_parse.c:252-483 | reading the tree of a printed value gives the value exactly if its depth is within the limit, else a parse fault |
| Codec.ConvertSound | project3/src/xmlrpc_parse.c:252-483 | whatever is read lies within the depth limit, can be printed and has distinct keys |
| Codec.ReparsedIsSame | project3/src/xmlrpc_parse.c:380-483 | any value ever parsed prints to a text that parses back to it |
| Codec.TextParses | project3/src/xmlrpc_serialize.c:282-401 | the printed text of a value parses to the tree of its document, or is refused because some text is not UTF-8 or has a forbidden character |
| Codec.PortableTexts | project3/src/xmlrpc_datetime.c:433-454 | which strings and which dates survive: legal UCS-2 text in UTF-8, and any UTF-8, without carriage returns and control characters |
| Codec.TextsThatDoNotSurvive | project3/src/xmlrpc_serialize.c:111-163 | a carriage return comes back as a line feed; a control character and a date that is not UTF-8 are refused |
| Codec.AsciiSurvives | project3/src/xmlrpc_serialize.c:111-163 | of the ASCII characters the tab, the line feed and those from the space on survive in a string |
| Messages.CallRoundTrip | project3/src/xmlrpc_parse.c:553-715 | a printed call parses to the same method name and parameters if and only if they survive XML, lie within the nesting limit and fit the size limit |
| Messages.ResponseRoundTrip | project3/src/xmlrpc_parse.c:797-931 | a printed response parses to the same value under the same exact condition |
| Messages.FaultRoundTrip | project3/src/xmlrpc_parse.c:719-931 | a printed fault parses to the same code and string under the exact condition |
| Messages.CallSound | project3/src/xmlrpc_parse.c:615-667 | a call that parses has a legal name and parameters within the nesting limit |
| Reading.ReadsExactly | project3/src/xmlrpc_parse.c:252-483 | over all trees: a value is delivered if and only if the tree is that value, with value elements nested no deeper than the limit |
| Reading.UntypedIsString | project3/src/xmlrpc_parse.c:412-416 | a value without a type element is the string that a string element with its text is |
| Reading.CollectedLaws | project3/src/xmlrpc_parse.c:330-375 | of members with one name the last counts, in the place of the first |
| Reading.FaultCodes | project3/src/xmlrpc_parse.c:252-483 | a tree is refused with a parse error, or with an UTF-8 error if some text in it is not legal |
| Reading.IllegalNames | project3/src/xmlrpc_parse.c:339-347 | a member name or method name that is not legal UTF-8 is an UTF-8 fault |
| Reading.CallTextExactly | project3/src/xmlrpc_parse.c:615-715 | the texts that parse to a call: within the size limit, and a tree of a method name and parameters in either order, or of a method name alone |
| Reading.CallExactly | project3/src/xmlrpc_parse.c:615-667 | over all trees: a call is delivered if and only if the tree is that call, also one without parameters |
| Reading.ResponseTextExactly | project3/src/xmlrpc_parse.c:797-931 | the texts that parse to a response: one parameter, or a fault struct that names code and string |
| Reading.FaultExactly | project3/src/xmlrpc_parse.c:719-757 | a fault struct has an integer code and a string without NULs, and perhaps other members |
| Messages.SuccessSound | project3/src/xmlrpc_parse.c:843-931 | a response that parses holds a value that could be sent |
| Messages.FailureSound | project3/src/xmlrpc_parse.c:719-794 | a fault that parses has a string that could be sent |
| Messages.FaultValueIs | project3/src/xmlrpc_serialize.c:546-583 | the struct a fault is sent as has depth two and is portable exactly if its text is |
| Heap.NoDangling | project3/src/xmlrpc_data.c:84-107 | where counts are right, whatever a value in use points at is in use |
| Heap.ReleaseConserves | project3/src/xmlrpc_data.c:95-107 | a DECREF with its whole cascade leaves every count equal to what is held plus the slots that point there |
| Heap.Release | project3/src/xmlrpc_data.c:18-107 | the cascade ends whatever the shape of the heap, since every step lowers the sum of the counts |
| Heap.ReleaseConcat | project3/src/xmlrpc_data.c:18-107 | releasing two lists of references is releasing the second after the first |
| Heap.ReleaseInert | project3/src/xmlrpc_data.c:67-69 | a value already dying takes no further part, so marking it dead after releasing its contents is as good as before |
| Heap.ReleaseSurvivors | project3/src/xmlrpc_data.c:95-107 | what a release does not free keeps its contents and a count that is not raised |
| ValueHeap.Memory.New | project3/src/xmlrpc_data.c:600-626 | a new value starts with one reference, its creator's, and counts stay right |
| ValueHeap.Memory.Incref | project3/src/xmlrpc_data.c:84-91 | one more reference, nothing else |
| ValueHeap.Memory.Decref | project3/src/xmlrpc_data.c:95-107 | one reference less and, at zero, the cascade; every value is in use whenever it is released |
| ValueHeap.Memory.DestroyValue | project3/src/xmlrpc_data.c:18-73 | the contents are released, then the value is marked dead |
| ValueHeap.Memory.DestroyArrayContents | project3/src/xmlrpc_array.c:50-71 | the items are released in order |
| ValueHeap.Memory.DestroyStruct | project3/src/xmlrpc_struct.c:38-53 | keys and values are released in order |
| ValueHeap.Memory.ArrayAppend | project3/src/xmlrpc_array.c:99-123 | the array gains a slot and the item a reference; anything but an array is a type fault that changes nothing |
| ValueHeap.Memory.ArrayReadItem | project3/src/xmlrpc_array.c:127-156 | the item is returned with a reference of its own; wrong type and index fault |
| ValueHeap.Memory.GetHash | project3/src/xmlrpc_struct.c:125-138 | the hash is the sum of the bytes modulo 256 |
| ValueHeap.HashIsSum | project3/src/xmlrpc_struct.c:125-138 | the hash of two texts joined is the sum of theirs modulo 256, and one byte is its own |
| ValueHeap.Memory.FindMember | project3/src/xmlrpc_struct.c:149-178 | the hash-filtered search finds what a plain search for the text finds |
| ValueHeap.Memory.StructFindValue | project3/src/xmlrpc_struct.c:318-331 | the value a key names comes with a reference of its own; a missing key gives none |
| ValueHeap.Memory.StructSetValue | project3/src/xmlrpc_struct.c:483-533 | a member is replaced in place, the new value gaining its reference before the old one loses its own, or added; counts and tables stay right |
| ValueHeap.ReplacedConserves | project3/src/xmlrpc_struct.c:507-518 | replacing a member keeps every count right, also when old and new value are the same |
| ValueHeap.ReplacedHolds | project3/src/xmlrpc_struct.c:512-517 | between storing the new value and releasing the old, the old one is held by nobody else |
| ValueHeap.AddedConserves | project3/src/xmlrpc_struct.c:519-528 | adding a member keeps every count right |
| ValueHeap.AppendedConserves | project3/src/xmlrpc_array.c:119-120 | appending keeps every count right |
| ValueHeap.MemberSetTable | project3/src/xmlrpc_struct.c:483-533 | after a set the struct's entries are the plain table with the key put, and every table has right hashes and distinct keys |
| ValueHeap.PutIsMapUpdate | project3/src/xmlrpc_struct.c:483-533 | putting a key is updating a map at that key |
| ValueHeap.AsMapLookup | project3/src/xmlrpc_struct.c:149-178 | searching the table is looking up the map |
| ValueHeap.MemberSetSound | project3/src/xmlrpc_struct.c:483-533 | setting a member keeps the counts and all tables of the heap right |
| ValueHeap.ReleaseSound | project3/src/xmlrpc_data.c:95-107 | releasing keeps the counts and all tables of the heap right |
| HeapRuns.StepSound | project3/src/xmlrpc_data.c:84-107 | every call of the API keeps counts equal to references held plus slots, and structs tables |
| HeapRuns.Perform | project3/src/xmlrpc_data.c:84-107 | a call made on the heap does what a step of a run is said to do |
| HeapRuns.PerformAll | project3/src/xmlrpc_data.c:84-107 | so does a run of calls |
| HeapRuns.RunSound | project3/src/xmlrpc_data.c:84-107 | so does every run of calls |
| HeapRuns.StepTable | project3/src/xmlrpc_struct.c:483-533 | one call changes a struct that stays held only by setting a member of it, whatever else it frees |
| HeapRuns.RunTable | project3/src/xmlrpc_struct.c:483-533 | over any run that keeps a struct held, it is the map it was, updated with the members set, in order |
| HeapRuns.LastSetIsFound | project3/src/xmlrpc_struct.c:272-313 | at the end of any such run a lookup hands out the value last set for the key, still alive |
| HeapRuns.AliveIsReachable | project3/src/xmlrpc_data.c:95-107 | in a heap without cycles exactly the values somebody can still reach are alive |
| HeapRuns.NoLeakIffAcyclic | project3/src/xmlrpc_data.c:18-107 | releasing everything held frees everything if and only if there is no cycle |
| HeapRuns.FreedIsAcyclic | project3/src/xmlrpc_data.c:18-107 | if releasing everything frees everything there was no cycle |
| HeapRuns.AppendAcyclic | project3/src/xmlrpc_array.c:99-123 | appending closes a cycle exactly when the item already reaches the array |
| HeapRuns.SetAcyclic | project3/src/xmlrpc_struct.c:483-533 | setting a member closes a cycle exactly when the value already reaches the struct |
| HeapRuns.NoLeak | project3/src/xmlrpc_data.c:18-107 | after any run that never puts a value into something it contains, releasing what is held in any order leaves nothing alive |
| HeapRuns.ArrayInItselfLeaks | project3/src/xmlrpc_array.c:99-123 | three legal calls that leave an array alive with nobody holding it |
| HeapParse.ConvertTree | project3/src/xmlrpc_parse.c:380-483 | reading on the heap gives what the specification gives; on success the result is held once, each node has one reference and nothing else was left alive; on any fault nothing was |
| HeapParse.ConvertArray | project3/src/xmlrpc_parse.c:252-299 | the array is allocated first and given up on any fault of name, count or item |
| HeapParse.ConvertStruct | project3/src/xmlrpc_parse.c:309-376 | the struct is allocated first and given up on any fault of a member |
| HeapParse.ConvertMemberInto | project3/src/xmlrpc_parse.c:334-363 | one member is set, a repeated name replacing and freeing the earlier value, or key and value are given up |
| HeapParse.ConvertLeaf | project3/src/xmlrpc_parse.c:432-473 | each scalar element makes one value or a fault and none |
| HeapParse.MakeStringValue | project3/src/xmlrpc_parse.c:200-211 | legal UTF-8 makes a string, anything else a fault and no value |
| HeapParse.ChildByName | project3/src/xmlrpc_parse.c:65-82 | the loop finds the first child of that name |
| HeapParse.MemberAdded | project3/src/xmlrpc_parse.c:354-362 | setting a member just parsed and giving up one's own references leaves one reference to each node and the members as specified |
| HeapParse.ItemAdded | project3/src/xmlrpc_parse.c:284-286 | appending an item just parsed and giving up one's own reference leaves one reference to each node |
| HeapParse.AllGone | project3/src/xmlrpc_parse.c:365-375 | if nobody outside holds any of what a call added, nothing of it is alive |
| HeapParse.TakenDown | project3/src/xmlrpc_parse.c:290-298 | a parsed value can be released again without trace |
| FormatCursors.Builder.GetValue | project3/src/xmlrpc_builddecomp.c:328-436 | the cursors move over exactly one specifier and its arguments and the value is the specified one |
| FormatCursors.Builder.GetArray | project3/src/xmlrpc_builddecomp.c:185-218 | items are built until the closing parenthesis; a format that ends first faults |
| FormatCursors.Builder.GetStruct | project3/src/xmlrpc_builddecomp.c:252-292 | members are built until the closing brace; a missing colon, comma or brace and a key that is no string fault |
| FormatCursors.Builder.GetStructMember | project3/src/xmlrpc_builddecomp.c:222-248 | a key, a colon and a value |
| FormatCursors.Builder.GetScalar | project3/src/xmlrpc_builddecomp.c:348-410 | each scalar specifier takes its arguments and no more |
| FormatCursors.BuildWhole | project3/src/xmlrpc_builddecomp.c:470-494 | a format that is not used up by one value faults |
| FormatCursors.Decomposer.DecomposeValue | project3/src/xmlrpc_builddecomp.c:712-867 | the cursors move over exactly one specifier, and the results are stored in order |
| FormatCursors.Decomposer.ParseArray | project3/src/xmlrpc_builddecomp.c:518-555 | items are taken apart in order; too many or too few fault unless an asterisk ends the group |
| FormatCursors.Decomposer.ParseStruct | project3/src/xmlrpc_builddecomp.c:559-621 | members are looked up by the keys given; a group without an asterisk faults |
| FormatCursors.Decomposer.ParseMember | project3/src/xmlrpc_builddecomp.c:577-599 | the key is read by the building code from the same cursors, and a missing member is an index fault |
| FormatCursors.Decomposer.DecomposeScalar | project3/src/xmlrpc_builddecomp.c:723-838 | each specifier checks the type and stores its results |
| Formats.RoundTrip | project3/src/xmlrpc_builddecomp.c:185-867 | building and then taking apart with the same format, each struct closed by an asterisk, gives back the arguments in order with both cursors at the end |
| Formats.AnyFormat | project3/src/xmlrpc_builddecomp.c:328-436 | every format that builds a value is covered: it is the format of an item, and unless a text is cut short or a key repeats the round trip holds for it |
| Formats.SameFormat | project3/src/xmlrpc_builddecomp.c:601-615 | the very format that built a value takes it apart if and only if it has no struct group, and otherwise fails with an internal fault |
| Formats.ArrayAsterisk | project3/src/xmlrpc_builddecomp.c:535-552 | an array group that ends in an asterisk takes its items from an array with any further items; without the asterisk it succeeds if and only if there are none, and otherwise is an index fault |
| Formats.ArrayTooShort | project3/src/xmlrpc_builddecomp.c:535-552 | an array with fewer items than its format names is an index fault, asterisk or not |
| Formats.ScalarExactly | project3/src/xmlrpc_builddecomp.c:720-867 | over all values: a scalar format takes those of its type, and what it stores builds the value again; any other value is a type fault |
| Formats.MemberRefused | project3/src/xmlrpc_builddecomp.c:577-590 | a key that is not a string is a type fault, a key the struct lacks an index fault |
| Formats.StructEnds | project3/src/xmlrpc_builddecomp.c:601-615 | a struct group must end in an asterisk, and nothing may follow it |
| Formats.BuildingRefused | project3/src/xmlrpc_builddecomp.c:185-436 | an open group, a member without colon or comma, and a key that is no string are refused |
| Formats.SpecifierRefused | project3/src/xmlrpc_builddecomp.c:185-436 | unknown specifiers, an ended format, and a value passed as an array or struct that is none are internal faults |
| Formats.StructNeedsAsterisk | project3/src/xmlrpc_builddecomp.c:601-615 | the struct that "{s:i}" builds is taken apart by "{s:i,*}" and not by "{s:i}" |
| Formats.Builds | project3/src/xmlrpc_builddecomp.c:328-436 | the format and arguments of an item build its value and leave the rest of both alone |
| Formats.Takes | project3/src/xmlrpc_builddecomp.c:712-867 | the closed format of an item takes its value apart and leaves the rest of format and arguments alone |
| Formats.OpenFails | project3/src/xmlrpc_builddecomp.c:601-615 | without asterisks the taking apart of anything with a struct in it never succeeds |
| Formats.ReadItem | project3/src/xmlrpc_builddecomp.c:328-436 | whatever builds is an item's format with that item's arguments |
| Formats.TakesMembers | project3/src/xmlrpc_builddecomp.c:575-600 | the members of a struct are found by their keys one after the other |
| Formats.BuildsMembers | project3/src/xmlrpc_builddecomp.c:263-287 | the members are set one after the other |
| Getopt.Scanner.Exchange | project3/lib/util/getoptx.c:89-112 | the skipped operands and the options after them change places, and the boundaries move along |
| Getopt.Scanner.Settle | project3/lib/util/getoptx.c:178-181 | options found since the last operands go before them |
| Getopt.Scanner.SkipOperands | project3/lib/util/getoptx.c:186-190 | operands are skipped up to the next option element |
| Getopt.Scanner.FindOption | project3/lib/util/getoptx.c:254-277 | an exact name wins, an abbreviation must fit one option only |
| Getopt.Scanner.TakeOption | project3/lib/util/getoptx.c:240-328 | an option element is read with the value after its equals sign or in the next element, or is bad |
| Getopt.Scanner.PassDashes | project3/lib/util/getoptx.c:197-208 | the double dash is stepped over like an option and everything after it is an operand |
| Getopt.Scanner.Getoptx | project3/lib/util/getoptx.c:153-400 | one call reports the next option of the one-pass reading and strictly advances, or ends with argv permuted and optindx at the first operand, or reports a bad option |
| Getopt.Scanner.GetoptLongOnly | project3/lib/util/getoptx.c:404-434 | the wrapper names the element the scan stands at as unrecognized, if there is one |
| Getopt.ProcessOptions | project3/lib/util/cmdline_parser.c:170-220 | over the whole command line the reports are those of the one-pass reading and argv ends up as program name, options with their values and any double dash, operands, each in original order |
| Getopt.ExtractArguments | project3/lib/util/cmdline_parser.c:143-166 | the arguments are the elements from getopt_argstart on |
| Getopt.ParseSplits | project3/lib/util/getoptx.c:80-112 | options and operands are the arguments split in two with the order kept on both sides |
| Getopt.ValueForm | project3/lib/util/getoptx.c:287-303 | an element -name=value, or +name=value, reads as that value for the option its name names, and is bad for a flag |
| Getopt.NameForm | project3/lib/util/getoptx.c:304-315 | an element -name reads as a flag, or takes the next element for its value, if there is one |
| Getopt.UnknownForms | project3/lib/util/getoptx.c:319-327 | a name that names no option makes a bad element that is not stepped over |
| Getopt.ResolveNames | project3/lib/util/getoptx.c:249-277 | an option is named by its exact name, or by an abbreviation of its name alone |
| Getopt.ReportsValue | project3/lib/util/getoptx.c:287-303 | such an element is reported with the value and stands among the options |
| Getopt.ReportsOption | project3/lib/util/getoptx.c:304-315 | so does an element without a value in it, with the element that is its value |
| Getopt.OperandForms | project3/lib/util/getoptx.c:183-189 | the empty element, a lone sign and whatever begins otherwise are operands |
| Getopt.AfterDashes | project3/lib/util/getoptx.c:192-208 | after "--" everything is an operand |
| Getopt.Rescan | project3/lib/util/getoptx.c:137-141 | scanning the permuted arguments again changes nothing unless the last option wanted a value, had none, and an operand has moved behind it |
| Getopt.RescanTakesOperand | project3/lib/util/getoptx.c:137-141 | an option after an operand takes the operand for its value when the permuted arguments are scanned again |
| Getopt.MissedWhen | project3/lib/util/getoptx.c:423-426 | the caller is told nothing of a bad option if and only if it stands last and the scan had stepped over it |
| Getopt.SteppedOver | project3/lib/util/getoptx.c:281-321 | a bad option has been stepped over if it is a flag given a value or lacks its required value, and with the table of the driver only in the first case |
| Getopt.MissedFlag | project3/lib/util/getoptx.c:281-321 | the argument `-v=1` for a flag `v` is bad and nobody is told |
| Getopt.OffendingIs | project3/lib/util/getoptx.c:423-426 | where a bad option stands and which element the caller is shown for it, if any |
| Getopt.OperandsInert | project3/lib/util/getoptx.c:192-208 | no operand could be read as an option, unless it stands after the double dash |
| MemBlock.Block.constructor | project3/lib/libutil/memblock.c:60-78 | the block starts with the size asked for and at least sixteen bytes |
| MemBlock.Block.Resize | project3/lib/libutil/memblock.c:120-163 | the old contents stay; it faults exactly when no doubling of the allocation is large enough within the limit, and then changes nothing |
| MemBlock.Block.Append | project3/lib/libutil/memblock.c:166-186 | the data is added at the end, or nothing changes |
| MemBlock.ProposedFits | project3/lib/libutil/memblock.c:141-147 | the doubling loop finds an allocation within the limit exactly when there is one |
| MemBlock.GrowthLimit | project3/lib/libutil/memblock.c:133-147 | a block of 16 bytes can grow to 128 megabytes and no further |
| MemBlock.Proposed | project3/lib/libutil/memblock.c:141-147 | the loop ends, never passes twice the limit, and grows to less than twice the size asked for |
| MemBlock.AppendAll | project3/lib/libutil/memblock.c:166-186 | any run of appends holds the concatenation of what went in, and all reallocations together have copied no more bytes than the block has grown |
| Multicall.MulticallIsEachAlone | project3/src/system_method.c:265-331 | for any parameters: the call returns if and only if they are one list, then an entry for every call, the one-item array of what dispatching that call alone returns or its fault as a struct, also for a malformed or refused call |
| Multicall.RepliesJoin | project3/src/system_method.c:289-326 | the reply to two lists joined is the two replies joined |
| Multicall.OneCallChanged | project3/src/system_method.c:289-326 | another call in place of the i-th changes the i-th entry only, to what that call gives alone |
| Multicall.MalformedCodes | project3/src/system_method.c:233-237 | a malformed call fails with a type or an index fault |
| Multicall.RefusalBounds | project3/src/system_method.c:240-246 | since nested calls are refused, at most two dispatches are in progress at once |
| Multicall.UnboundedWithout | project3/src/system_method.c:240-246 | were they not, some call would have any number in progress |
| Multicall.EntryTells | project3/src/system_method.c:304-312 | a result can be told from a fault by its type and both read back from the entry |
| Multicall.CallInfoDecomposes | project3/src/system_method.c:233-237 | reading one call is what the decomposer makes of its format, fault by fault |
| Multicall.CallListDecomposes | project3/src/system_method.c:285-286 | reading the list of calls is what the decomposer makes of its format |
| Multicall.AddingKeepsWired | project3/src/registry.c:129-174 | whatever methods are added, the multicall handler stays under its own name, so that the recursion is bounded |
| Multicall.LastSetUpAnswers | project3/src/registry.c:129-385 | whatever has been set up, in whatever order: the method last added under the name answers, else system.multicall under its own, else the last default, else there is no such method; before that the last check may refuse |
| Multicall.DispatchCall | project3/src/registry.c:343-385 | the pre-invoke check, the named method, the default method or no such method |
| Multicall.CallOneMethod | project3/src/system_method.c:222-261 | one call of the list, with a nested multicall refused before anything is called |
| Multicall.RunMulticall | project3/src/system_method.c:265-331 | the loop collects each result or fault |
| Multicall.MethodRegistry.AddMethod | project3/src/registry.c:129-174 | a method is added or replaced |
| Ring.RingBuffer.WriteRequest | project2/ringbuffer.c:31-50 | write_request changes the ring as specified, the early return with the mutex locked included |
| Ring.RingBuffer.ReadRequest | project2/ringbuffer.c:6-24 | read_request changes the ring as specified, the early return with the mutex locked included |
| Ring.RingBuffer.ProcessRequests | project2/ringbuffer.c:26-29 | left alone, the loop serves every pending request |
| Ring.RingBuffer.TakeResponse | project2/client.c:32-36 | the response at response_reads is read and the counter moves on |
| Ring.RingBuffer.constructor | project2/ringbuffer.c:52-74 | the counters start at zero and each slot carries its own number |
| Ring.DrainCarries | project2/ringbuffer.c:26-29 | serving all pending requests leaves every answer in its slot |
| Ring.WriteCarries | project2/ringbuffer.c:31-50 | with room left, a request goes to the slot its number names and disturbs no live one |
| Ring.ServeCarries | project2/ringbuffer.c:6-24 | with a request pending, its answer goes to the slot its number names and disturbs no live one |
| Ring.TakeCarries | project2/client.c:32-36 | the response read is the answer to the oldest request not yet answered to a client |
| Ring.StepKeeps | project2/ringbuffer.c:6-50 | every step of every client and of the server keeps the invariant |
| Ring.CheckSees | project2/ringbuffer.c:27 | the test outside the mutex is right when it is made |
| Ring.SlotOfWrapped | project2/ringbuffer.c:13-19 | a counter that has wrapped at 32 bits names the same slot, since 128 divides the wrap |
| Ring.Safety | project2/ringbuffer.c:6-50 | in every interleaving of at most 128 clients and the server: nobody leaves the mutex locked, outstanding requests are counted by the counters, both rings have room, and responses never run behind their readers |
| Ring.FirstInFirstOut | project2/ringbuffer.c:13-20 | the k-th response read is the remainder of 2^x by 97 for the x of the k-th request written, across wraps: none lost, doubled or out of order |
| Ring.AnswerIsRemainder | project2/ringbuffer.c:14-15 | an answer is the one remainder of 2^x by p |
| Ring.EarlyReturns | project2/ringbuffer.c:8-11 | with 128 requests pending a writer is told -1, with none nobody is signalled, and the mutex stays locked |
| Ring.EarlyReturn | project2/ringbuffer.c:37-38 | the early return with the mutex locked is reachable if and only if there are more than 128 clients |
| Ring.StuckIffAllWait | project2/client.c:20-36 | no step is possible if and only if the server and every client wait |
| Ring.LostWakeup | project2/client.c:28-30 | with any number of clients up to 128 some run stops for good |
| Ring.StopsOnlyByLostSignal | project2/server.c:26-31 | a run with at least one client stops for good only if some signal was sent while nobody waited for it |
| Rvm.Recoverable.MapSegment | project4/rvm.c:52-161 | mapping pads the file with NULs and reads it into memory; too many segments or a name already mapped yield nothing |
| Rvm.Recoverable.AboutToModify | project4/rvm.c:310-328 | the range is added to the segment's |
| Rvm.Recoverable.WriteSegment | project4/rvm.c:257-278 | every declared range is written to its place in the file |
| Rvm.Recoverable.CommitTrans | project4/rvm.c:280-295 | every segment of the transaction is written |
| Rvm.Recoverable.AbortTrans | project4/rvm.c:330-372 | every segment of the transaction is read back from its file |
| Rvm.Recoverable.SegmentAt | project4/rvm.c:297-308 | the first segment at an address |
| Rvm.CommitIsCopy | project4/rvm.c:257-278 | writing the declared ranges makes the file equal the memory |
| Rvm.WrittenByte | project4/rvm.c:267-275 | each byte of the file is memory's where a range was declared and the file's elsewhere |
| Rvm.StepRefines | project4/rvm.c:52-372 | every operation keeps memory and file equal outside the declared ranges and does what the range-free store does |
| Rvm.RunRefines | project4/rvm.c:52-372 | over any run with crashes, writing back declared ranges is as good as writing back all memory at every commit |
| Rvm.CommitWritesFiles | project4/rvm.c:257-295 | a commit writes the files of the segments it names and no others |
| Rvm.DeclaredIsWritten | project4/rvm.c:257-328 | bytes written inside a declared range may be written and reach the file at the next commit |
| Rvm.AbortRestores | project4/rvm.c:330-372 | an abort reads the files of the segments it names back into memory and touches nothing else |
| Rvm.AbortUndoes | project4/rvm.c:330-372 | an abort brings back the bytes last committed, whatever run of calls lies between |
| Rvm.Recovery | project4/rvm.c:98-135 | after a commit of a segment, perhaps among others, and any run of calls with crashes, mappings and other commits that does not commit it again, mapping its file yields the bytes committed, filled up with NULs |
| Rvm.CrashRecovery | project4/rvm.c:98-135 | so in particular after a crash |

## Left out

- Xml.LexNode: the XML processor is modelled on the markup the printer can write and refuses everything else; attributes, comments, CDATA sections, character references, DTDs and encodings other than UTF-8 are not part of this model. Text that is not UTF-8 is refused, as section 4.3.3 of XML 1.0 has it; the bundled Expat does not look at what follows a lead byte (xmltok.c:108, xmltok_impl.c:14-22), so that it lets some such text through, and what it makes of that is not part of this model. It matters for dates only: strings, keys and method names are checked again when they are read.
- Codec.RoundTrip: doubles are not modelled, since the printer's `%f` loses digits; values here are immutable, and sharing is the business of the heap modules.
- Serializer.SerializeValue: allocation failure and the size limit of the output block are not modelled; after a fault the text left in the block is not specified.
- Sax.XmlParse: freeing the partial tree on an XML error is not modelled.
- HeapParse.ConvertTree: the loops that read `params` and fault elements are modelled on values in `Messages.dfy`, not on the heap.
- Getopt.Scanner.Getoptx: the option string is empty, as its only caller passes it, so clusters of short options are not modelled; the branch that would report an operand is not written out because the loop before it never stops at one; the scan starts afresh, as it does once in a process.
- Getopt.ProcessOptions: values of options are not checked for their type, which can end the scan early.
- Formats.BuildScalar: the specifiers `d` and `w` are not part of this model; an argument list that does not fit its format, and an assertion that fails, have the outcome `Misused` or `Broken`, about which nothing is claimed.
- FormatCursors.Builder.GetValue: values are built as values; reference counts of the parts are not tracked here.
- Ring.Safety: liveness is not claimed, and a client may read another client's answer, because responses are read in order and not by slot; spurious wakeups and more than one server are not modelled.
- Ring.FirstInFirstOut: an answer at p == 0 or above x == 30, where the C expression is undefined, means nothing; the clients send neither.
- Rvm.RunRefines: a crash falls between calls, so a commit interrupted half-way is not modelled; logs, truncation, file locks, unmapping and destroying segments are left out.
- Multicall.DispatchCall: handlers are functions of their parameters and cannot change the registry; the texts of the library's own faults are a parameter; signatures and introspection are left out.
- MemBlock.Block.Append: allocation succeeds, and sizes do not overflow.
- Datetime values are their text; conversion to and from times is left out.
- HTTP servers and clients, the C++ wrappers, tracing and makePrintable are left out.
