# YAZ core, modelled and verified in Dafny

YAZ is a toolkit for the information retrieval protocols Z39.50 and SRU. This project models the
parts of it in which octets and queries change form: message framing, BER, ISO 2709 MARC records,
HTTP and JSON, the query compilers from CQL to CCL, RPN and prefix notation, a character encoder that
can be interrupted, and the nibble memory allocator. `dafny verify dfyconfig.toml` checks all of it.

Code that works by changing things step by step is imperative here as well: loops with invariants,
and classes for the objects whose fields are updated (the MARC handle, the CCL and JSON parsers, the
ODR stream, the character converter, the allocator). Each such method is proved equal to a function
of its inputs or of the old state, and the results below are proved about those functions, so they
hold of the methods.

Main results, with the modules that hold them:

| area | result |
|---|---|
| framing (`Framing`, `AutoFraming`, `HttpFramer`, `HttpMessages`, `HttpFinality`, `BerFramer`, `BerFaults`, `BerDump`) | One stream, one verdict: an accepted prefix fixes the verdict of every shorter and longer prefix, across the switch from BER to HTTP after five octets. What the framer answers on every HTTP message, by its lines, and on every BER element. Exactly which rejections a longer buffer can revoke. The BER framer accepts exactly the element trees of X.690 that are at most 1000 levels deep and rejects exactly the buffers that begin with one of five faults; the dumper accepts exactly the trees that are elements all the way down. |
| BER values (`BerHeader`, `BerInteger`, `BerOid`, `BerValues`, `BerStream`) | Tags, lengths, 64-bit INTEGERs and OBJECT IDENTIFIERs round trip, with the exact conditions; the INTEGER form is the unique shortest one. The decoders accept exactly the encodings of every form. |
| MARC (`Marc`, `MarcRoundTrip`, `MarcDirectory`, `MarcReader`, `MarcHandle`) | What the writer produces the reader restores; directory, offsets and base address agree octet for octet; the cap on the record is exact. The reader goes by the directory, in any order of fields, and repairs every leader. |
| HTTP (`HttpCodec`, `HttpRoundTrip`, `HttpDecoding`, `HttpChunks`, `HttpChunkedMessages`, `HttpChunkAgreement`) | Encoded responses are framed at their exact length and come back if and only if the code has three digits and the status line fits its buffer. Every message with CRLF or LF lines is decoded; chunked messages with extensions and trailers are framed and decoded to their chunks. Of the chunked bodies that the framer accepts, exactly those in which the decoder finds the same chunks. |
| CCL (`CclTokens`, `CclSpelling`, `CclFind`, `CclGrammar`, `CclErrors`, `CclQueries`) | Lexing is lossless for every string. The tokens of a text are the one list of well-spaced tokens that spells it, the parser returns a tree exactly for the queries of a grammar, and every error code stands for one kind of fault. |
| CQL to CCL to RPN (`CqlToCcl`, `CqlCcl…`, `CqlProximity`) | Printing, tokenizing and parsing a query gives its boolean tree back, if and only if its escaped backslashes are safe, no phrase has more than 200 words and no proximity distance is negative; the tree then has the value of the query. |
| CQL to prefix notation (`Pqf`, `PqfPieces`, `PqfReading`, `PqfTerms`, `CqlToPqf`, `CqlPqfMeaning`, `CqlProximity`) | The text that the query compiler writes, character for character, is read back as the tree of the query if and only if each term, result set name and modifier value is one the reader can find again and no distance is negative; it then has the value of the query. Every term reaches the server as CQL means it, masked terms under an exact condition. |
| CCL split lists (`CclSplit`) | The tree is true exactly if the tokens can be cut into matching phrases; its size is bounded. |
| JSON (`Json`, `JsonStrings`, `JsonGrammar`, `JsonParser`, `JsonWriter`, `JsonRoundTrip`, `JsonLayout`) | The parser accepts exactly the texts of RFC 8259 that are at most 1000 levels deep, and returns the tree they stand for. Compact and pretty text parse back to the tree; the compact form is a shortest text for it, the pretty form its rows. |
| ISO-8859-1 (`Latin1`) | Any sequence of buffer sizes gives the octets of one unlimited buffer: the greedy composition. The table composes exactly the accented letters of ISO-8859-1. |
| allocator (`Nmem`, `NmemSafety`, `NmemRuns`) | Over every run, allocations are aligned, disjoint and singly owned, and all counters are exact; the runs of the state machine are runs of the methods. |

## Where the code differs from its own description

- `ber_enctag` is documented to return the number of octets written; for tags above 30 it returns 0
  (src/ber_tag.c:118-158). `BerStream.BerEnctag` states the code. Its array holds four octets, so
  tags of 2^28 and more are outside its contract; the octet format itself round trips below 2^32.
- `ber_enclen` accepts lengths that `ber_declen` refuses: four length octets or more
  (`BerHeader.LengthRoundTrip`).
- A rejection by the HTTP framer is not always final (`HttpFramer.RejectionNotFinal`): past the header
  limit, a line that may still become a Transfer-Encoding or Content-Length header turns it into "wait"
  again. `HttpFinality.HttpRejectionFinal` gives the exact condition, which needs more than 8194 octets.
  It never turns into an acceptance.
- Framer and decoder read chunk sizes differently: the decoder counts every letter as a digit, keeps 32
  bits and expects CRLF where the framer takes a bare LF (`HttpChunkAgreement.LetterInSize`,
  `HttpChunkAgreement.BareLineEnds`; exactly when they agree: `HttpChunkAgreement.SameChunksExactly`).
- The framer takes a Transfer-Encoding value that begins with "chunked" for chunked, the decoder wants
  exactly that word (`HttpChunkedMessages.CodingsDiffer`).
- A BER element that begins with four printable octets is taken for text and awaits a line end
  (`AutoFraming.ElementTakenForText`).
- A status line of more than 79 octets is cut by the encoder's buffer, so that its line end is lost and the
  Content-Length header becomes part of it (`HttpRoundTrip.LongStatus`).
- The chunk loop of the decoder compares the size of a chunk with the size of the whole buffer, not with
  what is left of it, so its copy can read behind the buffer (src/http.c:112-120). The model makes that
  an error.
- `append_term` looks only at the character before, so an escaped backslash at the end of a term or
  in front of an escaped character is misread (`CqlCclTerms.AppendQuoted`, `CqlCclTerms.UnsafeTerm`).
- A negative proximity distance is printed as it is. In CCL the number becomes a term of its own and the
  parser fails (`CqlCclMeaning.NegativeDistance`); in prefix notation the reader wants a digit
  (`CqlPqfMeaning.NegativeDistance`).
- `emit_node` overwrites the error of a rejected term when the clause has valued relation modifiers
  (`CqlPqfMeaning.RejectedTermUnreported`).
- `emit_node` prints the value of a relation modifier without quotes, so a value with a blank becomes two
  operands, an empty one none, and `@and` an operator (`CqlPqfMeaning.ValueMisread`).
- `emit_term` leaves a lone backslash at the end of a term in front of its closing quote, and
  `query_token` takes `@` and a digit for an attribute inside quotes as well
  (`CqlPqfMeaning.TermMisread`).
- A masked term with an escaped backslash before its end, or with an escaped digit behind an asterisk, is
  another mask once it is sent (`PqfTerms.MaskBroken`; exactly when: `PqfTerms.MaskKept`).
- A proximity distance of -1 is how `cql_pr_prox` remembers that there is none, so a distance of -1 in the
  query is replaced by the default (`CqlProximity.PqfProximity`).
- `compare_term` does not compare the last letter of an operator name, so `@ant` is read as `@and`
  (src/pquery.c:51-59).
- `yaz_iconv` without input forgets a character that did not fit and reports only the outcome of the
  flush (`Latin1.SavedCharacterLost`).
- `nmem_malloc` adds size and top in `size_t`; a request near its limit wraps around and is served
  although it does not fit (`NmemSafety.HugeRequestServed`).
- `json_parse_value` has a branch for the end of the text that is never reached, because `strchr` finds
  the terminating NUL among the digits (src/json.c:305-330); the end is a bad number. And an array whose
  elements fail can still be returned; only the error flag makes the parser reject it in the end.
- The pretty printer indents only objects and arrays inside an array, not other values
  (`JsonLayout.PrettyRows`).
- The HTTP decoder drops blanks in front of a header value, so such values come back trimmed.

Where the C code compares octets behind the end of its buffer, the comparison fails in the model.

## Model

| member | source | states |
|---|---|---|
| Framing.StreamFraming | src/comstack.c:444-465 | If a prefix is accepted with length r, then r is at most its length, every prefix shorter than r is incomplete, every longer one gives r, and no other verdict occurs on the stream |
| Framing.VerdictsConsistent | src/comstack.c:444-465 | When the buffer grows, acceptance is final and a rejected buffer is never accepted; up to 8194 octets rejection is final as well (the exact condition is HttpFinality.RejectionFinal) |
| HttpFinality.RejectionFinal | src/comstack.c:444-465 | A rejected buffer of either protocol has an extension that is not rejected if and only if it is an HTTP buffer whose header walk reaches a line that may still become one of the two headers; every BER rejection is final |
| HttpFinality.HttpRejectionFinal | src/comstack.c:380-441 | The same for the HTTP framer alone; the condition implies more than 8194 octets |
| HttpFinality.RevokedIsExposed | src/comstack.c:380-441 | From any position and state of the header loop: what an extension revokes met the condition |
| Framing.ShortTextIsOpen | src/comstack.c:444-455 | Up to five octets of text keep the BER framer waiting, so the later switch to HTTP cannot contradict it |
| Framing.CsCompleteAutoX | src/comstack.c:444-455 | The dispatch computes the verdict function for every buffer |
| AutoFraming.AutoResponse | src/comstack.c:444-455 | Every encoded response followed by anything is framed at its length, at the length of its head if only that is awaited or the code allows no body, and is rejected past the header limit |
| AutoFraming.AutoChunked | src/comstack.c:444-455 | Every message with a line that says "chunked" and no bad length, a chunked body and anything behind it is framed at the end of its body |
| AutoFraming.AutoRequest | src/comstack.c:349-455 | Every other request is complete with as many octets behind its head as its last Content-Length says, none if there is no such line |
| AutoFraming.AutoElement | src/comstack.c:444-455 | Every BER element whose first four octets are not all printable is measured exactly, whatever follows it, and rejected if it is nested too deep |
| AutoFraming.ElementTakenForText | src/comstack.c:444-455 | An element that begins with four printable octets and holds no line end is awaited for ever |
| AutoFraming.TextIsHttp | src/comstack.c:444-455 | A message whose first line begins with four printable octets reaches the HTTP framer |
| HttpMessages.MessageVerdict | src/comstack.c:349-442 | The verdict on every message of a first line, header lines, a blank line and anything behind, from what its lines announce |
| HttpMessages.NotedExactly | src/comstack.c:404-439 | What any header lines announce together: chunked if and only if one says so, the last content length counts, and a bad one is an error |
| HttpMessages.FirstClass | src/comstack.c:361-379 | Which first lines announce a message without a body, and which leave its length open |
| HttpMessages.SizedMessage | src/comstack.c:380-441 | A message with a known length is complete exactly when that many octets are behind its head |
| HttpMessages.UnsizedMessage | src/comstack.c:380-441 | A response that says nothing about its length is never complete |
| HttpMessages.HeadOnlyMessage | src/comstack.c:380-441 | Where only a head is awaited, the message ends with it |
| HttpMessages.LinesWalk | src/comstack.c:380-441 | The header loop over any lines, from any position: it notes what each line says, and ends at the body, at the limit or at a bad length |
| HttpMessages.EncodingSays | src/comstack.c:404-423 | A Transfer-Encoding line says "chunked" if and only if its value begins with that word, in any letter case and behind any blanks |
| HttpMessages.LengthSays | src/comstack.c:424-437 | A Content-Length line with a number says that number, whatever stands behind it, and is bad if the number does not fit an int |
| HttpMessages.NoLengthSaid | src/comstack.c:424-437 | One without a number is bad |
| HttpMessages.OtherSays | src/comstack.c:380-441 | Every other header line says nothing |
| HttpFramer.CompleteHttpStable | src/comstack.c:349-442 | The HTTP verdicts over a growing buffer, including header lines hidden by the look-ahead guards |
| HttpFramer.HeadersStable | src/comstack.c:380-441 | The same for the header loop from any position and any loop state |
| HttpFramer.HiddenVerdict | src/comstack.c:404-439 | A header line the guards hide cannot have led to an acceptance |
| HttpFramer.ChunksStable | src/comstack.c:303-347 | Every non-zero verdict of the chunk walk is final |
| HttpFramer.RejectionNotFinal | src/comstack.c:380-441 | A buffer past the header limit that is rejected, and an extension that is incomplete |
| HttpFramer.CsCompleteHttp | src/comstack.c:349-442 | The method computes the HTTP verdict |
| HttpFramer.HeaderLoop | src/comstack.c:380-441 | The header loop with its content length, chunked flag and header limit |
| HttpFramer.CsReadChunks | src/comstack.c:303-347 | The chunk walk: sizes, extensions, data and trailers |
| HttpFramer.TrailerLoop | src/comstack.c:335-346 | The scan of the trailer section up to the empty line |
| HttpFramer.ClassifyLoop | src/comstack.c:361-379 | Which status lines announce a message without a body |
| HttpFramer.EncodingLoop | src/comstack.c:404-423 | The search for the token "chunked" in a Transfer-Encoding value |
| HttpFramer.LengthField | src/comstack.c:424-437 | The value of a Content-Length line, with its error and waiting cases |
| Atoin.YazAtoul | src/atoin.c:45-70 | The digit loop returns the value of the longest run of digits, or -1 exactly on overflow |
| Atoin.YazAtoi | src/atoin.c:33-43 | The same within a non-negative int |
| Atoin.AtoiStable | src/atoin.c:33-70 | A number that ends inside the buffer keeps its value in every extension; an overflow stays one |
| Atoin.ScanNumeral | src/atoin.c:33-70 | A numeral in front of anything that is no digit is read as a whole |
| BerFramer.AcceptsExactlyElements | src/ber_any.c:48-122 | A verdict r > 0 if and only if the buffer starts with a valid element of r octets nested at most 1000 deep |
| BerFramer.ElementFraming | src/ber_any.c:48-122 | An element followed by anything is measured exactly and every strict prefix of it is incomplete |
| BerFramer.CompleteExact | src/ber_any.c:48-122 | The verdict on any element at any nesting level: its length, or -1 if it is nested too deep |
| BerFramer.CompleteSound | src/ber_any.c:48-122 | From an accepting run, the element that was read |
| BerFramer.CompleteStable | src/ber_any.c:48-122 | Every non-zero verdict, error included, is kept by every extension |
| BerFaults.RejectsExactly | src/ber_any.c:48-122 | The framer rejects a buffer if and only if it begins with a fault: end-of-contents octets, length octets that do not fit, a primitive element of indefinite length, an element below the limit, or one of these inside an indefinite element behind some of its children |
| BerFaults.FaultRejected | src/ber_any.c:48-122 | A fault at any position and level is rejected |
| BerFaults.FaultFound | src/ber_any.c:48-122 | From a rejecting run, the fault that was met |
| BerFramer.DumpAgrees | src/dumpber.c:19-128 | Whatever the dumper accepts, the framer accepts with the same length if indefinite elements are nested within 1000 levels, and rejects otherwise |
| BerDump.DumpsExactlyTrees | src/dumpber.c:19-128 | The dumper accepts a buffer if and only if it begins with an element whose constructed contents are elements again, all the way down, and returns its length |
| BerDump.TreeDumped | src/dumpber.c:19-128 | Such a tree at any position is accepted with its length and the nesting of its indefinite elements |
| BerDump.TreeFound | src/dumpber.c:19-128 | From an accepting run, the tree that was read |
| BerFramer.CompleteBERn | src/ber_any.c:48-122 | The recursive method with its child loop computes the verdict |
| BerFramer.CompleteHead | src/ber_any.c:53-107 | The checks on tag and length in front of the contents |
| BerFramer.DoDumpBER | src/dumpber.c:19-128 | The dumper without its printing computes its verdict |
| BerFramer.DumpChildren | src/dumpber.c:99-127 | Its child loops for definite and indefinite elements |
| BerHeader.TagRoundTrip | src/ber_tag.c:123-188 | Class, form and number come back and exactly the tag's octets are read, whatever surrounds them |
| BerHeader.DecTagExact | src/ber_tag.c:165-188 | Decoding gives class, form and number of any valid identifier octets, shortest or not |
| BerHeader.DecTagSound | src/ber_tag.c:165-188 | What decodes is a valid string of identifier octets |
| BerHeader.DecTagStable | src/ber_tag.c:165-188 | A decoded tag does not change when octets arrive |
| BerHeader.LengthRoundTrip | src/ber_len.c:30-126 | With any width, padded or not: the length comes back if and only if at most four octets are written, and is refused otherwise |
| BerHeader.LengthLimit | src/ber_len.c:30-126 | Without padding those are exactly the lengths below 2^24 |
| BerHeader.DecLenExact | src/ber_len.c:93-126 | Every definite form of a length decodes to it |
| BerHeader.DecLenSound | src/ber_len.c:93-126 | What decodes to a definite length is one of its forms |
| BerHeader.DecLenStable | src/ber_len.c:93-126 | A decoded or refused length does not change when octets arrive |
| BerStream.BerEnctag | src/ber_tag.c:123-158 | Appends the identifier octets, collected low digits first; return code as in the code |
| BerStream.BerDectag | src/ber_tag.c:165-188 | The decoding loop with its 32-bit accumulator |
| BerStream.BerEnclen | src/ber_len.c:30-80 | Writes the length octets, the octet count patched in by seeking back; return code for all cases |
| BerStream.LongLength | src/ber_len.c:54-80 | The long form with its padding |
| BerStream.BerDeclen | src/ber_len.c:93-126 | The decoding loop with all its errors |
| BerStream.CollectDigits | src/ber_tag.c:142-147 | The digits of a number in an array, lowest first, as tag, length and OID encoders collect them |
| BerInteger.IntegerRoundTrip | src/ber_int.c:61-111 | Every 64-bit value comes back and exactly the octets written are read |
| BerInteger.ShortestUnique | src/ber_int.c:61-83 | The contents octets are in the shortest form of section 8.3.2 of X.690; no other octets of that value are, and none are fewer |
| BerInteger.DecodedTwos | src/ber_int.c:88-111 | One to eight contents octets, shortest or not, decode to their two's complement value |
| BerValues.IntegerExactly | src/ber_int.c:88-111 | The decoder reads n octets as the value v if and only if they are length octets of any form and at most eight contents octets whose two's complement value is v; without contents octets the next octet gives the sign |
| BerInteger.BerEncinteger | src/ber_int.c:61-83 | Fills eight octets, drops the redundant ones, writes length and contents |
| BerInteger.BerDecinteger | src/ber_int.c:88-111 | Sign fill and accumulation in 64 bits, and the error cases |
| BerOid.OidRoundTrip | src/ber_oid.c:19-135 | What is written is read in full if and only if there are fewer arcs than max_oid_size; the arcs are the same if and only if the first two are valid |
| BerOid.DecodedValid | src/ber_oid.c:27-88 | Every accepted identifier has a valid root and arcs within an int |
| BerValues.OidExactly | src/ber_oid.c:27-88 | The decoder reads n octets as given arcs if and only if they are length octets of any form and subidentifiers of any form within an int, the first of which joins two arcs with a valid root, and there are fewer arcs than max_oid_size |
| BerOid.BerOidEncode | src/ber_oid.c:89-130 | Dummy length, subidentifiers, patched length; fails exactly for missing or negative first arcs or more than 127 octets |
| BerOid.BerOidDecode | src/ber_oid.c:27-88 | The decoding loops with all error cases |
| MarcRoundTrip.RoundTrip | src/marc_read_iso2709.c:25-214 | Reading a written record consumes all of it and gives its fields and subfields without comments, and the leader with only the two computed numbers changed |
| MarcRoundTrip.RecordParts | src/marcdisp.c:1119-1255 | The record is leader, directory and data, and its length and base address are true |
| MarcRoundTrip.PlanConserves | src/marcdisp.c:1151-1253 | The directory lists the nodes before the cap with their lengths and running offsets, and the data size is the sum of the texts of the second pass |
| MarcRoundTrip.PlanExactly | src/marcdisp.c:1189-1199 | The cap is exact: every field before it leaves room within 99999 octets, and the node that it falls on is a field that does not |
| MarcRoundTrip.PlanBound | src/marcdisp.c:1151-1202 | With widths 4 and 5 and fields of at most 9999 octets the cap holds for any node list |
| MarcRoundTrip.RecordBound | src/marcdisp.c:1119-1255 | Then the record has at most 99999 octets and its first five octets say how many |
| MarcRoundTrip.DirectoryRead | src/marc_read_iso2709.c:67-112 | The reader's first pass finds the end of the directory |
| MarcRoundTrip.FieldsRead | src/marc_read_iso2709.c:119-212 | The reader's second pass restores every field |
| MarcRoundTrip.SubfieldsExact | src/marc_read_iso2709.c:179-191 | The subfield scan cuts the data at the delimiters |
| MarcRoundTrip.SetGoodLeader | src/marcdisp.c:356-430 | A valid leader is taken unchanged, with the lengths it declares |
| MarcDirectory.ReadByDirectory | src/marc_read_iso2709.c:25-214 | Every record with a good leader and directory: fields are read where the directory says, in its order, wherever they lie, up to the first entry that is empty or leads out of the record; with the comments on a wrong base address and on such an entry |
| MarcDirectory.SlotsScanned | src/marc_read_iso2709.c:67-112 | The first pass over any entries ends at the separator |
| MarcDirectory.SlotsRead | src/marc_read_iso2709.c:119-212 | The second pass over any entries |
| MarcReader.LeaderRepaired | src/marcdisp.c:356-430 | Every leader: octets as expected are kept, others are replaced by the assumed ones and commented on, and the layout is that of the repaired leader |
| MarcReader.HiddenData | src/marc_read_iso2709.c:156-191 | Under a control tag, a field with a delimiter behind its indicator is read as a data field; with one more octet in front that octet is dropped |
| MarcReader.ControlRead | src/marc_read_iso2709.c:192-211 | A control field is what is in front of the first separator, with a comment if that comes early or is missing at the end |
| MarcReader.DirectoryScanned | src/marc_read_iso2709.c:67-112 | The first pass stops at the separator, at an entry without digits, or at the end of the record |
| MarcReader.NothingRead | src/marc_read_iso2709.c:36-64 | Without five digits in front that say at least 25 and not more than there is, nothing is read |
| MarcReader.ReturnCode | src/marc_read_iso2709.c:67-112 | With them, the reader consumes the record, unless complete entries go on to its end without a separator |
| MarcReader.LastLeader | src/marcdisp.c:1132-1134 | The writer uses the last leader among the nodes |
| MarcReader.NoLeader | src/marcdisp.c:1132-1137 | Without one nothing is written |
| MarcHandle.Handle.WriteIso2709 | src/marcdisp.c:1119-1255 | The writer's two passes compute the record function |
| MarcHandle.Handle.ReadIso2709 | src/marc_read_iso2709.c:25-214 | The reader leaves exactly the specified nodes in the handle and returns the specified code |
| MarcHandle.Handle.FieldLoop | src/marc_read_iso2709.c:119-212 | The second pass, field by field |
| MarcHandle.Handle.OneField | src/marc_read_iso2709.c:156-211 | One directory entry: identifier flag, control or data field, comments |
| MarcHandle.Handle.OneDatafield | src/marc_read_iso2709.c:170-191 | A data field: indicator, then its subfields |
| MarcHandle.Handle.SubfieldLoop | src/marc_read_iso2709.c:179-191 | The subfields are added to the current data field and to no other node |
| MarcHandle.Handle.AddDatafield | src/marcdisp.c:233-251 | Appends a data field and makes it the current one |
| MarcHandle.Handle.AddSubfield | src/marcdisp.c:316-342 | Appends to the current data field; every other node is unchanged |
| MarcHandle.Handle.AddNode | src/marcdisp.c:149-231 | Appends a leader, control field or comment |
| MarcHandle.PlanLoop | src/marcdisp.c:1151-1202 | The first pass of the writer with its cap |
| MarcHandle.DataLoop | src/marcdisp.c:1226-1252 | The second pass of the writer |
| MarcHandle.DirectoryLoop | src/marc_read_iso2709.c:67-112 | The first pass of the reader |
| HttpRoundTrip.ResponseFraming | src/http.c:616-650 | An encoded response followed by anything is framed at its length, or at that of its head if no body is awaited, if the header block is within 8192 octets, and rejected otherwise |
| HttpRoundTrip.ResponseRoundTrip | src/http.c:470-539 | Version, code, body and headers (one computed Content-Length, then the kept ones in order, values without leading blanks) come back if and only if the code has at most three digits and the status line at most 79 octets |
| HttpRoundTrip.LongStatus | src/http.c:616-626 | A longer status line loses its line end, and the Content-Length header with it |
| HttpRoundTrip.KeptExactly | src/http.c:629-639 | The encoder drops the headers named Content-Length and Transfer-Encoding, in any letter case, and keeps all others in order |
| HttpRoundTrip.DecodeMessage | src/http.c:470-539 | Every message with clean headers is decoded to them, and its body as chunks if and only if one of them says so |
| HttpDecoding.MessageDecoded | src/http.c:470-539 | Every message of a status line, header fields, a blank line and a body, with CRLF or bare LF on each line: version, code and fields come back |
| HttpDecoding.FieldsDecoded | src/http.c:30-74 | The header loop over any fields, from any position, up to the blank line |
| HttpDecoding.FirstDecoded | src/http.c:470-517 | Every status line is decoded to its version and code |
| HttpDecoding.LongCode | src/http.c:490-503 | A code of more than three digits is refused |
| HttpDecoding.FirstLineFeed | src/http.c:470-517 | The status line ends at the first LF of the message |
| HttpChunkedMessages.ChunkedResponse | src/http.c:22-146 | Framer and decoder on every response with a Transfer-Encoding header "chunked" in any letter case, among any other headers: the framer cuts the message at the end of its body, the decoder returns the headers in order and the chunks joined |
| HttpChunkedMessages.ChunkedMessage | src/comstack.c:380-441 | The framer on every message, request or response, in which a line says "chunked" |
| HttpChunkedMessages.OtherCoding | src/comstack.c:404-423 | With any other value the answer is that of the message without this line |
| HttpChunkedMessages.HeaderSays | src/comstack.c:404-423 | The framer takes a header for "chunked" if and only if it is a Transfer-Encoding whose value begins with that word |
| HttpChunkedMessages.ChunkedHeaders | src/http.c:64-68 | The decoder takes headers for chunked if and only if one is a Transfer-Encoding with that word as its value |
| HttpChunkedMessages.CodingsDiffer | src/http.c:64-68 | The two differ on a header if and only if its value goes on behind the word |
| HttpChunks.ChunkedRoundTrip | src/http.c:77-126 | Framer and decoder on any list of non-empty chunks with hexadecimal sizes of any spelling, extensions and trailers: the first ends at the end of the body, the second yields the chunks joined |
| HttpChunks.ChunksFramed | src/comstack.c:303-347 | The framer's walk from any position |
| HttpChunks.ChunksDecoded | src/http.c:77-126 | The decoder's loop from any position and with any content so far |
| HttpChunks.BadSize | src/comstack.c:303-347 | A chunk that does not begin with a size is an error |
| HttpChunks.HugeChunk | src/comstack.c:303-347 | A chunk that would end behind the largest position is an error |
| HttpChunkAgreement.SameChunksExactly | src/http.c:77-126 | For every chunked body that the framer accepts as a whole, the decoder finds the same chunks in the same places if and only if, for every chunk, it computes the same size, its size line has room for one CR and holds no other, and two octets end the data |
| HttpChunkAgreement.CutOffExactly | src/comstack.c:303-347 | The same for every accepted body, whatever follows it, on the message that the framer cuts off; where the two agree the decoder returns the contents of the framer's chunks |
| HttpChunkAgreement.ChunksCut | src/comstack.c:303-347 | The framer accepts the message that it cut off as a whole |
| HttpChunkAgreement.DecodedContents | src/http.c:77-126 | The decoder returns the contents of the chunks it finds, from any position and with any content so far |
| HttpChunkAgreement.SizeModulo | src/http.c:84-99 | The size that the decoder computes is the number of its letters and digits, sixteen for every place, in the 32 bits of a C int |
| HttpChunkAgreement.LetterInSize | src/http.c:84-99 | A body with a letter behind a chunk size that is framed and not decoded |
| HttpChunkAgreement.BareLineEnds | src/http.c:100-120 | A body with bare LF line ends that is framed and not decoded |
| HttpCodec.YazEncodeHttpResponse | src/http.c:616-650 | The encoder with its header loop computes the response text |
| HttpCodec.YazDecodeHttpResponseFirst | src/http.c:470-517 | The status line scanner and its error cases |
| HttpCodec.HeaderLoop | src/http.c:30-74 | The decoder's header loop and its chunked flag |
| HttpCodec.ReadHeader | src/http.c:42-60 | One header line |
| HttpCodec.ChunkLoop | src/http.c:77-126 | The chunk loop with the 32-bit size and its bounds; a copy that would leave the buffer is an error |
| HttpCodec.DecodeHeadersContent | src/http.c:22-146 | Headers and body after the status line |
| CclTokens.Lossless | src/ccltoken.c:58-186 | White space prefixes and names in order spell the input from any position, whatever it is |
| CclTokens.Lex | src/ccltoken.c:58-186 | The last token and only it is the end token, and every other token has a non-empty name |
| CclTokens.CclParserTokenize | src/ccltoken.c:58-186 | The scanning loop computes these tokens and they spell the command |
| CclTokens.OneToken | src/ccltoken.c:89-183 | The switch on the first character of a token |
| CclSpelling.TokenizeExactly | src/ccltoken.c:58-186 | On texts without quotes and backslashes: a list of tokens is the result if and only if it spells the text, each token has a name of its kind, and neighbours keep apart |
| CclSpelling.LexTokens | src/ccltoken.c:58-186 | Well-spaced tokens are found again, from any position |
| CclGrammar.ParsesExactly | src/cclfind.c:588-1300 | The parser returns a tree if and only if the tokens are a query of the grammar (operators from the left, proximity, sets, parentheses, phrases) that stands for that tree |
| CclGrammar.QueryParsed | src/cclfind.c:1280-1300 | Every query of the grammar is parsed to its tree |
| CclGrammar.QualifierExactly | src/cclfind.c:1156-1224 | The look-ahead finds a qualifier if and only if the tokens begin with names separated by commas and a relation |
| CclErrors.ErrorsExactly | src/cclfind.c:588-1300 | The parser reports an error code if and only if the tokens begin with a fault of that kind: no operand, a masked word, a parenthesis that is not closed, a set without a name, a qualifier, or something behind the query |
| CclErrors.SpecReported | src/cclfind.c:1226-1269 | A fault at any depth of parentheses and behind any operators is reported with its code |
| CclErrors.SpecFaultFound | src/cclfind.c:1226-1269 | From a failing run, the fault that was met |
| CclQueries.TermRead | src/cclfind.c:292-359 | A term of bare, quoted and escaped parts in any order is read as what the parts stand for, unless a bare part is masked, which is an error |
| CclQueries.NeatRead | src/cclfind.c:292-359 | A name without quote, backslash, "?" and "#" is read as itself |
| CclQueries.PhraseRead | src/cclfind.c:667-735 | Neat words in a row are one term, with the white space between them |
| CclQueries.TextExactly | src/cclfind.c:588-1300 | From text to tree: the parser makes a tree of a text without quotes and backslashes if and only if the text spells a query that stands for it |
| CclQueries.WordsParsed | src/cclfind.c:1226-1300 | Plain words joined by "and", "or" and "not", a blank between them, are parsed to the left-nested tree of the words; one word alone is its term |
| CclFind.Parser.AppendTerm | src/cclfind.c:292-359 | The copying loop with its quote flag |
| CclFind.Parser.SearchTermXLoop | src/cclfind.c:667-735 | Terms of at most 200 tokens, joined by AND |
| CclFind.Parser.ParseTerms2 | src/cclfind.c:744-770 | Parenthesised query or term |
| CclFind.Parser.ParseTerms | src/cclfind.c:1094-1154 | The proximity loop |
| CclFind.Parser.ParseElements | src/cclfind.c:1156-1224 | Parentheses, sets, unknown qualifiers, terms |
| CclFind.Parser.ParseSpec | src/cclfind.c:1226-1269 | The operator loop: node and next token, or the error code |
| CclFind.Parser.FindTokenList | src/cclfind.c:1280-1300 | The whole token list is a query or an error |
| CqlToCcl.PrTermLoop | src/cql2ccl.c:24-85 | The printing loop with its quote mode computes the text and the stop |
| CqlToCcl.NodeSt | src/cql2ccl.c:87-161 | A clause: whole terms, or words joined by an operator |
| CqlToCcl.ProxModifiers | src/cql2ccl.c:181-216 | The modifier loop of a proximity: unit, distance and order, the last of each kind counts, anything else fails |
| CqlToCcl.OneModifier | src/cql2ccl.c:186-215 | One modifier, with names compared without case and a distance of any sign |
| CqlToCcl.CqlToCclR | src/cql2ccl.c:163-248 | The printed query, and failure if and only if a relation is unsupported, a clause has no term, or a proximity has a modifier that CCL cannot express |
| CqlCclTerms.PrTermIs | src/cql2ccl.c:24-85 | A well-escaped word is printed in quotes with only quotes and backslashes escaped |
| CqlCclTerms.AppendQuoted | src/cclfind.c:292-359 | A quoted term is accepted and comes back as itself if and only if its escaped backslashes are safe |
| CqlCclTerms.UnsafeTerm | src/cclfind.c:292-359 | A term that ends in an escaped backslash does not come back |
| CqlCclRoundTrip.LexTree | src/ccltoken.c:58-186 | The printed text of a tree, inside any text, has the tokens of the tree |
| CqlCclParse.TreeParsed | src/cclfind.c:1226-1269 | Those tokens, inside any token list, are parsed to the tree with its terms as the parser reads them, if no distance is negative |
| CqlCclParse.TreeBroken | src/cclfind.c:1094-1154 | The tokens of a tree with a negative distance, inside any token list, make the parser fail or stop in front of a parenthesis |
| CqlCclParse.QueryRead | src/cclfind.c:1280-1300 | The whole query is parsed to what the parser reads from its terms if no distance is negative, and is an error otherwise |
| CqlCclMeaning.TreeRead | src/cclfind.c:292-359 | What the parser reads from every term of a tree is what CQL means by it exactly under those conditions |
| CqlCclMeaning.QueryPreserved | src/cql2ccl.c:231-248 | Printing, tokenizing and parsing a query gives its boolean tree with the terms as CQL means them if and only if all escaped backslashes are safe, every phrase has at most 200 words and no distance is negative |
| CqlCclMeaning.MeaningHolds | src/cql2ccl.c:163-248 | That tree has the value of the query in every world: "all" as conjunction of words, "any" as disjunction, other relations as phrase, "!" and "%" with the distance as proximity |
| CqlCclMeaning.ValuePreserved | src/cql2ccl.c:231-248 | What the CCL parser makes of a query that meets the conditions has the value of the query |
| CqlCclWildcards.WildcardsPrinted | src/cql2ccl.c:24-85 | A word with wildcards is printed with the wildcards bare and the runs between them in quotes; the CCL parser takes it, as the word itself, if and only if it has no wildcards, since no qualifier allows truncation |
| CqlProximity.CclProximity | src/cql2ccl.c:181-216 | A proximity is printed if and only if CCL knows all its modifiers; the last of each kind counts, and the distances up to the number printed are those that the last distance modifier asks for |
| CqlProximity.PqfProximity | src/cqltransform.c:511-580 | The same for prefix notation: a proximity is printed if and only if all its modifiers are known; relation, distance, order and unit are those of the last modifier of each kind, or the defaults; a distance of -1 counts as none |
| CqlProximity.NumberRead | src/cqltransform.c:511-580 | A distance written in decimal is read as its number, sign included |
| CqlCclMeaning.NegativeDistance | src/cql2ccl.c:196-204 | A proximity with distance less than 0 that is printed and cannot be parsed |
| Pqf.QueryToken | src/pquery.c:61-118 | The tokens of a text, one by one: blanks, quotes and braces, escapes, attributes and operator names |
| Pqf.TokenLoop | src/pquery.c:71-118 | One token and where the next begins |
| PqfPieces.ReadExactly | src/pquery.c:61-118 | For every list of printed operators, plain words, quoted words and words that were not printed: the reader finds each piece as one token if and only if each of them is readable by itself |
| PqfPieces.NeverCaughtUp | src/pquery.c:61-118 | Once a token begins behind the beginning of its piece, the tokens never match the pieces again |
| PqfReading.ReadIsMatch | src/pquery.c:377-691 | A text is read as a given expression if and only if its tokens are the pieces of that expression and its proximity parameters are readable |
| PqfReading.ReadIsFit | src/pquery.c:510-691 | The reader is exact: it returns an expression if and only if the tokens are those of the expression, none missing and none left |
| CqlToPqf.WordListIsRuns | src/cqltransform.c:826-860 | The words found are the runs of non-blanks, with an empty word behind a trailing blank |
| CqlToPqf.EmitWordlist | src/cqltransform.c:826-860 | The loop that holds one word back emits the words with their operators and stops at an error |
| CqlToPqf.EmitTerms | src/cqltransform.c:796-824 | The loop over extra terms emits the same shape |
| CqlToPqf.EmitTerm | src/cqltransform.c:746-792 | The printing loop of a term: escapes, masking, and the quotes it doubles |
| CqlToPqf.EmitSt | src/cqltransform.c:874-943 | A search clause with its valued modifiers, whose outcome overwrites the error of the terms |
| CqlToPqf.PrProx | src/cqltransform.c:511-580 | The modifier loop of a proximity and the six parameters printed |
| CqlToPqf.EmitNode | src/cqltransform.c:862-978 | What is printed and the error reported for every tree, modifier values without quotes |
| CqlPqfMeaning.ReadBackExactly | src/cqltransform.c:862-978 | For every tree emitted without a reported error, the text printed is read back as the expression of the tree if and only if every term was accepted, each printed term, result set name and modifier value is readable, and no distance is negative |
| CqlPqfMeaning.MeaningPreserved | src/cqltransform.c:862-978 | Then what is read has the boolean value of the tree in every world: "all" and plain terms as conjunction, "any" as disjunction, modifiers as proximity |
| CqlPqfMeaning.UnmodifiedExactly | src/cqltransform.c:862-978 | Without valued modifiers, acceptance aside, only a lone backslash, '@' and a digit at the beginning of a term or name, and a negative distance prevent it |
| CqlPqfMeaning.ErrorsReported | src/cqltransform.c:862-978 | An error is reported exactly for the unsupported trees, where acceptance may depend on the clause as well as on the term |
| CqlPqfMeaning.RejectedTermUnreported | src/cqltransform.c:919-943 | A clause with a valued modifier whose term is rejected without a report |
| CqlPqfMeaning.TermReadable | src/cqltransform.c:746-792 | A term that emit_term processes is readable if and only if it does not end in a lone backslash and what is printed does not begin with '@' and a digit |
| PqfTerms.TermKept | src/cqltransform.c:746-792 | Printed without masking and unescaped by the reader, every term is what CQL means by it |
| PqfTerms.MaskKept | src/cqltransform.c:746-792 | With masking, it is the mask that CQL means if and only if it has no escaped backslash before its end and no escaped digit behind an asterisk |
| PqfTerms.MaskBroken | src/cqltransform.c:746-792 | Two terms that become other masks |
| PqfTerms.ShownRead | src/pquery.c:125-186 | What the reader makes of any printed term, from any position |
| PqfTerms.EscapeString | src/pquery.c:125-186 | The unescaping loop computes this text |
| PqfTerms.OneEscape | src/pquery.c:130-184 | One turn of that loop |
| PqfTerms.CodeRead | src/pquery.c:125-186 | An escape of a letter, of two hexadecimal digits or of three octal ones stands for its octet, whatever follows |
| PqfTerms.CutOff | src/pquery.c:147-178 | A numeric escape that is cut off by the end of the text stands for nothing |
| PqfTerms.BracedWord | src/pquery.c:71-118 | A text in braces is one operand, blanks and all |
| CqlPqfMeaning.ValueMisread | src/cqltransform.c:919-943 | Modifier values with a blank, without characters, and like an operator: no error, and not read back |
| CqlPqfMeaning.TermMisread | src/cqltransform.c:746-792 | Terms that end in a lone backslash or begin with '@' and a digit: no error, and not read back |
| CqlPqfMeaning.NegativeDistance | src/cqltransform.c:511-580 | A proximity with distance -2: no error, and not read back |
| CclSplit.SplitDenotesSegmentation | src/cclfind.c:588-665 | Phrases have up to three tokens, two for five or six tokens and one for more; there is a tree exactly if every short phrase can be made; it is true exactly if the tokens can be cut into consecutive matching short phrases; it has at most max(32, n) phrases for n tokens |
| CclSplit.SplitMeaningFrom | src/cclfind.c:588-621 | The same meaning at every position and phrase length of the recursion |
| CclSplit.SplitSizeFrom | src/cclfind.c:588-621 | The exact number of terms in the tree |
| CclSplit.SplitRecur | src/cclfind.c:588-621 | The recursive method with its loop builds this tree |
| CclSplit.TermMultiUse | src/cclfind.c:554-586 | One term for every use attribute, joined by OR |
| CclSplit.SearchTermSplitList | src/cclfind.c:623-659 | The longest run of term tokens is consumed and expanded; none is an error |
| JsonRoundTrip.RoundTrip | src/json.c:503-529 | For every tree without NUL in its strings, compact and pretty text parse to the tree with its numbers as printed if its levels are at most 1000, and fail otherwise |
| JsonRoundTrip.PrintedExactly | src/json.c:569-649 | That is the tree itself if and only if every number is printed as the text it was read from |
| JsonRoundTrip.AcceptedRoundTrip | src/json.c:503-529 | For every accepted text whose strings hold no escaped NUL, the tree printed in any form parses to the same tree with its numbers as printed |
| JsonGrammar.ParsesExactly | src/json.c:182-529 | For every C string: the parser returns a tree if and only if the string is a JSON text of RFC 8259 that stands for it, white space included, and the tree is at most 1000 levels deep |
| JsonGrammar.ValueFits | src/json.c:300-501 | The parser never returns a tree nested deeper than the limit, at any level and even when an error is set |
| JsonGrammar.ValueParsed | src/json.c:300-351 | A value of the grammar anywhere in a text and at any level is read to its end as its tree, or an error is set if it is too deep |
| JsonGrammar.ValueFound | src/json.c:300-501 | From an accepting run, the value of the grammar that was read |
| JsonGrammar.NumRead | src/json.c:229-298 | Every number of the grammar is read to its end |
| JsonGrammar.NumFound | src/json.c:229-298 | Whatever is read as a number is one |
| JsonStrings.Utf8Exact | src/utf8.c:159-217 | The octets written for a code are UTF-8 in its shortest form with that code as payload, and no others are |
| JsonStrings.LiteralRead | src/json.c:124-227 | Every literal of plain octets, one-letter escapes and four hexadecimal digits in either letter case is read to its quote as its value |
| JsonStrings.LiteralMeans | src/json.c:124-180 | That value is the one text that the items stand for, each escape by the table of RFC 8259 or as UTF-8 |
| JsonStrings.LiteralFound | src/json.c:182-227 | Whatever is read up to a quote is such a literal |
| JsonLayout.CompactShortest | src/json.c:656-659 | No text that parses to the tree is shorter than the compact form |
| JsonLayout.LiteralShortest | src/wrbuf.c:337-375 | No literal for the same text is shorter than the one written |
| JsonLayout.PrettyRows | src/json.c:558-654 | The pretty form is the rows of the tree: brackets on rows of their own, in between the parts one level deeper, separated by commas |
| JsonParser.Parser.ParseText | src/json.c:503-529 | The parser computes the parse function and its level is 0 again |
| JsonParser.Parser.ParseValue | src/json.c:300-351 | Value, position and error flag for strings, numbers, objects, arrays and words, with the level restored on every exit |
| JsonParser.Parser.ParseNumber | src/json.c:229-298 | A number: its text and its end, or the error and the position unchanged |
| JsonParser.ScanNumber | src/json.c:229-298 | Sign, integer part, fraction and exponent of the JSON grammar, and what strtod would read on |
| JsonParser.Parser.ParseArray | src/json.c:380-409 | The same for arrays, failed elements included |
| JsonParser.Parser.ParseObject | src/json.c:463-501 | The same for objects, which count a level only when not empty |
| JsonParser.Parser.ParseElements | src/json.c:353-378 | The element loop |
| JsonParser.Parser.ParseMembers | src/json.c:436-461 | The member loop |
| JsonParser.Parser.ElementLoop | src/json.c:362-377 | The elements behind the first, failed ones included |
| JsonParser.Parser.MemberLoop | src/json.c:445-460 | The pairs behind the first |
| JsonParser.Parser.ParsePair | src/json.c:411-434 | Key, colon and value |
| JsonParser.Parser.ParseString | src/json.c:182-227 | Both passes over a string |
| JsonParser.CharsLength | src/json.c:195-211 | The first pass: valid up to a quote, and the number of octets |
| JsonParser.CopyChars | src/json.c:215-224 | The second pass: the octets and the closing quote |
| JsonWriter.Write | src/json.c:569-649 | Appends the text of a node, numbers included; indentation depends on what the buffer ends in |
| JsonWriter.WriteElements | src/json.c:611-621 | A list of elements |
| JsonWriter.WriteMembers | src/json.c:611-630 | A list of pairs |
| JsonWriter.Indent | src/json.c:558-567 | Spaces only at the start of a line |
| JsonWriter.WriteEscaped | src/wrbuf.c:337-375 | Every octet escaped as JSON needs it |
| JsonWriter.Print | src/json.c:651-659 | The compact and the pretty form |
| Latin1.RestartTransparent | src/iconv_encode_iso_8859_1.c:133-210 | For every stream and every sequence of buffer sizes: the octets are the greedy pairwise composition of the stream; an unfinished run has filled every buffer and written the beginning of it |
| Latin1.SameAsUnlimited | src/iconv_encode_iso_8859_1.c:133-210 | Hence the same octets as with one unlimited buffer |
| Latin1.CallsGreedy | src/siconv.c:230-277 | After any calls: written, held back and left over together make up the composition |
| Latin1.WriteCharGreedy | src/iconv_encode_iso_8859_1.c:133-190 | One character, in all cases of room and composition |
| Latin1.FinishExact | src/siconv.c:214-229 | Finishing with a saved character loses nothing if and only if there is room for all that is pending |
| Latin1.SavedCharacterLost | src/siconv.c:214-229 | A character lost while success is reported |
| Latin1.ComposeExactly | src/iconv_encode_iso_8859_1.c:29-98 | Two characters compose to an octet if and only if they are a letter and an accent that ISO-8859-1 has together, and the octet is theirs |
| Latin1.LookupX12 | src/iconv_encode_iso_8859_1.c:119-131 | The first entry that composes the pair |
| Latin1.LookupY | src/iconv_encode_iso_8859_1.c:100-117 | The one pair that composes to an octet, or none if there is none |
| Latin1.Converter.Write | src/iconv_encode_iso_8859_1.c:133-190 | The encoder step on the held character |
| Latin1.Converter.Flush | src/iconv_encode_iso_8859_1.c:192-210 | The held character is written or kept |
| Latin1.Converter.ConvertInput | src/siconv.c:230-277 | The conversion loop: what is written, held and saved |
| Latin1.Converter.FinishOutput | src/siconv.c:214-229 | The saved character, then the flush |
| NmemSafety.RunSafe | src/nmem.c:90-227 | Over every run of legal operations: live allocations aligned, inside a block of exactly one handle, pairwise disjoint; totals equal the live requests; counters equal the sums over what is live; no block below 4096 octets |
| NmemSafety.NewBlockExactly | src/nmem.c:145-167 | In every reachable state a request takes a new block if and only if it does not fit into what is left of the first one |
| NmemSafety.NothingLeaks | src/nmem.c:90-227 | Once every handle is destroyed all counters are zero and nothing is live |
| NmemSafety.StepKeeps | src/nmem.c:90-227 | Every operation keeps the invariant |
| NmemSafety.MallocKeeps | src/nmem.c:145-167 | Allocation keeps it, although the top may pass the size after rounding |
| NmemSafety.TransferKeeps | src/nmem.c:216-227 | Transfer keeps it |
| NmemSafety.TransferredAt | src/nmem.c:216-227 | Transfer puts the blocks in reverse order in front of those that are there |
| NmemSafety.ReleaseKeeps | src/nmem.c:129-143 | Reset and destroy keep it |
| NmemSafety.InsideExactly | src/nmem.c:155-165 | A request of any size that the first block takes lies inside it if and only if size and top do not wrap around |
| NmemSafety.HugeRequestServed | src/nmem.c:155-165 | A request that wraps around and is served although it does not fit |
| NmemRuns.Run | src/nmem.c:90-227 | Every legal run of operations, performed by the methods on an allocator and its handles, ends in what the state machine reaches, and in a state of which RunSafe speaks |
| NmemRuns.Call | src/nmem.c:90-227 | Each operation on the objects is one step of the state machine |
| NmemRuns.CallMalloc | src/nmem.c:145-167 | Allocation: the block and offset returned are those of the state machine's newest allocation |
| NmemRuns.CallDestroy | src/nmem.c:204-214 | Destruction: the counters are large enough to be counted down in every reachable state |
| Nmem.Allocator.Malloc | src/nmem.c:145-167 | The block and offset returned, the new block list, total and counters |
| Nmem.Allocator.GetBlock | src/nmem.c:105-127 | A block of at least 4096 octets, counted |
| Nmem.Allocator.FreeBlock | src/nmem.c:90-100 | One block and its octets less |
| Nmem.Allocator.Reset | src/nmem.c:129-143 | All blocks of the handle are freed and nothing else changes |
| Nmem.Allocator.Create | src/nmem.c:181-202 | A new empty handle, counted |
| Nmem.Allocator.Destroy | src/nmem.c:204-214 | As reset, and one handle less |
| Nmem.Transfer | src/nmem.c:216-227 | All blocks pushed on the other handle, and its total |

## Left out

- Framing: the 32-bit width of buffer positions; buffers are shorter than 2^31 octets, as with the C int.
- Reason phrases: the text for a status code is a parameter of the HTTP encoder.
- HTTP requests: decoding and encoding follow the same loops as responses.
- HttpCodec.ChunkLoop: the copy from behind the buffer that the C code makes is an error here, because what it reads is not part of the input.
- HttpCodec.DecodeHeadersContent: the same for the copy in its chunk loop.
- HTTP decoding: messages that do not consist of lines, such as lines that a NUL octet ends.
- MARC in other syntaxes (line format, MARCXML, turbo MARC, JSON), and character conversion of MARC data; every character is one octet.
- MarcRoundTrip.RoundTrip: indicators hold no separators, and the directory entry does not start with the field separator; the reader would take either for the end of something else.
- CCL qualifiers: the bibset is empty, so relations, truncation and attributes are not modelled.
- CqlToCcl.CqlToCclR: clauses without an index only.
- CqlCclMeaning.QueryPreserved: words hold no wildcards, bare quotes or lone backslashes, because truncation needs a bibset (CqlCclWildcards.WildcardsPrinted says what happens without one) and quotes inside words change how the rest of the query is cut.
- CclSpelling.TokenizeExactly: texts without quotes and backslashes; quoted terms are covered by CqlCclRoundTrip.LexTree and CclQueries.TermRead.
- CQL to prefix notation: attributes; how the attribute mapping treats a term (rejects it, cuts anchors and truncation marks, masks it) is a parameter that may depend on the clause, and so is the number of a proximity unit.
- Prefix notation: reading of attributes, attribute sets and term types, which are errors in the model; of what sscanf accepts in "\\x" and octal escapes, digits only; the kind of a proximity unit is a letter, as it is printed, never a number.
- CQL proximity distances: the width of atoi and strtol.
- CclSplit.TermMultiUse: how a single term node is made; whether it can be made is a parameter.
- JSON numbers: a number is kept as its text; what "%lg" prints for it is a parameter.
- JsonParser.Parser.ParseValue: no substitutions, the list of substituted nodes is empty.
- JSON escapes: of what sscanf accepts after "\u", four hexadecimal digits only; signs, blanks and "0x" are refused.
- Latin1: decoders; the input is a sequence of characters that were read.
- Nmem: null handles, logging, locks, and the wrap-around of totals; live blocks occupy distinct addresses, so their sizes add up to less than 2^64.
- Nmem.Allocator.GetBlock: a block above PTRDIFF_MAX is never returned; xmalloc ends the program.
- BerStream.BerEnctag: tags of 2^28 and more overrun the four-octet array of the C code and are excluded by its contract.
- ODR: memory limits, the PRINT direction, constructed types and the generated ASN.1 codecs.
- MARC-8, ISO 5426, Danmarc and Greek character conversion: code tables.
- Log, event loop, threads, ICU, XML, ZOOM and the client and server programs: wrappers around foreign services.
