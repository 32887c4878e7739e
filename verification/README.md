# Verification of the Rserve protocol code

This project models the parts of Rserve (the C server under `scripts/Rserve/src` and the Java
client beside it) that turn values, packets and byte streams into each other, and proves what the
two sides rely on. `dafny verify dfyconfig.toml` checks all of it.

## What is modelled

**QAP1 expressions.** `Sexps` has one datatype for the R values that travel: a body and an
attribute list, nested to any depth. Three views of the same bytes are related:

- `QapLayout.Stored` says what the C serialiser leaves in memory (`QapEncode` writes it in place
  and patches the headers, after `GetStorageSize` has decided between short and long ones);
  `QapSizes` accounts for the difference between the estimate and the bytes used, and
  `QapExamples` spells out the bytes of a small value of every type;
- `QapImage.Image` is the format itself, independent of who wrote the bytes;
- `QapDecode.DecodeAt` and `JavaParse.ParseAt` are the two readers, total on all byte sequences,
  each with the imperative reader that does the same (`QapDecode.Decode`,
  `JavaParse.REXPFactory.ParseREXP`).

`QapTheorems` and `QapExact` show when the C reader gives back a value, `JavaTheorems` when the
Java reader does, in both cases exactly. `JavaLength`, `JavaImage` and `JavaWrite` show when the
Java serialiser produces the format inside the bytes it announced. `Replies` has the server's send
buffer and says when a value fits it. `Wire` puts the two sides together in both directions, as
lemmas about bytes and as runs of the writing and the reading code.

**WebSocket layer.** `Frames` is the frame grammar of RFC 6455, section 5.2, and `Masks` the masking
of section 5.3, down to the bits.
`WsSocket.Receiver` is the resumable reader over a fixed buffer with its flag word; the wire hands
out its bytes in pieces of any size. What a call delivers is the beginning of what was owed, and
what is left is still owed by buffer, counters and wire (`WsReceive.Pending`). `WsSend.Sender`
cuts a packet into pieces that fit its buffer. `WsRuns.Session` is a whole run: any frames, any
cuts, any requests, with frames that fit the buffer or not.

**Hashes.** `Md5` and `Sha1` have the digests of RFC 1321 and FIPS 180-1 as functions and the
block-buffered contexts as classes; `Blocks` has what the two share. `Md5Vectors` and
`Sha1Vectors` compute the digests of the standards' own examples, one operation at a time.

**Smaller cores.** `Params` (parameter list of a packet, against the headers of `RTalk`),
`HeaderChain` (doubly linked chunks of header lines), `Query` (query strings decoded in one
overwriting pass; `QueryForms` has the queries browsers make of forms), `Pool` (pipe slots),
`Base64`.

## What turned out to be false, and where the line is

- The estimate is not the size. What is estimated without being stored (NULLs, the tags of untagged
  lists, a header and the alignment for every string) and what is stored without being estimated
  are accounted for byte by byte, for every value (`EstimateAccount`); a value without any of it
  takes exactly what is estimated (`EstimateExact`).
- A raw or logical vector of one element is stored in four bytes more than estimated. The total
  overrun is at most four bytes for each (`SizeBound`), and this is reached (`SizeBoundIsTight`).
  Because of it a plain list of at least 1398102 single logicals gets a short header it overflows
  and is not read back, if the expected size is at most 0xfffff0 (`ManyFlagsLost`); that is so up
  to 2097149 of them for the estimate and up to 1677719 for the server's five quarters of it
  (`FlagsExpected`). `RoundTrip` has the exact condition; all values below 16 megabytes meet it
  (`SmallServes`).
- Attributes can be longer than what a cut-off header says of their value. The C reader subtracts
  their length from an unsigned number, which wraps around: vectors of numbers are then refused
  and strings found empty, but an empty list or vector still survives (`EmptyListSurvives`), and
  raw vectors, symbols and empty string vectors come back right with the cursor left in their
  attributes (`RewoundReadBack`, `RawIsRewound`). What the reader does behind such a value nested
  in another depends on the bytes of its attributes; the "only if" of `RoundTrip` is for values
  without one (`Steady`), which are all those whose headers hold their lengths (`ServedIsSteady`).
- The server's margin of a quarter of the estimate is not always enough for those four bytes each:
  `Replies.MarginSuffices` says when it is, whatever the rounding to pages, and a list of single
  logicals fits the buffer of a new connection, or the larger one allocated for it, exactly up to
  174761 of them (`FlagsFit`). `CMD_setBufferSize` allocates the old size and notes the new one,
  so the buffer is as long as its size says exactly if that does not change (`SetBufferSize`).
- If every header of the stored bytes holds its length, both readers are exact (`CToJava`,
  `RoundTripInGeneral`). The Java reader does not return a value together with its end if its
  outermost header does not hold its length, except for an empty string vector with attributes,
  for which it returns the end of these.
- The C reader leaves its cursor in front of an S4 object without attributes, reads closures and
  unknown types as NULL, and otherwise inverts the format (`CReadsExactly`).
- `getBinaryLength` does not count the names of arguments in calls: what it announces falls short
  by at least eight bytes for each of them, at whatever level, and is right exactly if there are
  none (`AnnouncedIsSize`). `getBinaryRepresentation` makes room for one header and writes another
  when a payload is exactly 0xfffff0 bytes, as that of a raw vector of 0xffffec bytes is
  (`LimitReached`); it then needs four bytes more than announced, which the caller
  (RConnection.java:272-282) has not allocated. A value with one of these anywhere in it is not
  found in the bytes written for it, and every other one is (`GetBinaryRepresentation`), with its
  expression vectors written as generic ones (`AsGeneric`).
- The Java reader merges list entries with equal keys, drops attributes of symbols and has no
  complex vectors, closures and character strings outside vectors; on the rest, unknown types
  included, it inverts the format (`JavaReadsExactly`).
- In tagged lists the code stores every value in front of its tag (`StoredTagged`), where the
  comment at Rsrv.h:305 has the tag first.
- The 64-bit frame length is computed right exactly below 2^32 (`ReadLengthExact`); a refill in
  the middle of a frame leaves the right bytes in the buffer exactly when it reads no more than
  it delivers, or delivers nothing of an unmasked frame (`RefillExact`).
- A percent sign swallows a separator that follows it too closely; the single pass over a query
  finds the same pieces as splitting exactly when that does not happen (`OnePassIsExact`). The
  same holds of the names and values that are returned (`ArraysExact`, `Swallowed`), unless the
  last part is empty or a decoded NUL cuts off a name or value; then a swallowed separator can go
  unnoticed, as in `%4&` (`BlankEnd`) and, with nothing empty, in `a%0=x%00=x` (`NulText`).
- `base64decode` promises -1 when the buffer is too small, but gives a truncated result when the
  room is a multiple of three (`Base64.RoundTrip`).
- A string request whose padded text is longer than 0xfffff0 bytes gets a long header over its
  first four bytes; from 2^24 bytes on it is not even sent if its length has to be rounded
  (`RequestString`).
- The method line of an HTTP request is recorded through a null pointer if its first buffer could
  not be allocated (`RecordMethod`).
- Freeing a pipe slot twice makes the count one too low, unless the bound has sunk below it
  (`IoPool.Free`).
- SHA-1 marks an overlong message with the value that also means a null pointer
  (`Sha1.SHA1Context.Input`).

## Model

| member | source | states |
|---|---|---|
| Rsrv.SET_PAR | scripts/Rserve/src/Rsrv.h:104-107 | the type comes back from the word, and the length modulo 2^24 |
| QapEncode.GetStorageSize | scripts/Rserve/src/qap_encode.c:34-122 | the loops compute the estimate, of which EstimateAccount says what it is |
| QapEncode.StoreElement | scripts/Rserve/src/qap_encode.c:264-273 | NA is 0xff NUL, a leading 0xff is doubled, nothing else changes |
| QapEncode.StoreStrings | scripts/Rserve/src/qap_encode.c:256-279 | all elements, padded by 1 so that none is added by the padding |
| QapEncode.StoreLogicals | scripts/Rserve/src/qap_encode.c:234-254 | count, one byte each, padded by 0xff |
| QapEncode.StoreRaw | scripts/Rserve/src/qap_encode.c:222-232 | count and bytes; the padding is left as it was |
| QapEncode.StoreCells | scripts/Rserve/src/qap_encode.c:154-173 | every car, and every tag if some tag is set, one behind the other |
| QapEncode.PatchHeader | scripts/Rserve/src/qap_encode.c:345-351 | the header gets exactly the length behind it, cut to 24 or 56 bits, and keeps the type |
| QapEncode.StoreSexp | scripts/Rserve/src/qap_encode.c:125-367 | leaves the stored form of the whole tree and its end, and changes nothing outside |
| QapLayout.StoredFrame | scripts/Rserve/src/qap_encode.c:125-367 | a stored value depends on its own bytes only |
| QapExamples.StoredInt | scripts/Rserve/src/Rsrv.h:311 | an integer vector has type 32 and little-endian words |
| QapExamples.StoredReal | scripts/Rserve/src/Rsrv.h:312 | a double vector has type 33 and the low half first |
| QapExamples.StoredComplex | scripts/Rserve/src/Rsrv.h:317 | a complex vector has type 38, the real part first |
| QapExamples.StoredRaw | scripts/Rserve/src/Rsrv.h:316 | a raw vector has type 37, the count and the bytes |
| QapExamples.StoredLogicals | scripts/Rserve/src/Rsrv.h:315 | a logical vector has type 36, the count, the bytes 0, 1 and 2 and the padding 255 |
| QapExamples.StoredStrings | scripts/Rserve/src/Rsrv.h:313 | a string vector has type 34, NULs, the escape of NA and the padding 1 |
| QapExamples.StoredSymbol | scripts/Rserve/src/Rsrv.h:303 | a name has type 19 and a NUL |
| QapExamples.StoredText | scripts/Rserve/src/Rsrv.h:293 | a single string has type 3, a NUL and padding by NULs |
| QapExamples.StoredOther | scripts/Rserve/src/Rsrv.h:319 | a value of another type has type 48 and its number |
| QapExamples.StoredEmpty | scripts/Rserve/src/Rsrv.h:298 | an S4 object without slots has type 7 and nothing else |
| QapExamples.StoredNull | scripts/Rserve/src/Rsrv.h:290 | NULL is four zero bytes |
| QapExamples.StoredAround | scripts/Rserve/src/Rsrv.h:300-308 | generic and expression vectors, untagged lists and calls have the types 16, 26, 20 and 22 and the values in them |
| QapExamples.StoredTagged | scripts/Rserve/src/Rsrv.h:305-307 | tagged lists and calls have the types 21 and 23, the value in front of its tag |
| QapExamples.StoredClosure | scripts/Rserve/src/Rsrv.h:302 | a closure has type 18 and its two parts |
| QapExamples.StoredAttribute | scripts/Rserve/src/Rsrv.h:334-335 | attributes set the flag 128 and stand in front of the data |
| QapExamples.StoredLarge | scripts/Rserve/src/Rsrv.h:332-333 | from an expected size of 0xfffff1 bytes on the flag 64 is set and the length has four bytes more |
| QapSizes.SizeBound | scripts/Rserve/src/qap_encode.c:34-122 | no tree takes more than its estimate and four bytes per one-element raw or logical vector in it |
| QapSizes.SizeBoundIsTight | scripts/Rserve/src/qap_encode.c:71-77 | for every n there is a value with n such vectors that takes exactly 4n bytes more |
| QapSizes.EstimateAccount | scripts/Rserve/src/qap_encode.c:34-122 | for every tree: what is stored and what is estimated without being stored (four bytes for a NULL, eight for a tag that is not stored, headers and alignment of strings) is the estimate and four bytes per one-element raw or logical vector |
| QapSizes.EstimateExact | scripts/Rserve/src/qap_encode.c:34-122 | trees of numbers, names, other raw and logical vectors, vectors, closures and tagged lists, attributes included, take exactly what is estimated |
| QapSizes.EstimatesSpelled | scripts/Rserve/src/qap_encode.c:65-101 | the estimates of c(1, 2, 3), a complex number, NULL, a name and two strings, in bytes |
| QapSizes.ListEstimatesSpelled | scripts/Rserve/src/qap_encode.c:42-60 | those of a call, and of c(1, 2, 3) with an attribute |
| QapSizes.SizeAligned | scripts/Rserve/src/qap_encode.c:125-367 | every stored value is a multiple of four bytes long |
| QapTheorems.StoredImage | scripts/Rserve/src/qap_encode.c:125-367 | stored bytes whose headers hold their lengths are in the format |
| QapTheorems.EstimateServes | scripts/Rserve/src/qap_encode.c:146-152 | without one-element raw or logical vectors every header, at every level, holds its length |
| QapTheorems.SkipLaw | scripts/Rserve/src/qap_encode.c:345-351 | skipping by headers alone leads from sibling to sibling and behind the value |
| QapTheorems.SkipIsExact | scripts/Rserve/src/qap_encode.c:345-351 | one header skips its value exactly if it is long or the payload fits 24 bits |
| QapDecode.Decode | scripts/Rserve/src/qap_decode.c:25-300 | the recursive reader with its shared cursor does what DecodeAt says, on any bytes |
| QapDecode.DecodeVector | scripts/Rserve/src/qap_decode.c:175-204 | consing the elements and filling the vector from its end keeps their order |
| QapDecode.DecodePairs | scripts/Rserve/src/qap_decode.c:227-268 | cells in order, each with its tag |
| QapDecode.ReadStrings | scripts/Rserve/src/qap_decode.c:135-166 | counting NULs first and cutting second finds all elements |
| QapImage.ElementReadBack | scripts/Rserve/src/qap_decode.c:147-162 | one escaped string, NA, empty or starting with 0xff, is read as itself |
| QapImage.StringsReadBack | scripts/Rserve/src/qap_decode.c:135-166 | so is every sequence of them, behind which padding adds nothing |
| QapImage.ReadBack | scripts/Rserve/src/qap_decode.c:25-300 | on bytes in the format, whatever follows, the reader returns the value and stops behind it |
| QapImage.ImageFrame | scripts/Rserve/src/Rsrv.h:286-334 | the format speaks of the value's own bytes only |
| QapExact.CReadsExactly | scripts/Rserve/src/qap_decode.c:25-300 | it does so if and only if there is no closure, no unknown type and no bare S4 object at any level |
| QapTheorems.RoundTrip | scripts/Rserve/src/qap_decode.c:25-300 | store, then read: the same tree and the cursor behind it, if it survives; and only if, unless a value is nested in it whose attributes set the cursor back |
| QapTheorems.RewoundReadBack | scripts/Rserve/src/qap_decode.c:55-56 | what such a value comes back as, and where the cursor is left |
| QapTheorems.ServedIsSteady | scripts/Rserve/src/qap_decode.c:55-56 | there is none where all headers hold their lengths |
| QapRewinds.EmptyListSurvives | scripts/Rserve/src/qap_decode.c:175-204 | an empty list with attributes of exactly 2^24 bytes survives, although its header is wrong |
| QapRewinds.RawIsRewound | scripts/Rserve/src/qap_decode.c:168-173 | and an empty raw vector with them is read with the cursor set back |
| QapDecode.CountNegative | scripts/Rserve/src/qap_decode.c:65-129 | a length that wrapped around becomes minus the number of elements that would hold what is missing, which R refuses |
| QapDecode.CountLimits | scripts/Rserve/src/qap_decode.c:65-129 | from 2^31 elements on a count is negative too |
| QapTheorems.RoundTripInGeneral | scripts/Rserve/src/qap_decode.c:25-300 | if all headers hold their lengths, the value comes back if and only if it is readable |
| QapTheorems.SmallServes | scripts/Rserve/src/qap_encode.c:146-152 | below 16 megabytes all headers, at every level, hold their lengths, whatever the expected size |
| QapTheorems.Lost | scripts/Rserve/src/qap_decode.c:175-273 | a value that does not survive never comes back from its own stored bytes, unless it is read without its length, itself or in a part |
| QapTheorems.ManyFlagsLost | scripts/Rserve/src/qap_encode.c:71-77 | a family of plain values that do not survive, for every expected size that gives them a short header |
| QapTheorems.FlagsExpected | scripts/Rserve/src/Rserv.c:3232-3238 | which members of it get a short header, for the estimate and for five quarters of it |
| Replies.MarginSuffices | scripts/Rserve/src/Rserv.c:3232-3255 | a value fits the send buffer if four bytes per one-element raw or logical vector are within a quarter of the estimate and 52 |
| Replies.FlagsFit | scripts/Rserve/src/Rserv.c:3232-3255 | the buffer of a new connection, or the one allocated in its place, suffices for fewer than 174762 single logicals and for no more |
| Replies.SendBuffer.SetBufferSize | scripts/Rserve/src/Rserv.c:2879-2904 | the size is at least 32768; the buffer agrees with it if and only if it was not changed |
| Replies.SendBuffer.SendValue | scripts/Rserve/src/Rserv.c:3232-3316 | when the reply is refused, when the value does not fit, and otherwise one parameter with its exact length and the stored value; no overrun within the margin |
| JavaLength.GetBinaryLength | scripts/Rserve/src/client/java/Rserve/protocol/REXPFactory.java:443-531 | for every value the client can hold it is the length of the format without the names of arguments in calls, at all levels |
| JavaLength.AnnouncedIsSize | scripts/Rserve/src/client/java/Rserve/protocol/REXPFactory.java:479-503 | that is the number of bytes the format takes if and only if there is no such name at any level, and otherwise short by eight bytes or more for each |
| JavaLength.AnnouncedAligned | scripts/Rserve/src/client/java/Rserve/protocol/REXPFactory.java:443-531 | it is always a multiple of four |
| JavaLength.AddElements | scripts/Rserve/src/client/java/Rserve/protocol/REXPFactory.java:479-503 | values and keys add up to the nested values of the format |
| JavaLength.AddStrings | scripts/Rserve/src/client/java/Rserve/protocol/REXPFactory.java:504-526 | the counted length is that of the escaped elements |
| JavaLength.JSizeAligned | scripts/Rserve/src/Rsrv.h:286-334 | so is the number of bytes the format takes |
| JavaLength.AsciiChars | scripts/Rserve/src/client/java/Rserve/protocol/REXPFactory.java:470-474 | ASCII names have as many chars as bytes |
| JavaLength.CharsOfText | scripts/Rserve/src/client/java/Rserve/protocol/REXPFactory.java:470-474 | any text in UTF-8 is counted as its Java string is long, characters above 0xffff twice |
| JavaWrite.ReachIsAnnounced | scripts/Rserve/src/client/java/Rserve/protocol/REXPFactory.java:528-552 | if the nested values are well written, the announced bytes suffice if and only if x is no call with names and its payload is not 0xfffff0 |
| JavaWrite.LimitReached | scripts/Rserve/src/client/java/Rserve/protocol/REXPFactory.java:528-552 | a raw vector with that payload, and what is announced and needed for it |
| JavaWrite.GetBinaryRepresentation | scripts/Rserve/src/client/java/Rserve/protocol/REXPFactory.java:538-656 | for any value the client can hold: its end, its header, and that the bytes are the value if and only if it is well written at all levels and without expression vectors; nothing beyond its reach is touched |
| JavaImage.WrittenWhole | scripts/Rserve/src/client/java/Rserve/protocol/REXPFactory.java:552-655 | the right header and payload are the value, and with one nested value wrong nothing like the value is there |
| JavaImage.LimitNever | scripts/Rserve/src/client/java/Rserve/protocol/REXPFactory.java:528-552 | a payload at the limit is never found behind the header written for it |
| JavaImage.SameTypes | scripts/Rserve/src/client/java/Rserve/protocol/REXPFactory.java:107-108 | bytes that are a value and its generic form have no expression vector in them |
| JavaWrite.PutLogicals | scripts/Rserve/src/client/java/Rserve/protocol/REXPFactory.java:569-581 | count and values, padded up to the next multiple of four |
| JavaParse.PutPlaces | scripts/Rserve/src/client/java/RList.java:248-264 | put replaces the first cell with the key and leaves the others, and appends exactly if there is none |
| JavaParse.REXPFactory.ParseREXP | scripts/Rserve/src/client/java/Rserve/protocol/REXPFactory.java:133-438 | the parser object does what ParseAt says, on any bytes |
| JavaParse.REXPFactory.ParseList | scripts/Rserve/src/client/java/Rserve/protocol/REXPFactory.java:254-277 | values and keys in order, with put |
| JavaParse.FindEnd | scripts/Rserve/src/client/java/Rserve/protocol/REXPFactory.java:383-385 | the first NUL before the end, or an exception when it reads past the buffer |
| JavaTheorems.SameHeader | scripts/Rserve/src/client/java/Rserve/protocol/RTalk.java:142-149 | 32 bits of the length are enough as long as it is an int |
| JavaTheorems.JavaReadsExactly | scripts/Rserve/src/client/java/Rserve/protocol/REXPFactory.java:133-438 | on bytes in the format the parser stops where the value ends, and returns it if and only if Java has it |
| JavaTheorems.OldValues | scripts/Rserve/src/client/java/Rserve/protocol/REXPFactory.java:149-215 | the single values of old servers, types 1, 2, 6 and 35, are read as vectors |
| JavaTheorems.BadValues | scripts/Rserve/src/client/java/Rserve/protocol/REXPFactory.java:160-235 | number vectors cut off within an element end in an exception; complex vectors and closures leave nothing |
| JavaTheorems.NamesSpelled | scripts/Rserve/src/client/java/Rserve/protocol/REXPFactory.java:316-328 | which "names" let a vector be read and which end in an exception |
| JavaTheorems.PutOne | scripts/Rserve/src/client/java/RList.java:248-264 | putting continues the list exactly if the value is right and the key new |
| Wire.CToJava | scripts/Rserve/src/client/java/Rserve/protocol/REXPFactory.java:133-438 | what C stored, Java reads, if and only if Java has it and the outermost header holds its length or it is an empty string vector, provided the nested headers do; never without, otherwise |
| Wire.SmallValuesTravel | scripts/Rserve/src/client/java/Rserve/protocol/REXPFactory.java:133-438 | so every stored value below 16 megabytes is read by C if and only if readable and by Java if and only if Java has it |
| Wire.JavaToC | scripts/Rserve/src/client/java/Rserve/protocol/REXPFactory.java:538-656 | writing a well-written value in Java and reading it in C gives the value and its end if and only if there is no bare S4 object in it |
| Wire.JavaRoundTrip | scripts/Rserve/src/client/java/Rserve/protocol/REXPFactory.java:133-656 | writing and reading it in Java gives the value and its end if and only if Java has it |
| Wire.ServerToClient | scripts/Rserve/src/Rserv.c:3232-3316 | replying and reading in Java, of any length: as CToJava says; and when the reply is sent |
| RTalk.SetHdr | scripts/Rserve/src/client/java/Rserve/protocol/RTalk.java:106-119 | the short or long header word by word, and nothing else |
| Params.NewHdr | scripts/Rserve/src/client/java/Rserve/protocol/RTalk.java:123-127 | the same as a byte sequence |
| Params.ScanParameters | scripts/Rserve/src/Rserv.c:2569-2601 | the loop finds what Scan says from the data offset on, at most 16 entries |
| Params.Inversion | scripts/Rserve/src/Rserv.c:2569-2601 | from any laid-out list, with or without zeros behind it, exactly the visible parameters with their types, lengths and data, in order |
| Params.ReplyFraming | scripts/Rserve/src/Rserv.c:3289-3297 | the server's two header words recombine to every length below 2^56 |
| Params.RequestString | scripts/Rserve/src/client/java/Rserve/protocol/RTalk.java:237-255 | when a request is sent at all, and that it is one padded string parameter and a zero byte if and only if it needs no long header |
| Params.RequestSpelled | scripts/Rserve/src/client/java/Rserve/protocol/RTalk.java:237-255 | the bytes of the request for "x+1", and of a long header |
| Frames.ReadLengthExact | scripts/Rserve/src/websockets.c:657-668 | the computed frame length is right if and only if it is below 2^32 |
| Frames.ReadLengthIs | scripts/Rserve/src/websockets.c:666-667 | what becomes of any 64-bit length that is not rejected |
| Masks.UnmaskTwice | scripts/Rserve/src/websockets.c:53-60 | masking and unmasking with the same key and phase is the identity |
| Masks.XorIsXor | scripts/Rserve/src/websockets.c:56 | a masked byte has a bit 1 exactly where byte and key differ, for all bytes |
| Masks.UnmaskBits | scripts/Rserve/src/websockets.c:53-60 | so has every byte of a payload and its byte of the key, from any phase on |
| Masks.XorDigits | scripts/Rserve/src/websockets.c:56 | the same digit by digit, for any number of binary digits |
| Masks.HelloUnmasked | scripts/Rserve/src/websockets.c:53-60 | the masked payload of RFC 6455, section 5.7, is "Hello" |
| Masks.UnmaskSplit | scripts/Rserve/src/websockets.c:53-60 | a payload may be unmasked in pieces if the phase moves along |
| WsReceive.DeliveryConserves | scripts/Rserve/src/websockets.c:593-608 | handing over buffered bytes moves them from owed to delivered |
| WsReceive.RefillConserves | scripts/Rserve/src/websockets.c:619-631 | so does a refill that reads no more than it delivers, with the key going on where it was |
| WsReceive.RefillExact | scripts/Rserve/src/websockets.c:619-631 | when the refill leaves the right bytes behind, for all contents |
| WsReceive.StartConserves | scripts/Rserve/src/websockets.c:632-724 | so does starting a frame, whether it is buffered completely or not |
| WsSocket.SetMask | scripts/Rserve/src/websockets.h:23-32 | storing the phase changes no other field of the flag word |
| WsSocket.SetType | scripts/Rserve/src/websockets.h:23-32 | nor does storing the frame type |
| WsSocket.DoMask | scripts/Rserve/src/websockets.c:53-60 | every byte becomes the bitwise sum of itself and its byte of the key, in place, from any phase on; the next phase is returned and nothing else changes |
| WsSocket.Receiver.DeliverBuffered | scripts/Rserve/src/websockets.c:593-608 | the first bytes of the buffer, at most the rest of the frame |
| WsSocket.Receiver.DeliverNew | scripts/Rserve/src/websockets.c:619-631 | freshly read bytes, unmasked from the phase on; the buffer is not moved |
| WsSocket.Receiver.StartFrame | scripts/Rserve/src/websockets.c:632-724 | the next frame begins and nothing of the stream is lost |
| WsSocket.Receiver.RecvData | scripts/Rserve/src/websockets.c:593-725 | delivered bytes and what is still owed make up what was owed, for any cuts of the wire and any request, unless a read in mid-frame exceeds the request or the frame; which it does not if all frames fit, or all but the last and the request is long enough |
| WsSocket.Receiver.ReadBody | scripts/Rserve/src/Rserv.c:2544-2548 | the server's loop collects a prefix of the payload stream, also from a last frame that exceeds the buffer |
| WsRuns.Session | scripts/Rserve/src/websockets.c:593-725 | over a whole run, what comes out and what is still owed are the data the client put into frames, until a call reads too much; when none does |
| WsSend.FrameParsed | scripts/Rserve/src/websockets.c:443-454 | an encoded frame contributes exactly its data to the payload stream |
| WsSend.StreamParsed | scripts/Rserve/src/websockets.c:632-724 | so do sequences of frames, masked or not |
| WsSend.FrameExamples | scripts/Rserve/src/websockets.c:443-454 | the examples of RFC 6455, section 5.7: "Hello" unmasked, and masked and back, and the headers of 256 bytes and of 64 KiB |
| WsSend.CommandBits | scripts/Rserve/src/websockets.c:418 | the command bit by bit |
| WsSend.PacketHeaderRead | scripts/Rserve/src/websockets.c:414-422 | the packet header holds the 64-bit length and the command: bit 16 is set unless bit 17 is, and all other bits are those given |
| WsSend.PacketParsed | scripts/Rserve/src/websockets.c:443-456 | the frame of a packet is read as its header and body |
| WsSend.Sender.SendResp | scripts/Rserve/src/websockets.c:409-480 | the writes are together one frame with header and body, or a beginning of it if one falls short; the first byte sent has FIN set, no reserved bits and the opcode of text or binary data (in drafts below 4 theirs), and the second no mask bit |
| WsSend.Sender.SendPieces | scripts/Rserve/src/websockets.c:457-478 | cutting into buffer-sized writes conserves the bytes |
| WsSend.Sender.SendData | scripts/Rserve/src/websockets.c:483-532 | the result is the length given if and only if the frame was sent whole; its first two bytes are as for SendResp |
| Md5.F1IsF | scripts/Rserve/src/md5.c:177-181 | the saved operation computes the F of RFC 1321, section 3.4 |
| Md5.SelectIsAux | scripts/Rserve/src/md5.c:177-181 | the four code functions are F, G, H and I of their rounds |
| Md5.AuxBits | scripts/Rserve/src/md5.c:177-181 | F, G, H and I bit by bit: a choice by x, a choice by z, the parity, and y changed where x or not z holds |
| Md5.Step | scripts/Rserve/src/md5.c:184-185 | one macro step is one operation of section 3.4, the registers changing roles |
| Md5.MD5Context.Transform | scripts/Rserve/src/md5.c:192-274 | the 64 steps are the compression function |
| Md5.Carry | scripts/Rserve/src/md5.c:90-93 | the two words count bits modulo 2^64 |
| Md5.MD5Context.Update | scripts/Rserve/src/md5.c:83-126 | after any update the context holds the fold over the complete blocks, the tail and the bit count of everything fed |
| Md5.MD5Context.Final | scripts/Rserve/src/md5.c:132-172 | the digest of everything fed, by sections 3.1 to 3.5 of RFC 1321 |
| Md5.Md5Hash | scripts/Rserve/src/md5.c:279-289 | the digest of one buffer |
| Md5.HashInParts | scripts/Rserve/src/md5.c:83-172 | the digest does not depend on how a message is cut |
| Md5Vectors.EmptyDigest | scripts/Rserve/src/md5.c:192-274 | the digest of "" is d41d8cd98f00b204e9800998ecf8427e (RFC 1321, appendix A.5) |
| Md5Vectors.AbcDigest | scripts/Rserve/src/md5.c:192-274 | that of "abc" is 900150983cd24fb0d6963f7d28e17f72 |
| Blocks.PaddedTwice | scripts/Rserve/src/md5.c:150-157 | padding through a second block is the padding of the standard |
| Blocks.PaddedOnce | scripts/Rserve/src/md5.c:158-161 | and so is padding within one |
| Sha1.Expand | scripts/Rserve/src/sha1.c:270-284 | the 80 words of a block |
| Sha1.LogicBits | scripts/Rserve/src/sha1.c:292-332 | the logical functions bit by bit: a choice by B, the parity and the majority |
| Sha1.Steps | scripts/Rserve/src/sha1.c:292-332 | twenty turns of one of the four loops, with the expression and the constant it spells out, are twenty steps of the standard |
| Sha1.SHA1Context.ProcessBlock | scripts/Rserve/src/sha1.c:257-341 | the compression function |
| Sha1.SHA1Context.Input | scripts/Rserve/src/sha1.c:186-235 | everything fed is covered; exactly at 2^64 bits the context is corrupted; input after the digest is an error |
| Sha1.SHA1Context.PadMessage | scripts/Rserve/src/sha1.c:367-412 | the fold over the padded message, in both cases |
| Sha1.SHA1Context.Result | scripts/Rserve/src/sha1.c:129-164 | the digest of everything fed, also when asked again, or the error |
| Sha1.Sha1Hash | scripts/Rserve/src/sha1.c:414-420 | the digest of one buffer |
| Sha1.HashInParts | scripts/Rserve/src/sha1.c:186-235 | the digest does not depend on how a message is cut |
| Sha1Vectors.AbcDigest | scripts/Rserve/src/sha1.c:257-341 | the digest of "abc" is a9993e364706816aba3e25717850c26c9cd0d89d (FIPS 180-1, appendix A) |
| Sha1Vectors.LongDigest | scripts/Rserve/src/sha1.c:257-341 | that of the message of two blocks in appendix B is 84983e441c3bd26ebaae4aa1f95129e5e54670f1 |
| HeaderChain.AllocBuffer | scripts/Rserve/src/http.c:99-108 | a new buffer continues the doubly linked chain |
| HeaderChain.Connection.Record | scripts/Rserve/src/http.c:679-704 | a line of any length and a newline are added to the text, split or not; what happens without memory |
| HeaderChain.Connection.RecordMethod | scripts/Rserve/src/http.c:651-666 | the method line is added exactly if there is room and nothing is followed that was not allocated |
| HeaderChain.MethodKeyText | scripts/Rserve/src/http.c:660 | the key is "Request-Method: " |
| HeaderChain.Connection.Collect | scripts/Rserve/src/http.c:111-128 | walking back and copying forward gives the whole text |
| HeaderChain.RecordAndCollect | scripts/Rserve/src/http.c:679-704 | over any lines: exactly the lines in order, each with its newline |
| Query.UriDecodeInPlace | scripts/Rserve/src/http.c:206-227 | the string becomes its decoded form, which is never longer |
| Query.ParseQuery | scripts/Rserve/src/http.c:231-281 | one overwriting pass gives the decoded pieces, as many values as ampersands and one; the meaning of the query if no escape covers a separator, and only then unless NULs or an empty end hide it |
| Query.OnePassIsExact | scripts/Rserve/src/http.c:231-281 | the pass finds the pieces that splitting on & and then on the first = gives, if and only if no escape covers a separator |
| Query.ArraysExact | scripts/Rserve/src/http.c:231-281 | the same of the returned names and values, if nothing is cut off by a NUL and the last part is not empty |
| Query.EntryDiffers | scripts/Rserve/src/http.c:264-276 | which entry is wrong when an escape swallows the first equals sign of a part |
| Query.NulText | scripts/Rserve/src/http.c:264-276 | a query with a swallowed sign that decoded NULs hide |
| Query.WellFormedUndisturbed | scripts/Rserve/src/http.c:264-276 | escapes with two hexadecimal digits never do |
| Query.MeaningCounted | scripts/Rserve/src/http.c:236-243 | there are as many pieces as values allocated |
| Query.Swallowed | scripts/Rserve/src/http.c:264-276 | a query whose two parts come out as one, with both arrays |
| QueryForms.TextDecoded | scripts/Rserve/src/http.c:206-227 | decoding inverts the escaping of every text, in both cases of the digits |
| QueryForms.FormMeans | scripts/Rserve/src/http.c:231-281 | the pieces of the query made of a form's fields are these fields |
| QueryForms.SubmitForm | scripts/Rserve/src/http.c:231-281 | for any fields without NULs, the names and values returned for their query are theirs, in order |
| Pool.IoPool.New | scripts/Rserve/src/rsio.c:75-90 | the lowest free slot, never a live one; fails if and only if socketpair failed or all slots are in use |
| Pool.IoPool.Free | scripts/Rserve/src/rsio.c:101-112 | exactly that slot becomes free; the count and the bound stay right if and only if it was live or is beyond the bound |
| Pool.UsedAll | scripts/Rserve/src/rsio.c:78-80 | a count below the bound means that there is a hole |
| Base64.Base64Encode | scripts/Rserve/src/base64.c:7-17 | the encoding, and a NUL |
| Base64.Alphabet | scripts/Rserve/src/base64.c:4 | the letter of all six-bit values |
| Base64.TestVectors | scripts/Rserve/src/base64.c:7-17 | "foobar", "fooba" and "foob" are encoded as in section 10 of RFC 4648 |
| Base64.Val | scripts/Rserve/src/base64.c:19-32 | the next six bits, skipping what means nothing |
| Base64.Base64Decode | scripts/Rserve/src/base64.c:35-58 | the bytes and the result of Decode, nothing written beyond the room |
| Base64.RoundTrip | scripts/Rserve/src/base64.c:7-58 | decoding any text that is an encoding up to meaningless characters gives the data if and only if there is room for a byte more, or just enough for whole groups; and what it gives otherwise |
| Base64.EncodeReadable | scripts/Rserve/src/base64.c:7-17 | the encoder's own output is such a text |

## Left out

- Sockets, fork, select, pipes, files, signals and TLS: a wire is a sequence of bytes handed out in pieces of any size, a write takes any part of what it is given, and `socketpair` and `malloc` are parameters that say whether they succeed.
- R itself: evaluation, PROTECT and the collector, interning of symbols (aliasing is not modelled; `install` is taken to return the symbol of any name), re-encoding of strings, the object and S4 bits that the reader sets next to the attributes. Doubles are two opaque 32-bit halves, strings are bytes in the current encoding.
- QapDecode.DecodeAt: a memory that ends inside a value and a negative vector length are Malformed; the original reads on, or ends in an error of R. A loop whose cursor stands still is Stuck.
- QapDecode.DecodePairs: the original makes every cell of a call with LCONS, so that the tail of a decoded call is itself a chain of call cells; `Pairs` has one flag for the whole.
- QapTheorems.RoundTrip: says nothing of values that do not survive and have a raw vector, symbol or empty string vector nested in them whose attributes are longer than its header says of the whole.
- QapEncode.StoreRaw: the original adds 3 to a 32-bit length, which overflows for raw vectors of 2^31 - 3 bytes and more; the model rounds up without a limit.
- QapTheorems.Lost: the expected size must not be below the estimate (the server passes one and a quarter of it, Rserv.c:3232-3286), and payloads are below 2^56 bytes.
- Null pointers passed to `storeSEXP`, which are stored as NULL.
- JavaLength.GetBinaryLength: says nothing of values with names that have more UTF-8 bytes than chars where that changes the padded length. A missing key is written as an empty one, so a list with only some keys stands for the value with empty symbols in their place.
- Wire.CToJava: says nothing of values whose outermost header holds its length while that of a nested value of 16 megabytes or more does not.
- JavaParse.ParseAt: the old recursive types (XT_LIST, XT_LANG, XT_SYM, XT_VECTOR_STR), and lengths that are negative or reach beyond 2^31 - 1. A factor is the integer vector it is built from. The charset conversion between Java strings and bytes is not modelled.
- The Java objects themselves: values are `Sexp`s; only the factory object with its fields is a class, and an `RList` is a sequence of cells with the behaviour of `add` and `put`.
- WsSocket.Receiver.RecvData: protocol version 13 only, frames of less than 0x7ffffff0 payload bytes (`at_least` is an int); version 0 framing, the handshake and the meaning of control frames are not modelled.
- Params.ScanParameters: the packet was read completely, and the buffer reaches eight bytes beyond the data offset and the length, as it does for the offset zero that all clients send.
- Params.RequestString: a null string, which ends in an exception, is not modelled.
- Replies.SendBuffer.SendValue: what happens when the value is longer than the buffer is an outcome of its own; running out of memory ends in a refusal, without the second attempt to get the old buffer.
- Md5.MD5Context: byte order is that of little-endian machines, on which `byteReverse` is empty; `md5hash` and `sha1hash` with a negative length are not modelled.
- Sha1.SHA1Context: null pointers; the clearing of the block after the digest is done but not stated.
- HeaderChain.Connection.Record: header lines are parsed further in the original (keys lowercased, a few recognised); only their recording is modelled.
- HeaderChain.Connection: freeing the chain.
- Base64.Base64Encode: for lengths that are no multiple of three the byte behind the data is read; the model asks for it to be there and shows that it does not matter to the decoder.
- Authentication, password files, object capabilities, configuration, the text protocol, session and pool tables of `session.c`, `RSserver.c` and `RSpool.c`, and the other clients: thin, or no harder than what is here.
