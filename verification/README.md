# What is modelled

A verification of the parts of a Lua/Skynet card game server whose correctness
is not visible from any one function: the JSON library it embeds, the wire
format of its JavaScript client, its deep copy, its URL codec, its WebSocket
frames, and the life of a baccarat room with its deck of cards.

| files | subject |
|---|---|
| `Wrappers.dfy`, `Bytes.dfy`, `Lua.dfy` | optional values, byte strings and JavaScript arrays, Lua values |
| `StrBuf.dfy` | the growable byte buffer of Lua CJSON |
| `JsonString.dfy`, `JsonDecode.dfy`, `JsonParse.dfy` | the decoder: as functions of the text, and as the code that moves an index and writes one buffer |
| `JsonText.dfy`, `JsonReads.dfy`, `JsonAccepts.dfy`, `JsonUnicode.dfy` | RFC 4627 documents and every way to write them; what is read of them, and that nothing else is; UTF-16 and UTF-8 |
| `JsonEncode.dfy`, `JsonNesting.dfy` | the encoder on table graphs, and when it succeeds |
| `JsonMirror.dfy`, `JsonRoundTrip.dfy` | what everything that is encoded is read back as; the round trip |
| `SprotoPack.dfy`, `SprotoForm.dfy` | pack and unpack, the zero-byte compressor; the packed form element by element and bit by bit |
| `SprotoCodec.dfy`, `SprotoRoundTrip.dfy` | the tagged wire format, and schema evolution |
| `SprotoWire.dfy`, `SprotoReads.dfy` | the bytes of a message; what any bytes are decoded to |
| `Clone.dfy` | clone of an arbitrary table graph |
| `Strings.dfy` | urlencode, urldecode and split |
| `WebSocket.dfy` | frames and masking |
| `Room.dfy`, `RoomServer.dfy`, `Decks.dfy` | rounds, timers and READY messages; the deck |

`dafny verify dfyconfig.toml` checks everything.

Code that works by updating fields is a class whose methods are proved equal,
step by step, to a function of the old state; the results are then proved of
these functions, over all inputs or all runs. What a format is, is also said
without these functions, byte by byte or bit by bit, and proved of what is
written and of what is read: numbers near integers in JSON, holes and keys of
tables, masks and frames, the URL alphabet, the records of sproto and its packed
segments, the order of the cards.

## Choices of the model

* Bytes and character codes are numbers; masks, shifts and exclusive or are
  written as arithmetic. Sizes of buffers are unbounded integers.
* `strtod` and `printf("%.14g")` are function parameters. Of `strtod` it is
  expected, where that matters, that a JSON number which nothing goes on with
  is read to its end, as a double that depends on its text alone, and that
  integers of 31 bits and a sign are not rounded; this is so in the C locale.
  `printf` is expected to write any double that is written as a JSON number, an
  integer of 31 bits and a sign with its digits and nothing else, and never 32
  bytes. There are functions that do all this
  (`JsonReads.ExpectationsCanBeMet`, `JsonRoundTrip.PrintingCanBeMet`).
  `strtod` stops at a NUL; an end behind one is taken for no number.
  A `double` is a real, an infinity or NaN. The cast of a number outside the
  range of `int` is undefined in C; here such a number is not an integer token,
  and an infinite table key is not an index.
* "Legal" is the grammar of RFC 4627, sections 2.1 to 2.5, for a value; that a
  text is an object or an array is not asked by the code. Bytes from 0x80 on
  count as parts of unescaped characters: neither the code nor the model looks
  at whether they are UTF-8. The decoder reads more than is legal: raw control
  characters in strings, whatever `strtod` takes for a number where one may
  stand, and anything behind a NUL. The results say exactly what is read
  (`JsonAccepts.DecodesExactly`) and which strings of it are legal.
* Lua tables are finite maps or sequences of entries in the order of
  `lua_next`, referred to by number in an explicit heap, so that cycles and
  sharing exist. The room on the Lua stack is a number of free slots.
* A JavaScript array is a finite map from its indices; an element that was
  never written, or was written with `undefined`, is a hole. `pack` takes a hole
  for a byte that is not 0, because `undefined != 0`; a DataView stores it as 0.
  The array that `sproto.encode` returns has holes exactly if there is less data
  than room reserved for records that were not needed.
* Integers from 0x7fff on make `sproto_encode` throw, because line 779
  names a variable that does not exist; a search in `findtag` that does not
  round its middle (line 408) throws for the index between two fields. Both are
  modelled as they are; `floored` says whether the middle is rounded, so that
  the results also cover the search as line 448 writes it.
* import_type accepts two fields with the same tag (line 205 tests for less);
  the format has no way to tell them apart, and the results are about strictly
  increasing tags, up to the largest that the bundle format can hold.
* A READY message counts however often the same player sends it, as in the
  code.
* The timers of the game are those of the shipped configuration: none while a
  round waits, and a positive time-out in every other status. The number of
  players and of rounds is arbitrary. The cards of a round are a matter of
  `Decks.dfy` alone. Broadcasts and replies are not modelled.
* The comment on `Decks:draw` promises a card as long as there are any. The
  index it computes may be 0, which gives nil once: the promise holds exactly
  once slot 0 is filled. The slot 0 is a part of the model.
* RFC 6455 asks for the shortest form of a length; the sender takes the long
  one for 65535 bytes (line 122 tests for less than 0xFFFF). A 64-bit length
  with its top bit set, which the standard forbids, is read as a negative
  number, and the frame as one without a payload.

## Model

| member | source | states |
|---|---|---|
| `StrBuf.Grown` | cloud/lualib-src/lua-cjson/strbuf.c:149-153 | the new size is at least the requested one, and at least twice the old if that was too small |
| `StrBuf.GrownIsTight` | cloud/lualib-src/lua-cjson/strbuf.c:149-153 | growth never overshoots the request by a whole factor |
| `StrBuf.GrownIsPower` | cloud/lualib-src/lua-cjson/strbuf.c:149-153 | the new size is the old one times a power of the increment, the first that is enough |
| `StrBuf.StrBuf.constructor` | cloud/lualib-src/lua-cjson/strbuf.c:44-82 | a new buffer is empty, has room for the terminator, takes 1023 bytes for lengths up to 0, and doubles when it grows |
| `StrBuf.StrBuf.CalculateNewSize` | cloud/lualib-src/lua-cjson/strbuf.c:134-159 | shrinks to the exact size or multiplies by the increment until the string and its terminator fit |
| `StrBuf.StrBuf.Resize` | cloud/lualib-src/lua-cjson/strbuf.c:164-180 | the contents survive every reallocation, and size stays at least initial * 2^reallocs when it grows |
| `StrBuf.StrBuf.EnsureEmptyLength` | cloud/lualib-src/lua-cjson/strbuf.h:93-97 | afterwards there is the room asked for; nothing is reallocated if there was |
| `StrBuf.StrBuf.AppendChar` | cloud/lualib-src/lua-cjson/strbuf.h:104-108 | refines appending one byte |
| `StrBuf.StrBuf.AppendCharUnsafe` | cloud/lualib-src/lua-cjson/strbuf.h:110-113 | appends one byte without reallocating, provided that the terminator still fits |
| `StrBuf.StrBuf.AppendMem` | cloud/lualib-src/lua-cjson/strbuf.h:115-120 | refines appending a string |
| `StrBuf.StrBuf.AppendMemUnsafe` | cloud/lualib-src/lua-cjson/strbuf.h:122-126 | appends a string without reallocating, provided that it fits |
| `StrBuf.StrBuf.AppendString` | cloud/lualib-src/lua-cjson/strbuf.c:182-198 | refines appending a C string, and does not reallocate if there was room for all of it |
| `StrBuf.StrBuf.AppendFmt` | cloud/lualib-src/lua-cjson/strbuf.c:202-217 | appends what was printed, if it is as short as promised |
| `StrBuf.StrBuf.EnsureNull` | cloud/lualib-src/lua-cjson/strbuf.h:128-131 | the terminator lies inside the buffer and behind the contents |
| `JsonString.HexDigits` | cloud/lualib-src/lua-cjson/lua_cjson.c:723-734 | setting bit 5 accepts exactly the hexadecimal digits of both cases |
| `JsonString.DecodeHex4` | cloud/lualib-src/lua-cjson/lua_cjson.c:736-755 | nothing behind a NUL is read, and four digits do not include it |
| `JsonString.Utf8OfScalar` | cloud/lualib-src/lua-cjson/lua_cjson.c:759-792 | every scalar value becomes the well-formed UTF-8 character (RFC 3629 section 4) that stands for it |
| `JsonString.Utf8IsUnique` | cloud/lualib-src/lua-cjson/lua_cjson.c:759-792 | well-formed characters stand for scalar values only, and no two for the same |
| `JsonString.UnicodeEscape` | cloud/lualib-src/lua-cjson/lua_cjson.c:803-859 | an escape is longer than the UTF-8 it becomes, and ends before the NUL |
| `JsonString.LexString` | cloud/lualib-src/lua-cjson/lua_cjson.c:869-924 | a string token is longer than the string it decodes to; lexing stays inside the text |
| `JsonDecode.NextToken` | cloud/lualib-src/lua-cjson/lua_cjson.c:1008-1080 | every token but errors and the end takes up text, which is why decoding ends |
| `JsonParse.SurrogateBits` | cloud/lualib-src/lua-cjson/lua_cjson.c:822-849 | the tests on single bits are the surrogate ranges |
| `JsonParse.Parser.DecodeHex` | cloud/lualib-src/lua-cjson/lua_cjson.c:736-755 | the loop over an array of digits computes the value, reading no byte past the NUL |
| `JsonParse.Parser.AppendUnicodeEscape` | cloud/lualib-src/lua-cjson/lua_cjson.c:803-859 | appends the UTF-8 without a check and advances over the escape; on failure nothing has changed |
| `JsonParse.Parser.NextCharacter` | cloud/lualib-src/lua-cjson/lua_cjson.c:884-916 | one turn of the loop appends no more bytes than it consumes |
| `JsonParse.Parser.NextStringToken` | cloud/lualib-src/lua-cjson/lua_cjson.c:869-924 | all unchecked appends and the final NUL store lie inside the buffer of the size of the text |
| `JsonParse.Parser.NextNumberToken` | cloud/lualib-src/lua-cjson/lua_cjson.c:978-1002 | the index moves to where strtod stopped, or stays at the error |
| `JsonParse.Parser.NextToken` | cloud/lualib-src/lua-cjson/lua_cjson.c:1008-1080 | the code that moves the index is the tokenizer as a function of the text |
| `JsonParse.Parser.ParseObject` | cloud/lualib-src/lua-cjson/lua_cjson.c:1114-1159 | the loop is the grammar of objects; the buffer is freed exactly if it fails |
| `JsonParse.Parser.ParseArray` | cloud/lualib-src/lua-cjson/lua_cjson.c:1162-1193 | the loop is the grammar of arrays; the buffer is freed exactly if it fails |
| `JsonParse.Parser.ProcessValue` | cloud/lualib-src/lua-cjson/lua_cjson.c:1196-1226 | the switch is the value context of the grammar |
| `JsonParse.Decode` | cloud/lualib-src/lua-cjson/lua_cjson.c:1229-1275 | the whole run, with one buffer that is never enlarged, is the decoder as a function |
| `JsonReads.ReadsSpelling` | cloud/lualib-src/lua-cjson/lua_cjson.c:884-916 | each spelling of a character (RFC 4627 section 2.5, and raw control characters) is read back as that character |
| `JsonReads.ReadsChars` | cloud/lualib-src/lua-cjson/lua_cjson.c:869-924 | a string in any mixture of spellings is read back as what it spells |
| `JsonDecode.TakesExactly` | cloud/lualib-src/lua-cjson/lua_cjson.c:1042-1075 | numbers are looked for exactly where the strict test, or its opposite in the other mode, lets them |
| `JsonDecode.NumbersStart` | cloud/lualib-src/lua-cjson/lua_cjson.c:941-1075 | where numbers are looked for: in strict mode at a digit or a minus sign without a leading zero, hexadecimal digits, inf or nan; otherwise at any digit or sign, inf or nan |
| `JsonReads.ExpectationsCanBeMet` | cloud/lualib-src/lua-cjson/lua_cjson.c:987-995 | what is expected of strtod can be met |
| `JsonReads.JsonNumberIsTaken` | cloud/lualib-src/lua-cjson/lua_cjson.c:941-976 | every number of RFC 4627 section 2.4, fractions and exponents included, passes the strict test, and is looked for in both modes |
| `JsonReads.NumberTokenAt` | cloud/lualib-src/lua-cjson/lua_cjson.c:978-1002 | a number, where one is looked for, is the text that strtod takes in this place |
| `JsonText.NumberMeaningIs` | cloud/lualib-src/lua-cjson/lua_cjson.c:985-995 | what lies less than a billionth beyond an integer of 32 bits, away from 0, means that integer, and every other number means itself |
| `JsonReads.TokenMeans` | cloud/lualib-src/lua-cjson/lua_cjson.c:985-995 | the token that the code makes of a number is what it means |
| `JsonReads.ReadsItems` | cloud/lualib-src/lua-cjson/lua_cjson.c:1162-1193 | arrays are read with any blanks around their items, to the table from 1 on; too many levels are refused |
| `JsonReads.ReadsMembers` | cloud/lualib-src/lua-cjson/lua_cjson.c:1114-1159 | objects are read with any blanks; the last of members with the same name counts; too many levels are refused |
| `JsonReads.ReadsRendering` | cloud/lualib-src/lua-cjson/lua_cjson.c:1229-1275 | every rendering of a value that may be read decodes to it, exactly if the Lua stack has room; what follows a NUL is ignored |
| `JsonText.FitsExactly` | cloud/lualib-src/lua-cjson/lua_cjson.c:1105-1193 | how many slots of the Lua stack a document takes: an array itself and an item, an object itself, a key and a value, level by level |
| `JsonReads.RefusesStart` | cloud/lualib-src/lua-cjson/lua_cjson.c:1196-1226 | where a value is missing, the error names what is there instead, and where |
| `JsonReads.RefusesTrailing` | cloud/lualib-src/lua-cjson/lua_cjson.c:1246-1250 | what follows a value is refused, and the error names what it is, and where |
| `JsonReads.WholeExactly` | cloud/lualib-src/lua-cjson/lua_cjson.c:1026-1028 | a rendering is the whole of the text exactly if there is no NUL in the text |
| `JsonReads.LegalStands` | cloud/lualib-src/lua-cjson/lua_cjson.c:1008-1080 | a value that RFC 4627 allows is read as such wherever it stands, its numbers included |
| `JsonReads.DecodesEveryRendering` | cloud/lualib-src/lua-cjson/lua_cjson.c:1229-1275 | every rendering of a value that RFC 4627 allows, with any numbers, decodes to it, exactly if the Lua stack has room |
| `JsonReads.EscapeTable` | cloud/lualib-src/lua-cjson/lua_cjson.c:411-422 | the decoding table is that of RFC 4627 section 2.5, letter by letter: every other letter is refused |
| `JsonAccepts.AcceptedString` | cloud/lualib-src/lua-cjson/lua_cjson.c:869-924 | a string that is accepted is a run of spellings, and decodes to what it spells |
| `JsonAccepts.AcceptedIsLegalExactly` | cloud/lualib-src/lua-cjson/lua_cjson.c:869-924 | a string that is accepted is one of RFC 4627 section 2.5 exactly if every byte below 0x20 is escaped |
| `JsonAccepts.ControlCharacterIsAccepted` | cloud/lualib-src/lua-cjson/lua_cjson.c:884-916 | the byte 1 between quotes is accepted, and no legal string has this text |
| `JsonAccepts.AcceptedValue` | cloud/lualib-src/lua-cjson/lua_cjson.c:1114-1226 | a value that is accepted is the text of a document of that value in this place, with numbers that strtod takes there and the strict test lets through |
| `JsonAccepts.AcceptsOnlyRenderings` | cloud/lualib-src/lua-cjson/lua_cjson.c:1229-1275 | what decodes to a value is a rendering of it; the whole text is, exactly if there is no NUL in it |
| `JsonAccepts.DecodesExactly` | cloud/lualib-src/lua-cjson/lua_cjson.c:1229-1275 | both directions: a text decodes to a value exactly if it does not look like UTF-16 and is, up to a NUL, a rendering of the value that the Lua stack has room for |
| `JsonAccepts.DecodesNumber` | cloud/lualib-src/lua-cjson/lua_cjson.c:978-1002 | a text that decodes to a number is one that strtod reads; the number is within a billionth of what strtod gives, and that itself unless it is the integer which that lies just beyond |
| `JsonAccepts.RefusesUtf16Exactly` | cloud/lualib-src/lua-cjson/lua_cjson.c:1263-1270 | taken for UTF-16 or UTF-32 is exactly a text with a NUL among its first two bytes |
| `JsonUnicode.Utf16RoundTrip` | cloud/lualib-src/lua-cjson/lua_cjson.c:815-849 | UTF-16 of a scalar value, decoded as RFC 2781 section 2.2 says, is that value |
| `JsonUnicode.EscapeIsUtf16` | cloud/lualib-src/lua-cjson/lua_cjson.c:803-859 | escapes are accepted exactly if they begin with a character of UTF-16, and become its well-formed UTF-8; lone and inverted surrogates are refused |
| `JsonUnicode.EscapeOfScalar` | cloud/lualib-src/lua-cjson/lua_cjson.c:803-859 | the escaped form of every scalar value means its UTF-8 |
| `JsonUnicode.DecodesEscapedText` | cloud/lualib-src/lua-cjson/lua_cjson.c:869-924 | a text of escapes only, in either case of the digits, decodes to its UTF-8 |
| `JsonEncode.ArrayLength` | cloud/lualib-src/lua-cjson/lua_cjson.c:498-539 | finds an array exactly if every key is an index, and how large, unless it is excessively sparse |
| `JsonEncode.ShapeIs` | cloud/lualib-src/lua-cjson/lua_cjson.c:498-539 | keys that are positive integers make an array as long as the largest, unless there are more than encode_sparse_array's ratio of places for each item, and more than its safe number in all |
| `JsonEncode.OtherKeysMakeObjects` | cloud/lualib-src/lua-cjson/lua_cjson.c:508-526 | any key that is not a positive integer makes an object |
| `JsonEncode.ScalarsAreWritten` | cloud/lualib-src/lua-cjson/lua_cjson.c:585-685 | what is written of each value that is no table, or why it is refused |
| `JsonEncode.SpellStep` | cloud/lualib-src/lua-cjson/lua_cjson.c:136-173 | no byte takes more than six characters |
| `JsonEncode.EscapesExactly` | cloud/lualib-src/lua-cjson/lua_cjson.c:136-173 | escaped are exactly the control characters, the quote, the two slashes and DEL; in two characters exactly if the standard has a form for it, and otherwise with lower-case digits |
| `JsonEncode.StringsArePrintable` | cloud/lualib-src/lua-cjson/lua_cjson.c:468-492 | no control character gets into the text of a string |
| `JsonEncode.Encoder.AppendString` | cloud/lualib-src/lua-cjson/lua_cjson.c:468-492 | the one reservation of 6*len+2 covers all its unchecked appends: the buffer is not moved again |
| `JsonEncode.Encoder.EncodeDescend` | cloud/lualib-src/lua-cjson/lua_cjson.c:541-551 | counts the depth, and refuses beyond the limit |
| `JsonEncode.Encoder.AppendNumber` | cloud/lualib-src/lua-cjson/lua_cjson.c:585-599 | appends what printf gives, for which the 32 bytes reserved are enough, or refuses NaN and the infinities |
| `JsonEncode.Encoder.AppendKey` | cloud/lualib-src/lua-cjson/lua_cjson.c:618-637 | number keys are quoted, strings escaped, all others refused |
| `JsonEncode.Encoder.AppendArray` | cloud/lualib-src/lua-cjson/lua_cjson.c:559-583 | appends the items with separators, and comes back to its depth |
| `JsonEncode.Encoder.AppendObject` | cloud/lualib-src/lua-cjson/lua_cjson.c:601-644 | appends the members in the order of lua_next, and comes back to its depth |
| `JsonEncode.Encoder.AppendData` | cloud/lualib-src/lua-cjson/lua_cjson.c:647-685 | ends on every graph, cyclic ones included; on success exactly the text was appended and current_depth is what it was |
| `JsonEncode.Encoder.Encode` | cloud/lualib-src/lua-cjson/lua_cjson.c:687-716 | what an earlier call left in the persistent buffer does not show; after a success and after an error, it is freed exactly if it is not kept |
| `JsonNesting.RawGetFinds` | cloud/lualib-src/lua-cjson/lua_cjson.c:559-583 | an index gives the value with this key, and nil if there is none |
| `JsonNesting.KeysWritable` | cloud/lualib-src/lua-cjson/lua_cjson.c:620-633 | keys are strings, and numbers that may be written; all others are refused |
| `JsonNesting.SucceedsExactly` | cloud/lualib-src/lua-cjson/lua_cjson.c:541-685 | encoding succeeds exactly if no path through tables is longer than the depth left and every table on a path can be written |
| `JsonNesting.NestingDecides` | cloud/lualib-src/lua-cjson/lua_cjson.c:541-551 | in the absence of other errors it fails exactly for a path longer than encode_max_depth, and with that error |
| `JsonNesting.CyclesAreRefused` | cloud/lualib-src/lua-cjson/lua_cjson.c:541-551 | a value that reaches a cycle is refused, whatever the depth allowed |
| `JsonRoundTrip.Digits` | cloud/lualib-src/lua-cjson/lua_cjson.c:585-599 | decimal digits are canonical and have the value they came from |
| `JsonMirror.SpellMeans` | cloud/lualib-src/lua-cjson/lua_cjson.c:136-173 | what the encoding table writes for a byte string is legal and means that string |
| `JsonMirror.KeyIsString` | cloud/lualib-src/lua-cjson/lua_cjson.c:620-633 | a key is written as a string with a colon: its own characters, or the digits of a number, in quotes |
| `JsonMirror.ValueDoc` | cloud/lualib-src/lua-cjson/lua_cjson.c:559-685 | what is encoded is the text of a document that mirrors the value: null for every hole, each key as a string, each number as printf writes it, within the levels allowed |
| `JsonMirror.MirrorIsLegal` | cloud/lualib-src/lua-cjson/lua_cjson.c:559-685 | a document that mirrors a value is legal by RFC 4627 |
| `JsonMirror.MirrorMeans` | cloud/lualib-src/lua-cjson/lua_cjson.c:559-1002 | a document that mirrors a value means what the value denotes: null for holes, string keys for number keys, for each number what strtod makes of what printf made of it |
| `JsonMirror.DenotesOne` | cloud/lualib-src/lua-cjson/lua_cjson.c:559-685 | a value denotes one tree only |
| `JsonMirror.DecodesEveryEncoding` | cloud/lualib-src/lua-cjson/lua_cjson.c:559-1253 | whatever is encoded is decoded to what it denotes: sparse arrays, number keys and all numbers included, for every configuration and order of the entries |
| `JsonMirror.EncodedIsTextual` | cloud/lualib-src/lua-cjson/lua_cjson.c:585-644 | as long as NaN and the infinities are refused, that is so of everything that is encoded |
| `JsonRoundTrip.DenseShape` | cloud/lualib-src/lua-cjson/lua_cjson.c:526-536 | no setting takes a dense array for a sparse one |
| `JsonRoundTrip.DecodesWhatWasEncoded` | cloud/lualib-src/lua-cjson/lua_cjson.c:559-1253 | encoding a value that is a tree succeeds, and decoding the text gives that tree: null, booleans, integers, byte strings, dense arrays, objects, within the depth limit |
| `JsonRoundTrip.PrintingCanBeMet` | cloud/lualib-src/lua-cjson/lua_cjson.c:585-599 | what is expected of printf and strtod can be met |
| `SprotoPack.Packer.WriteFf` | test/api/protocal/sproto.js:952-963 | a deferred run is written over exactly the bytes reserved for it, padded to whole segments |
| `SprotoPack.Packer.PackSeg` | test/api/protocal/sproto.js:964-999 | one segment as a header and its elements that are not 0, holes among them, or as a part of a run, where seven or eight of them join |
| `SprotoPack.Packer.PackNext` | test/api/protocal/sproto.js:1000-1038 | what each turn of the loop keeps: the packed chunks so far, and the space reserved for the open run |
| `SprotoPack.Packer.Pack` | test/api/protocal/sproto.js:939-1049 | of any array, holes included, the packed form is sent, up to the capacity of 2^30; the size is always right |
| `SprotoPack.HeaderBits` | test/api/protocal/sproto.js:964-980 | the header has a bit for each non-zero byte of its segment |
| `SprotoPack.ExpandInverts` | test/api/protocal/sproto.js:1084-1108 | a header and what was sent of its elements expand to the segment they came from |
| `SprotoPack.RunStops` | test/api/protocal/sproto.js:1016-1038 | a run ends at 256 segments, at the end, or at a segment that does not join it |
| `SprotoPack.UnpackChunk` | test/api/protocal/sproto.js:1050-1112 | unpacking takes back one chunk of packing |
| `SprotoPack.Unpacker.CopyRun` | test/api/protocal/sproto.js:1064-1083 | the bytes of a run are copied as they are |
| `SprotoPack.Unpacker.ExpandSegment` | test/api/protocal/sproto.js:1084-1108 | the bits of the header tell zeros from bytes of the source |
| `SprotoPack.Unpacker.Unpack` | test/api/protocal/sproto.js:1050-1112 | the loop is unpacking as a function, its failures included |
| `SprotoPack.RoundTrip` | test/api/protocal/sproto.js:939-1112 | unpack(pack(x)) is x with zeros for its holes, followed by zeros to the next multiple of 8, for every array x |
| `SprotoPack.RoundTripOfBytes` | test/api/protocal/sproto.js:939-1112 | of an array without holes also when nothing is sent in between |
| `SprotoPack.PackedElements` | test/api/protocal/sproto.js:964-999 | the packed form of bytes and holes are bytes and holes, and of bytes bytes |
| `SprotoPack.UnpackedIsBytes` | test/api/protocal/sproto.js:1050-1112 | unpacking bytes gives bytes |
| `SprotoPack.PackedSize` | test/api/protocal/sproto.js:964-1049 | the two bytes of a run are paid for by the segment that breaks it or by its 256 segments |
| `SprotoPack.PackedSizeOfInput` | test/api/protocal/sproto.js:964-1049 | n bytes pack to at most 8*ceil(n/8) + 2*ceil(n/2048) |
| `SprotoPack.Transmit` | test/api/protocal/sproto.js:939-1112 | packing, sending and unpacking as they run: the array arrives as a DataView stores it, and zeros |
| `SprotoForm.NonZeroExactly` | test/api/protocal/sproto.js:964-980 | what is kept of a segment is its elements that are not 0, in their order, and nothing else is |
| `SprotoForm.HeadedExactly` | test/api/protocal/sproto.js:964-999 | a segment with a header: the lowest bit for the first element |
| `SprotoForm.PackedExactly` | test/api/protocal/sproto.js:939-1049 | the packed form is this one and no other: a segment without zeros opens a run, which goes on over segments with at most two zeros up to 256 of them; other segments have headers |
| `SprotoForm.PackIs` | test/api/protocal/sproto.js:939-1049 | pack, for any array: that form of the array with zeros to the next multiple of 8 |
| `SprotoForm.UnpackIs` | test/api/protocal/sproto.js:1050-1112 | unpack, for any bytes: a run is as many bytes as its count says, a header selects bytes bit by bit; and what comes of an input that is too short, wherever it ends |
| `SprotoCodec.ImportType` | test/api/protocal/sproto.js:191-218 | maxn counts the fields and the gaps between their tags; the schema is refused exactly if a tag decreases |
| `SprotoCodec.BaseMeansContiguous` | test/api/protocal/sproto.js:213-218 | base is set exactly for tags without gaps |
| `SprotoCodec.FindTag` | test/api/protocal/sproto.js:396-421 | the search finds the field with the tag, none, or throws, as the lookup says |
| `SprotoCodec.FirstFieldCrashes` | test/api/protocal/sproto.js:404-419 | without rounding, the search for the first field always ends between two indices |
| `SprotoCodec.FindsAllExactly` | test/api/protocal/sproto.js:396-421 | each field, and no other, is found for every tag exactly if the search rounds or the schema has no gaps |
| `SprotoCodec.RecordsFit` | test/api/protocal/sproto.js:744-817 | whatever subset of fields is present, there are no more records, skips included, than maxn |
| `SprotoCodec.RecordsFill` | test/api/protocal/sproto.js:191-213 | with all fields present there are exactly maxn records |
| `SprotoCodec.RecordsFitTags` | test/api/protocal/sproto.js:818-819 | the number of records fits the two bytes written for it |
| `SprotoCodec.Encoder.FillSize` | test/api/protocal/sproto.js:619-625 | four bytes of size, and nothing else is touched |
| `SprotoCodec.Encoder.EncodeString` | test/api/protocal/sproto.js:633-645 | a byte string behind its size, and nothing else is touched |
| `SprotoCodec.Encoder.PutField` | test/api/protocal/sproto.js:744-817 | a present field adds a skip if tags are left out, its record, and its data, and writes nothing else; it throws exactly for integers from 0x7fff on |
| `SprotoCodec.Encoder.Compact` | test/api/protocal/sproto.js:820-827 | the data section arrives unharmed behind the last record |
| `SprotoCodec.Encoder.Encode` | test/api/protocal/sproto.js:610-829 | of a message of integers that are not negative, booleans and byte strings, the form on the wire and its size, and behind it the old data section; all else stays; an exception exactly if an integer is too large |
| `SprotoCodec.Encoder.SprotoEncode` | test/api/protocal/sproto.js:898-918 | the array that is returned, element by element and hole by hole, and its length; an exception exactly for an integer above 32766 |
| `SprotoCodec.HolesExactly` | test/api/protocal/sproto.js:820-827 | the array has holes exactly if there is data, and less of it than room reserved for records that were not needed |
| `SprotoCodec.Decode` | test/api/protocal/sproto.js:465-563 | the loop over the records, with its stream and data positions, is decoding as a function |
| `SprotoWire.WordIs` | test/api/protocal/sproto.js:30-32 | two bytes are a number with the less significant byte first |
| `SprotoWire.DwordIs` | test/api/protocal/sproto.js:33-35 | four bytes are the number of 32 bits, with its sign, that is congruent to them |
| `SprotoWire.WireIsWire` | test/api/protocal/sproto.js:610-829 | on the wire are the number of records, for each record two bytes, and the pieces of data in the order of their records, each behind its size |
| `SprotoWire.RecordsPlaced` | test/api/protocal/sproto.js:744-817 | there is a record for each field that is present, at its tag and with its value, and skips before these only |
| `SprotoWire.EncodedIs` | test/api/protocal/sproto.js:744-829 | so the bytes of a message are told by its fields and their tags |
| `SprotoReads.RecordStep` | test/api/protocal/sproto.js:484-562 | what one record adds to the message: the number in it, the bytes of its piece of data, or the number of 32 bits in these; or why decoding ends there |
| `SprotoReads.DecodesAny` | test/api/protocal/sproto.js:465-563 | what any bytes are decoded to: the message that their records say, in full and no more, or the outcome for the first record that cannot be read |
| `SprotoRoundTrip.DecodeReplays` | test/api/protocal/sproto.js:484-562 | decoding follows the records that were written, to the end of their data |
| `SprotoRoundTrip.Evolves` | test/api/protocal/sproto.js:396-563 | a reader with another schema gets exactly the fields that both declare, and consumes exactly the message, with anything behind it |
| `SprotoRoundTrip.RoundTrip` | test/api/protocal/sproto.js:465-829 | with one schema, exactly the present fields come back (booleans as 0 and 1), and exactly the message is consumed |
| `SprotoRoundTrip.FirstFieldThrows` | test/api/protocal/sproto.js:404-411 | for a schema with gaps there is a message that the search as it is written cannot decode |
| `SprotoRoundTrip.RoundTripsExactly` | test/api/protocal/sproto.js:396-829 | as the search is written, all messages come back exactly if the schema has no gaps |
| `SprotoRoundTrip.SurvivesPacking` | test/api/protocal/sproto.js:898-1112 | a message is also read after packing, sending and unpacking, with any elements and holes behind it and the zeros of the padding |
| `SprotoRoundTrip.Exchange` | test/api/protocal/sproto.js:1114-1131 | pencode, sending and pdecode as they run: the fields that both versions of the schema have arrive |
| `Clone.Cloner.Copy` | lualib/utils/function.lua:143-155 | returns the image of a value, with every copy that was begun on the way finished and due to something reachable |
| `Clone.Cloner.CopyTable` | lualib/utils/function.lua:149-154 | a table gets one fresh copy, entered before it is filled |
| `Clone.Cloner.CopyEntries` | lualib/utils/function.lua:151-153 | in any order of pairs, the copy has the images of all entries and nothing else |
| `Clone.Clone` | lualib/utils/function.lua:141-157 | ends on every graph, leaves the original as it was, and returns the root of a fresh copy of exactly what is reachable |
| `Clone.SameWalks` | lualib/utils/function.lua:141-157 | the same keys lead from the clone to the image of where they lead from the original |
| `Clone.NoOtherWalks` | lualib/utils/function.lua:141-157 | and no other keys lead anywhere in the clone |
| `Clone.SameSizeAndMeta` | lualib/utils/function.lua:149-154 | a copy has as many entries as its original, and the same metatable |
| `Clone.PlainWalks` | lualib/utils/function.lua:141-157 | along keys that are no tables, the clone leads to the same value, or to a new table where the original leads to one, of the same size and with the same metatable; or nowhere, where the original does |
| `Clone.SharingIsKept` | lualib/utils/function.lua:141-157 | two walks meet in the clone exactly if they meet in the original |
| `Clone.CloneIsApart` | lualib/utils/function.lua:141-157 | nothing that was there before can be reached through the entries of the clone of a table |
| `Strings.CollapseExpand` | lualib/utils/function.lua:1346-1376 | turning line ends back undoes turning them, even where there was a carriage return |
| `Strings.UnescapeEscape` | lualib/utils/function.lua:1320-1375 | the percent escapes are undone, also of strings with percent signs in them |
| `Strings.UrlRoundTrip` | lualib/utils/function.lua:1344-1378 | urldecode(urlencode(s)) is s for every byte string |
| `Strings.UrlIsSafe` | lualib/utils/function.lua:1344-1351 | what is encoded has only letters, digits and the characters . - % + |
| `Strings.UrlKeepsPlain` | lualib/utils/function.lua:1344-1351 | letters, digits, dots and hyphens stand for themselves, and a plus for a space |
| `Strings.UrlEncodeSum` | lualib/utils/function.lua:1344-1351 | bytes are encoded one by one |
| `Strings.UrlEncodesByte` | lualib/utils/function.lua:1320-1351 | what each byte becomes: itself, a plus, %0D%0A for a line feed, or a percent sign and the two upper-case digits of its value |
| `Strings.UnitsExist` | lualib/utils/function.lua:1374-1375 | every string is made of escapes and other characters, from left to right |
| `Strings.UrlDecodes` | lualib/utils/function.lua:1373-1378 | what every string decodes to: its escapes and pluses undone, and then each carriage return with a line feed behind it taken away |
| `Strings.Find` | lualib/utils/function.lua:1222 | the first occurrence from a position on, or none if there is none |
| `Strings.Split` | lualib/utils/function.lua:1216-1228 | the pieces joined are the input, and each is cut at the first delimiter |
| `Strings.PiecesAreUnique` | lualib/utils/function.lua:1216-1228 | there is only one way to cut a string so: split takes apart what was joined of such pieces |
| `WebSocket.XorBits` | cloud/lualib/websocket.lua:59 | a bit of the result is set exactly if it is set in one of the two |
| `WebSocket.MaskedTwice` | cloud/lualib/websocket.lua:56-62 | masking with the same key again gives the data back |
| `WebSocket.MaskedExactly` | cloud/lualib/websocket.lua:56-62 | masking is what RFC 6455 section 5.3 says, bit by bit, and nothing else is |
| `WebSocket.WebsocketMask` | cloud/lualib/websocket.lua:56-62 | octet i of the result is octet i of the data with those bits turned over that octet i mod 4 of the key has, as RFC 6455 section 5.3 says |
| `WebSocket.BigEndianDigit` | cloud/lualib/websocket.lua:118-124 | the most significant byte of a length comes first |
| `WebSocket.LengthExactly` | cloud/lualib/websocket.lua:118-125 | the bytes of a length in each of its forms, the most significant first |
| `WebSocket.FramesExactly` | cloud/lualib/websocket.lua:109-128 | the frames of the code are those of RFC 6455 section 5.2, octet by octet, and nothing else is |
| `WebSocket.SenderIsMinimal` | cloud/lualib/websocket.lua:119-125 | the sender takes the shortest form of the length exactly if it is not 65535 |
| `WebSocket.ReadsFrame` | cloud/lualib/websocket.lua:109-204 | a frame is read back as it was, in each form of the length, masked or not |
| `WebSocket.ReadsFrameText` | cloud/lualib/websocket.lua:137-204 | a frame of the standard is read back as it was, whoever wrote it |
| `WebSocket.RefusedExactly` | cloud/lualib/websocket.lua:144-164 | refused are exactly reserved bits, and control frames that are fragmented or longer than 125 bytes |
| `WebSocket.SentIsReadExactly` | cloud/lualib/websocket.lua:109-204 | what the sender writes is read back exactly if it is not a control frame that is fragmented or longer than 125 bytes |
| `WebSocket.ReadsAllSent` | cloud/lualib/websocket.lua:109-204 | a sequence of frames from the sender is read back, whatever comes behind |
| `WebSocket.ReadsAllMasked` | cloud/lualib/websocket.lua:56-204 | a sequence of frames that any client masks as the standard says, in forms and with keys of its choice, is read back as it was before |
| `WebSocket.AcceptedIsFrame` | cloud/lualib/websocket.lua:137-204 | whatever is accepted is a frame that may be sent, but for a 64-bit length with its top bit set |
| `WebSocket.AcceptedIsFrameExactly` | cloud/lualib/websocket.lua:137-204 | of what is accepted, exactly that is a frame that may be sent which does not have such a length |
| `WebSocket.NegativeLengthIs` | cloud/lualib/websocket.lua:177-182 | such a length can be told from the second and the third byte |
| `WebSocket.NegativeLengthIsAccepted` | cloud/lualib/websocket.lua:177-204 | a length of 2^63 is accepted, as no payload |
| `WebSocket.Connection.SendFrame` | cloud/lualib/websocket.lua:109-128 | writes the frame; throws exactly if the data is nil and there is a socket |
| `WebSocket.Connection.ReadFrame` | cloud/lualib/websocket.lua:137-204 | the reads from the stream take up exactly the frame |
| `WebSocket.Connection.RecvFrame` | cloud/lualib/websocket.lua:137-231 | what each opcode returns and reports to the handler; a final ping throws |
| `WebSocket.SentIsReceived` | cloud/lualib/websocket.lua:137-231 | what is returned for a frame of the standard: its payload and whether it is final, for fragments, text and binary; an exception exactly for a final ping; nothing for the rest |
| `WebSocket.SentIsReported` | cloud/lualib/websocket.lua:206-229 | what the handler is told of a frame of the standard: the code and the reason of a final close frame as far as they are there, the payload of a final pong, and of others nothing |
| `WebSocket.CloseIsReported` | cloud/lualib/websocket.lua:213-222 | the code and the reason of a close frame reach the handler |
| `Room.Invariant` | scripts/app/service_game/srv_game_action.lua:35-49 | in every run: old rounds are ENDED without a timer, the latest has the timer of its status, and the timers fired tell how far it is |
| `Room.OneTimer` | scripts/app/vo/Round.lua:104-125 | there is one timer at most, and one exactly while the latest round is in BET, DEAL or ENDED |
| `Room.ReadyAreThose` | scripts/game/BAIJIALE/action/Action_READY.lua:82-87 | who is ready are those who said so since the round began, in their order |
| `Room.WaitsExactly` | scripts/game/BAIJIALE/action/Action_READY.lua:82-104 | a round waits exactly until as many have said that they are ready as the table takes |
| `Room.RoundsAndFirings` | scripts/game/BAIJIALE/actionpush/ActionHelper_ENDED.lua:29-67 | with n = max_round, or 1 if that is less: no more than n rounds; the room is closed exactly with timer 3n - 1, and there is none after it |
| `Room.RoundsBounded` | scripts/game/BAIJIALE/actionpush/ActionHelper_ENDED.lua:41-45 | there are never more than max_round rounds, exactly if it allows one |
| `Room.StatusMovesOn` | scripts/app/vo/Round.lua:132-134 | an event moves a status one step on or not at all |
| `Room.NeverBack` | scripts/app/vo/Round.lua:132-134 | over any run, no round goes back |
| `Room.ClosedForGood` | scripts/game/BAIJIALE/actionpush/ActionHelper_CLOSED.lua:26-42 | a closed room stays as it is, whatever arrives |
| `Room.BetsOnce` | scripts/game/BAIJIALE/action/Action_READY.lua:84-102 | each round enters BET exactly once, on leaving WAIT |
| `Room.CanFinish` | scripts/app/service_game/srv_game_action.lua:86-102 | from wherever a run has led, a room for at least one player can be played to its end |
| `Room.FinishesExactly` | scripts/app/service_game/srv_game_action.lua:86-102 | some run ends the room exactly if somebody has to be ready |
| `Room.SplitTurnBreaks` | scripts/game/BAIJIALE/actionpush/ActionHelper_ENDED.lua:53-59 | when a READY comes between closeRound and initByRound, the old round goes back to BET and two timers are live |
| `Room.SafeExactlyIfAtomic` | scripts/game/BAIJIALE/actionpush/ActionHelper_ENDED.lua:50-63 | there is never more than one timer, in all runs, exactly if the turn to the next round is one step, or no round can follow another |
| `RoomServer.RoundObject.CreateTimeout` | scripts/app/vo/Round.lua:104-119 | the old timer is gone, and there is a new one, for ti seconds, unless the time-out is -1 or 0 |
| `RoomServer.Server.constructor` | scripts/app/service_game/srv_game_action.lua:42-49 | a new room has one round, which waits |
| `RoomServer.Server.InitByRound` | scripts/app/service_game/srv_game_action.lua:35-40 | one more round, which waits, and nobody is ready |
| `RoomServer.Server.ReadyHandle` | scripts/game/BAIJIALE/action/Action_READY.lua:84-104 | tells whether the table is not yet, just or already full |
| `RoomServer.Server.ReadyAction` | scripts/app/service_game/srv_game_action.lua:89-102 | the message that fills the table, and no other, starts the betting; its sender is ready |
| `RoomServer.Server.BetInit` | scripts/game/BAIJIALE/action/Action_BET.lua:24-45 | BET, with the timer that leads to DEAL in 15 seconds |
| `RoomServer.Server.DealInit` | scripts/game/BAIJIALE/action/Action_DEAL.lua:24-48 | DEAL, with the timer that leads to ENDED in 10 seconds |
| `RoomServer.Server.EndedInit` | scripts/game/BAIJIALE/actionpush/ActionHelper_ENDED.lua:29-67 | the last round closes the room, any other gets the timer that leads to the next in 5 seconds |
| `RoomServer.Server.ClosedInit` | scripts/game/BAIJIALE/actionpush/ActionHelper_CLOSED.lua:26-42 | CLOSED, no timer, and the hall drops the room |
| `RoomServer.Server.CloseLatest` | scripts/app/service_game/srv_game_action.lua:184-189 | the latest round loses its timer, and nobody is ready |
| `RoomServer.Server.Fires` | scripts/app/service_game/srv_game_action.lua:35-189 | what any timer does to the objects is the step of the machine |
| `Decks.PacksHold` | lualib/poker/Decks.lua:48-58 | a fresh deck holds each of the 52 cards once for each pack |
| `Decks.PacksInOrder` | lualib/poker/Decks.lua:48-58 | pack after pack, and in each the cards from 0 to 51 |
| `Decks.IndexOf` | lualib/poker/Decks.lua:73 | the index is the product rounded to the nearest, from 0 up to the number of cards |
| `Decks.DrawTakes` | lualib/poker/Decks.lua:74-80 | the card at the index is drawn, the last takes its place, and all others stay where they are |
| `Decks.DrawsNearest` | lualib/poker/Decks.lua:65-83 | the card drawn is the one at the whole number nearest to the product; the last takes its place, all others stay |
| `Decks.DrawsSlotZero` | lualib/poker/Decks.lua:65-83 | if that number is 0, what is in slot 0 is drawn, and the last card goes there |
| `Decks.EveryCardMayCome` | lualib/poker/Decks.lua:65-83 | every card of a deck may be the next |
| `Decks.DrawConserves` | lualib/poker/Decks.lua:65-83 | a draw loses no card and makes none, with slot 0 counted |
| `Decks.RunConserves` | lualib/poker/Decks.lua:65-83 | over any run of draws, cards drawn and cards left are the cards at the start |
| `Decks.RunInOrder` | lualib/poker/Decks.lua:65-83 | the draws of a run follow one another, each from the deck that those before it left |
| `Decks.NilExactly` | lualib/poker/Decks.lua:65-83 | from a deck with cards, nil is drawn exactly if the product rounds to 0 and slot 0 is empty |
| `Decks.AlwaysGivesExactly` | lualib/poker/Decks.lua:60-83 | every draw of a deck with cards gives a card, whatever the random numbers, exactly if slot 0 is filled beforehand |
| `Decks.FreshMayGiveNil` | lualib/poker/Decks.lua:60-83 | a fresh, full deck gives nil for the random number 0 |
| `Decks.OneNil` | lualib/poker/Decks.lua:65-83 | as long as there are cards, at most one draw gives nil: exactly one if slot 0 was empty and some product rounds to 0 |
| `Decks.NoCardTwice` | lualib/poker/Decks.lua:65-83 | no card is drawn more often than there are packs |
| `Decks.AllButSlotZero` | lualib/poker/Decks.lua:65-83 | a deck drawn to its end has given all its cards, or all but the one in slot 0, exactly if a draw gave nil |
| `Decks.DeckObject.constructor` | lualib/poker/Decks.lua:28-58 | a new deck has the packs asked for, and nothing in slot 0 |
| `Decks.DeckObject.DrawCard` | lualib/poker/Decks.lua:65-83 | the in-place removal is the draw at the rounded index |
| `Decks.DealHands` | scripts/app/service_game/srv_game_action.lua:159-167 | the hands of a new round are two draws and then two more, in order, without nils; they and what is left are the deck; one card is missing from them exactly if some product rounds to 0 |

## Left out

- SprotoCodec.Encoder.Encode: only integers that are not negative, booleans and byte strings; nested structures and arrays depend on conditions that the code writes with the wrong precedence (line 521), and an array of booleans never stores a true one (line 707).
- SprotoCodec.Decode: a length with its top bit set and a boolean in the data section are reported as outside of the model, because the code takes them for something else.
- SprotoPack.Packer.Pack: the array may hold one element more than the size it returns; the result is about the first `sz` bytes. The array given has the length `sz`, as with both callers.
- SprotoPack.Unpacker.Unpack: takes bytes, as they come from the network; an array with holes that was not sent is not unpacked.
- JsonReads.DecodesEveryRendering: which double `strtod` rounds a fraction to, and whether raw bytes from 0x80 on are UTF-8.
- JsonRoundTrip.DecodesWhatWasEncoded: numbers other than integers of 31 bits and a sign do not come back as they were, since lines 988-995 turn what is near an integer into it, and "%.14g" drops digits; what they come back as is in `JsonMirror.DecodesEveryEncoding`.
- JsonMirror.DecodesEveryEncoding: NaN and the infinities, which have no JSON text, and strings that are not bytes; and which digits `printf` writes.
- JsonReads.RefusesTrailing: other errors than those at the beginning and the end of a text are in the model, but no result says what their messages are.
- Clone.Clone: metatables are shared, as in the code; `__pairs` and `__metatable` are not modelled.
- RoomServer.Server.Fires: one room only; rooms do not share rounds or lists.
- Allocation failure, sizes beyond 32 bits, and the linear growth of the buffer, which is never selected.
- The parsing of sproto bundles apart from import_type, and sproto packages and sessions.
- The WebSocket handshake, `recv`, which appends fragments twice, and outgoing masking, which writes no key.
- `Decks:reset` on a used deck, the ranking of hands, bets and payments.
- htmlspecialchars and its inverse, whose result depends on the order of `pairs`.
- Skynet services, databases, login, halls, gates, HTTP, logging, and the bindings to libcurl and to the file system.
