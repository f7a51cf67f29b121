# WSON, verified

A model of WSON, a tagged binary value format, and of the code that writes and reads it: the byte buffer and its integer
codes (`c/wson.c`), the UTF-16 to UTF-8 converters (`c/wson_util.cpp`), the stream parser and JSON printer
(`c/wson_parser.cpp`, `c/wson_parser.h`), the JavaScript codec with its identifier cache (`jsc/wson_jsc.cpp`), the three
readers of render trees (`jsc/dom_wson.cpp`) and the codec of the JavaScript runtime (`jsc/wson_for_runtime.cpp`).

`dafny verify dfyconfig.toml` checks the whole project.

## What is proved

- **One value, one encoding.** The writers append exactly `Values.Enc` of the value they are given and the readers
  stop exactly behind it, with the exceptions stated below. The format is self-delimiting and unambiguous
  (`Values.EncPrefixFree`), and a reader that says it by the characters of `c/wson.h` gives every value back
  (`Format.FormatReads`).
- **Integers.** The writing loop and the unrolled reader are inverse on every 32-bit word, the code is prefix-free and
  shortest, zigzag is a bijection, and lists read back in order.
- **Growth.** After any run of pushes the contents are the bytes of the pushes one after another, and reallocation has
  copied less than the final length, which is at most twice the contents plus a constant.
- **Text.** The converter has a left inverse on every sequence of 16-bit units, and that inverse is a right inverse on
  every well-formed UTF-8 text. Read by section 4 of RFC 3629, its output gives what section 2.2 of RFC 2781 reads in
  the input; on ill-formed UTF-16, and only there, it is outside that grammar.
- **JSON.** A strict reader of RFC 8259 texts in UTF-8, defined apart from the printer, undoes the printing of every
  tree JSON can carry, if and only if every text in the tree is well-formed UTF-16 without control characters but
  backspace, tab, line feed, form feed and carriage return. Plain texts read back in the same way.
- **Parser.** `skipValue`, `nextBool`, `nextStringUTF8` and `toJSONtring` move the cursor by the same bytes. The
  scratch array they convert through is kept from one conversion to the next; a run of conversions stays inside it if
  and only if each text has room in what it or an earlier text asked for.
- **JavaScript codec.** Encoding any finite object graph, whatever its `toJSON` methods give, ends, restores the stack
  of ancestors and writes one value; decoding it gives the tree unfolding of the graph, with the surviving properties
  in order; in a heap of at most 40001 objects no array or plain object comes back as null unless it is one of its own
  ancestors. The identifier cache is invisible, in every reachable state, and no identifier of one machine reaches
  another over any run.
- **Render trees**, in documents of up to 2^20 bytes. The one-pass builder, with its second reading, applies every
  entry of a typed object once and in stream order. Both builders and the generator take the fields of a node from the
  entries under the six names, spelled out. For objects with at most one type and one children entry the one-pass
  builder agrees with the collecting reader if and only if every object has a type and no name whose first and last
  texts differ. The callbacks of the generator are a part, in order, of the objects of the document that have a type
  and a reference and whose ancestors all do; they are all of them if and only if no children array behind a
  `children` that is no array holds such an object. For objects with at most one type and one children entry they are
  the preorder of the tree the builder makes if and only if every object that is built has a type and a reference that
  are not empty and no children array has something dropped before something built. For values that are read in step
  (`DomGenerator.InStep`), the generator makes these callbacks, and its cursor ends behind the value if and only if no
  entry of the wrong shape stopped it.
- **Runtime codec.** The bytes written are the encoding of the value, functions and objects read as null, if and only
  if functions and objects occur in maps only. What is sent comes back, for every value with distinct keys whose
  strings are well-formed UTF-8: of a map exactly the entries that hold an int, a double, a bool, a string, an array
  or a map, in order. Encoding again gives the same bytes. What the runtime reads of the bytes of the JavaScript side
  shows the same graph.

## How the source is modelled

- Buffer, parser, encoder and codec are classes with the fields of the source; loops that move a cursor are loops.
  Recursive loops that would be one long body stand in methods of their own, with the branch they come from.
- Readers take the value they are about to find as a ghost argument (`requires Next(Enc(v))`): it has no effect at run
  time, and says that the input is well formed.
- Machine words are bounded integers, and wrap-around is written out where the source relies on it
  (`Text.ToCodePoint`, `Varint.Zig`, `Identifiers.Hash`). Shifts, masks and disjoint ors are divisions, remainders and
  sums; `BitAnd` is computed bit by bit.
- Floats and doubles are carried as their 32 and 64-bit patterns; UTF-16 units lie low byte first in memory.
- The "%f" texts of the C library (`JsonText.NumberFormat`), and the host's `to_utf16` and conversions to double
  (`Runtime.Host`), are parameters; the round trip of the runtime asks that `to_utf16` decodes well-formed UTF-8.
- The JavaScript heap is a finite map from object identity to node, with a function that says what `toJSON` gives for
  an object under a name; `Identifier::fromString(vm, text)` is `Ident(vm, text)`.
- The bytes of the parser's scratch mean nothing between conversions, so the model keeps its size, and whether every
  conversion stayed inside. The result it gives is that of the source when it did.
- Lengths and requests that the source computes in `int` wrap around in two's complement (`Scratch.Request`,
  `Scratch.StringScratch`).
- A render object is its reference, its type and the calls made on it, in order. `DomTree.View` says what the calls
  leave: the last value of a name stays, events are a set, a child is inserted at its index, or at the end if there
  are not so many children.

## Where the code and its documentation disagree

- The repository's `README.md:18` says that strings are UTF-8; the code writes the units of UTF-16 with signature `s`.
  The code is followed.
- The comment at `jsc/wson_jsc.cpp:105-107` gives two sizes of the local cache; the code has three, 32, 64 and 128.
  The result does not depend on them.

## Where the code does less than one would expect

- The printer leaves 27 of the 32 control characters bare, and writes a surrogate without its other half as three
  bytes that are no UTF-8; RFC 8259 forbids both. `JsonRoundTrip.JsonReadsBack` gives the exact condition,
  `JsonRoundTrip.BareControlFails` and `JsonRoundTrip.LoneSurrogateFails` the smallest texts.
- The parser's scratch has no byte for the terminator of very short texts when nothing longer came before, and none
  for texts whose size is no `int`: `Scratch.ScratchFitsExactly` and `Scratch.RunExactly` say exactly when there is
  room, `Scratch.EmptyTextFirst` and `Parser.EmptyFirstLeaves` give the smallest inputs.
- The two tree builders differ on an object without a type (`DomAgreement.UntypedDiffer`), on a name among the
  attributes or styles whose first and last texts differ (`DomAgreement.DuplicateNamesDiffer`,
  `DomAgreement.TwiceInOneMap`), and on a second children entry, whose list one of them inserts before the first
  (`DomAgreement.SecondListFirst`). `DomAgreement.BuildersAgreeExactly` gives the exact condition for objects with at
  most one type and one children entry, as all objects have whose keys are unique up to their first zero byte, where
  `strcmp` stops.
- The generator counts children that are no objects, and children without a type, where the tree has no place for them
  (`DomPreorder.GapDiffers`); `DomPreorder.GeneratorFollowsTree` gives the exact condition. A `children` that is no
  array cuts off the children arrays behind it (`DomPreorder.CutOffDiffers`, `DomPreorder.GeneratorFollowsDocument`).
  It does not pass over a value of the wrong shape (`DomGenerator.WrongChildrenEndEarly`,
  `DomGenerator.WrongAttributeEndsEarly`, `DomGenerator.EndsRightExactly`).
- The readers of render trees give their parser the data without a length, and the parser takes it for one mebibyte.
  From that position on `nextType` gives null and stays where it is, so an entry whose signature lies there is read as
  null and the next key is read from its bytes (`DomBuilder.NextText`, `DomBuilder.BuildEntry`,
  `DomBuilder.TypeBeyondIsLost`). The results on whole documents, and the entry points in `DomEntry`, are for
  encodings of up to 2^20 bytes.
- A boxed number that is no integer is written as its text, since `jsc/wson_jsc.cpp:471` looks at the box and not at
  the number: `JsCodec.BoxedNumberBack`.
- The runtime encoder writes nothing for a function or an object outside maps, though the header around it counts it:
  `Runtime.WritesExactly` gives the exact condition, and `Runtime.HolesAreNoValue` arrays that are no value at all.
- The runtime decoder converts each UTF-16 text through an array that has no byte for the terminator of an empty one:
  `Runtime.ConvertWson` says of every value whether its conversions stay inside, `Runtime.EmptyStringLeaves` gives the
  smallest input.
## Model

| member | source | states |
|---|---|---|
| Growth.Resized | c/wson.c:44-57 | the new length is at least twice the old one and covers the request |
| Growth.SoundAfter | c/wson.c:40-57 | every push keeps position within length, length within twice the position plus a constant, and the bytes copied below the length |
| Growth.Amortised | c/wson.c:38-57 | over any run of pushes from a new buffer: bytes copied are at most final length - 1024, and final length at most 2 * position + 16392 |
| PushRuns.Push | c/wson.c:94-277 | each writing function appends its own bytes, whatever is in the buffer |
| PushRuns.PushAll | c/wson.c:38-277 | after any run of pushes from a new buffer: contents are the concatenation of the bytes of the pushes, and copying and length are bounded |
| Varint.VarReads | c/wson.c:296-327 | with any number of groups, reading a written number gives it back, whatever follows, within those groups |
| Varint.VarRoundTrip | c/wson.c:99-109 | five groups are exactly enough for every 32-bit number, and reading takes exactly the written bytes |
| Varint.Unrolled | c/wson.c:296-327 | the straight-line arithmetic of the reader, case by case, equals the recursive definition |
| Varint.VarPrefixFree | c/wson.c:99-109 | no code word is a proper prefix of another |
| Varint.VarMinimal | c/wson.c:99-109 | whatever bytes read as a number, they are no fewer than the bytes written for it |
| Varint.ZigZag | c/wson.c:60-70 | the bit formula numbers 0, -1, 1, -2, ... and is undone by the other one, least int included |
| Varint.ZagZig | c/wson.c:60-70 | the other direction of the bijection |
| Varint.ListRoundTrip | c/wson.c:99-109 | any list of unsigned numbers reads back in order, and nothing beyond it is taken |
| Varint.IntsRoundTrip | c/wson.c:292-327 | the same for any list of signed 32-bit numbers |
| Varint.BigEndianOctet | c/wson.c:238-250 | the byte stored at each index is the digit of that weight |
| Varint.BigEndianSum4 | c/wson.c:352-361 | adding the four shifted bytes gives the written word back |
| Varint.BigEndianSum8 | c/wson.c:333-344 | adding the eight shifted bytes gives the written word back |
| WsonBuffer.StoreVar | c/wson.c:101-107 | the do-while loop with its final mask stores the varint and nothing before it changes |
| WsonBuffer.LoadVar | c/wson.c:296-327 | the unrolled reader returns number and size of the varint at an index |
| WsonBuffer.Store4 | c/wson.c:263-267 | stores the word most significant byte first |
| WsonBuffer.Store8 | c/wson.c:240-248 | stores the word most significant byte first |
| WsonBuffer.Buffer.New | c/wson.c:72-78 | empty, 1024 bytes long |
| WsonBuffer.Buffer.From | c/wson.c:80-86 | reads the given bytes from the start, with the length it is told |
| WsonBuffer.Buffer.Resize | c/wson.c:44-57 | contents survive, the length follows the growth rule and no 32-bit word wraps |
| WsonBuffer.Buffer.EnsureSize | c/wson.c:40-42 | room for the request, contents unchanged, growth accounted for |
| WsonBuffer.Buffer.PushByte | c/wson.c:111-116 | appends one byte and changes nothing written before |
| WsonBuffer.Buffer.PushType | c/wson.c:118-123 | appends one signature |
| WsonBuffer.Buffer.PushTypeBoolean | c/wson.c:126-135 | appends the signature that stands for the truth value |
| WsonBuffer.Buffer.PushUint | c/wson.c:99-109 | appends the varint, reserving five bytes |
| WsonBuffer.Buffer.PushInt | c/wson.c:94-97 | appends the varint of the zigzag number |
| WsonBuffer.Buffer.PushUlong | c/wson.c:238-250 | appends eight bytes, big-endian |
| WsonBuffer.Buffer.PushFloat | c/wson.c:258-269 | appends four bytes, big-endian |
| WsonBuffer.Buffer.PushBytes | c/wson.c:272-277 | appends the bytes |
| WsonBuffer.Buffer.PushTypeInt | c/wson.c:138-144 | appends signature and zigzag varint |
| WsonBuffer.Buffer.PushTypeDouble | c/wson.c:146-152 | appends signature and bit pattern |
| WsonBuffer.Buffer.PushTypeFloat | c/wson.c:154-160 | appends signature and bit pattern |
| WsonBuffer.Buffer.PushTypeLong | c/wson.c:162-168 | appends signature and two's complement, big-endian |
| WsonBuffer.Buffer.PushTypeString | c/wson.c:170-177 | appends signature, length and bytes |
| WsonBuffer.Buffer.PushTypeUint8String | c/wson.c:179-186 | appends signature, length and bytes |
| WsonBuffer.Buffer.PushProperty | c/wson.c:188-191 | appends length and bytes, without a signature |
| WsonBuffer.Buffer.PushTypeNull | c/wson.c:201-206 | appends the signature of null |
| WsonBuffer.Buffer.PushTypeMap | c/wson.c:208-214 | appends signature and number of entries |
| WsonBuffer.Buffer.PushTypeArray | c/wson.c:216-222 | appends signature and number of elements |
| WsonBuffer.Buffer.NextType | c/wson.c:279-283 | returns the byte at the cursor and steps over it |
| WsonBuffer.Buffer.NextUint | c/wson.c:296-327 | returns the number whose varint is at the cursor, which ends behind it |
| WsonBuffer.Buffer.NextInt | c/wson.c:292-294 | returns the signed number that was pushed |
| WsonBuffer.Buffer.NextUlong | c/wson.c:333-344 | returns the word that was pushed |
| WsonBuffer.Buffer.NextLong | c/wson.c:329-331 | returns the signed word that was pushed |
| WsonBuffer.Buffer.NextFloat | c/wson.c:352-361 | returns the bit pattern that was pushed |
| WsonBuffer.Buffer.NextBts | c/wson.c:364-368 | returns the bytes at the cursor and steps over them |
| Values.UnitsOfBytes | c/wson_parser.cpp:49-52 | UTF-16 units laid out as bytes read back as the same units |
| Values.EncPrefixFree | c/wson.h:49-62 | two equal streams that begin with an encoded value begin with the same value, and go on alike: the format is self-delimiting and injective |
| Values.PayloadPrefixFree | c/wson.h:49-62 | the same for payloads under one signature |
| Values.ItemsPrefixFree | c/wson_parser.cpp:304-309 | the same for the elements of an array of known length |
| Values.MembersPrefixFree | c/wson_parser.cpp:295-301 | the same for the entries of a map of known size |
| Format.FormatReads | c/wson.h:49-62 | a reader that says the format by its characters, seven-bit groups, big-endian words and UTF-16 low byte first gives back every value, whatever follows |
| Format.ItemsRead | c/wson_parser.cpp:304-309 | the same for the elements of an array |
| Format.PairsRead | c/wson_parser.cpp:295-301 | the same for the entries of a map |
| Text.CodePointOfPair | c/wson_util.cpp:50-58 | the folded constant, wrap-around included, equals the formula of RFC 2781 and gives a supplementary code point |
| Text.HeadOfChar | c/wson_util.cpp:61-91 | a decoder of the lead byte gives back code point and length |
| Text.Utf8RoundTrip | c/wson_util.cpp:138-159 | the converter has a left inverse on every sequence of 16-bit units, lone surrogates included |
| Text.Utf8Injective | c/wson_util.cpp:138-159 | distinct texts have distinct UTF-8 forms |
| Text.LengthOfChar | c/wson_util.cpp:61-91 | the grammar of RFC 3629 accepts the bytes of exactly those code points that are no surrogates |
| Text.Utf8MeetsStandards | c/wson_util.cpp:138-159 | the output read by RFC 3629 is the input read by RFC 2781, both failing together, for all inputs |
| Text.Utf8Bound | c/wson_util.cpp:138-159 | at most three bytes a unit |
| Text.InsideBound | c/wson_util.cpp:161-215 | at most three bytes a unit between the quotes |
| Text.WidestLength | c/wson_util.cpp:138-215 | both bounds are attained, for every length |
| Text.FitsBySize | c/wson_util.cpp:138-215 | the scratch that holds every text of n units, terminator included, is one of at least 3n + 1 bytes, or 3n + 3 when quoted |
| Text.CharacterOfGrammar | c/wson_util.cpp:61-91 | every character of the grammar of RFC 3629 is the form the converter writes for its code point |
| Text.Rfc3629Determines | c/wson_util.cpp:61-91 | well-formed UTF-8 is determined by the code points it stands for |
| Text.ConvertsBack | c/wson_util.cpp:138-159 | from any UTF-16 for the same code points the converter gives a well-formed UTF-8 text back |
| Text.FromUtf8Inverts | c/wson_util.cpp:138-159 | the left inverse of the converter is a right inverse on every well-formed UTF-8 text |
| Converters.PutChar | c/wson_util.cpp:61-114 | writes the bytes of a code point in place and returns their number, nothing before them changes |
| Converters.PutLongChar | c/wson_util.cpp:92-113 | the same for the forms of five and six bytes, and none beyond |
| Converters.ToUtf8 | c/wson_util.cpp:138-159 | the loop with look-ahead and step back writes the UTF-8 form, terminates it, and returns its length |
| Converters.PutQuotedUnit | c/wson_util.cpp:180-210 | writes one unit with its escape |
| Converters.PutInside | c/wson_util.cpp:166-211 | the loop writes the escaped text behind what is there |
| Converters.ToQuotedUtf8 | c/wson_util.cpp:161-215 | writes the quoted form, terminates it, and returns its length |
| Converters.AppendUtf8 | c/wson_util.cpp:116-120 | appends the UTF-8 form to a string, and tells whether the conversion stayed inside its array, as it does below 2^29 - 1 units |
| Converters.AppendQuotedUtf8 | c/wson_util.cpp:122-126 | the same for the quoted form |
| Scratch.RequestValue | c/wson_parser.cpp:51-52 | the request is four bytes a unit below 2^29 units, and negative from there on |
| Scratch.SizeIsLargest | c/wson_parser.cpp:58-70 | after any run the scratch is as long as the longest request that was an `int` |
| Scratch.AllFitBySize | c/wson_parser.cpp:58-70 | every text of n units stays inside exactly when the size after its request covers the widest text, and not when the request throws |
| Scratch.RunExactly | c/wson_parser.cpp:58-70 | from no array at all, a run of conversions stays inside if and only if each text has room in four times the length of itself or an earlier one that is below 2^29 units |
| Scratch.InsideFromThenOn | c/wson_parser.cpp:58-70 | once a text of three units was converted, every later one stays inside |
| Scratch.EmptyTextFirst | c/wson_parser.cpp:58-70 | an empty text that comes first leaves the scratch |
| Scratch.ScratchFitsExactly | c/wson_parser.cpp:58-70 | after any run of conversions, every text of n units stays inside if and only if n is from 1 (3 when quoted) to 2^29 - 1, or an earlier text below 2^29 units was long enough |
| Scratch.StringScratchExactly | c/wson_util.cpp:116-126 | the allocation of 4n + 4 holds every text of n units, plain or quoted, if and only if that is an `int`, n below 2^29 - 1 |
| JsonRoundTrip.CharacterReads | c/wson_util.cpp:180-210 | an escaped unit is read back as that unit; the strict reader refuses exactly bare control characters and surrogates; it never begins with a quote |
| JsonRoundTrip.PairReads | c/wson_util.cpp:168-174 | a surrogate pair is read back as its two units |
| JsonRoundTrip.InsideReads | c/wson_util.cpp:166-211 | the inside of a quoted text reads back up to the closing quote; a strict reader fails exactly on bare control characters and ill-formed UTF-16 |
| JsonRoundTrip.QuotedReads | c/wson_util.cpp:161-215 | unquoting undoes quoting on every sequence of 16-bit units |
| JsonRoundTrip.SelfDelimiting | c/wson_util.cpp:161-215 | scanning bytes for a bare quote ends at the text's own last byte, whatever follows |
| JsonRoundTrip.InsideDelimited | c/wson_util.cpp:166-211 | no quote stands bare inside |
| JsonRoundTrip.QuotedVisible | c/wson_util.cpp:184-207 | the quoted form has no byte below 0x20 if and only if the text has no control character but the five with a letter in RFC 8259 |
| JsonRoundTrip.InsideVisible | c/wson_util.cpp:184-207 | the same between the quotes |
| JsonRoundTrip.DigitsOfNumber | c/wson_util.cpp:219-221 | the decimal digits have the value of the number and no superfluous zero |
| JsonRoundTrip.DecimalReads | c/wson_util.cpp:253-265 | every integer reads back, the least ones included |
| JsonRoundTrip.ValueReads | c/wson_parser.cpp:73-150 | inside any text, a printed tree reads back and leaves exactly what followed, if and only if its texts are well-formed UTF-16 without bare control characters |
| JsonRoundTrip.ItemsRead | c/wson_parser.cpp:135-145 | the same for the elements of an array with their commas |
| JsonRoundTrip.MembersRead | c/wson_parser.cpp:119-133 | the same for the entries of a map with their keys and commas |
| JsonRoundTrip.JsonReadsBack | c/wson_parser.cpp:73-150 | printing is undone by the reader of RFC 8259, null read as the empty string, if and only if all texts are well-formed UTF-16 whose control characters are among 8, 9, 10, 12 and 13; otherwise the reader fails |
| JsonRoundTrip.BareControlFails | c/wson_util.cpp:184-210 | the text of the single unit 1 does not read back |
| JsonRoundTrip.LoneSurrogateFails | c/wson_util.cpp:168-210 | the text of a single surrogate does not read back, and the reader that takes any units gives it back |
| JsonRoundTrip.PlainTextReads | c/wson_parser.cpp:152-206 | the plain text of a string gives its units back, that of null is empty, and that of any other value JSON can carry reads back by RFC 8259 if and only if the value is clean |
| JsonRoundTrip.BothStringsRead | c/wson_parser.cpp:155-168 | an 8-bit string with the UTF-8 form of some units has the plain text of the string with those units |
| Parser.NextChunk | c/wson_parser.cpp:49-50 | returns the bytes behind their length |
| Parser.WsonParser.constructor | c/wson_parser.cpp:32-34 | a cursor at the start of the bytes, and no scratch |
| Parser.WsonParser.Unmeasured | c/wson_parser.cpp:27-30 | a cursor at the start of the bytes, whose length is taken for one mebibyte however long they are |
| Parser.WsonParser.RequireDecodingBuffer | c/wson_parser.cpp:58-70 | the scratch never shrinks, covers the request, and is replaced only when it is too small; a negative request throws when there is none |
| Parser.WsonParser.Convert | c/wson_parser.cpp:85-88 | appends the converted text, and keeps the account of the scratch |
| Parser.EmptyFirstLeaves | c/wson_parser.cpp:82-88 | printing a value whose first text is empty, as the first one, leaves the scratch |
| Parser.ItemConversionsFrom | c/wson_parser.cpp:135-145 | the scratch after an array is that after its elements one by one |
| Parser.MemberConversionsFrom | c/wson_parser.cpp:119-133 | the scratch after a map is that after its keys and values one by one |
| Parser.WsonParser.NextType | c/wson_parser.h:55-60 | the signature at the cursor; from the length on null, and the cursor stays |
| Parser.WsonParser.BackType | c/wson_parser.h:65-69 | one byte back, but not before the start |
| Parser.WsonParser.RestoreToState | c/wson_parser.h:174-176 | the cursor is where the saved state was |
| Parser.WsonParser.NextMapSize | c/wson_parser.h:122-124 | the number of entries, as a signed word |
| Parser.WsonParser.NextArraySize | c/wson_parser.h:129-131 | the number of elements, as a signed word |
| Parser.WsonParser.NextMapKeyUtf8 | c/wson_parser.cpp:48-54 | the UTF-8 form of the key at the cursor, by way of the kept scratch |
| Parser.WsonParser.SkipValue | c/wson_parser.cpp:267-314 | the cursor ends exactly behind the value, for every nested value |
| Parser.WsonParser.SkipMembers | c/wson_parser.cpp:295-303 | the cursor ends exactly behind the last entry |
| Parser.WsonParser.SkipItems | c/wson_parser.cpp:304-310 | the cursor ends exactly behind the last element |
| Parser.WsonParser.NextBool | c/wson_parser.cpp:259-265 | false for false and null only; the cursor ends behind the value |
| Parser.WsonParser.ToJson | c/wson_parser.cpp:73-150 | appends the JSON text of the value; the cursor ends behind it; the scratch is what the conversions of all its texts leave |
| Parser.WsonParser.MembersToJson | c/wson_parser.cpp:119-133 | appends the entries in braces, with commas between them only |
| Parser.WsonParser.ItemsToJson | c/wson_parser.cpp:135-145 | appends the elements in brackets, with commas between them only |
| Parser.WsonParser.NextStringUtf8 | c/wson_parser.cpp:152-206 | the plain text of any value, containers by stepping back and printing; the cursor ends behind it; the scratch is what its conversions leave |
| Parser.WsonParser.ToStringUtf8 | c/wson_parser.cpp:317-323 | the text of the whole buffer; the cursor ends where it was |
| JsEncoder.CheckDeepAndCircleReference | jsc/wson_jsc.cpp:192-202 | true if and only if the object is on the stack or the stack holds more than 40000 |
| JsEncoder.StoreLatin1 | jsc/wson_jsc.cpp:567-575 | widening in place stores the 16-bit units |
| JsEncoder.Encoder.PushLatin1 | jsc/wson_jsc.cpp:588-600 | the branch for 8-bit strings appends the same bytes as the other one |
| JsEncoder.Encoder.PushIdentifier | jsc/wson_jsc.cpp:584-605 | appends length and units of a name, however the engine keeps it |
| JsEncoder.Encoder.PushString | jsc/wson_jsc.cpp:559-582 | appends one encoded string, however the engine keeps it |
| JsEncoder.Encoder.PushNumber | jsc/wson_jsc.cpp:408-427 | appends int, long or double by the engine's own distinction |
| JsEncoder.Encoder.PushBoxedNumber | jsc/wson_jsc.cpp:458-478 | the same for a number object, other numbers as their text |
| JsEncoder.Encoder.PushJsValue | jsc/wson_jsc.cpp:396-557 | ends on every graph, appends exactly one value, its unfolding below the ancestors, and restores the stack |
| JsEncoder.Encoder.PushArray | jsc/wson_jsc.cpp:429-448 | a header that counts exactly the elements behind it, or null when cut off |
| JsEncoder.Encoder.PushElements | jsc/wson_jsc.cpp:439-445 | appends every element, after its `toJSON` under its index |
| JsEncoder.Encoder.CountSkipped | jsc/wson_jsc.cpp:505-516 | the first pass counts exactly the properties the second one does not write |
| JsEncoder.Encoder.PushObject | jsc/wson_jsc.cpp:490-536 | a header that counts exactly the members behind it, or null when cut off |
| JsEncoder.Encoder.PushProperties | jsc/wson_jsc.cpp:520-533 | appends name and value of every kept property, after its `toJSON` under its name |
| Identifiers.Hash | jsc/wson_jsc.cpp:207-213 | the loop computes the recursive hash modulo 2^32 |
| Identifiers.MakeIdentifier | jsc/wson_jsc.cpp:228-258 | returns what an uncached lookup gives and keeps the cache truthful, for any collision and any size of cache |
| Identifiers.IndexDetermines | jsc/wson_jsc.cpp:302-307 | different names never have the same index |
| Identifiers.IndexNameReads | jsc/wson_jsc.cpp:385-389 | the name of an array element, one digit or more, is read as its index |
| JsDecoder.WsonToJsValue | jsc/wson_jsc.cpp:260-354 | decodes as without a cache, from any truthful cache, and ends exactly behind the value |
| JsDecoder.ReadArray | jsc/wson_jsc.cpp:280-291 | all elements are read: the guard at the end of the buffer never cuts the loop short |
| JsDecoder.ReadObject | jsc/wson_jsc.cpp:293-313 | all members are read and put in order, by name or by index: the guard never cuts the loop short |
| JsCodec.ToWson | jsc/wson_jsc.cpp:76-103 | a new buffer that holds exactly the encoding of the unfolding, after the `toJSON` of the root |
| JsCodec.Codec.Init | jsc/wson_jsc.cpp:149-164 | cache and machine are set together, and the old cache is gone |
| JsCodec.Codec.Destroy | jsc/wson_jsc.cpp:167-185 | cache and machine are cleared together |
| JsCodec.Codec.ToJsValue | jsc/wson_jsc.cpp:108-128 | with the system cache or a local one, decodes as without; every name belongs to the machine that asked |
| JsCodec.Codec.SendAndReceive | jsc/wson_jsc.cpp:76-146 | encoding and then decoding consumes exactly the bytes written and gives the tree unfolding of the graph |
| JsCodec.Run | jsc/wson_jsc.cpp:108-185 | over any run of init, destory and decodes on several machines: answers as without a cache, no identifier crosses machines, cache and machine are set and cleared together |
| JsCodec.Perform | jsc/wson_jsc.cpp:108-185 | one step of such a run |
| JsCodec.DecodedOwned | jsc/wson_jsc.cpp:293-313 | every property name at every level belongs to the machine |
| JsCodec.LimitNeverFires | jsc/wson_jsc.cpp:192-202 | the ancestors are distinct objects, so with at most 40001 objects the depth limit never decides |
| JsCodec.NamesPut | jsc/wson_jsc.cpp:297-311 | putting the unfolded members leaves exactly the kept names, in order, and the kept indices |
| JsCodec.OthersStay | jsc/wson_jsc.cpp:302-307 | what stands under a name that no member has stays |
| JsCodec.PropertiesPut | jsc/wson_jsc.cpp:297-311 | every kept property is there with its own value |
| JsCodec.SurvivorThere | jsc/wson_jsc.cpp:505-533 | a property that holds null, a boolean, a number, a string, a symbol or an object that is no function is there, with the value that stands under its name |
| JsCodec.CutExactly | jsc/wson_jsc.cpp:192-202 | an array or object comes back as null if and only if it is one of its own ancestors or has more than 40000; with at most 40001 objects the first alone |
| JsCodec.UnfoldingMirrors | jsc/wson_jsc.cpp:396-557 | at every depth of the walk, decoding after encoding gives the tree unfolding |
| JsCodec.ArrayMirrors | jsc/wson_jsc.cpp:429-448 | arrays keep length and order, undefined and functions become null |
| JsCodec.ObjectMirrors | jsc/wson_jsc.cpp:503-533 | objects keep, in order, exactly the properties that hold neither undefined nor a function |
| JsCodec.DecodeUndoesEncode | jsc/wson_jsc.cpp:260-557 | for every heap, cycles and sharing included, what comes back is the unfolding said without the encoder: properties by what they hold, in order, and null for one's own ancestors; with at most 40001 objects for nothing else |
| JsCodec.BoxedNumberBack | jsc/wson_jsc.cpp:458-478 | a number object comes back as a number exactly when its number is an integer |
| JsInjective.DecodedAlike | jsc/wson_jsc.cpp:260-354 | values without repeated names that decode to the same tree differ in integer width, text kind and the places of index names alone |
| JsInjective.MemberThere | jsc/wson_jsc.cpp:297-311 | every member whose name comes once is there with its value |
| JsInjective.NamesInOrder | jsc/wson_jsc.cpp:302-307 | the names that are no indices stand in the order of the members |
| CrossCodec.RuntimeReadsJavaScript | jsc/wson_for_runtime.cpp:43-138 | what the runtime reads of any graph the JavaScript side wrote shows that graph: integers beyond 32 bits as doubles, maps with the surviving properties in order |
| CrossCodec.ReadingShows | jsc/wson_for_runtime.cpp:43-138 | the same at every depth |
| CrossCodec.OtherSignatures | jsc/wson_for_runtime.cpp:47-65 | an 8-bit string is read as its bytes, and every kind of text as its UTF-8 form |
| DomBuilder.NextText | jsc/dom_wson.cpp:69-75 | the plain text of the value, the cursor behind it; from the length on the empty text, and the cursor stays |
| DomBuilder.SkipNext | jsc/dom_wson.cpp:133 | the cursor ends behind the value; from the length on it stays |
| DomBuilder.NextSignature | jsc/dom_wson.cpp:82-83 | the signature of what is seen of the value, with a container's count and entries behind it |
| DomBuilder.ApplyPairs | jsc/dom_wson.cpp:84-102 | applies every attribute, or style, in order; the cursor ends behind the map |
| DomBuilder.ApplyEvents | jsc/dom_wson.cpp:110-116 | applies every event that is not empty, in order |
| DomBuilder.ApplyChildren | jsc/dom_wson.cpp:124-127 | adds every child with its index in the stream |
| DomBuilder.ApplyEntry | jsc/dom_wson.cpp:81-131 | dispatches on the key; the cursor ends behind the value |
| DomBuilder.BuildFirstPass | jsc/dom_wson.cpp:66-135 | the first pass follows the step function and ends exactly at the end of the object |
| DomBuilder.BuildEntry | jsc/dom_wson.cpp:67-134 | one entry of the first pass, applied or passed over; from the length on it counts as null and the cursor stays |
| DomBuilder.TypeBeyondIsLost | jsc/dom_wson.cpp:74-80 | a type whose signature lies at the length or behind it is lost |
| DomBuilder.BuildSecondPass | jsc/dom_wson.cpp:140-195 | the second pass applies every entry in stream order and ends exactly at the end of the object |
| DomBuilder.ReapplyEntry | jsc/dom_wson.cpp:143-193 | one entry of the second pass; from the length on it counts as null |
| DomBuilder.Build | jsc/dom_wson.cpp:49-203 | on every path the cursor ends exactly behind a value that lies before the length, and the render objects are those of the two passes |
| DomTheorems.PassAfterType | jsc/dom_wson.cpp:66-135 | once the type is known, the rest is applied completely or not at all |
| DomTheorems.NeverSplit | jsc/dom_wson.cpp:66-135 | the first pass has applied every entry or none, none exactly when such an entry came before the type |
| DomTheorems.BuiltOnce | jsc/dom_wson.cpp:49-203 | a typed object gives one render object on which every attribute, style, event and child was applied exactly once, in stream order, wherever the type stands |
| DomTheorems.UntypedBuildsNothing | jsc/dom_wson.cpp:66-135 | without a type nothing is built |
| DomTheorems.MadeAtMostOnce | jsc/dom_wson.cpp:49-203 | with at most one type, one render object for an object that has it and none for any other value |
| DomTheorems.PairsLeft | jsc/dom_wson.cpp:84-102 | the attribute or style calls leave the last value of each name |
| DomTheorems.EventsLeft | jsc/dom_wson.cpp:110-116 | the event calls leave the set of names |
| DomTheorems.ItemsLeft | jsc/dom_wson.cpp:124-127 | children added at their index in the stream come in stream order, without those that are dropped |
| DomTheorems.StreamLeft | jsc/dom_wson.cpp:140-195 | the calls of a whole stream leave the last value of every name, all events, and the children in order |
| DomTheorems.BuiltParts | jsc/dom_wson.cpp:49-203 | the tree returned for a typed object, part by part |
| DomTheorems.CollectLeft | jsc/dom_wson.cpp:228-287 | what the collecting reader gathers, part by part: the first value of every name, all events and children |
| DomTheorems.OwnLeft | jsc/dom_wson.cpp:373-414 | what the generator gathers, part by part: the last value of every name and all events |
| DomTheorems.FirstStays | jsc/dom_wson.cpp:241-253 | inserting keeps the first text of a name |
| DomTheorems.LastStays | jsc/dom_wson.cpp:386-396 | assigning keeps the last text of a name |
| DomTheorems.FirstIsLast | jsc/dom_wson.cpp:241-253 | keeping the first text of every name and keeping the last give the same map if and only if both are equal for every name |
| DomAgreement.ItemsExactly | jsc/dom_wson.cpp:273-280 | the two lists of children are equal if and only if every child is agreeable |
| DomAgreement.PartsExactly | jsc/dom_wson.cpp:271-283 | the same for the children entry of an object |
| DomAgreement.BuildersAgreeExactly | jsc/dom_wson.cpp:49-317 | for objects with at most one type and one children entry, both readers return the same, a tree or nothing, if and only if every object reached has a type and names whose first and last texts are equal, for every order of the keys |
| DomAgreement.BuildersAgree | jsc/dom_wson.cpp:49-317 | both readers make the same tree of every typed tree with unique keys, for every order of the keys at every level |
| DomAgreement.UntypedDiffer | jsc/dom_wson.cpp:289-290 | without a type one reader returns nothing and the other a node with an empty type |
| DomAgreement.DuplicateNamesDiffer | jsc/dom_wson.cpp:236-256 | any object with a name, among attributes or styles, whose first and last texts differ tells the readers apart |
| DomAgreement.TwiceInOneMap | jsc/dom_wson.cpp:236-242 | the smallest such object |
| DomAgreement.InsertedBetween | jsc/dom_wson.cpp:124-127 | children inserted at running indices stand between what was before and behind |
| DomAgreement.SecondListFirst | jsc/dom_wson.cpp:121-127 | with two children entries, of which the second drops nothing, one reader puts the whole second list first and the other last |
| DomCollector.ReadPairs | jsc/dom_wson.cpp:236-242 | gathers attributes or styles, the first value of a name staying |
| DomCollector.ReadEvents | jsc/dom_wson.cpp:260-267 | gathers the events that are not empty, in order |
| DomCollector.ReadChildren | jsc/dom_wson.cpp:273-280 | gathers the trees of the children that are objects, in order |
| DomCollector.Gather | jsc/dom_wson.cpp:219-287 | gathers all fields; the cursor ends exactly behind the object |
| DomCollector.GatherEntry | jsc/dom_wson.cpp:229-286 | one entry of that loop; from the length on it counts as null and the cursor stays |
| DomCollector.HandPairs | jsc/dom_wson.cpp:293-299 | in whatever order the map is walked, attributes or styles become the map |
| DomCollector.HandEvents | jsc/dom_wson.cpp:301-303 | the events become the set of the list |
| DomCollector.HandChildren | jsc/dom_wson.cpp:305-309 | the children become the list |
| DomCollector.BuildNew | jsc/dom_wson.cpp:207-317 | the tree of the gathered fields, none for what is no map; the cursor ends exactly behind the value |
| DomGenerator.PutPairs | jsc/dom_wson.cpp:382-387 | gathers attributes or styles, the last value of a name staying |
| DomGenerator.PutEvents | jsc/dom_wson.cpp:402-408 | gathers the set of events that are not empty |
| DomGenerator.EndsRightExactly | jsc/dom_wson.cpp:354-444 | the bytes taken are all bytes of the value if and only if it ends right: no opened node has a `children` that is no array, unless without payload in last place, and no other node an attribute, style or event of the wrong shape with a payload |
| DomGenerator.OwnEndExactly | jsc/dom_wson.cpp:373-414 | the same for the first pass over one object |
| DomGenerator.ShapedEndsRight | jsc/dom_wson.cpp:354-444 | maps for attributes and styles and arrays for events and children suffice, whichever nodes are named |
| DomGenerator.WrongChildrenEndEarly | jsc/dom_wson.cpp:424-433 | a named node with a `children` that is no array and has a payload is not read to its end |
| DomGenerator.WrongAttributeEndsEarly | jsc/dom_wson.cpp:379-389 | an object of one attribute entry of the wrong shape with a payload is in step and is not read to its end |
| DomGenerator.GatherOwn | jsc/dom_wson.cpp:371-414 | the first pass gathers everything but the children, passes over children of any shape, and ends behind the object, or behind the signature of a last entry of the wrong shape |
| DomGenerator.OwnEntry | jsc/dom_wson.cpp:374-413 | one entry of that loop, of any shape: of an attribute, style or event of the wrong shape only the signature is read |
| DomGenerator.GenerateChildren | jsc/dom_wson.cpp:420-437 | the second pass emits the callbacks of the children up to a `children` that is no array, and ends behind the object or behind that signature |
| DomGenerator.GenerateEntry | jsc/dom_wson.cpp:423-436 | one entry of that loop; it ends the loop exactly on a `children` that is no array |
| DomGenerator.GenerateItems | jsc/dom_wson.cpp:427-430 | the callbacks of each child, with its parent's reference and its index |
| DomGenerator.Generate | jsc/dom_wson.cpp:354-444 | the callbacks of the value, whose order and selection DomPreorder states; the cursor ends exactly behind it if and only if it ends right |
| DomPreorder.GeneratorFollowsDocument | jsc/dom_wson.cpp:354-444 | for every value: one callback, in order, for each object of the document that has a type and a reference and whose ancestors all do, with its parent's reference and its array index, if and only if nothing is cut off; otherwise a part of these, in order |
| DomPreorder.OnceIsUncut | jsc/dom_wson.cpp:422-437 | with at most one children entry in every object nothing is cut off |
| DomPreorder.CutOffDiffers | jsc/dom_wson.cpp:426-433 | a named child in an array behind a `children` that is no array is not called back |
| DomPreorder.SitesUnwanted | jsc/dom_wson.cpp:416-443 | below an ancestor without type or reference no object is wanted |
| DomPreorder.SitesCalled | jsc/dom_wson.cpp:416-443 | below named ancestors the callbacks are the wanted objects if and only if nothing is cut off, and always a part of them, in order |
| DomPreorder.OwnExactly | jsc/dom_wson.cpp:373-414 | a callback carries the last reference and type, the last text of every name and all events |
| DomPreorder.GeneratorFollowsTree | jsc/dom_wson.cpp:354-444 | for objects with at most one type and one children entry, the callbacks are the preorder of the tree the one-pass builder makes of the same bytes if and only if every object that is built is named and no children array has something dropped before something built |
| DomPreorder.GapDiffers | jsc/dom_wson.cpp:427-430 | a child behind a dropped one tells callbacks and tree apart |
| DomPreorder.NotLonger | jsc/dom_wson.cpp:416-443 | there are never more callbacks than nodes of the tree |
| DomPreorder.SameFields | jsc/dom_wson.cpp:373-414 | the node that is built has the fields the generator gathers |
| DomPreorder.MembersExactly | jsc/dom_wson.cpp:422-437 | the callbacks of the second pass are the preorder of the children built if and only if those are followable |
| DomPreorder.ItemsExactly | jsc/dom_wson.cpp:427-430 | the same for one children array; where the index is ahead of the position, only when nothing more is built |
| DomKeys.ComparesSpelling | jsc/dom_wson.cpp:67-68 | the comparison of a key with a name is one of characters, up to the first zero |
| DomKeys.CStringOfUtf8 | jsc/dom_wson.cpp:67-68 | cutting the UTF-8 form at its first zero byte is cutting the units at the first zero |
| DomKeys.KeysMean | jsc/dom_wson.cpp:68-134 | a key acts as a field if and only if it is spelled "ref", "type", "attr", "style", "event" or "children" |
| DomKeys.BuilderReadsNames | jsc/dom_wson.cpp:49-203 | in every order of keys: a tree if and only if a key is spelled "type"; its type, reference, attributes, styles, events and children come from the entries under those names |
| DomKeys.CollectorReadsNames | jsc/dom_wson.cpp:207-317 | the same for the collecting reader, with the first text of every name |
| DomKeys.GeneratorReadsNames | jsc/dom_wson.cpp:354-444 | the same for the callback of an object; there is one if and only if the last texts under "type" and "ref" are not empty |
| DomEntry.Wson2RenderObject | jsc/dom_wson.cpp:320-332 | nothing without data; else the tree of the chosen builder, which on agreeable values is the same for both |
| DomEntry.Wson2Pairs | jsc/dom_wson.cpp:334-352 | the entries of a map in order, repeated names included; nothing for what is no map |
| DomEntry.PairsInOrder | jsc/dom_wson.cpp:343-349 | the pair at each place is the text of the key and of the value there |
| DomEntry.ReadAll | jsc/dom_wson.cpp:343-349 | the loop of that |
| DomEntry.WsonGenerate | jsc/dom_wson.cpp:446-452 | the callbacks of a whole document |
| Runtime.PushMapKey | jsc/wson_for_runtime.cpp:164-169 | appends length and units of a key |
| Runtime.PushString | jsc/wson_for_runtime.cpp:156-162 | appends one encoded string |
| Runtime.PutValues | jsc/wson_for_runtime.cpp:172-222 | appends exactly the bytes of the value, for every value; none for a function or an object outside maps |
| Runtime.WritesTheValue | jsc/wson_for_runtime.cpp:172-222 | when functions and objects occur in maps only, these bytes are one encoded value |
| Runtime.WritesExactly | jsc/wson_for_runtime.cpp:172-222 | for every value: the bytes are the encoding of the value, functions and objects outside maps read as null, if and only if there are none; otherwise they are fewer |
| Runtime.FallsShort | jsc/wson_for_runtime.cpp:219-221 | at every level, each function or object outside maps leaves the bytes short |
| Runtime.HolesAreNoValue | jsc/wson_for_runtime.cpp:191-221 | an array of encodable values, functions and objects is written as any WSON value at all if and only if it has no function and no object |
| Runtime.PutArray | jsc/wson_for_runtime.cpp:191-198 | a header that counts all elements, and what is written for each |
| Runtime.PutMap | jsc/wson_for_runtime.cpp:199-218 | a header that counts exactly the entries behind it |
| Runtime.CountSkipped | jsc/wson_for_runtime.cpp:202-209 | the first walk counts exactly the entries the second one does not write |
| Runtime.PutEntries | jsc/wson_for_runtime.cpp:211-218 | appends key and value of every entry that is not dropped |
| Runtime.Wson16ToString | jsc/wson_for_runtime.cpp:33-39 | the UTF-8 form of the units in the bytes; its array has room for it exactly when the text is not empty and below 2^29 units |
| Runtime.EmptyStringLeaves | jsc/wson_for_runtime.cpp:33-39 | an empty string does not fit |
| Runtime.ConvertWson | jsc/wson_for_runtime.cpp:43-138 | the runtime value of the encoding at the cursor, which ends exactly behind it; every conversion stays inside its array if and only if no UTF-16 text, key or string, is empty or of 2^29 units or more |
| Runtime.ReadArray | jsc/wson_for_runtime.cpp:66-79 | all elements are read: the guard never cuts the loop short; and whether their texts fit |
| Runtime.ReadMap | jsc/wson_for_runtime.cpp:81-100 | all entries are read and inserted in order: the guard never cuts the loop short; and whether keys and texts fit |
| Runtime.StringBack | jsc/wson_for_runtime.cpp:33-39 | a host that decodes well-formed UTF-8 gives every well-formed string back |
| Runtime.RuntimeRoundTrip | jsc/wson_for_runtime.cpp:43-222 | decoding undoes encoding up to the entries maps drop and undefined read as null, for distinct keys and well-formed UTF-8; for which of them the conversions stay inside, ConvertWson says |
| Runtime.SentComesBack | jsc/wson_for_runtime.cpp:43-222 | what comes back, by constructors alone: the same scalars, arrays of the same length with undefined as null, and of maps the carried entries in order |
| Runtime.MapComesBack | jsc/wson_for_runtime.cpp:199-218 | of every entry sent, the key comes back if and only if it holds an int, a double, a bool, a string, an array or a map, with that value; no other key does |
| Runtime.EntryCarried | jsc/wson_for_runtime.cpp:199-218 | the same for any two lists of entries of which one is what should come back for the other |
| Runtime.EncodeAgain | jsc/wson_for_runtime.cpp:172-222 | what comes back stands for the same WSON value |
| Runtime.SameBytes | jsc/wson_for_runtime.cpp:43-222 | encoding, decoding and encoding again gives the bytes of the first encoding |

## Left out

- Input that is truncated or ill formed: readers are given well-formed values, shorter than 2^31 bytes, as the
  source's `int` lengths need. Content stays below 0x7FFF0000 bytes, so that no position or length wraps.
- The signature `b` (`c/wson.c:225-232`), which no reader knows.
- What happens to memory when a conversion leaves its array: the model notes that it does. The readers of render trees
  use the scratch of their parser, but what it is after them is not stated.
- DomBuilder.Build, DomCollector.BuildNew, DomGenerator.Generate: documents that go beyond the length the parser
  believes are not modelled past the first entry that does, since what follows is read from inside a value.
- `nextNumber` of the parser, with `strtod`; printing floats and doubles; and, for JSON, 8-bit strings, which are
  printed without quotes.
- Side effects of `toJSON` and of reading a property: both give the same each time and change nothing.
- How the engine makes numbers and 8-bit strings of what was decoded (`jsNumber`, `String::fromUTF8`); memory
  management.
- The render objects' page, default styles and attributes. A child is added to its parent when its own reading is
  over, where the source adds it at its type and fills it later; the calls on the parent come in the same order.
- DomAgreement.BuildersAgreeExactly: for objects with more than one children entry or type it gives
  `DomAgreement.SecondListFirst` only; keys that are unique up to their first zero byte exclude both.
- DomGenerator.InStep: after an attribute, style or event value of the wrong shape with a payload that is not the last
  entry, or after a node that did not end right with more to read behind it, the source reads on from inside a value;
  what it reads there is not modelled.
- Older copies of the code (`aversions/0.1`, `io/wson`, `jsc/wsonjsc.cpp`), tools and tests.
