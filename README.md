# embedded-json in Dafny

A model of the core of embedded-json, a small JSON library for Arduino-class
targets. The model covers:

- the containers of `amap.h`: `AList`, a growable array, and `AMap`, a
  string-keyed map kept as a list of key/value slots with tombstones;
- the dynamically typed `Json::Value` of `types.h`;
- the deep copy `clone` of `Json::Object` and `Json::Array`;
- the character stream of `json.h`/`json.cpp`, with its one-character
  push-back, over a C string;
- the recursive-descent parser of `parse.cpp` and `parseNumber`;
- the printer of `encode.cpp`, with `Json::dump` into a caller's buffer.

## Layout

- `base.dfy` (module `Base`): bytes, signed `char`, 32-bit wrap-around and C
  strings.
- `amap.dfy` (module `Containers`):
  - `AList` is a class over an `array` that doubles when full.
  - `AMap` is a class holding an `AList` of `Slot`s.
  - Each map operation is proved against a function of the slot sequence:
    `Find` and `Claim` for `get_create`, `Assign` for `set`, `Tombstone`
    for `remove`.
  - The invariant `KeysOrdered` says no slot before a live slot has its key.
    `get_create` and `remove` preserve it, and it is what makes `remove`,
    which ignores the `valid` flag, hit the live slot of a key.
- `types.dfy` (module `JsonTypes`):
  - `Value` is a datatype whose array and object variants refer to the
    heap classes `JArray` and `JObject`.
  - Each heap value denotes a pure tree `Json` through the ghost fields
    `Items` and `Slots`.
  - `Tree()` says no container is shared.
  - `Clone` is proved to leave the receiver and the returned copy as two
    disjoint, well-formed trees with the receiver's old content, the copy
    holding the old slots.
- `parse_spec.dfy` (module `ParseSpec`):
  - The parser as functions of the characters the stream will still
    deliver: the pushed-back character, then the unread input, each byte
    read through a signed `char`.
  - `Parsed` carries the return code, the rest of the stream and the tree
    the target `Value` denotes.
  - `Undefined` marks inputs the model does not follow. Those are the
    inputs on which the C++ has undefined behaviour (a string that
    overflows the buffer, a missing key), and keys of 64 bytes or more.
- `stream.dfy` (module `Streams`):
  - `StringStream` is `aJsonStringStream`, a class whose fields are the
    stream's state.
  - Every parser routine is a method that builds arrays and objects on the
    heap. Each is proved to return what the function of the same name in
    `ParseSpec` says, and to build a value denoting that tree.
- `encode.dfy` (module `Encode`):
  - `Render` and `Count` are the text and the count `Json::print` produces
    for a tree.
  - The printing routines are methods proved to produce exactly those.
  - `JsonDumper` is a class over the caller's array; `Dump` writes into it.
- `roundtrip.dfy` (module `RoundTrip`): printing a tree, then parsing the
  text, gives back the same tree (`PrintThenParse`). This holds for trees
  that meet all of these conditions:
  - no float and no invalid value;
  - strings shorter than 256 bytes and keys shorter than 64, made of
    printable ASCII or the control characters `printStringPtr` names;
  - objects whose slots are all live, with distinct keys.

## Behaviour of the source the model makes explicit

- An unknown escape such as `\q` leaves a zero in the string buffer, so
  `"a\qb"` parses as `a`: whatever comes after an unknown escape is lost
  (`RoundTrip.UnknownEscapeTruncates`).
- A quote with nothing after it returns 0 and leaves the target unchanged
  (`LoneQuote`).
- A lone `-` followed by a non-digit parses as the integer 0
  (`LoneMinusIsZero`).
- `printObject` tests only `isInvalid()`:
  - a removed (tombstone) slot is still printed (`TombstoneIsPrinted`);
  - with `isInvalid()` working as meant (an unsigned `char`, or the
    corrected test), an invalid first slot leaves the text starting with
    `{,` (`LeadingComma`, `InvalidSlotSkipped`);
  - as written on a signed-`char` target, no slot is skipped, and an
    invalid value leaves its key with no value: `{"a":,"b":null}`
    (`SlotAsWrittenNeverSkips`, `InvalidSlotAsWritten`).
- `printStringPtr` adds 2 to its count for every escaped byte, even when it
  prints only the backslash (`EscapedCountOvercounts`).
- A byte 0xFF in the input reads as `EOF` (`UngetchUndoesGetch`).

## Model

| member | source | states |
|---|---|---|
| Base.Signed | types.h:110 | a byte stored in the `char` field: values up to 127 are kept and higher ones become negative (byte - 256) |
| Base.Unsigned | parse.cpp:147 | storing a `char` back into a byte buffer is the inverse of `Signed` |
| Base.Wrap32 | json.cpp:252 | the 32-bit `int` result is congruent to the exact value modulo 2^32 and equal to it when it fits |
| Base.StrLen | json.h:127 | `strlen`: the index of the first zero byte, with no zero before it |
| Base.CString | types.h:48-57 | the C string a buffer holds is the prefix before its first zero |
| Base.CStringIsPrefix | types.h:50-55 | a buffer whose first zero is at `n` holds exactly its first `n` bytes as a C string |
| Containers.AList.constructor | amap.h:21-29 | a new list has capacity 10 and no elements |
| Containers.AList.Copy | amap.h:11-20 | the copy has a fresh buffer with the same capacity, count and contents |
| Containers.AList.Append | amap.h:37-46 | contents gain the value at the end; the capacity doubles exactly when the list was full |
| Containers.AList.Get | amap.h:47-49 | `get(i)` is element `i` of the contents |
| Containers.AList.Put | amap.h:47-49 | storing through `get(i)` replaces element `i` and nothing else |
| Containers.AList.Size | amap.h:56 | `size()` is the number of elements |
| Containers.Find | amap.h:83-88 | the first live slot with the key; none exactly when no live slot has it |
| Containers.FindAny | amap.h:91-97 | the first slot with the key, live or not; none exactly when no slot has it |
| Containers.FirstTombstone | amap.h:124-129 | the first slot that is not live; none exactly when all are live |
| Containers.AMap.constructor | amap.h:76 | a new map has no slots |
| Containers.AMap.Copy | amap.h:75 | the copy has fresh storage and the same slots |
| Containers.AMap.Get | amap.h:82-89 | `get(key)` designates the first live slot with the key, or none |
| Containers.AMap.Has | amap.h:99-101 | `has(key)` holds exactly when some live slot has the key |
| Containers.AMap.HasInt | amap.h:102-106 | `has(int)` looks up the decimal text of the integer |
| Containers.AMap.GetCreate | amap.h:118-135 | the live slot for the key if any, else the first tombstone is reused, else a slot is appended; the key order invariant is kept |
| Containers.AMap.GetCreateInt | amap.h:113-117 | `get_create(int)` claims the slot for the decimal text of the integer |
| Containers.AMap.Set | amap.h:78-81 | the new slots are `Assign` of the old: the claimed slot receives the value |
| Containers.AMap.Remove | amap.h:90-98 | the first slot with the key, live or not, becomes a tombstone and its index is returned; none when no slot has the key |
| Containers.Digits | amap.h:104 | the decimal digits of a number: at least one digit, no leading zero |
| Containers.Pow10Grows | amap.h:104 | powers of ten grow with the exponent |
| Containers.DigitsAreShort | amap.h:103-104 | any 32-bit magnitude has at most 10 digits, so `itoa` fits the 64-byte key buffer |
| Containers.ClaimKeepsOrder | amap.h:118-135 | `get_create` keeps the invariant that no slot before a live slot has its key |
| Containers.AssignKeepsOrder | amap.h:78-81 | `set` keeps the key order invariant |
| Containers.TombstoneKeepsOrder | amap.h:90-98 | `remove` keeps the key order invariant |
| Containers.AssignDisturbsNothing | amap.h:78-81 | `set` writes a live slot with the key and value at the claimed index and leaves every other slot as it was |
| Containers.AssignThenLookup | amap.h:78-89 | after `set(key, v)`, `get(key)` finds `v` |
| Containers.AssignKeepsOthers | amap.h:78-89 | `set(key, v)` does not change what `get` finds for any other key |
| Containers.SameLiveSlotsSameFind | amap.h:82-89 | lookup depends only on which slots are live with the key |
| Containers.ClaimDisturbsNothing | amap.h:118-135 | `get_create` yields a live slot with the key, grows the list by one only when neither the key nor a tombstone was found, and changes no other slot |
| Containers.TombstoneThenLookup | amap.h:82-98 | after `remove(key)` on a well-ordered map, `get(key)` finds nothing and other keys are unaffected |
| Containers.RemoveTwiceFindsTombstone | amap.h:90-98 | a second `remove` of the same key designates the same slot again, because the tombstone still carries the key |
| JsonTypes.TagDecidesVariant | types.h:70-85 | each `is*` test holds exactly for its own variant, `isInvalid` included |
| JsonTypes.AsBool | types.h:71 | 1 or 0 for a boolean, 0 for any other tag |
| JsonTypes.AsInt | types.h:77 | the integer for an int, 0 otherwise |
| JsonTypes.AsFloat | types.h:73 | the number for a float, zero otherwise |
| JsonTypes.AsString | types.h:79 | the string for a string, NULL otherwise |
| JsonTypes.AsArray | types.h:83 | the array an array value refers to |
| JsonTypes.AsObject | types.h:81 | the object an object value refers to |
| JsonTypes.FromUint | types.h:45 | `Value(uint)` is an int holding the unsigned number wrapped to 32-bit signed |
| JsonTypes.MakeInvalid | types.h:86-90 | `invalid()` has tag 255 and is not null |
| JsonTypes.FromCString | types.h:48-57 | `Value(char*)` is a string holding a copy of the C string up to its terminator |
| JsonTypes.FreeParsed | types.h:91-109 | only string, array and object values release storage, and exactly their own payload |
| JsonTypes.InvalidNeverDetected | types.h:85 | with a signed `char` tag, the test as written fails for every value, `invalid()` included |
| JsonTypes.Scalar | types.h:43-69 | every tree without containers is denoted by a value with no heap reference |
| JsonTypes.JArray.constructor | types.h:34 | a new array is empty and well formed |
| JsonTypes.JArray.Append | amap.h:37-46 | appending a value adds the tree it denotes at the end of the array's items |
| JsonTypes.JArray.Copy | types.h:33 | the copy constructor shares the element values and has the same items |
| JsonTypes.JArray.Clone | json.cpp:70-81 | both the receiver and the returned copy are well-formed disjoint trees with the old items; the copy holds the old elements; each receiver element is renewed, with fresh containers |
| JsonTypes.JArray.Rebuild | json.cpp:72-80 | the loop after the copy constructor leaves both arrays well formed, disjoint and with the old items |
| JsonTypes.JArray.Finish | json.cpp:72-80 | the same, given the per-element footprints |
| JsonTypes.JArray.Adopt | json.cpp:80 | after the loop, receiver and copy are each a well-formed tree with the old items, and their footprints are disjoint |
| JsonTypes.JArray.CloneElements | json.cpp:72-79 | the loop replaces every array or object element by a fresh clone denoting the same tree and keeps other elements |
| JsonTypes.JArray.CloneElement | json.cpp:73-78 | one round replaces only element `i`, by a renewed value denoting the same tree |
| JsonTypes.JArray.CloneArrayAt | json.cpp:73-74 | an array element is replaced by a fresh clone denoting the same tree, disjoint from the original |
| JsonTypes.JArray.CloneObjectAt | json.cpp:75-76 | an object element is replaced by a fresh clone denoting the same tree, disjoint from the original |
| JsonTypes.JObject.constructor | types.h:22 | a new object has no slots |
| JsonTypes.JObject.Set | amap.h:78-81 | the object's slots become `Assign` of the old slots with the tree the value denotes |
| JsonTypes.JObject.Copy | types.h:21 | the copy constructor shares the slot values and has the same slots |
| JsonTypes.JObject.Clone | json.cpp:57-68 | both receiver and returned copy are well-formed disjoint trees with the old slots; the copy holds the old slot values; the receiver's slot layout is kept and each value is renewed, with fresh containers |
| JsonTypes.JObject.Rebuild | json.cpp:59-67 | the loop after the copy constructor leaves both objects well formed, disjoint and with the old slots |
| JsonTypes.JObject.Finish | json.cpp:59-67 | the same, given the per-slot footprints |
| JsonTypes.JObject.CloneSlots | json.cpp:59-66 | the loop visits every slot, tombstones included, keeps keys and flags, and replaces every array or object value by a fresh clone of the same tree |
| JsonTypes.JObject.CloneSlot | json.cpp:60-65 | one round changes only the value of slot `i`, to a renewed value denoting the same tree |
| JsonTypes.JObject.CloneArraySlot | json.cpp:60-61 | an array value is replaced by a fresh clone denoting the same tree, disjoint from the original |
| JsonTypes.JObject.CloneObjectSlot | json.cpp:62-63 | an object value is replaced by a fresh clone denoting the same tree, disjoint from the original |
| JsonTypes.JObject.Adopt | json.cpp:67 | after the loop, receiver and copy are each a well-formed tree with the old slots, with disjoint footprints |
| JsonTypes.ClaimFollowsShape | amap.h:118-135 | `get_create` picks the same index in two slot lists with the same keys and flags |
| Streams.Widen | json.cpp:209 | input bytes read as signed `char`s, one for one |
| Streams.StringStream.constructor | json.h:124-128 | the input is the C string `inbuf` holds (none for NULL); nothing is pushed back or written |
| Streams.StringStream.Available | json.cpp:188-194 | true exactly when a character is pushed back or input is left |
| Streams.StringStream.Getch | json.cpp:196-212 | the pushed-back character, else the next input byte as a signed `char`, else `EOF`; the stream advances by one |
| Streams.StringStream.Ungetch | json.cpp:142-146 | the character goes back in front of the stream, `EOF` meaning none |
| Streams.StringStream.Write | json.cpp:214-224 | with more than one byte of room, the byte is stored, a terminator follows and 1 is returned; otherwise nothing changes and 0 is returned |
| Streams.StringStream.ReadBytes | json.cpp:154-167 | `readBytes` copies characters until `len` bytes or `EOF`, as `ParseSpec.ReadBytes` says |
| Streams.StringStream.Skip | parse.cpp:16-29 | `skip` consumes blanks as `ParseSpec.Skip` says |
| Streams.StringStream.Flush | parse.cpp:34-42 | `flush` reads up to and including the first `EOF` |
| Streams.StringStream.ParseNumber | json.cpp:227-305 | `parseNumber` consumes and returns what `ParseSpec.ParseNumber` says |
| Streams.StringStream.Number | json.cpp:249-304 | the number after the optional sign, as `ParseSpec.Number` says |
| Streams.StringStream.IntegerPart | json.cpp:249-256 | the integer digit loop, as `ParseSpec.IntPart` says |
| Streams.StringStream.IntegerDigits | json.cpp:250-255 | the do-while over digits with 32-bit wrap-around, as `ParseSpec.IntDigits` says |
| Streams.StringStream.FloatPart | json.cpp:263-300 | the fraction and exponent, as `ParseSpec.FloatPart` says |
| Streams.StringStream.Exponent | json.cpp:279-296 | the exponent sign and digits, as `ParseSpec.Exponent` says |
| Streams.StringStream.FractionDigits | json.cpp:271-277 | the fraction do-while loop, as `ParseSpec.FracDigits` says |
| Streams.StringStream.ExponentDigits | json.cpp:291-295 | the exponent digit loop, as `ParseSpec.ExpDigits` says |
| Streams.StringStream.ParseString | parse.cpp:130-197 | `parseString` consumes and returns what `ParseSpec.ParseString` says |
| Streams.StringStream.StringChars | parse.cpp:141-194 | the outer and inner loops of `parseString`, as `ParseSpec.StringBody` says |
| Streams.StringStream.StringStep | parse.cpp:143-190 | one round of the inner loop either ends with `EOF` or continues as `ParseSpec.StringBody` says, consuming input |
| Streams.StringStream.StoreChar | parse.cpp:145-185 | the byte stored for a plain character or a known escape, nothing for an unknown one |
| Streams.StringStream.ParseValue | parse.cpp:46-127 | `parseValue` returns the code, leaves the stream and builds a fresh value denoting the tree that `ParseSpec.ParseValue` gives |
| Streams.StringStream.Dispatch | parse.cpp:58-126 | the choice of parser by the first character, as `ParseSpec.Dispatch` says |
| Streams.StringStream.ParseLiteral | parse.cpp:76-124 | `null`, `true`, `false` read through `readBytes` and compared |
| Streams.StringStream.ParseArray | parse.cpp:201-238 | `parseArray` builds a fresh array holding exactly the trees `ParseSpec.ParseArray` gives |
| Streams.StringStream.ArrayContents | parse.cpp:207-237 | the empty-array check and the element loop |
| Streams.StringStream.Elements | parse.cpp:218-237 | the do-while over elements appends each parsed value |
| Streams.StringStream.Element | parse.cpp:219-229 | one round, continuing on a comma with less input left |
| Streams.StringStream.ElementValue | parse.cpp:220-226 | a successfully parsed element is appended, and nothing is on failure |
| Streams.StringStream.AfterElement | parse.cpp:227-237 | after an element: comma continues, `]` ends with 0, anything else `EOF` |
| Streams.StringStream.ParseObject | parse.cpp:242-297 | `parseObject` builds a fresh object holding exactly the slots `ParseSpec.ParseObject` gives |
| Streams.StringStream.ObjectContents | parse.cpp:250-296 | the empty-object check and the member loop |
| Streams.StringStream.Members | parse.cpp:261-296 | the do-while over members stores each member with `set` semantics |
| Streams.StringStream.MemberRound | parse.cpp:262-287 | one round, continuing on a comma with less input left |
| Streams.StringStream.MemberKey | parse.cpp:263-268 | the key string, or `EOF` |
| Streams.StringStream.AfterKey | parse.cpp:269-277 | the colon between key and value |
| Streams.StringStream.Member | parse.cpp:278-287 | the value of a member, then the rest of the round |
| Streams.StringStream.MemberValue | parse.cpp:278-284 | on success the object's slots become `Assign(old slots, key, value)`; on failure they are unchanged |
| Streams.StringStream.AfterMember | parse.cpp:285-296 | after a member: comma continues, `}` ends with 0, anything else `EOF` |
| Streams.Parse | parse.cpp:6-13 | `Json::parse` returns a fresh value denoting the tree `ParseSpec.Parse` gives |
| ParseSpec.Cleared | parse.cpp:137-138 | the string buffer is 256 zero bytes |
| ParseSpec.Getch | json.cpp:196-212 | the first character and the rest, or `EOF` on an exhausted stream |
| ParseSpec.UngetchUndoesGetch | json.cpp:142-146 | pushing back the character just read restores the stream, except after a 0xFF byte read as `EOF` |
| ParseSpec.Skip | parse.cpp:16-29 | returns 0 with a non-blank first character left, or `EOF` |
| ParseSpec.SkipPassesBlanks | parse.cpp:18-22 | everything skipped was blank, up to a pushed-back non-blank or an `EOF` |
| ParseSpec.Flush | parse.cpp:34-42 | returns `EOF` having consumed everything up to and including the first `EOF` |
| ParseSpec.ReadBytes | json.cpp:154-167 | at most `len` bytes are read |
| ParseSpec.ReadBytesTakesPrefix | json.cpp:157-166 | the bytes read are the input's prefix before `len` or the first `EOF`, which is consumed |
| ParseSpec.ReadBytesStops | json.cpp:157-166 | the count read is the first of `len`, the end of input and the first `EOF` |
| ParseSpec.ParseValue | parse.cpp:46-127 | returns 0 or `EOF` and never consumes more than there is |
| ParseSpec.Dispatch | parse.cpp:59-126 | returns 0 or `EOF` and never consumes more than there is |
| ParseSpec.ParseLiteral | parse.cpp:76-124 | 0 with the literal's value, or `EOF` leaving the target unchanged |
| ParseSpec.Unescape | parse.cpp:155-184 | a known escape letter never maps to a zero byte |
| ParseSpec.ParseString | parse.cpp:130-197 | 0 with a string (or the target unchanged after a lone quote), or `EOF` leaving the target unchanged |
| ParseSpec.StringBody | parse.cpp:143-193 | 0 with a string, or `EOF` leaving the target unchanged |
| ParseSpec.StringNext | parse.cpp:186-189 | 0 with a string, or `EOF` leaving the target unchanged |
| ParseSpec.IntPart | json.cpp:249-256 | no digit consumes nothing; otherwise input is consumed |
| ParseSpec.IntDigits | json.cpp:250-255 | stops on the first non-digit |
| ParseSpec.FracDigits | json.cpp:272-277 | stops on the first non-digit |
| ParseSpec.ExpDigits | json.cpp:291-295 | stops on the first non-digit; no digit consumes nothing |
| ParseSpec.ParseNumber | json.cpp:227-305 | 0 with an int or float, or `EOF` leaving the target unchanged |
| ParseSpec.Number | json.cpp:249-304 | after the sign, always 0 with an int or float |
| RoundTrip.DigitsStop | json.cpp:250-255 | the digit loop stops at the first non-digit after a run of digits and answers it and the input after it |
| RoundTrip.NumberKind | json.cpp:256-263 | a run of digits gives a float exactly when `.`, `e` or `E` follows it, and an int otherwise |
| ParseSpec.FloatPart | json.cpp:265-296 | the fraction and exponent parts consume input |
| ParseSpec.Exponent | json.cpp:279-296 | the exponent part consumes input |
| ParseSpec.ParseArray | parse.cpp:201-238 | 0 with an array, or `EOF` |
| ParseSpec.ArrayContents | parse.cpp:207-237 | the target is an array from the moment `[` is read |
| ParseSpec.Elements | parse.cpp:218-237 | the target stays an array |
| ParseSpec.AfterElement | parse.cpp:227-237 | the target stays an array |
| ParseSpec.ParseObject | parse.cpp:242-297 | 0 with an object, or `EOF` |
| ParseSpec.ObjectContents | parse.cpp:250-296 | the target is an object from the moment `{` is read |
| ParseSpec.Members | parse.cpp:261-296 | the target stays an object |
| ParseSpec.AfterKey | parse.cpp:269-277 | the target stays an object |
| ParseSpec.Member | parse.cpp:278-287 | the target stays an object |
| ParseSpec.AfterMember | parse.cpp:285-296 | the target stays an object |
| ParseSpec.Parse | parse.cpp:6-13 | a value results exactly when no string overflows the buffer, no key is missing and every key is shorter than 64 bytes; signed overflow in `parseNumber` is taken as 32-bit wrap-around |
| ParseSpec.DispatchRejects | parse.cpp:59-126 | any first character other than `"`, `-`, a digit, `[`, `{`, `n`, `f` or `t` gives `EOF`, consuming nothing and leaving the target unchanged |
| ParseSpec.ValueRejects | parse.cpp:46-126 | where a value is due, such a character is pushed back and `parseValue` returns `EOF` |
| ParseSpec.LiteralMatches | parse.cpp:76-124 | `null`, `false` and `true` succeed exactly when the next bytes spell the word, and fail on too few bytes or other ones |
| ParseSpec.WordIsRead | json.cpp:157-166 | bytes that spell a word are read back by `readBytes` as that word |
| ParseSpec.ReadIsWord | json.cpp:157-166 | if `readBytes` returns the word, the input starts with that word |
| ParseSpec.LoneQuote | parse.cpp:139-196 | a quote at the end of input returns 0 and leaves the target unchanged |
| ParseSpec.CloseWhereElementIsDue | parse.cpp:218-225 | `]` where an element is due fails, so `[v,]` is rejected with the elements read before it |
| ParseSpec.ArrayRunsOut | parse.cpp:218-237 | input that ends after an element or after a comma, before `]`, fails with the elements read so far |
| RoundTrip.UnknownEscapeTruncates | parse.cpp:143-193 | for any good prefix `s`, any letter outside the escape table and any good suffix `u`, the string parses as `s` alone |
| RoundTrip.AfterUnknownEscape | parse.cpp:149-189 | from the backslash on, with `s` stored, the unknown escape, `u` and the quote end the string as `s` |
| RoundTrip.AfterSkippedSlot | parse.cpp:186-193 | with `s` stored and the slot after it left zero, `u` and the quote end the string as `s` |
| RoundTrip.ZeroAfter | parse.cpp:191-193 | the string built stops at the first zero of the buffer, whatever was stored after it |
| RoundTrip.SkippedEscape | parse.cpp:181-189 | an unknown escape stores nothing but still advances the index |
| RoundTrip.FillsBuffer | parse.cpp:143-190 | reading printed bytes stores them in the buffer one after the other, from any index, in any state |
| RoundTrip.OpenQuote | parse.cpp:134-141 | the opening quote starts the string loop on an all-zero buffer |
| RoundTrip.UnclosedStringFails | parse.cpp:141-190 | a string whose input ends inside it, before its closing quote, gives `EOF` with the target unchanged |
| RoundTrip.BackslashAtEndFails | parse.cpp:150-153 | a string whose input ends right after a backslash gives `EOF` with the target unchanged |
| RoundTrip.InputEndsInLoop | parse.cpp:150-189 | the end of input inside the string loop, after a backslash or a plain character, gives `EOF` |
| RoundTrip.TrailingCommaFails | parse.cpp:218-237 | `[v,]` fails with `EOF` and the `]` pushed back, after storing `v` |
| RoundTrip.UnclosedArrayFails | parse.cpp:218-237 | `[v` or `[v,` with nothing after fails with `EOF`, after storing `v` |
| ParseSpec.LoneMinusIsZero | json.cpp:239-261 | a `-` followed by a non-digit parses as the integer 0, and the non-digit is pushed back |
| ParseSpec.MinusAtEnd | json.cpp:239-247 | a `-` at the end of input gives `EOF` |
| Encode.EscapeLetter | encode.cpp:126-154 | at most one letter follows the backslash |
| Encode.EscapedSnoc | encode.cpp:115-157 | printing a string is printing its bytes one after the other, text and count alike |
| Encode.EscapedCountOvercounts | encode.cpp:124 | the count exceeds the escaped text's length by the number of bytes escaped without a letter |
| Encode.CountIsLength | encode.cpp:41-74 | for a tree whose strings have no unnamed bytes and whose floats print as counted, the count `print` returns is the length of its text |
| Encode.ItemsCountIsLength | encode.cpp:163-174 | the same for the elements of an array |
| Encode.SlotsCountIsLength | encode.cpp:177-193 | the same for the slots of an object |
| Encode.SlashIsNotEscaped | encode.cpp:117-135 | `/` is printed as it is; the `'/'` case is never reached |
| Encode.TombstoneIsPrinted | encode.cpp:181-190 | a removed slot is printed like a live one |
| Encode.OneSlotText | encode.cpp:177-193 | an object of one slot prints as that slot between braces |
| Encode.LeadingComma | encode.cpp:183-186 | with the skip test as meant, an invalid slot 0 followed by a valid slot prints `{,` |
| Encode.InvalidSlotSkipped | encode.cpp:177-193 | with the skip test as meant, an invalid slot 0 and a valid slot print as `{`, a comma, the second slot and `}` |
| Encode.SlotAsWrittenNeverSkips | encode.cpp:183 | as written on a signed-`char` target, every slot prints its comma, key and `:`; an invalid value prints nothing, whereas the skip as meant prints nothing for the whole slot |
| Encode.InvalidSlotAsWritten | encode.cpp:177-193 | as written on a signed-`char` target, an invalid slot 0 and a valid slot print as `{"a":,` followed by the second slot and `}` |
| Encode.JsonDumper.constructor | encode.cpp:14-17 | the dumper starts at the buffer's start with `size` bytes of room |
| Encode.JsonDumper.Write | encode.cpp:18-27 | with room, the byte is stored, the dumper advances and 1 is returned; without, nothing changes and `(size_t)-1` is returned |
| Encode.PrintStringPtr | encode.cpp:108-161 | the quoted, escaped text and its count; NULL prints `""` |
| Encode.PrintValue | encode.cpp:41-74 | `print` sends `Render` of the tree and returns its `Count` |
| Encode.PrintArray | encode.cpp:163-174 | elements between brackets, separated by commas |
| Encode.PrintElement | encode.cpp:168-170 | one element and its comma, unless it is the last |
| Encode.PrintObject | encode.cpp:177-193 | slots between braces, invalid values skipped as `isInvalid()` means (see "## Left out") |
| Encode.PrintSlot | encode.cpp:182-189 | one slot: comma unless slot 0, quoted key, colon, value |
| Encode.TerminatorAsWritten | encode.cpp:33 | `dump` as written stores the terminator at `out[length]` whenever the count is positive |
| Encode.DumpOverrunsBuffer | encode.cpp:30-35 | dumping `"ab"` into 4 bytes puts the terminator at index 4, past the buffer |
| Encode.DumpOverrunsFullBuffer | encode.cpp:30-35 | for every value whose text fills a buffer of `size` bytes exactly, `dump` as written stores the terminator at index `size`, past the buffer |
| Encode.Dump | encode.cpp:30-35 | returns the print count; the buffer holds the text's prefix that fits; the terminator is stored only inside the buffer; nothing else changes |
| RoundTrip.WidenAscii | json.cpp:209 | ASCII bytes read back as the same characters |
| RoundTrip.PlainRound | parse.cpp:145-148 | a byte printed as it is is stored back as itself |
| RoundTrip.EscapeRound | parse.cpp:149-185 | a byte printed as a backslash and letter is stored back as itself |
| RoundTrip.CloseRound | parse.cpp:191-193 | the closing quote yields the string collected so far |
| RoundTrip.PlainPrinted | encode.cpp:117-121 | a plain byte prints as itself |
| RoundTrip.EscapePrinted | encode.cpp:122-154 | a nameable byte prints as backslash and its letter |
| RoundTrip.StringBodyRoundTrip | parse.cpp:141-194 | the string loop reads back the escaped text of any printable string |
| RoundTrip.StringEndedBy | parse.cpp:130-197 | `parseString` reads back the quoted text, whatever character ends it |
| RoundTrip.StringRoundTrip | encode.cpp:108-161 | `parseString` of `printStringPtr`'s text gives back the string |
| RoundTrip.DigitsDenote | amap.h:104 | the decimal digits denote the number |
| RoundTrip.Wrap32Congruent | json.cpp:252 | congruent values wrap to the same 32-bit value |
| RoundTrip.ShiftWraps | json.cpp:252 | wrapping at every digit is the same as wrapping at the end |
| RoundTrip.SignWraps | json.cpp:260 | wrapping before the sign is applied is the same as after |
| RoundTrip.IntDigitsRoundTrip | json.cpp:250-255 | the digit loop reads back a run of digits as their value modulo 2^32 |
| RoundTrip.DigitsRun | json.cpp:249-256 | the integer part reads back the decimal text of a number |
| RoundTrip.DigitsNumber | json.cpp:249-261 | a signed run of digits reads back as the signed wrapped value |
| RoundTrip.NonNegativeRoundTrip | json.cpp:227-305 | `parseNumber` of a non-negative integer's text gives back the integer |
| RoundTrip.NegativeRoundTrip | json.cpp:227-305 | `parseNumber` of a negative integer's text gives back the integer; `INT_MIN` is included under the modelled 32-bit wrap-around |
| RoundTrip.SkipStops | parse.cpp:16-29 | `skip` stops at once on a non-blank |
| RoundTrip.LiteralRoundTrip | parse.cpp:76-124 | a literal's text reads back as its value |
| RoundTrip.FirstByte | encode.cpp:41-74 | every printed value starts with a visible ASCII byte that is not `]` |
| RoundTrip.ValueRoundTrip | parse.cpp:46-127 | `parseValue` of a printed tree gives back the tree |
| RoundTrip.DispatchRoundTrip | parse.cpp:59-126 | the first printed byte selects the parser that reads the tree back |
| RoundTrip.ElementsRound | parse.cpp:218-229 | one element round composes |
| RoundTrip.AfterElementComma | parse.cpp:227-229 | a comma after an element starts another round |
| RoundTrip.AfterElementClose | parse.cpp:230-233 | `]` after an element ends the array with 0 |
| RoundTrip.MembersRound | parse.cpp:263-275 | one member key composes |
| RoundTrip.AfterKeyRound | parse.cpp:271-277 | the colon leads to the value |
| RoundTrip.MemberRound | parse.cpp:278-283 | a parsed value is stored with `set` |
| RoundTrip.AfterMemberComma | parse.cpp:285-287 | a comma after a member starts another round |
| RoundTrip.AfterMemberClose | parse.cpp:289-292 | `}` after a member ends the object with 0 |
| RoundTrip.ArrayRoundTrip | parse.cpp:201-238 | `parseArray` of a printed array gives back the array |
| RoundTrip.ArrayContentsRoundTrip | parse.cpp:207-237 | the text after `[` reads back as the array |
| RoundTrip.ElementsRoundTrip | parse.cpp:218-237 | the elements from `k` on read back, given the first `k` |
| RoundTrip.AfterItemStarts | encode.cpp:169-172 | after an element comes `,` or, for the last, `]` |
| RoundTrip.AfterElementRoundTrip | parse.cpp:227-237 | the text after element `k` reads back the rest |
| RoundTrip.AssignAppends | amap.h:118-135 | `set` of a new key into a map without tombstones appends a slot |
| RoundTrip.NextStarts | encode.cpp:185-191 | after a slot comes `,` or, for the last, `}` |
| RoundTrip.ObjectRoundTrip | parse.cpp:242-297 | `parseObject` of a printed object gives back the object |
| RoundTrip.ObjectContentsRoundTrip | parse.cpp:250-296 | the text after `{` reads back as the object |
| RoundTrip.MembersRoundTrip | parse.cpp:261-296 | the members from `k` on read back, given the first `k` |
| RoundTrip.AfterKeyRoundTrip | parse.cpp:269-296 | the text after key `k` reads back the rest |
| RoundTrip.MemberRoundTrip | parse.cpp:278-296 | the value of member `k` and the rest read back |
| RoundTrip.AfterMemberRoundTrip | parse.cpp:285-296 | the text after member `k` reads back the rest |
| RoundTrip.PrintThenParse | parse.cpp:6-13 | `Json::parse` of the text `Json::print` produces for a printable tree gives back that tree |

## Left out

- `printFloat` and the float arithmetic of `parseNumber` (`pow`, rounding to `float`) are not modelled:
  - a parsed float is kept as an exact mantissa and decimal exponent;
  - the float printer is a parameter.
- Arduino's `Stream` and `Client` are not part of this model, so the following are left out:
  - `aJsonStream::available`, `aJsonStream::write` and `aJsonClientStream`;
  - the 500 ms `millis()` timeout of the generic `getch`.
- Memory management is not modelled: destructors, `malloc`/`free`, `realloc` failure, leaks.
- `Json::measure` and `Json::println` are left out, because their results are undefined in C++: neither has a `return` statement (json.cpp:101-104, encode.cpp:38), and the `JsonMeasurer` that `measure` prints into never initialises `_length` (json.cpp:93-99).
- `AList::id`, `iterator`/`begin`/`end`, `Object::default_init` and `Value(String)` are left out. They are Arduino or C++ plumbing with nothing to prove.
- The `filter` argument of `parseValue`, `parseArray` and `parseObject` is left out, because the source never reads it.
- Parser methods return the value instead of writing through `item`. Every call site passes a freshly built null `Value`, and the functions take the target's tree as `item`.
- Streams.StringStream.ParseValue and the other parser methods require that the input be one the model follows:
  - no string overflows the 256-byte buffer (undefined behaviour in C++);
  - no key is missing (`strcmp` on a NULL key, undefined behaviour in C++);
  - every key is shorter than 64 bytes. This is a modelling choice: the `Key` type cannot hold an unterminated key, and on such input the source returns an object whose key is unterminated (`strncpy` at amap.h:118-124).

  The functions of `ParseSpec` model those inputs as `Undefined`.
- Encode.PrintObject / Encode.PrintSlot: the skip test is `isInvalid()` as meant, which is how the source behaves where `char` is unsigned. Where `char` is signed, as the model otherwise assumes, the test as written never holds, so no slot is skipped. That printer is `Encode.ObjectAsWritten`, and the difference is proved in `Encode.InvalidSlotAsWritten`.
- Signed overflow in `parseNumber` is undefined in C++: the digit accumulator `i*10+d` (json.cpp:252), the product `i*sign` (json.cpp:260) and the exponent accumulator (json.cpp:291-295). The model assumes two's-complement wrap-around (`Base.Wrap32`), as the targets' compilers produce in practice. It does not mark such inputs `Undefined`, so `ParseSpec.Parse` and `RoundTrip.NegativeRoundTrip` hold under that assumption.
- `int` is taken to be 32 bits, as on ARM and ESP targets. On 8-bit AVR it is 16 bits.
- `char` is taken to be signed, as on AVR and x86. On ARM it is unsigned, and there a 0xFF byte would not read as `EOF`.
- The input buffer of `StringStream` is held as a value. Nothing writes to it while the stream reads it.
- Encode.PrintValue: printing returns the text and the count instead of writing to a `Print`. Per-byte write results are not modelled.
- Encode.Dump: the returned count is the one for a sink that accepts every byte. When the buffer is full, `JsonDumper::write` answers `(size_t)-1`, and how Arduino's `Print` adds that into its count is not part of this model.
- JsonTypes.JArray.Clone: requires `Tree()`, meaning no container reachable along two paths. The source allows sharing, in which case the clones it makes would alias.
- JsonTypes.JObject.Clone: same requirement as JsonTypes.JArray.Clone.
- Strings are values, so the fresh string buffer `clone` allocates for each string is not tracked.
- A `Value` holding a NULL array or object is not modelled. Arrays and objects always refer to a live container.

## Findings

| source | as written | input that shows it | evidently intended | confidence | as-written member | corrected member |
|---|---|---|---|---|---|---|
| encode.cpp:33 | `if(length > 0) out[length] = 0;` with no check against `size` | dump the string `ab` with `size` 4: the text `"ab"` fills the buffer, the count is 4, and `out[4]` is written one past the end | store the terminator only when `length < size` | high, not executed | Encode.DumpOverrunsBuffer | Encode.Dump |
| encode.cpp:183 | `if(kvp.value.isInvalid()) continue;`, through the `isInvalid()` of types.h:85 | an object with slots `("a", invalid())` and `("b", null)` on a signed-`char` target prints `{"a":,"b":null}`, which is not JSON | skip the invalid slot | medium (depends on the signedness of `char`), not executed | Encode.InvalidSlotAsWritten | Encode.PrintObject |
| types.h:85 | `type == JSON_INVALID` where `type` is a `char` and `JSON_INVALID` is 255 | `Value::invalid()` on a signed-`char` target: the field holds -1, which is never 255 | `isInvalid()` holds exactly for `invalid()` | medium (depends on the signedness of `char`), not executed | JsonTypes.InvalidNeverDetected | JsonTypes.TagDecidesVariant |
