# BitSerializer archive scopes, validators and date-time conversion in Dafny

BitSerializer is a C++ library that serializes objects by walking them
through *archives*. An archive is reached through *scopes*: a root scope
holds one value, an array or an object; an object scope loads and saves
fields by key; an array scope loads and saves items one after another.
Every scope can report its path, which names the field an error belongs
to. This project models:

- the in-memory test archive (`BinArchiveStub`), whose nodes are a variant
  of null, bool, int64, uint64, double, string, timestamp, object and
  array, together with its type-mismatch and overflow policies;
- the three JSON archives: the one over the C++ REST SDK, the one over
  RapidJson, and the earlier RapidJson archive. All three work over one
  JSON tree datatype;
- the generic container serializer and the `std::pair` serializer;
- the field validators `Required`, `Range`, `MinSize` and `MaxSize`;
- the conversions between Unix time, UTC `tm` fields, ISO 8601 text and
  `std::chrono::time_point`.

A scope writes through a pointer into a tree that its caller owns. In the
model, the tree is a field of a document object (`JsonTree.Document`,
`StubArchive.IoData`). A scope holds that object and the location of its
node in the tree. Saving puts a new node at that location (`Put`), and
the lemmas `PutAt`, `AtSnoc` and `PutBelow` relate a parent's node to its
child's. The load/save template parameter becomes a constant `mode` of
each scope. A method that compiles in one mode only requires that mode.
A C++ `assert` on the caller becomes a `requires`: no duplicate key, an
array within its reserved capacity, and a legacy root written at most
once. A thrown exception becomes the `Thrown(code)` outcome of
`LoadResult` or a returned `thrown` value. A RapidJson getter's
`RAPIDJSON_ASSERT` on the stored kind of number becomes the
`AssertionFailed` outcome. The module `Numbers` holds what
the archives share: integer widths and the wrap-around of
`static_cast`, C++ truncating division, and decimal text.

Where the library's own description and its code differ, the model
follows the code:

- `Range` passes on the half-open interval `[min, max)`.
- `MaxSize(n)` refuses a size equal to `n`, although its message reads
  "not greater than n".
- The test archive's array path carries the number of items touched so
  far. The JSON archives carry that number minus one.
- In the validation sample, the string is 25 characters long.
- The date parser reads any number of digits per field and ignores text
  after the `Z`. It takes 29 February in every year, and
  `UtcToUnixTime` reads 29 February of a common year as 1 March.

The exceptions are the defects listed under "## Findings". There the
model keeps both versions. `ParseIsoAsWritten` and
`FormatTimePointAsWritten` model the code. The conversions
`ParseUtc`, `ParseRawTime` and `ParseTimePoint` are built on the
corrected `ParseIso`, so they refuse day 00. Their counterparts
`ParseUtcAsWritten`, `ParseRawTimeAsWritten` and
`ParseTimePointAsWritten` call the parser as written, as the code does,
and so accept day 00. `ConversionsRefineAsWritten` proves that each pair
agrees on every other text.

## Model

| member | source | states |
|---|---|---|
| Paths.ChainPathIsPointer | include/bitserializer/cpprestjson_archive.h:69-75 | A scope's path is its parent's path plus `/key`. For a chain of scopes it is the JSON Pointer of the non-empty keys; scopes opened without a key add nothing. |
| Paths.SlashInKeyIsAmbiguous | include/bitserializer/rapidjson_archive.h:70-76 | Keys are not escaped: a key `a/b` gives the same path as the nested keys `a` and `b`. |
| Paths.IndexPathNamesLastItem | include/bitserializer/rapidjson_archive.h:189-199 | Once an item has been touched, a JSON array path names the last item loaded or saved. The stub's path names the position after it. |
| Paths.IndexPathsDiffer | src/testing_tools/bin_archive_stub.h:210-213 | The stub's array path (`mIndex`) and the JSON one (`mIndex-1`) agree exactly before the first item. |
| Numbers.CDiv | include/bitserializer/conversion_detail/convert_chrono.h:52-60 | C++ division by a positive divisor truncates toward zero. A non-negative dividend gives the floor quotient. A negative one gives the quotient rounded up, so that quotient times divisor is the nearest multiple not below the dividend. |
| Numbers.Wrap | include/bitserializer/rapidjson_archive.h:96-98 | After a `static_cast` to an integer type, the value lies in the type's range. A value already in range is unchanged. |
| Numbers.WrapThroughInt32 | include/bitserializer/rapidjson_archive.h:96-98 | For every integer and every target type of at most 32 bits, casting through `int` first gives the same value as casting directly. |
| Numbers.SafeIntCast | src/testing_tools/bin_archive_stub.h:105-119 | A value that loads into an integral or `bool` field has the field's type. StubArchive.NarrowingOverflow proves the out-of-range half. |
| StubArchive.LoadFundamentalValue | src/testing_tools/bin_archive_stub.h:95-134 | A null node loads only into `nullptr_t`. An integral or bool node goes through the overflow check. A double node loads only into a floating field. Anything else is a mismatch under the policy. |
| StubArchive.LoadString | src/testing_tools/bin_archive_stub.h:156-167 | Only a string node loads into a string, and never throws. |
| StubArchive.SaveLoadRoundTrip | src/testing_tools/bin_archive_stub.h:136-176 | A saved field loads back unchanged into a field of the same type, under any options. |
| StubArchive.NullIsNotMismatch | src/testing_tools/bin_archive_stub.h:98-102 | A null node is never a type mismatch. |
| StubArchive.MismatchExactlyOnOtherKinds | src/testing_tools/bin_archive_stub.h:128-133 | Loading throws MismatchedTypes exactly for the node kinds the field does not take, under ThrowOnMismatch. Under Skip, such a field is left unloaded. |
| StubArchive.NarrowingOverflow | src/testing_tools/bin_archive_stub.h:105-119 | An int64 or uint64 node out of the field's range gives the overflow policy's outcome. |
| StubArchive.LoadTimestamp | src/testing_tools/bin_archive_stub.h:255-275 | The array and root scopes load a timestamp only from a timestamp node, and never throw. |
| StubArchive.LoadTimestampByKey | src/testing_tools/bin_archive_stub.h:403-419 | The object scope loads nothing exactly when the key is missing. |
| StubArchive.TimestampByKeyThrows | src/testing_tools/bin_archive_stub.h:403-419 | A member of another kind makes the object scope throw `bad_variant_access`, where the array scope returns false. |
| StubArchive.ArrayScope.GetEstimatedSize | src/testing_tools/bin_archive_stub.h:202-205 | The estimated size is always 0. |
| StubArchive.ArrayScope.IsEnd | src/testing_tools/bin_archive_stub.h:219-223 | True exactly when every item has been loaded. |
| StubArchive.ArrayScope.LoadValue | src/testing_tools/bin_archive_stub.h:225-253 | Loads the next item and advances, or throws OutOfRange past the end. |
| StubArchive.ArrayScope.Append | src/testing_tools/bin_archive_stub.h:316-331 | When saving, a new item goes after the existing ones; the rest of the tree is unchanged. |
| StubArchive.ArrayScope.SaveValue | src/testing_tools/bin_archive_stub.h:225-253 | The saved field becomes the next item, of the node kind for its type. |
| StubArchive.ArrayScope.LoadTimestampValue | src/testing_tools/bin_archive_stub.h:255-275 | The next item as a timestamp, or OutOfRange past the end. |
| StubArchive.ArrayScope.SaveTimestampValue | src/testing_tools/bin_archive_stub.h:255-275 | Appends a timestamp node. |
| StubArchive.ArrayScope.OpenObjectScope | src/testing_tools/bin_archive_stub.h:277-294 | When loading: the next item if it is an object. When saving: a new empty object item. The child's path is this scope's path. |
| StubArchive.ArrayScope.OpenArrayScope | src/testing_tools/bin_archive_stub.h:296-313 | When loading: the next item if it is an array. When saving: a new empty array item; the size given only reserves capacity. |
| StubArchive.ObjectScope.GetEstimatedSize | src/testing_tools/bin_archive_stub.h:356-359 | The number of members. |
| StubArchive.ObjectScope.VisitKeys | src/testing_tools/bin_archive_stub.h:365-370 | Visits every key exactly once. |
| StubArchive.ObjectScope.LoadValue | src/testing_tools/bin_archive_stub.h:462-467 | A missing key loads nothing; a present one loads as its node does. |
| StubArchive.ObjectScope.Store | src/testing_tools/bin_archive_stub.h:469-474 | Saving puts the node under the key; a key saved again is overwritten. |
| StubArchive.ObjectScope.SaveValue | src/testing_tools/bin_archive_stub.h:372-401 | The field's node is stored under the key. |
| StubArchive.ObjectScope.LoadTimestampValue | src/testing_tools/bin_archive_stub.h:403-419 | Loads by key, throwing for a member of another kind. |
| StubArchive.ObjectScope.SaveTimestampValue | src/testing_tools/bin_archive_stub.h:403-419 | Stores a timestamp node under the key. |
| StubArchive.ObjectScope.OpenObjectScope | src/testing_tools/bin_archive_stub.h:421-437 | When loading: the member if it is an object. When saving: a new empty object under the key. The child's path is `/key` below this one. |
| StubArchive.ObjectScope.OpenArrayScope | src/testing_tools/bin_archive_stub.h:439-454 | When loading: the member if it is an array. When saving: a new empty array under the key. |
| StubArchive.RootScope.LoadValue | src/testing_tools/bin_archive_stub.h:517-555 | The root loads like a node. |
| StubArchive.RootScope.SaveValue | src/testing_tools/bin_archive_stub.h:517-555 | The output root becomes the field's node. |
| StubArchive.RootScope.LoadTimestampValue | src/testing_tools/bin_archive_stub.h:539-555 | Loads the root as a timestamp. |
| StubArchive.RootScope.SaveTimestampValue | src/testing_tools/bin_archive_stub.h:539-555 | The root becomes a timestamp node. |
| StubArchive.RootScope.OpenObjectScope | src/testing_tools/bin_archive_stub.h:557-569 | When loading: the root if it is an object. When saving: an empty object root. |
| StubArchive.RootScope.OpenArrayScope | src/testing_tools/bin_archive_stub.h:571-583 | When loading: the root if it is an array. When saving: an empty array root. |
| JsonTree.FindMember | include/bitserializer/rapidjson_archive.h:438-450 | Finds the first member with the key, or none when no member has it. |
| JsonTree.NumberAsInt | include/bitserializer/cpprestjson_archive.h:82-99 | In the C++ REST SDK, a 64-bit field reads the number at 64 bits, and a narrower one reads it as an `int` and then converts. A double is truncated first. The result is in the field's range. |
| JsonTree.LoadScalar | include/bitserializer/cpprestjson_archive.h:82-116 | In the C++ REST SDK, a field loads exactly from the node kinds it accepts. An integral or `bool` field takes a number or a boolean, a floating field a number, `nullptr` a null, and a string a string. The result has the field's type and nothing throws. |
| JsonTree.ScalarRoundTrip | include/bitserializer/cpprestjson_archive.h:179-211 | In the C++ REST SDK, a saved item or member loads back unchanged into a field of the same type. |
| JsonTree.LoadMember | include/bitserializer/cpprestjson_archive.h:397-402 | A missing key loads nothing; otherwise the first member with the key is loaded. |
| JsonTree.SavedMemberLoads | include/bitserializer/cpprestjson_archive.h:404-410 | After a member is appended under a new key, that key loads the saved value and every other key loads as before. |
| JsonTree.GetterType | include/bitserializer/rapidjson_archive.h:88-98 | A 64-bit field reads with the getter of its own type. Every other integral field reads with `GetInt`. |
| JsonTree.RapidLoadScalar | include/bitserializer/rapidjson_archive.h:83-114 | In RapidJson, an integral or `bool` field fails the getter's assertion exactly when the node is a number that does not hold the getter's type, a double included. Otherwise RapidJson loads exactly what the C++ REST SDK loads. |
| JsonTree.GetIntRefusesOnlyUnsigned32 | include/bitserializer/rapidjson_archive.h:96-98 | The only saved values `GetInt` refuses are `unsigned int` values from 2^31 to 2^32-1. |
| JsonTree.RapidScalarRoundTrip | include/bitserializer/rapidjson_archive.h:201-212 | A saved item or member loads back unchanged, unless `GetInt` refuses it. In that case the assertion fails. |
| JsonTree.LargeUnsignedItemAsserts | include/bitserializer/rapidjson_archive.h:96-98 | An `unsigned int` of 2^31 saved as an item fails `GetInt`'s assertion on loading. |
| JsonTree.RapidLoadMember | include/bitserializer/rapidjson_archive.h:438-450 | A missing key loads nothing. Otherwise the first member with the key loads through RapidJson's getters. |
| JsonTree.RapidSavedMemberLoads | include/bitserializer/rapidjson_archive.h:452-469 | After a member is appended under a new key, that key loads the saved value unless `GetInt` refuses it. Every other key loads as before. |
| JsonTree.DoubleIntoInt | include/bitserializer/rapidjson_archive.h:88-98 | A double that truncates to 1, such as 1.5, loads into an `int` as 1 in the C++ REST SDK and fails the assertion in RapidJson. |
| JsonTree.RootSavesLargeUnsignedAsNegative | include/bitserializer/rapidjson_archive.h:525-555 | The RapidJson root saves narrow integers through `SetInt`: an `unsigned int` of 2^32-1 becomes -1 in the document. |
| JsonTree.RootEncodeAsWrittenRoundTrip | include/bitserializer/rapidjson_archive.h:525-555 | Even so, the root value loads back unchanged through this archive's own getters, with no failed assertion. |
| JsonTree.NarrowingWraps | include/bitserializer/rapidjson_archive.h:96-98 | In both archives, a number too wide for a `uint8_t` wraps: 300 loads as 44. |
| JsonTree.LargeNumberLoadsAsFalse | include/bitserializer/cpprestjson_archive.h:95-97 | In the C++ REST SDK, a `bool` field reads a number through `as_integer`, so 2^32 loads as false. In RapidJson, `GetInt` fails its assertion on 2^32. |
| CppRestArchive.LoadRootBool | include/bitserializer/cpprestjson_archive.h:472-487 | The root's `bool` overload loads only a boolean. |
| CppRestArchive.RootBoolIgnoresNumbers | include/bitserializer/cpprestjson_archive.h:472-505 | The root and the nested scopes differ only on a `bool` from a number. |
| CppRestArchive.Nulls | include/bitserializer/cpprestjson_archive.h:230-245 | A saved array is created as `arraySize` nulls. |
| CppRestArchive.ArrayScope.GetEstimatedSize | include/bitserializer/cpprestjson_archive.h:156-158 | The size of the array. |
| CppRestArchive.ArrayScope.IsEnd | include/bitserializer/cpprestjson_archive.h:163-168 | True exactly when the index has reached the size. |
| CppRestArchive.ArrayScope.LoadValue | include/bitserializer/cpprestjson_archive.h:248-255 | Loads the next item, or throws OutOfRange at the end. |
| CppRestArchive.ArrayScope.Store | include/bitserializer/cpprestjson_archive.h:257-261 | Saving overwrites the pre-sized null at the index, which must be below the size. |
| CppRestArchive.ArrayScope.SaveValue | include/bitserializer/cpprestjson_archive.h:179-211 | The field's node replaces the item at the index; the other items are unchanged. |
| CppRestArchive.ArrayScope.OpenObjectScope | include/bitserializer/cpprestjson_archive.h:213-228 | When loading: the next item if it is an object. When saving: an empty object at the index. |
| CppRestArchive.ArrayScope.OpenArrayScope | include/bitserializer/cpprestjson_archive.h:230-245 | When loading: the next item if it is an array. When saving: `arraySize` nulls at the index. |
| CppRestArchive.ObjectScope.Keys | include/bitserializer/cpprestjson_archive.h:315-321 | The keys of the members, in member order. |
| CppRestArchive.ObjectScope.LoadValue | include/bitserializer/cpprestjson_archive.h:323-359 | A missing key loads nothing; a present one loads as its node does. |
| CppRestArchive.ObjectScope.Store | include/bitserializer/cpprestjson_archive.h:404-410 | A new member is added under a key not yet present. |
| CppRestArchive.ObjectScope.SaveValue | include/bitserializer/cpprestjson_archive.h:323-359 | The field becomes a new member. |
| CppRestArchive.ObjectScope.OpenObjectScope | include/bitserializer/cpprestjson_archive.h:361-378 | When loading: the member if it is an object. When saving: a new empty object member. |
| CppRestArchive.ObjectScope.OpenArrayScope | include/bitserializer/cpprestjson_archive.h:380-394 | When loading: the member if it is an array. When saving: a member of `arraySize` nulls. |
| CppRestArchive.RootScope.LoadValue | include/bitserializer/cpprestjson_archive.h:472-521 | The root loads as a member would, except `bool`. |
| CppRestArchive.RootScope.SaveValue | include/bitserializer/cpprestjson_archive.h:472-521 | The root becomes the field's node. |
| CppRestArchive.RootScope.OpenObjectScope | include/bitserializer/cpprestjson_archive.h:523-533 | When loading: the root if it is an object. When saving: an empty object. |
| CppRestArchive.RootScope.OpenArrayScope | include/bitserializer/cpprestjson_archive.h:535-545 | When loading: the root if it is an array. When saving: `arraySize` nulls. |
| RapidJsonArchive.ArrayScope.GetEstimatedSize | include/bitserializer/rapidjson_archive.h:173-175 | The capacity of the array node. |
| RapidJsonArchive.ArrayScope.IsEnd | include/bitserializer/rapidjson_archive.h:180-184 | True exactly when the iterator has passed every item. |
| RapidJsonArchive.ArrayScope.LoadValue | include/bitserializer/rapidjson_archive.h:268-278 | Loads the next item through RapidJson's getters, or throws OutOfRange at the end. |
| RapidJsonArchive.ArrayScope.Append | include/bitserializer/rapidjson_archive.h:280-291 | Saving pushes back within the reserved capacity. |
| RapidJsonArchive.ArrayScope.SaveValue | include/bitserializer/rapidjson_archive.h:201-227 | The field's node is appended after the existing items. |
| RapidJsonArchive.ArrayScope.OpenObjectScope | include/bitserializer/rapidjson_archive.h:229-245 | When loading: the next item if it is an object. When saving: a new empty object item. |
| RapidJsonArchive.ArrayScope.OpenArrayScope | include/bitserializer/rapidjson_archive.h:247-265 | When loading: the next item if it is an array. When saving: a new empty array with the given capacity. |
| RapidJsonArchive.ObjectScope.Keys | include/bitserializer/rapidjson_archive.h:352-358 | The keys of the members, in member order. |
| RapidJsonArchive.ObjectScope.LoadValue | include/bitserializer/rapidjson_archive.h:438-450 | A missing key loads nothing. A present one loads through RapidJson's getters. |
| RapidJsonArchive.ObjectScope.Store | include/bitserializer/rapidjson_archive.h:452-469 | A new member is added under a key not yet present. |
| RapidJsonArchive.ObjectScope.SaveValue | include/bitserializer/rapidjson_archive.h:360-389 | The field becomes a new member. |
| RapidJsonArchive.ObjectScope.OpenObjectScope | include/bitserializer/rapidjson_archive.h:391-427 | When loading: the member if it is an object. When saving: a new empty object member. |
| RapidJsonArchive.ObjectScope.OpenArrayScope | include/bitserializer/rapidjson_archive.h:391-427 | When loading: the member if it is an array. When saving: a new empty array member with the given capacity. |
| RapidJsonArchive.RootScope.LoadValue | include/bitserializer/rapidjson_archive.h:525-573 | The root loads as an item would, through RapidJson's getters. |
| RapidJsonArchive.RootScope.SaveValue | include/bitserializer/rapidjson_archive.h:525-573 | The root becomes the field's node, with narrow integers going through `SetInt`. |
| RapidJsonArchive.RootScope.OpenArrayScope | include/bitserializer/rapidjson_archive.h:575-588 | When loading: the root if it is an array. When saving: an empty array with the given capacity. |
| RapidJsonArchive.RootScope.OpenObjectScope | include/bitserializer/rapidjson_archive.h:590-603 | When loading: the root if it is an object. When saving: an empty object. |
| RapidJsonArchive.ToRapidUtfType | include/bitserializer/rapidjson_archive.h:653-673 | The five UTF encodings map to RapidJson's; any other value is UnsupportedEncoding. |
| RapidJsonArchive.ToRapidUtfTypeIsBijective | include/bitserializer/rapidjson_archive.h:653-673 | The mapping is one-to-one and onto RapidJson's encodings. |
| LegacyRapidJsonArchive.LegacyLoad | archives/bitserializer_rapidjson/rapidjson_archive.h:74-96 | A `bool` loads only from a boolean, an arithmetic field only from a number, and a string only from a string. An integral field fails the getter's assertion exactly when the number does not hold the getter's type. Nothing throws. |
| LegacyRapidJsonArchive.LegacyLoadIsNarrower | archives/bitserializer_rapidjson/rapidjson_archive.h:189-214 | Where the legacy archive loads, it loads what the newer RapidJson archive loads. Where its assertion fails, the newer one's fails too. It refuses exactly a boolean for an integer, and a number for `bool` that the newer archive reads. |
| LegacyRapidJsonArchive.LegacyRoundTrip | archives/bitserializer_rapidjson/rapidjson_archive.h:189-214 | A saved item or member loads back unchanged, unless `GetInt` refuses it. In that case the assertion fails. |
| LegacyRapidJsonArchive.LegacyRootRoundTrip | archives/bitserializer_rapidjson/rapidjson_archive.h:98-118 | A root saved through `SetInt` loads back unchanged. |
| LegacyRapidJsonArchive.LegacyLoadMember | archives/bitserializer_rapidjson/rapidjson_archive.h:399-421 | A missing key loads nothing. |
| LegacyRapidJsonArchive.ArrayScope.GetSize | archives/bitserializer_rapidjson/rapidjson_archive.h:172-174 | The capacity of the array node. |
| LegacyRapidJsonArchive.ArrayScope.LoadValue | archives/bitserializer_rapidjson/rapidjson_archive.h:266-273 | Loads the next item. Past the end it loads nothing and does not throw. |
| LegacyRapidJsonArchive.ArrayScope.Append | archives/bitserializer_rapidjson/rapidjson_archive.h:275-279 | Saving pushes back, provided the size is below the capacity. |
| LegacyRapidJsonArchive.ArrayScope.SaveValue | archives/bitserializer_rapidjson/rapidjson_archive.h:189-227 | The field's node is appended after the existing items. |
| LegacyRapidJsonArchive.ArrayScope.OpenObjectScope | archives/bitserializer_rapidjson/rapidjson_archive.h:229-244 | When loading: the next item if it is an object. When saving: a new empty object item. |
| LegacyRapidJsonArchive.ArrayScope.OpenArrayScope | archives/bitserializer_rapidjson/rapidjson_archive.h:246-262 | When loading: the next item if it is an array. When saving: a new empty array with the given capacity. |
| LegacyRapidJsonArchive.ObjectScope.Keys | archives/bitserializer_rapidjson/rapidjson_archive.h:288-318 | The keys of the members, in member order. |
| LegacyRapidJsonArchive.ObjectScope.LoadValue | archives/bitserializer_rapidjson/rapidjson_archive.h:399-421 | A missing key loads nothing; a present one loads as its node does. |
| LegacyRapidJsonArchive.ObjectScope.Store | archives/bitserializer_rapidjson/rapidjson_archive.h:485-502 | A new member is added under a key not yet present. |
| LegacyRapidJsonArchive.ObjectScope.SaveValue | archives/bitserializer_rapidjson/rapidjson_archive.h:382-410 | The field becomes a new member. |
| LegacyRapidJsonArchive.ObjectScope.OpenObjectScope | archives/bitserializer_rapidjson/rapidjson_archive.h:426-442 | When loading: the member if it is an object. When saving: a new empty object member. |
| LegacyRapidJsonArchive.ObjectScope.OpenArrayScope | archives/bitserializer_rapidjson/rapidjson_archive.h:444-461 | When loading: the member if it is an array. When saving: a new empty array member with the given capacity. |
| LegacyRapidJsonArchive.RootScope.LoadValue | archives/bitserializer_rapidjson/rapidjson_archive.h:558-590 | The root loads as an item would. |
| LegacyRapidJsonArchive.RootScope.SaveValue | archives/bitserializer_rapidjson/rapidjson_archive.h:558-600 | Writes only a null root, which becomes a non-null node. Narrow integers go through `SetInt`. |
| LegacyRapidJsonArchive.RootScope.OpenArrayScope | archives/bitserializer_rapidjson/rapidjson_archive.h:604-619 | When saving, the null root becomes an empty array with the given capacity. |
| LegacyRapidJsonArchive.RootScope.OpenObjectScope | archives/bitserializer_rapidjson/rapidjson_archive.h:621-635 | When saving, the null root becomes an empty object. |
| GenericContainer.Resize | include/bitserializer/serialization_detail/generic_container.h:43-45 | `resize(n)` leaves `n` elements. The old elements keep their values up to `n`, and the added ones are default-constructed. |
| GenericContainer.ResizeKeepsPrefix | include/bitserializer/serialization_detail/generic_container.h:43-45 | Resizing to the current length changes nothing. Shrinking keeps a prefix. |
| GenericContainer.ContainerRoundTrip | include/bitserializer/serialization_detail/generic_container.h:35-50 | Save a container, then load the array into a container of the same length. Each element comes back, whatever the container held before, unless `GetInt` refuses it. A refused element fails the assertion. |
| GenericContainer.LoadContainer | include/bitserializer/serialization_detail/generic_container.h:43-48 | A resizeable container is resized to `GetSize()` elements, keeping the first ones. Each element, in order, takes the next item that loads and otherwise keeps its value. |
| GenericContainer.SaveContainer | include/bitserializer/serialization_detail/generic_container.h:46-48 | The elements are appended in order; the rest of the document is unchanged. |
| GenericContainer.SerializeContainer | include/bitserializer/serialization_detail/generic_container.h:15-50 | Covers both overloads. The mode chooses the loading half (resize, then load element by element) or the saving half. |
| PairSerialization.PairMembers | core/bitserializer/serialization_detail/serialization_stl_types.h:32-37 | A saved pair has the members `"key"` then `"value"`. |
| PairSerialization.PairRoundTrip | core/bitserializer/serialization_detail/serialization_stl_types.h:29-38 | The object a saved pair becomes loads back as the same two values. A component `GetInt` refuses fails the assertion instead. |
| PairSerialization.SerializePairMembers | core/bitserializer/serialization_detail/serialization_stl_types.h:29-38 | Loading overwrites each component whose member loads. Saving appends both members in order. |
| PairSerialization.SerializePairWithKey | core/bitserializer/serialization_detail/serialization_stl_types.h:44-49 | Loading reports whether the key names an object, and fills the pair from it. Saving adds an object member holding exactly the pair. |
| PairSerialization.SerializePairItem | core/bitserializer/serialization_detail/serialization_stl_types.h:51-56 | The same as an array item. |
| Validators.Validate | include/bitserializer/serialization_detail/validators.h:15-112 | `Required` fails exactly when nothing was loaded. `Range` passes exactly on `[min, max)`. `MinSize` passes from `minSize` up. `MaxSize` passes strictly below `maxSize`. Each failure has its message. |
| Validators.OnlyRequiredReadsIsLoaded | include/bitserializer/serialization_detail/validators.h:42-112 | Every validator except `Required` ignores whether the field was loaded. |
| Validators.RequiredIgnoresValue | include/bitserializer/serialization_detail/validators.h:18-25 | `Required` ignores the value. |
| Validators.RangeIsHalfOpen | include/bitserializer/serialization_detail/validators.h:42-48 | `Range(0, 100)` takes 0 and 99 and refuses 100 and -1. |
| Validators.EmptyRangeRefusesAll | include/bitserializer/serialization_detail/validators.h:42-48 | With `min >= max`, every value is refused. |
| Validators.RangeMessageNamesBounds | include/bitserializer/serialization_detail/validators.h:47 | Range messages with different bounds differ. |
| Validators.MaxSizeIsExclusive | include/bitserializer/serialization_detail/validators.h:99-106 | `MaxSize(8)` refuses size 8, though its message says "not greater than 8". |
| Validators.MinSizeAndMaxSizeSplit | include/bitserializer/serialization_detail/validators.h:68-112 | Every size passes exactly one of `MinSize(n)` and `MaxSize(n)`. |
| Validators.ValidateAll | include/bitserializer/serialization_detail/validators.h:15-112 | A field passes exactly when each of its validators passes. |
| Validators.ValidationScenario | samples/validation/validation.cpp:15-29 | For the sample object, `TestInt` 2000 fails only its range, the 25-character string fails `MaxSize(8)`, and a missing field fails `Required`. |
| ConvertChrono.MonthLength | include/bitserializer/conversion_detail/convert_chrono.h:35 | The month's length is the table's, except February of a common year. |
| ConvertChrono.UnixTimeToUtc | include/bitserializer/conversion_detail/convert_chrono.h:48-89 | The result is a real date and time. |
| ConvertChrono.UnixTimeToUtcParts | include/bitserializer/conversion_detail/convert_chrono.h:48-89 | The date of floor(t / 86400) days, and the time of day of the remaining seconds. |
| ConvertChrono.UnixTimeRoundTrip | include/bitserializer/conversion_detail/convert_chrono.h:48-110 | Unix time to UTC and back gives every time back, before the epoch too. |
| ConvertChrono.UtcRoundTrip | include/bitserializer/conversion_detail/convert_chrono.h:94-110 | A real UTC date and time survives the trip to Unix time and back. |
| ConvertChrono.DayCountFitsInt | include/bitserializer/conversion_detail/convert_chrono.h:101-107 | Up to the year 5879609, the `int` day count and `era * 146097` fit in an `int`. |
| ConvertChrono.DayCountOverflowsInt | include/bitserializer/conversion_detail/convert_chrono.h:107 | On 31 December of the year 5879611, the `int` sum `era * 146097 + doe` exceeds `INT_MAX`. |
| ConvertChrono.CivilFromDaysInverse | include/bitserializer/conversion_detail/convert_chrono.h:48-89 | The day count of the date of a day count is that day count. |
| ConvertChrono.DaysFromCivilInverse | include/bitserializer/conversion_detail/convert_chrono.h:94-110 | The date of a real date's day count is that date. |
| ConvertChrono.FormatUtc | include/bitserializer/conversion_detail/convert_chrono.h:115-124 | The text ends in `Z` and is at least 20 characters long. |
| ConvertChrono.FormatUtcExt | include/bitserializer/conversion_detail/convert_chrono.h:129-139 | The text with milliseconds ends in `Z` and is at least 24 characters long. |
| ConvertChrono.ReadDigits | include/bitserializer/conversion_detail/convert_chrono.h:153 | `from_chars` moves past at least one digit when there is one. |
| ConvertChrono.ParsePart | include/bitserializer/conversion_detail/convert_chrono.h:149-171 | A parsed field is a non-negative `int`, no more than a non-zero bound, and followed by its delimiter. |
| ConvertChrono.ParseIso | include/bitserializer/conversion_detail/convert_chrono.h:144-198 | The corrected parser: every field is within its calendar bounds, month and day from 1. |
| ConvertChrono.ParseIsoAsWritten | include/bitserializer/conversion_detail/convert_chrono.h:173-187 | The parser as written: month and day have only upper bounds. |
| ConvertChrono.ParseFormatUtcExt | include/bitserializer/conversion_detail/convert_chrono.h:129-198 | Parsing the formatted text with milliseconds gives the fields back. |
| ConvertChrono.ParseFormatUtc | include/bitserializer/conversion_detail/convert_chrono.h:115-198 | Parsing the formatted text gives the fields back, with 0 milliseconds. |
| ConvertChrono.ParseRejectsWideMilliseconds | include/bitserializer/conversion_detail/convert_chrono.h:181-183 | Milliseconds of 1000 or more are out of bounds. |
| ConvertChrono.DayZeroAcceptedAsWritten | include/bitserializer/conversion_detail/convert_chrono.h:176 | The parser as written reads back a day 00; the corrected one refuses it. |
| ConvertChrono.DayZeroIsDayBefore | include/bitserializer/conversion_detail/convert_chrono.h:94-110 | Day 00 converts to the day before the 1st. |
| ConvertChrono.MonthZeroAsWritten | include/bitserializer/conversion_detail/convert_chrono.h:175-176 | As written, month 00 passes and then indexes `DaysInMonth[-1]`; the corrected parser refuses it. |
| ConvertChrono.ParseIsoRefinesAsWritten | include/bitserializer/conversion_detail/convert_chrono.h:144-198 | The corrected parser differs from the parser as written only on month or day 00. |
| ConvertChrono.UtcToUnixTime | include/bitserializer/conversion_detail/convert_chrono.h:94-110 | For a time of day within bounds, the Unix time divided by 86400 is the day count of the date, and the remainder is the seconds into the day. |
| ConvertChrono.NewYear2020 | include/bitserializer/conversion_detail/convert_chrono.h:94-110 | 1 January 2020 is Unix time 1577836800. |
| ConvertChrono.ParseUtc | include/bitserializer/conversion_detail/convert_chrono.h:203-209 | Over the corrected parser: the fields read lie within the calendar bounds, and a failure is a format error or an out-of-bounds field. |
| ConvertChrono.ParseUtcAsWritten | include/bitserializer/conversion_detail/convert_chrono.h:203-209 | Over the parser as written: the fields read lie within the bounds as written, which allow day 00, and the clock range is never the error. |
| ConvertChrono.ParseIsoNeverIndexesBelowZero | include/bitserializer/conversion_detail/convert_chrono.h:144-198 | A failure of the corrected parser is a format error or an out-of-bounds field. A failure of the parser as written is never about the clock's range. |
| ConvertChrono.ParseRawTime | include/bitserializer/conversion_detail/convert_chrono.h:224-230 | Succeeds exactly when the `tm` parse succeeds. For a real date, the Unix time converts back to the parsed fields. |
| ConvertChrono.ParseRawTimeAsWritten | include/bitserializer/conversion_detail/convert_chrono.h:224-230 | As written, it also succeeds exactly when the `tm` parse does. A real date converts back, and a day 00 gives the Unix time of the 1st minus one day. |
| ConvertChrono.ParseTimePoint | include/bitserializer/conversion_detail/convert_chrono.h:260-279 | A time point is returned only for text the corrected parser reads, and never lies before `min()`. For such text, the only failure is the clock's range. |
| ConvertChrono.ParseTimePointAsWritten | include/bitserializer/conversion_detail/convert_chrono.h:260-279 | The same, over the parser as written. |
| ConvertChrono.ConversionsRefineAsWritten | include/bitserializer/conversion_detail/convert_chrono.h:203-279 | The three conversions and their versions as written agree on every text except day 00. On day 00 the versions as written read a `tm` and a Unix time, and the corrected ones fail with an out-of-bounds field. Where the parser as written fails, so do the corrected conversions. |
| ConvertChrono.DayZeroRawTime | include/bitserializer/conversion_detail/convert_chrono.h:224-230 | The text of a day 00 gives, as written, the Unix time of the 1st minus 86400 seconds. The corrected conversion refuses it as out of bounds. |
| ConvertChrono.ParseUtcOfFormat | include/bitserializer/conversion_detail/convert_chrono.h:203-209 | Parsing into `tm` gives the formatted `tm` back, without milliseconds. |
| ConvertChrono.FormatRawTime | include/bitserializer/conversion_detail/convert_chrono.h:214-219 | The text ends in `Z`. |
| ConvertChrono.RawTimeRoundTrip | include/bitserializer/conversion_detail/convert_chrono.h:214-230 | Formatting a Unix time and parsing the text gives the time back, with unbounded arithmetic, for years 0 to 2^31-1. |
| ConvertChrono.FormatOfParseRawTime | include/bitserializer/conversion_detail/convert_chrono.h:224-230 | A parsed real date formats back to the parsed fields' text. |
| ConvertChrono.FormatTimePointAsWritten | include/bitserializer/conversion_detail/convert_chrono.h:236-252 | The formatter as written: the leftover ticks are printed as milliseconds. |
| ConvertChrono.FormatTimePoint | include/bitserializer/conversion_detail/convert_chrono.h:236-252 | The corrected formatter: the leftover ticks become whole milliseconds. |
| ConvertChrono.ParseTimePointFails | include/bitserializer/conversion_detail/convert_chrono.h:260-265 | A text that does not parse gives the parser's error. |
| ConvertChrono.ParseTimePointMeaning | include/bitserializer/conversion_detail/convert_chrono.h:260-279 | Out of range exactly when the seconds lie outside the clock's. Otherwise the ticks split into the parsed seconds and milliseconds. |
| ConvertChrono.TimePointRoundTrip | include/bitserializer/conversion_detail/convert_chrono.h:236-279 | Format then parse gives the time point back, cut down to whole milliseconds. This holds for every time point whose second is no earlier than the truncated seconds of `min()`; `TimePointPartialFirstSecondRefused` covers the partial second before them. |
| ConvertChrono.TimePointPartialFirstSecondRefused | include/bitserializer/conversion_detail/convert_chrono.h:236-272 | A time point in the partial second before the truncated seconds of `min()` formats to text that parses as out of range. |
| ConvertChrono.NanosecondMinInPartialSecond | include/bitserializer/conversion_detail/convert_chrono.h:269-270 | For 64-bit nanosecond ticks, `min()` has floor seconds -9223372037 and truncated seconds -9223372036, so it lies in that partial second. |
| ConvertChrono.TimePointPastMaxAccepted | include/bitserializer/conversion_detail/convert_chrono.h:266-278 | The range check looks at the seconds only. In the last second of `max()`, milliseconds beyond what `max()` holds pass the check and give a tick count later than `max()`. |
| ConvertChrono.TicksPastMax | include/bitserializer/conversion_detail/convert_chrono.h:271-278 | The same on the seconds and milliseconds: the check passes and the ticks exceed `max()`. |
| ConvertChrono.NanosecondPastMax | include/bitserializer/conversion_detail/convert_chrono.h:271-278 | For 64-bit nanosecond ticks, second 9223372036 plus 900 milliseconds passes the check and gives 9223372036900000000, which is above `INT64_MAX`. |
| ConvertChrono.TimePointRoundTripExact | include/bitserializer/conversion_detail/convert_chrono.h:236-279 | A time point on a whole millisecond comes back exactly. |
| ConvertChrono.FormatTimePointMilliseconds | include/bitserializer/conversion_detail/convert_chrono.h:239-240 | For a millisecond clock, the formatter as written and the corrected one agree. |
| ConvertChrono.TimePointSubMillisecondsRejected | include/bitserializer/conversion_detail/convert_chrono.h:239-240 | For a finer clock, the formatter as written can produce text its own parser refuses. |
| ConvertChrono.FromChars | include/bitserializer/conversion_detail/convert_chrono.h:153 | The digit loop computes `ReadDigits`. |
| ConvertChrono.ParseDatetimePart | include/bitserializer/conversion_detail/convert_chrono.h:149-171 | The lambda computes `ParsePart`. |
| ConvertChrono.ParseDatetime | include/bitserializer/conversion_detail/convert_chrono.h:173-187 | The lambda, moving a cursor field by field, computes the corrected `ParseIso`. |

## Left out

- Parsing and writing JSON text, the C++ REST SDK's and RapidJson's own data structures, streams, byte order marks and `Finalize`: the documents are values of `JsonTree.Json`.
- Encoding detection and transcoding between UTF-8, UTF-16 and UTF-32. The legacy archive's UTF-16 code units and wide keys are characters here.
- Floating point: a double is an opaque payload (`Numbers.Double`), only truncated toward zero when the C++ REST SDK or the test archive needs an integer. Float-to-float narrowing is not modelled.
- `JsonTree.GetterType`: the source picks the 64-bit getter (`GetInt64`, `GetUint64`, `to_int64`, `to_uint64`) by type identity with `int64_t` and `uint64_t`. The model picks it by width. A 64-bit type that is a distinct type from these goes through `GetInt` or `as_integer` in C++ and is not modelled; on LP64 that is `long long`. The same holds for `JsonTree.NumberAsInt`.
- `JsonTree.RapidLoadScalar`: a failed `RAPIDJSON_ASSERT` is the outcome `AssertionFailed`. What a debug build (it stops) or a release build (it reads an unspecified value) does next is not modelled.
- `GenericContainer.LoadContainer`: elements are scalar fields (`bool`, integers, floating point, strings) only. Containers of objects and containers of containers are not modelled. An element whose getter assertion fails is carried past as if nothing loaded.
- `PairSerialization.SerializePairMembers`: a component whose getter assertion fails keeps its value in the model.
- `SafeNumberCast` is not part of this model. It is modelled by `Numbers.SafeIntCast` as a range check followed by the overflow policy.
- The serialization context, the collection of validation errors per path, and `ValidationException`.
- The archive base classes, `GetBaseContainer`, and the `static_assert` checks that select overloads at compile time.
- `Validators.Validate`: `Range` is modelled over integers only, though the template takes any ordered type.
- `StubArchive.ObjectScope.VisitKeys`: the order of the keys of the `std::map` is not stated, only that each key is visited once.
- `CppRestArchive.ObjectScope.Keys`: the C++ REST SDK may keep an object's members sorted. The model keeps them in insertion order.
- `ConvertChrono.UnixTimeToUtc`: the `time_t` and `int` arithmetic is unbounded here.
- `ConvertChrono.UtcToUnixTime`: the day count is computed in `int`, which overflows past the year 5879609 (`DayCountOverflowsInt`). The model's arithmetic is unbounded. `DayCountFitsInt` bounds where the two agree.
- `ConvertChrono.RawTimeRoundTrip`: proved for years 0 to 2^31-1 with unbounded arithmetic. In C++ it holds only up to the year 5879609, where the `int` day count of `UtcToUnixTime` still fits (`DayCountFitsInt`). Past that year the sum overflows.
- `ConvertChrono.UnixTimeRoundTrip`, `ConvertChrono.UtcRoundTrip` and `ConvertChrono.TimePointRoundTrip`: these round trips go through `UtcToUnixTime`. Like `RawTimeRoundTrip`, they describe the C++ only up to the year 5879609.
- `ConvertChrono.ParseTimePoint`: the tick count `seconds * perSecond + milliseconds` is unbounded in the model, while the C++ duration is a 64-bit count. The range check tests the seconds only, so for text in the last second of `max()` the C++ addition of the milliseconds overflows. An example is `2262-04-11T23:47:16.900Z` on a nanosecond clock. The model returns a tick count above `max()` instead (`TimePointPastMaxAccepted`, `NanosecondPastMax`).
- `ConvertChrono.TimePointRoundTrip`: requires the time point's floor second to be no earlier than the truncated seconds of `min()`. A time point in the partial second before them does not come back; it parses as out of range (`TimePointPartialFirstSecondRefused`). On a nanosecond clock this includes `min()` itself (`NanosecondMinInPartialSecond`).
- Timestamps of the test archive (`CBinTimestamp`) are opaque pairs of integers.
- Saving through a scope whose parent has moved on is not modelled: scopes are strictly nested, and each child records its parent's path when it is opened.

## Findings

| source | as written | input that shows it | evidently intended | confidence | as-written member | corrected member |
|---|---|---|---|---|---|---|
| include/bitserializer/conversion_detail/convert_chrono.h:175-176 | The month and the day are checked only against an upper bound. A month 00 then reads `DaysInMonth[-1]`, and a day 00 is accepted. | `"2020-01-00T00:00:00Z"` is read as 31 December 2019; `"2020-00-01T00:00:00Z"` reads before the table | Month and day 00 refused as out of bounds | medium, not executed | ConvertChrono.DayZeroAcceptedAsWritten | ConvertChrono.ParseIsoRefinesAsWritten |
| include/bitserializer/conversion_detail/convert_chrono.h:239-240 | The ticks left over after the seconds are cast to `int` and printed as milliseconds, whatever the clock's tick. | A microsecond clock at 1.5 s prints `.500000`, which the parser refuses | The leftover converted to whole milliseconds | high, not executed | ConvertChrono.TimePointSubMillisecondsRejected | ConvertChrono.TimePointRoundTrip |
