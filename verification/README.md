# Remote app manager: a verified model

This project models, in Dafny 4.11, the device side of a remote app manager for WebAssembly
and the parts of its host tool that speak to it, and proves what each part promises. It covers
the attribute container that carries typed values, the install receiver that takes an
application apart byte by byte, the framing of the serial link and both of its receivers, the
pending requests of an app, packets and URLs, the JSON reader and writer of the host tool, the
sensor framework, and the registries of events and resources. `dafny verify dfyconfig.toml`
checks everything.

Each component has two layers. One or more modules of functions and lemmas define the state, what
every operation does to it, and prove the properties of steps and of whole runs. Where the
program works by changing things in place, a second module holds it in that form, as classes and
methods with loops over arrays, lists and pointers, and proves each of them equal to the first
layer. So a property of the functions is a property of the methods. The modules whose names end in
`Laws` say of each step what it does in plain terms: fields, positions, byte values and numbers.

| component | functions and theorems | in its own form |
|---|---|---|
| packets, URLs and query strings | `RestfulUtils`, `PacketLaws`, `UrlQuery` | the methods of both |
| install receiver | `InstallState`, `InstallImage`, `InstallAgreement`, `InstallEncoding`, `InstallLaws` | `InstallReceiver`, `SectionLists` |
| link layer | `LinkState`, `LinkRuns`, `LinkPeer`, `LinkLaws` | `HostLink`, `Transport` |
| attribute container | `AttrFormat`, `AttrLayout`, `AttrRuns`, `AttrLaws` | `AttrContainer` |
| request transactions | `TransactionState`, `TransactionRuns`, `TransactionLaws` | `Requests` |
| JSON | `JsonText`, `JsonStrings`, `JsonNumber`, `JsonTree`, `JsonDocument`, `JsonRoundTrip`, `JsonLaws`, `JsonOverread` | `JsonParser`, `JsonPrinter`, `SiblingList` |
| sensors | `SensorState`, `SensorRuns`, `SensorLaws` | `Sensors` |
| events and resources | `EventRegistry`, `ResourceRegistry`, `RegistryLaws` | `Registries` |

`Bytes` has integers in both byte orders and C strings, `Memory` the block operations of the C
library, `Lists` what searching and unlinking do to a list, and `Chains` singly linked nodes, which
hold the pending requests, the registered resources and the sections of an app.

## Where the code and its intent differ

The model follows the code. Where the code does not do what is meant, a lemma says exactly when
it does.

- A request frame that does not unpack, and an install frame that ends in the middle of a
  section, leave the link in a stale state (`LinkRuns.FrameRun` is an if-and-only-if;
  `LinkRuns.BadRequestMisleadsNextFrame` follows such a frame into the next one).
- A section of size 0 or an empty URL has no room for the bytes behind it, which the code writes all
  the same (`InstallAgreement.WritesStayInside` is an if-and-only-if).
- The walk to the tail of the pending list does not advance, so the third pending request never
  returns (`Requests.Client.TransactionAddAsWritten`). Everything else about requests is proved of the
  append that the comment above the list describes.
- `check_set_attr` tests another bit than the one `attr_container_serialize` sets
  (`AttrContainer.SerializedCopy`).
- Setting an attribute takes two type codes that no getter knows (`AttrRuns.GetAfterRun`).
- A string too long for its 16-bit length field is stored cut (`AttrFormat.StringLengthMustFit`).
- The request unpacker reads past its packet in two cases (`RestfulUtils.RequestOverreads`), and may
  accept a URL that does not end in the packet (`RestfulUtils.UrlEndsInside`).
- The JSON parser reads behind a buffer that breaks off behind a comma between members
  (`JsonOverread.OverreadsAtComma` is an if-and-only-if), and takes four bytes that are no digits
  for U+0000 (`JsonText.BadDigitsReadAsNul`).
- Adding an item that still has a `next`, or is in the list already, leaves no valid list, and so
  does inserting or replacing with one that is in the list already, but for one case
  (`SiblingList.Item.Add`, `SiblingList.Item.InsertAt`, `SiblingList.Item.Replace`).
- Registering an event can leave one without subscribers when memory runs out between two
  allocations (`EventRegistry.RegisterKeepsInv`).
- Sensor ids repeat after 2^32 - 1 sensors (`SensorState.IdsAreDistinct`).

## Model

| member | source | states |
|---|---|---|
| `RestfulUtils.PackRequest` | app-framework/app-native-shared/restful_utils.c:47-84 | the packet is the 18-byte header, the URL with its terminator and the payload; null exactly without memory |
| `RestfulUtils.PackResponse` | app-framework/app-native-shared/restful_utils.c:141-173 | the packet is the 16-byte header and the payload; null exactly without memory |
| `RestfulUtils.UnpackInvertsPackRequest` | app-framework/app-native-shared/restful_utils.c:47-139 | unpacking a packed request returns it if and only if every field fits its width |
| `RestfulUtils.UnpackInvertsPackResponse` | app-framework/app-native-shared/restful_utils.c:141-210 | the same for responses |
| `RestfulUtils.RepackAcceptedRequest` | app-framework/app-native-shared/restful_utils.c:47-139 | an accepted packet repacks to the same bytes if and only if the only NUL of its URL field is the last byte of it |
| `RestfulUtils.RepackAcceptedResponse` | app-framework/app-native-shared/restful_utils.c:141-210 | an accepted response repacks to the same bytes |
| `RestfulUtils.RequestOverreads` | app-framework/app-native-shared/restful_utils.c:92-139 | the packets that make the unpacker itself read outside: the empty one, and those of a size an `int` holds whose lengths wrap around to the right sum |
| `RestfulUtils.UrlEndsInside` | app-framework/app-native-shared/restful_utils.c:92-139 | the URL of an accepted request ends inside its packet if and only if its field is not empty or a later byte of the packet is NUL |
| `RestfulUtils.OutsideExamples` | app-framework/app-native-shared/restful_utils.c:92-139 | a header alone reaches outside in both ways: with lengths that wrap around, and with an empty URL |
| `PacketLaws.RequestBytes` | app-framework/app-native-shared/restful_utils.c:47-84 | every byte of a packed request: version 1, action, format, id and sender most significant byte first, both lengths, URL with NUL, payload |
| `PacketLaws.ResponseBytes` | app-framework/app-native-shared/restful_utils.c:141-173 | every byte of a packed response |
| `PacketLaws.AcceptedRequests` | app-framework/app-native-shared/restful_utils.c:92-120 | a packet is accepted as a request if and only if it has 18 bytes or more, version 1, lengths that add up to its size, and a NUL at the end of the URL field |
| `PacketLaws.AcceptedResponses` | app-framework/app-native-shared/restful_utils.c:175-195 | and as a response if and only if it has 16 bytes or more, version 1 and a payload length that fits its size |
| `UrlQuery.CheckUrlStartSplits` | app-framework/app-native-shared/restful_utils.c:342-390 | a positive result is the one offset that splits the URL behind the path at a segment boundary; 0 means there is none |
| `UrlQuery.CheckUrlStartMatches` | app-framework/app-native-shared/restful_utils.c:342-390 | a URL starts with a path when it is the path or goes on behind it with `/` or `?`; the offset counts that byte and a leading slash; one slash is ignored in front of the URL and at either end of the path, and no more |
| `UrlQuery.CheckUrlStartIgnoresSlashes` | app-framework/app-native-shared/restful_utils.c:342-390 | slashes at the ends of the path make no difference, and no URL starts with the empty path |
| `UrlQuery.FindKeyValue` | app-framework/app-native-shared/restful_utils.c:453-493 | the loop terminates, stays in the buffer, finds what the recursive lookup finds and copies it with a terminator, or leaves the output alone |
| `UrlQuery.LookupFindsFirstValue` | app-framework/app-native-shared/restful_utils.c:453-493 | on every list of joined pairs the lookup returns the first value of the key, cut to the room, or nothing when the key is absent |
| `UrlQuery.SeparatorsAreSkipped` | app-framework/app-native-shared/restful_utils.c:461-463 | spaces and delimiters in front of a field are skipped |
| `UrlQuery.LookupField` | app-framework/app-native-shared/restful_utils.c:453-493 | of any field, well-formed or not: when it begins with the key and `=` its value is what follows, cut to the room, and else the search goes on behind it |
| `InstallReceiver.Receiver.OnByteArrive` | app-mgr/app-manager/module_wasm_app.c:1099-1585 | one call changes the receive context, answers, counts and posts as the step function of the theorems does |
| `InstallState.StepKeeps` | app-mgr/app-manager/module_wasm_app.c:1107-1119 | a rejected byte and a completed request leave the context idle, any other byte leaves it counting |
| `InstallState.IdleIsInitial` | app-mgr/app-manager/module_wasm_app.c:1107-1119 | from any idle context a request is received as from the zeroed one |
| `InstallState.ZeroFillStaysMapped` | app-mgr/app-manager/module_wasm_app.c:1459-1530 | the text of an AOT section is rounded up to 4 bytes and zero filled exactly up to the mapped size |
| `InstallAgreement.StreamingAgreesWithParser` | app-mgr/app-manager/module_wasm_app.c:1099-1585 | on every byte string whose size an `int` holds the receiver and the recursive whole-image parser agree: posting with the last byte what the parser returns, rejecting what is malformed, waiting when the image breaks off, and being given a byte for an empty block when it announces one |
| `InstallAgreement.WritesStayInside` | app-mgr/app-manager/module_wasm_app.c:1140-1515 | every byte of such an image is written inside its block if and only if the image announces no empty URL or section with bytes behind it |
| `InstallAgreement.EmptyUrlOverruns` | app-mgr/app-manager/module_wasm_app.c:1140-1173 | a header of zeros and two bytes behind it overrun |
| `InstallImage.StepKeepsFieldsFit` | app-mgr/app-manager/module_wasm_app.c:1080-1173 | no fixed-width field ever takes more bytes than it has, whatever arrives |
| `InstallEncoding.LebRoundTrip` | app-mgr/app-manager/module_wasm_app.c:1283-1321 | every 32-bit size is written in at most 5 groups and read back |
| `InstallEncoding.LebIsValueModulo32` | app-mgr/app-manager/module_wasm_app.c:1283-1321 | any size field of at most 5 groups is read as its value modulo 2^32 |
| `InstallEncoding.ParseInvertsEncode` | app-mgr/app-manager/module_wasm_app.c:1231-1361 | parsing written bytecode sections returns them, type, size and body, in order |
| `InstallEncoding.ParseInvertsEncodeAot` | app-mgr/app-manager/module_wasm_app.c:1383-1555 | the parser skips exactly the padding to 4-byte offsets and rebuilds the AOT sections in order |
| `InstallEncoding.BytecodeImageInstalls` | app-mgr/app-manager/module_wasm_app.c:1099-1361 | every well-formed bytecode image of a size an `int` holds is accepted byte by byte and posted with its last byte, with its header fields and sections |
| `InstallEncoding.AotImageInstalls` | app-mgr/app-manager/module_wasm_app.c:1364-1555 | the same for padded AOT images, text sections rounded up and zero filled |
| `InstallLaws.RejectedBytes` | app-mgr/app-manager/module_wasm_app.c:1099-1585 | exactly which bytes are rejected: a request version other than 1, magic or file version bytes that are wrong, a section type that is too large or not one of 0 to 5 and 100, a sixth byte of a section size, and a text section that cannot be mapped |
| `InstallLaws.EveryKnownTypeInstalls` | app-mgr/app-manager/module_wasm_app.h:31-39 | an image with one section of each of the types 0 to 5 and 100 is posted with its last byte, if its text can be mapped |
| `SectionLists.SectionList.DestroyAll` | app-mgr/app-manager/module_wasm_app.c:1632-1692 | the walk over the nodes gives every section back, in order, mapped text as such, and leaves the list empty |
| `SectionLists.SectionList.DestroyPart` | app-mgr/app-manager/module_wasm_app.c:1645-1726 | the node of the first section of each named type is unlinked behind its predecessor or from the head, and given back; the rest stays one chain |
| `SectionLists.EverySectionOnce` | app-mgr/app-manager/module_wasm_app.c:1632-1726 | destroying a part and later the rest gives back each section exactly once |
| `SectionLists.LeftPerType` | app-mgr/app-manager/module_wasm_app.c:1645-1726 | of each type as many sections go as it is named, as far as there are any |
| `SectionLists.LeftInOrder` | app-mgr/app-manager/module_wasm_app.c:1645-1726 | the sections left keep their order |
| `SectionLists.OneTypeAtATime` | app-mgr/app-manager/module_wasm_app.c:1645-1726 | for each type named, in turn, the first section of it goes and the others stay as they are; nothing goes when there is none |
| `SectionLists.MappedIsText` | app-mgr/app-manager/module_wasm_app.c:1664-1692 | what is unmapped is text, of type 2, of AOT code, and everything else is freed |
| `HostLink.LinkReceiver.OnByteArrive` | app-mgr/app-manager/app_manager_host.c:67-218 | one byte changes the link and install contexts as the step function of the theorems does |
| `HostLink.LinkReceiver.HostMsgCallback` | app-mgr/app-manager/app_manager_host.c:220-262 | a chunk is handled byte by byte, every message as it completes, with the events of the run function |
| `HostLink.Sender.SendMsg` | app-mgr/app-manager/app_manager_host.c:286-324 | the wire gets the 8-byte header and the payload, or only what went out of the header |
| `LinkState.ChunksDoNotMatter` | app-mgr/app-manager/app_manager_host.c:220-262 | any cut into chunks gives the same events and state |
| `LinkRuns.StepCanon` | app-mgr/app-manager/app_manager_host.c:67-218 | stale fields have no influence on events and messages |
| `LinkRuns.FrameRun` | app-mgr/app-manager/app_manager_host.c:67-262 | a frame, of a size an `int` holds, produces its events, and the device is ready for the next one if and only if the frame is clean: no request that does not unpack, no install image that breaks off or has an empty block |
| `LinkRuns.CutShortFrame` | app-mgr/app-manager/app_manager_host.c:158-205 | an install frame with the one byte 1 is such a frame |
| `LinkRuns.StreamRun` | app-mgr/app-manager/app_manager_host.c:67-262 | a stream of clean frames produces the events of its frames in order, whatever bytes are between them in which no frame starts |
| `LinkRuns.RequestsAreDispatched` | app-mgr/app-manager/app_manager_host.c:67-262 | every list of packable requests, framed, with such bytes between them and in any chunks, is dispatched in order with -3 as sender, and nothing else is |
| `LinkRuns.RejectedInstallIsAbsent` | app-mgr/app-manager/app_manager_host.c:158-215 | an install frame rejected at any byte takes exactly its declared length, and what follows is received as if it had not been there |
| `LinkRuns.BadRequestMisleadsNextFrame` | app-mgr/app-manager/app_manager_host.c:238-257 | behind a request that does not unpack a frame of type 0 is taken for one of type 512 |
| `Transport.HostReceiver.OnByteArrive` | test-tools/host-tool/src/transport.c:193-263 | one byte changes the host tool's context, buffer and return code as the host step function does |
| `LinkPeer.ReceiversAgree` | test-tools/host-tool/src/transport.c:193-263 | on every byte stream, garbage included, whose frames are neither installs nor bad requests and have sizes an `int` holds, both receivers complete at the same bytes with the same type and payload |
| `LinkPeer.CountersFit` | app-mgr/app-manager/app_manager_host.c:29-33 | on such a stream, however long, no `int` that counts bytes overflows at any point |
| `LinkPeer.ReceiversAgreeFromTheStart` | test-tools/host-tool/src/transport.c:193-263 | in particular two receivers that have just been reset |
| `LinkPeer.HostFrameTrace` | test-tools/host-tool/src/transport.c:193-263 | a frame completes with its last byte, with its type and payload |
| `LinkPeer.HostInvertsFraming` | test-tools/host-tool/src/transport.c:193-263 | the host tool receives exactly the messages framed by the device's sender, in order, whatever bytes are between them in which no frame starts |
| `LinkLaws.FrameBytes` | app-mgr/app-manager/app_manager_host.c:286-324 | every byte of a frame: 0x12, 0x34, type and length most significant byte first, payload |
| `LinkLaws.WhatFramesDo` | app-mgr/app-manager/app_manager_host.c:220-262 | a frame of type 2 is dispatched, with the sender 2^32 - 3, if its request unpacks; one of type 4 can only install; of every other type the device says that it is unexpected |
| `LinkLaws.HostCodes` | test-tools/host-tool/src/transport.c:185-263 | the return code of every byte: -1 for a wrong leading byte, 0 for the last of a message, 2 for any other of a payload, 1 for the rest |
| `AttrContainer.Handle.constructor` | app-framework/app-native-shared/attr_container.c:266-298 | the fresh block holds the empty container with its tag |
| `AttrContainer.Handle.SetAttr` | app-framework/app-native-shared/attr_container.c:308-462 | success, by any of the five ways, is an update of the ordered map; when it succeeds is stated exactly; a refusal changes no byte; only a full block is exchanged |
| `AttrContainer.GetAttrBegin` | app-framework/app-native-shared/attr_container.c:106-145 | total length, count and start of the records of the container held |
| `AttrContainer.GetAttrNext` | app-framework/app-native-shared/attr_container.c:147-174 | from the start of a record to the start of the next |
| `AttrContainer.FindAttr` | app-framework/app-native-shared/attr_container.c:176-208 | the record of a key, or nothing exactly when the key is absent |
| `AttrContainer.GetAttrEnd` | app-framework/app-native-shared/attr_container.c:210-226 | the end of the last record |
| `AttrContainer.IncAttrNum` | app-framework/app-native-shared/attr_container.c:250-264 | the count field, and nothing else, says one more |
| `AttrContainer.Handle.GetAsBytearray` | app-framework/app-native-shared/attr_container.c:751-804 | the bytes of the value of a key whose type code is 0 to 7 or 10 to 14, and nothing for 8, 9 and a missing key |
| `AttrContainer.Handle.GetAsScalar` | app-framework/app-native-shared/attr_container.c:598-749 | what the switch on the stored type copies into a number of the width of the getter: a scalar (codes 0 to 7 and 10 to 12) that fits, the first bytes of a longer string or byte array (13, 14), zeros behind a shorter value, and only zeros for the codes 8 and 9, a missing key or a scalar that is too wide |
| `AttrContainer.Handle.ContainKey` | app-framework/app-native-shared/attr_container.c:813-822 | true if and only if the key is in the map |
| `AttrContainer.Handle.Serialize` | app-framework/app-native-shared/attr_container.c:839-860 | the copy holds the same container with the read-only flag; the original stays |
| `AttrContainer.SerializedCopy` | app-framework/app-native-shared/attr_container.c:308-326 | a serialized copy has the tag and attributes of the original and is reported constant, but refuses set only if the original did |
| `AttrFormat.PutIsMapUpdate` | app-framework/app-native-shared/attr_container.c:354-459 | a set gives its key the new type and bytes and leaves every other key as it was; keys stay distinct |
| `AttrFormat.PutKeepsOthers` | app-framework/app-native-shared/attr_container.c:354-459 | the attributes of other keys are the same, in the same order, through shifting and growth |
| `AttrFormat.ReadInvertsEncode` | app-framework/app-native-shared/attr_container.c:147-174 | a record is read back whatever follows it |
| `AttrFormat.ReadFindsHeld` | app-framework/app-native-shared/attr_container.c:106-226 | a block holds at most one container: reading it returns the container it was proved to hold |
| `AttrFormat.StringLengthMustFit` | app-framework/app-native-shared/attr_container.c:376-380 | a string attribute is read back if and only if its length fits 16 bits |
| `AttrRuns.Replay` | app-framework/app-native-shared/attr_container.c:266-462 | after any run of sets on a created container the block reads back as the ordered-map model |
| `AttrRuns.ReplayedIsLastWriter` | app-framework/app-native-shared/attr_container.c:328-462 | after any run every key has the value it was last set to, and keys are distinct |
| `AttrRuns.GetAfterRun` | app-framework/app-native-shared/attr_container.c:598-822 | after any run of sets on a created container every getter reads out of the block what its key was last set to, by the same type codes |
| `AttrRuns.IntegersReadBack` | app-framework/app-native-shared/attr_container.c:464-749 | an integer of any width, signed or unsigned, set with a type code 0 to 7 or 10 to 14, is returned by the getter of that width if and only if it fits |
| `AttrLaws.WidthOfTypes` | app-framework/app-native-shared/bi-inc/attr_container.h:21-48 | which values a type code takes: 1 byte for 0, 4, 8, 12; 2 for 1, 5, 9; 4 for 2, 6, 10; 8 for 3, 7, 11; less than 2^16 for 13 and 2^32 for 14 |
| `AttrLaws.WhatCanBeSet` | app-framework/app-native-shared/attr_container.c:308-380 | an attribute is well formed when its key has 1 to 65534 bytes, no NUL among them, and its value fits its type |
| `AttrLaws.RecordBytes` | app-framework/app-native-shared/attr_container.c:354-380 | every byte of a record: length of the key with its NUL, key, NUL, type code, and the value behind a length of 2 bytes for strings and 4 for byte arrays |
| `AttrLaws.BlockBytes` | app-framework/app-native-shared/attr_container.c:266-298 | every byte of a block before its records: flags, its length without them, length of the tag with its NUL, tag, NUL, number of records |
| `AttrLaws.FlagsInNumbers` | app-framework/app-native-shared/attr_container.c:300-326 | setting is refused by the flag of value 2, being constant is the flag of value 4, and serializing sets that one |
| `AttrLaws.RoomInNumbers` | app-framework/app-native-shared/attr_container.c:390-459 | a block has room for a value exactly when header, records and the new record, less the one that is replaced, fit, or the two are of the same size |
| `AttrLaws.PlaceOfSet` | app-framework/app-native-shared/attr_container.c:390-459 | a value with a record of the same size takes its place, any other goes to the end |
| `AttrLaws.LastSetIsLast` | app-framework/app-native-shared/attr_container.c:328-462 | what a key was last set to, by the position in the run |
| `TransactionState.ElapsedIsAge` | app-framework/base/app/request.c:150-176 | the computed elapsed time is the true age if and only if the age is below 2^32 ms |
| `TransactionRuns.ScanIsFilter` | app-framework/base/app/request.c:150-176 | the scan that stops at the first unexpired transaction takes exactly those that are 5000 ms old |
| `TransactionRuns.StepKeepsInv` | app-framework/base/app/request.c:150-299 | sending, responding, expiring and ticking keep the invariant of dates, ids, accounts and timer |
| `TransactionRuns.EveryRequestIsAccountedFor` | app-framework/base/app/request.c:76-299 | over every run each request sent is answered, timed out or pending, exactly once, and the timer is armed exactly when something is pending |
| `TransactionRuns.RearmIsExact` | app-framework/base/app/request.c:187-206 | arming hits the expiry if and only if the transaction is not older than the timeout |
| `TransactionRuns.DeadlineIsOldestExpiry` | app-framework/base/app/request.c:150-299 | in every run whose clock never passes an armed deadline, that deadline is the oldest start time plus 5000 ms |
| `TransactionRuns.TimesOutOnTheDot` | app-framework/base/app/request.c:150-206 | what times out then is exactly 5000 ms old, and something does |
| `TransactionLaws.ResponseAnswersItsRequest` | app-framework/base/app/request.c:257-299 | a response calls the handler of the pending request with its message id, which leaves the list, and touches no other |
| `TransactionLaws.UnknownResponseIsIgnored` | app-framework/base/app/request.c:257-270 | a response with an id that is not pending changes nothing |
| `TransactionLaws.ExpiryTakesTheOld` | app-framework/base/app/request.c:150-206 | the timer handler takes the requests that are 5000 ms old or older, calls their handlers from the newest to the oldest, and leaves the others in order |
| `TransactionLaws.FateIsMet` | app-framework/base/app/request.c:150-299 | from any state on, each pending request becomes what the steps that follow say |
| `TransactionLaws.EveryFate` | app-framework/base/app/request.c:76-299 | over every run each request sent is answered if and only if a response with its message id comes before the timer handler has run 5000 ms or more after it was sent, timed out if and only if it is the other way round, and else pending |
| `TransactionLaws.OnlySentIsHandled` | app-framework/base/app/request.c:76-299 | and no handler is called but for a request that was sent |
| `Requests.Client.TransactionFind` | app-framework/base/app/request.c:39-51 | the first node with a message id |
| `Requests.Client.TransactionAdd` | app-framework/base/app/request.c:53-74 | the node is linked behind the last one, as the comment says |
| `Requests.Client.TransactionAddAsWritten` | app-framework/base/app/request.c:58-74 | the loop that is there: after any number of rounds it has returned exactly when at most one transaction was pending, and until then it has changed nothing |
| `Requests.Client.TransactionRemove` | app-framework/base/app/request.c:76-95 | the node is unlinked from its predecessor or the head, and the rest is still one chain |
| `Requests.Client.SendRequest` | app-framework/base/app/request.c:208-248 | the chain, timer and history become those of the send step; nothing changes when the request does not pack |
| `Requests.Client.OnResponse` | app-framework/base/app/request.c:257-299 | the handler of the first pending request with the message id is called and that request leaves the chain, the others staying in order; an unknown id changes nothing; the timer becomes that of the response step |
| `Requests.Client.TimeoutHandler` | app-framework/base/app/request.c:150-206 | the chain, timer and handler calls become those of the expiry step; the expired nodes are relinked in reverse |
| `JsonText.Utf8IsStandard` | test-tools/host-tool/external/cJSON/cJSON.c:690-728 | every character is encoded as the well-formed UTF-8 sequence that stands for it (section 3 of RFC 3629) |
| `JsonText.PairOfHalves` | test-tools/host-tool/external/cJSON/cJSON.c:655-688 | the two halves of a surrogate pair give back their character (section 2.2 of RFC 2781) |
| `JsonText.EscapeDecodes` | test-tools/host-tool/external/cJSON/cJSON.c:597-739 | every escape of every character decodes to its UTF-8 form, whatever follows (section 7 of RFC 8259) |
| `JsonText.BadDigitsReadAsNul` | test-tools/host-tool/external/cJSON/cJSON.c:597-739 | an escape reads as NUL if and only if one of its four bytes is no digit or all are 0 |
| `JsonText.ParseReadsLiteral` | test-tools/host-tool/external/cJSON/cJSON.c:742-864 | every string literal, plain bytes, short escapes, escapes and pairs mixed in any way, is read as the UTF-8 of what it stands for (section 7 of RFC 8259) |
| `JsonText.DecodedFits` | test-tools/host-tool/external/cJSON/cJSON.c:742-864 | what a literal decodes to, with its terminator, fits the block the first scan computes |
| `JsonText.ParseInvertsQuote` | test-tools/host-tool/external/cJSON/cJSON.c:742-985 | every string is read back from its written literal |
| `JsonStrings.LiteralsExactly` | test-tools/host-tool/external/cJSON/cJSON.c:742-864 | of any text, a literal is read if and only if it begins with a quote, ends at the first quote that no backslash escapes, and is made of bytes, the eight short escapes and good escapes of characters; and the bytes read are what those stand for |
| `JsonStrings.EndsAtQuote` | test-tools/host-tool/external/cJSON/cJSON.c:754-780 | the end of a literal is the first quote with no backslash in front, backslashes taken in pairs |
| `JsonStrings.EscapeReads` | test-tools/host-tool/external/cJSON/cJSON.c:636-739 | a good escape, one of a character that is no half of a pair or two of a high and a low half, is read as the UTF-8 of its character |
| `JsonStrings.OnlyGoodEscapes` | test-tools/host-tool/external/cJSON/cJSON.c:636-739 | and nothing else is read as an escape |
| `JsonNumber.ParseInvertsNumber` | test-tools/host-tool/external/cJSON/cJSON.c:308-377 | every number, in the grammar of section 7.22.1.3 of ISO C11 and so in that of section 6 of RFC 8259, of up to 63 bytes is read whole when no byte follows that numbers have |
| `JsonNumber.NumberIsLongest` | test-tools/host-tool/external/cJSON/cJSON.c:308-377 | of any text, what is read is a number of that grammar, and the longest of up to 63 bytes that stands there; reading fails if and only if there is none |
| `JsonDocument.ReadsDocument` | test-tools/host-tool/external/cJSON/cJSON.c:1272-1647 | every text of a grammar with white space between all parts is read, wherever it stands, as the value it stands for, if it is nested at most 1000 deep and no number goes on behind it |
| `JsonDocument.ValueIsDocument` | test-tools/host-tool/external/cJSON/cJSON.c:1272-1647 | and whatever is read as a value is a text of that grammar and has that value |
| `JsonDocument.ReadsText` | test-tools/host-tool/external/cJSON/cJSON.c:1060-1134 | a whole buffer is read that has such a text behind white space and perhaps a byte order mark, which counts in buffers of 5 bytes or more |
| `JsonDocument.AcceptedIsText` | test-tools/host-tool/external/cJSON/cJSON.c:1060-1134 | and no other is |
| `JsonDocument.SkipGap` | test-tools/host-tool/external/cJSON/cJSON.c:1002-1024 | bytes up to 32 are skipped up to the first that is larger |
| `JsonDocument.SkipToEnd` | test-tools/host-tool/external/cJSON/cJSON.c:1002-1024 | at the end of the buffer the last byte is not passed |
| `JsonDocument.StringShift` | test-tools/host-tool/external/cJSON/cJSON.c:742-864 | a string literal is read in any place as it is by itself |
| `JsonRoundTrip.ParseInvertsPrint` | test-tools/host-tool/external/cJSON/cJSON.c:1272-1748 | a tree with NUL-free strings, numbers as they are printed, is read back from its text, formatted or not, with or without asking for the terminator, if and only if it is nested at most 1000 deep |
| `JsonLaws.PrintedValues` | test-tools/host-tool/external/cJSON/cJSON.c:1332-1542 | the words, the numbers, and arrays with `,` between elements, or `, ` when formatted |
| `JsonLaws.PrintedObjects` | test-tools/host-tool/external/cJSON/cJSON.c:1650-1748 | objects with `,` between members; formatted, each member is on a line of its own behind as many tabs as it is deep, with a tab behind the colon |
| `JsonLaws.PrintedStrings` | test-tools/host-tool/external/cJSON/cJSON.c:866-978 | a string is quoted and its bytes are escaped one by one: quote, backslash, the five short escapes, \u00XX for other control characters, and any other byte as it is |
| `JsonLaws.ReadEscapes` | test-tools/host-tool/external/cJSON/cJSON.c:597-864 | what each short escape stands for, and what hexadecimal digits are worth |
| `JsonDocument.AcceptedHeight` | test-tools/host-tool/external/cJSON/cJSON.c:1400-1412 | whatever the parser accepts, of any text, is nested within the limit |
| `JsonOverread.ValueStable` | test-tools/host-tool/external/cJSON/cJSON.c:1272-1647 | what is read from a text that ends with a comma or a closing bracket is read from it whatever follows |
| `JsonOverread.OverreadsAtComma` | test-tools/host-tool/external/cJSON/cJSON.c:1589-1600 | the parser reads behind its buffer if and only if the text ends with a comma and lacks a member there: with one behind it, and then more, it would be a single value |
| `JsonOverread.OverreadExample` | test-tools/host-tool/external/cJSON/cJSON.c:1589-1600 | `{"a":null,` is such a text, and with its terminator it is not |
| `JsonParser.ParseBuffer.MeasureString` | test-tools/host-tool/external/cJSON/cJSON.c:742-790 | the end of a literal and the number of escapes in it |
| `JsonParser.ParseBuffer.DecodeInto` | test-tools/host-tool/external/cJSON/cJSON.c:782-850 | the block of the computed size receives exactly the decoded bytes and has room for the terminator |
| `JsonParser.ParseBuffer.ReadString` | test-tools/host-tool/external/cJSON/cJSON.c:742-864 | gives what the recursive parser gives, string and offset, failure, or the read behind the buffer |
| `JsonParser.ParseBuffer.CopyNumber` | test-tools/host-tool/external/cJSON/cJSON.c:308-351 | the bytes a number can have, 63 at most, go to the block |
| `JsonParser.ParseBuffer.ReadNumber` | test-tools/host-tool/external/cJSON/cJSON.c:308-377 | the same for numbers: the offset moves by as much as `strtod` takes (section 7.22.1.3 of ISO C11) |
| `JsonParser.ParseBuffer.ReadValue` | test-tools/host-tool/external/cJSON/cJSON.c:1272-1329 | the same for values; the nesting depth is restored, and the item has a sibling list of as many children as the value |
| `JsonParser.ParseBuffer.ReadArray` | test-tools/host-tool/external/cJSON/cJSON.c:1400-1487 | the same for arrays, one linked child for each element |
| `JsonParser.ParseBuffer.ReadObject` | test-tools/host-tool/external/cJSON/cJSON.c:1545-1647 | the same for objects, one linked child for each member |
| `JsonParser.ParseText` | test-tools/host-tool/external/cJSON/cJSON.c:1060-1134 | the loops and the recursive parser give the same tree, or fail or read outside alike, with or without the terminator asked for |
| `JsonPrinter.PrintBuffer.Ensure` | test-tools/host-tool/external/cJSON/cJSON.c:434-506 | room behind the offset in this block or a larger one, all text already written kept; it fails only without memory or beyond the size limit |
| `JsonPrinter.PrintBuffer.UpdateOffset` | test-tools/host-tool/external/cJSON/cJSON.c:508-520 | the offset moves to the terminator of the text |
| `JsonPrinter.PrintBuffer.PrintNumber` | test-tools/host-tool/external/cJSON/cJSON.c:531-594 | the digits stand behind the text that was there, unless they are too many for the block of 26 bytes |
| `JsonPrinter.PrintBuffer.PrintString` | test-tools/host-tool/external/cJSON/cJSON.c:866-978 | the quoted literal stands behind the text that was there, in a block measured to fit |
| `JsonPrinter.PrintBuffer.PrintArray` | test-tools/host-tool/external/cJSON/cJSON.c:1490-1542 | the text of the array stands behind what was there; with memory it succeeds |
| `JsonPrinter.PrintBuffer.PrintObject` | test-tools/host-tool/external/cJSON/cJSON.c:1650-1748 | the same for objects, with indentation |
| `JsonPrinter.Print` | test-tools/host-tool/external/cJSON/cJSON.c:1150-1210 | the printed text is the text of the tree, and with memory there is one |
| `SiblingList.ChainIsUnique` | test-tools/host-tool/external/cJSON/cJSON.c:1772-1788 | the links determine the order of the children |
| `SiblingList.LinksOfSiblings` | test-tools/host-tool/external/cJSON/cJSON.c:1854-1909 | in a sibling list each `next` is the following item, null at the end, each `prev` the one before, and the `prev` of the first is the last |
| `SiblingList.WithoutIndex` | test-tools/host-tool/external/cJSON/cJSON.c:2120-2150 | what is left without one item, index by index |
| `SiblingList.WithIndex` | test-tools/host-tool/external/cJSON/cJSON.c:2194-2219 | what there is with one item more, index by index |
| `SiblingList.Grow` | test-tools/host-tool/external/cJSON/cJSON.c:1435-1450 | a new item is linked behind the current one |
| `SiblingList.Item.TakeChildren` | test-tools/host-tool/external/cJSON/cJSON.c:1469-1480 | closing the ring makes what parsing has linked the sibling list of the parent |
| `SiblingList.Item.GetArraySize` | test-tools/host-tool/external/cJSON/cJSON.c:1750-1770 | the walk counts the children |
| `SiblingList.Item.GetArrayItem` | test-tools/host-tool/external/cJSON/cJSON.c:1772-1788 | the child at an index, or null behind the last |
| `SiblingList.Item.Add` | test-tools/host-tool/external/cJSON/cJSON.c:1854-1909 | the item becomes the last of the sequence; the links stay a sibling list if and only if the list was empty or the item was not in it and had no `next`, and otherwise form none at all |
| `SiblingList.Item.Detach` | test-tools/host-tool/external/cJSON/cJSON.c:2120-2150 | the item is taken out of the sequence, the links stay a sibling list and the item points nowhere |
| `SiblingList.Item.DetachAt` | test-tools/host-tool/external/cJSON/cJSON.c:2152-2160 | the same by index, and null for an index there is not |
| `SiblingList.Item.InsertAt` | test-tools/host-tool/external/cJSON/cJSON.c:2194-2219 | the item stands at the index, or at the end when there is none there; in front of another, the links stay a sibling list if and only if the item was not in it, and otherwise form none at all |
| `SiblingList.Item.DetachAndInsert` | test-tools/host-tool/external/cJSON/cJSON.c:2120-2219 | detaching a child and inserting it at its index leaves the children as they were, in a valid list |
| `SiblingList.Item.InsertAndDetach` | test-tools/host-tool/external/cJSON/cJSON.c:2120-2219 | and so does inserting an item and detaching it |
| `SiblingList.Item.Replace` | test-tools/host-tool/external/cJSON/cJSON.c:2221-2264 | the replacement stands in the place of the item, which points nowhere; another child as replacement leaves no sibling list at all, but for the first of three or more in the place of the last, which is then alone |
| `SiblingList.Item.ReplaceAt` | test-tools/host-tool/external/cJSON/cJSON.c:2266-2275 | the same by index, refused for an index there is not |
| `SensorState.StepKeepsInv` | app-framework/sensor/native/runtime_sensor.c:87-226 | every step keeps: no module twice, read interval at most every client's interval, ids given out in turn |
| `SensorState.RunKeepsInv` | app-framework/sensor/native/runtime_sensor.c:87-434 | so does every run |
| `SensorState.StepIsExact` | app-framework/sensor/native/runtime_sensor.c:87-267 | the sensor that is opened, configured or closed ends with the smallest interval of its clients, or the default without clients, changed or not; the other sensors stay as they are |
| `SensorState.CleanupErases` | app-framework/sensor/native/runtime_sensor.c:420-434 | cleanup takes the module out of every sensor and leaves the other clients in order |
| `SensorState.IdsAreDistinct` | app-framework/sensor/native/runtime_sensor.c:296-299 | sensor ids are distinct if and only if fewer than 2^32 sensors have been added |
| `SensorLaws.OpeningAddsClient` | app-framework/sensor/native/runtime_sensor.c:132-180 | a module that opens a sensor stands first among its clients with the default interval and zeros; the read interval is the smallest; no other sensor changes |
| `SensorLaws.OpeningIsRefused` | app-framework/sensor/native/runtime_sensor.c:132-180 | nothing is opened, and nothing changes, if and only if there is no such sensor, the module has opened it, or there is no memory |
| `SensorLaws.ConfiguringStores` | app-framework/sensor/native/runtime_sensor.c:87-130 | configuring gives the client of the module exactly the interval, bit_cfg and delay asked for, the other clients stay in order, and the read interval is the smallest of theirs and the new one |
| `SensorLaws.ConfiguringIsRefused` | app-framework/sensor/native/runtime_sensor.c:87-113 | nothing is configured, and nothing changes, if and only if there is no such sensor or the module has not opened it |
| `SensorLaws.ClosingDropsClient` | app-framework/sensor/native/runtime_sensor.c:201-226 | closing drops the client of the module; the others stay in order, and the read interval is the smallest of theirs, or the default without clients |
| `SensorLaws.ClosingDropsNoOther` | app-framework/sensor/native/runtime_sensor.c:201-226 | a module that is no client drops none, and a sensor that does not exist changes nothing |
| `SensorLaws.AddingComesFirst` | app-framework/sensor/native/runtime_sensor.c:269-321 | a new sensor stands first, with the id that follows, which is never 2^32 - 1 |
| `SensorLaws.CleanupDropsClient` | app-framework/sensor/native/runtime_sensor.c:420-434 | cleanup takes the first client entry of a module out of every sensor and changes nothing else |
| `SensorLaws.CheckNotesReadings` | app-framework/sensor/native/runtime_sensor.c:375-418 | a check notes its time in the sensors with clients whose interval is over by the clock modulo 2^32, and changes nothing else |
| `SensorLaws.OneSensorsActions` | app-framework/sensor/native/runtime_sensor.c:385-404 | such a sensor is read, and its data go to its clients in order |
| `SensorLaws.ActionsInOrder` | app-framework/sensor/native/runtime_sensor.c:375-418 | the sensors are served in the order of the list |
| `SensorRuns.EachClientOnce` | app-framework/sensor/native/runtime_sensor.c:375-418 | a check reads exactly the due sensors, each once, and hands the data to each of their clients once |
| `SensorRuns.WaitIsExact` | app-framework/sensor/native/runtime_sensor.c:375-418 | no active sensor becomes due before the returned wait is over, some does then, and without active sensors the wait is the largest number |
| `SensorRuns.CheckKeepsSchedule` | app-framework/sensor/native/runtime_sensor.c:375-418 | a check no later than the last wait finds no sensor overdue, in true time |
| `SensorRuns.ReadingsAreRegular` | app-framework/sensor/native/runtime_sensor.c:375-418 | over every run of punctual checks the readings of an active sensor are whole intervals apart, none missing |
| `Sensors.SysSensor.FindSensorClient` | app-framework/sensor/native/runtime_sensor.c:349-373 | the position of the first client with an id, which is cut out of the list if asked for |
| `Sensors.SysSensor.RefreshReadInterval` | app-framework/sensor/native/runtime_sensor.c:247-267 | the loop computes the smallest interval |
| `Sensors.Framework.AddSysSensor` | app-framework/sensor/native/runtime_sensor.c:269-321 | a new sensor stands first, with the next id |
| `Sensors.Framework.WasmSensorOpen` | app-framework/sensor/native/runtime_sensor.c:132-180 | the state becomes that of the open step, and the id or the largest number is returned |
| `Sensors.Framework.WasmSensorConfig` | app-framework/sensor/native/runtime_sensor.c:87-130 | the state becomes that of the config step, and true is returned exactly when it succeeds |
| `Sensors.Framework.WasmSensorClose` | app-framework/sensor/native/runtime_sensor.c:201-226 | the state becomes that of the close step; true exactly when the sensor exists |
| `Sensors.Framework.CheckSensorTimers` | app-framework/sensor/native/runtime_sensor.c:375-418 | readings, callbacks, wait and new state are those of the check functions |
| `Sensors.Framework.SensorCleanupCallback` | app-framework/sensor/native/runtime_sensor.c:420-434 | the state becomes that of the cleanup step |
| `EventRegistry.RegisterKeepsInv` | app-mgr/app-manager/event.c:64-112 | URLs stay distinct and subscriber lists non-empty and free of duplicates if and only if memory does not run out between the two allocations |
| `EventRegistry.UnregisterKeepsInv` | app-mgr/app-manager/event.c:114-146 | unregistering keeps the invariant |
| `EventRegistry.RegisterAdds` | app-mgr/app-manager/event.c:64-112 | a successful registration adds one subscription, a failed one none |
| `EventRegistry.UnregisterRemoves` | app-mgr/app-manager/event.c:114-146 | exactly the client's subscriptions asked for go |
| `EventRegistry.PublishAfterUnregister` | app-mgr/app-manager/event.c:114-189 | the other subscribers of an event stay, in order |
| `EventRegistry.RunsFollowLastWord` | app-mgr/app-manager/event.c:27-189 | over every run an event reaches a client, once, if and only if the client's last word on it was to register |
| `EventRegistry.RegisterAt` | app-mgr/app-manager/event.c:64-112 | a new subscriber stands in front of those there were, and no other URL is touched |
| `RegistryLaws.FirstSubscriber` | app-mgr/app-manager/event.c:64-112 | registering for a URL that is not there succeeds exactly with memory for event and subscriber; the event stands first, without subscriber when memory ends between the two |
| `RegistryLaws.NextSubscriber` | app-mgr/app-manager/event.c:64-112 | registering for one that is there succeeds exactly with memory or when the client is subscribed already, and then changes nothing |
| `RegistryLaws.NoEmptyUrl` | app-mgr/app-manager/event.c:55-74 | the empty URL is refused |
| `RegistryLaws.PublishedTo` | app-mgr/app-manager/event.c:164-189 | an event goes to the subscribers of its URL in order, and to nobody if there is none |
| `RegistryLaws.UnregisterInParts` | app-mgr/app-manager/event.c:114-146 | unregistering goes through the events in order |
| `RegistryLaws.UnregisterOne` | app-mgr/app-manager/event.c:114-146 | an event of another URL than the one wanted stays; the one wanted, or any when all are, loses the client, and goes when nobody is left |
| `Registries.Events.AmRegisterEvent` | app-mgr/app-manager/event.c:64-112 | the list and the answer are those of the register function |
| `Registries.Events.AmUnregisterEvent` | app-mgr/app-manager/event.c:114-146 | the walk that unlinks as it goes leaves what the recursive function leaves |
| `Registries.Events.AmPublishEvent` | app-mgr/app-manager/event.c:164-189 | the event is sent to the subscribers of its URL, in order |
| `ResourceRegistry.RunKeepsInv` | app-mgr/app-manager/resource_reg.c:142-211 | over every run URLs are distinct and no longer than 256 bytes, and no module has more than 16 resources |
| `ResourceRegistry.CleanupErases` | app-mgr/app-manager/resource_reg.c:186-211 | cleanup erases one module and no entry of another |
| `ResourceRegistry.CleanupRedirects` | app-mgr/app-manager/resource_reg.c:127-211 | after a cleanup requests to other modules go where they went, and none goes to the module |
| `ResourceRegistry.OwnRunIsForgotten` | app-mgr/app-manager/resource_reg.c:127-211 | whatever a module registers, in any run, a request goes to it or where it went before; after its cleanup the registry is as if it had registered nothing |
| `RegistryLaws.RegisteringResource` | app-mgr/app-manager/resource_reg.c:142-184 | a resource is registered if and only if its URL is free and no longer than 256 bytes, its module has fewer than 16 and there is memory; it then stands first |
| `RegistryLaws.CleanupDropsTheirs` | app-mgr/app-manager/resource_reg.c:186-211 | cleanup goes through the resources in order and drops exactly those of the module |
| `RegistryLaws.DispatchedTo` | app-mgr/app-manager/resource_reg.c:127-140 | a request goes to the first resource whose URL it starts with |
| `Registries.Resources.AmRegisterResource` | app-mgr/app-manager/resource_reg.c:142-184 | when a registration succeeds, and the chain after it |
| `Registries.Resources.AmCleanupRegisteration` | app-mgr/app-manager/resource_reg.c:186-211 | the walk that unlinks nodes as it goes leaves one chain, of the entries of the others in order |
| `Registries.Resources.AmDispatchRequest` | app-mgr/app-manager/resource_reg.c:127-140 | the node of the first resource whose URL the request starts with, or null |
| `Registries.CleanupAppResource` | app-mgr/app-manager/module_wasm_app.c:513-530 | the cleanups of resources, events and sensors, all three invariants kept |
| `Registries.ModuleIsGone` | app-mgr/app-manager/module_wasm_app.c:520-526 | after them nothing of the module is left, and everything of the others is, in order |

## Left out

- Integers: the host is taken to be little-endian; counters of type `int` are unbounded except where their width matters, which is in clocks, sizes, flags and ids.
- Allocation succeeds in the link and install receivers, and the bodies of sections and the URL are values there; elsewhere success is a parameter. Where a byte has no room in its block the receiver stops: what the code does then is undefined.
- A message that cannot be posted to the app manager's queue: the install context is not reset then, and the model assumes posting succeeds.
- get_package_type, bh_get_elpased_ms, the section type limit and the size of the procedure linkage table belong to a runtime that is not part of this model; the first is taken to look at the four magic bytes, the second to subtract clock readings, the others are parameters.
- The high byte of the message type is taken to be 0 when a frame begins, and the groups of a size field are added where the code ors them.
- InstallReceiver.Receiver.OnByteArrive: allocation and posting succeed, as said above.
- HostLink.LinkReceiver.OnByteArrive: the payload block is allocated, and a handler for install messages is there.
- HostLink.Sender.SendMsg: the payload is taken to go out whole and the send function to be there.
- LinkRuns.FrameRun: frames with a payload above 2^31 - 1 bytes are not covered here or in any other statement on frames and images: the size is an `int` for the sender and for the install receiver, and so are the counters of both receivers, whose overflow is undefined (`LinkPeer.CountersFit`).
- Requests.Client.SendRequest: models the append the comment describes, because the walk as written does not return for a third pending request.
- Requests.Client.OnResponse: response handlers do not send requests themselves, because the code drops the timer before the handler and the transaction after it.
- TransactionRuns.EveryRequestIsAccountedFor: message ids of pending requests are distinct and no pending request gets 2^32 ms old, which the code cannot tell.
- JsonRoundTrip.ParseInvertsPrint: a number is the text it is printed as; `sprintf` and the value that `strtod` computes are not part of this model, and infinities, which are printed as null, and raw items are not in the trees.
- JsonParser.ParseBuffer.ReadString: allocation succeeds here and for new items, and the offset after a failure is not stated.
- JsonParser.ParseBuffer.ReadArray: what is said of the linked children is their number and links; the items are not tied to the trees of their values.
- JsonParser.ParseBuffer.ReadObject: the same for members.
- JsonDocument.ValueIsDocument: a string literal in the text is one that is read by itself; which those are says `JsonStrings.LiteralsExactly`.
- TransactionLaws.EveryFate: under the same conditions as `TransactionRuns.EveryRequestIsAccountedFor`.
- JSON: error positions, case-insensitive lookup, comments, locale, references and printing to a preallocated block by its public function. A decoded string keeps an escaped NUL and what follows, where a C caller would see it end.
- JsonPrinter.PrintBuffer.Ensure: the block is exchanged by allocation and copy; `realloc`, which does the same, is not told apart, and the first block is not empty.
- SiblingList.Item.Replace: the replaced item is left without links instead of being freed.
- SiblingList.Item.InsertAt: a null item is not inserted in front of another, where the code dereferences it.
- AttrContainer.Handle.GetAsScalar: the value is returned as bytes; floating-point values are bit patterns. The assertion on an unknown type is not modelled. `bh_memcpy_s` is not part of this model; it is taken to copy nothing when the source is longer than the target.
- UrlQuery.FindKeyValue: the buffer length passed is the position of the terminator, as its callers pass it, and the value block is not empty.
- AttrContainer.Handle.constructor: the block is allocated.
- AttrContainer.FindAttr: this and the walks beside it (`GetAttrBegin`, `GetAttrNext`, `GetAttrEnd`) are given a block that holds a container, which the code does not check.
- AttrContainer.Handle.SetAttr: null pointers are not modelled, and lengths that would overflow 32 bits are excluded, because the code does not test them.
- Sensors.Framework.WasmSensorConfig: the drivers behind `read` and `config` and the attribute container passed to them are not modelled.
- Sensors.Framework.AddSysSensor: the lock of a sensor can always be made.
- Sensors.Framework.CheckSensorTimers: reads the clock once for all sensors.
- Registries.Events.AmPublishEvent: lists the clients; cloning the request and posting it to them is plumbing.
- Registries.CleanupAppResource: of the cleanup callbacks only the one of the sensors is modelled.
- Locks: a function under a lock is one step. Threads are not modelled.
- Linked lists: pending requests, resources, sections and the siblings of JSON are nodes with pointers; the lists of sensors, their clients and events are sequences that the methods reassign.
- Sockets, serial ports, file input and output, queues, the demo server, the watchdog, the timer wrapper, user interface wrappers, the second module type, `match_url`, the dump functions and the ports to other languages: plumbing or duplicates that would only add easy members.
