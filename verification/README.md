# A Dafny model of six server-side building blocks

This project models six small components used by a Deno web service and its
PostgreSQL driver:

- **ConnectionPool** (`pool.dfy`). The database connection pool has a fixed
  size. It is either eager (every client connects at initialisation) or lazy
  (clients connect when first handed out). `connect()` hands out the top idle
  client, or parks the caller when none is idle. It also revives an ended
  pool as a new generation of clients. `end()` pops and ends every idle
  client, drops the client stack and refuses a second call. `available`, `size` and `initialized()` read the live
  stack and are 0 without one.
- **PacketWriter** (`packet_writer.dfy`). This is the growable byte buffer
  into which frontend messages are encoded. Each message is a type byte, then
  a big-endian Int32 length that counts itself and the payload, then the
  payload. The model covers `_ensure` growth, the Int32 and Int16 encodings
  reduced modulo 2^32 as `>>>` does, C strings, `addChar`, `addHeader`,
  `join`, `flush` and `clear`. A receiving-side parser (`ParseFrames`) is the
  partner of the writer: whatever a writer emits and joins parses back into
  the same type bytes and payloads.
- **MediaTypes** (`media_type.dfy`). `format` and `parse` of `type/subtype+suffix`
  media types. Their three regular expressions become character-class
  predicates with the 127-character bound.
- **RequestBodies** (`request_body.dfy`). This is the request body's
  consumption state machine:
  - which kinds a body may still be read as after a first read;
  - `resolveType`'s priority order over the Content-Type lists;
  - the Content-Length limit;
  - the content-encoding refusal;
  - the errors `get()` throws, with their messages.

  A form-data read of a body already consumed as some other kind gets the
  message "... cannot be returned as a stream.", exactly as `RequestBody`
  words it. A reader read after the body was consumed as form data gets
  "... cannot be returned as a reader.".
- **KeyStacks** (`key_stack.dfy`). This is the signing-key rotation list.
  `sign` uses key 0. `indexOf` returns the first key whose signature matches,
  or -1. `verify` reports whether any key matches. Crypto keys are imported at
  most once through a cache.
- **TssCompare** (`tss_compare.dfy`). This is `compareArrayBuffer`, the
  timing-safe comparison. It XORs every byte pair into one OR accumulator,
  walks both buffers to the end and fails when the lengths differ.

`results.dfy` holds the shared `Result` and `Option` types. A JavaScript
`throw` is modelled as an `Err` (or a `Threw` outcome) carrying the
component's own message.

## Model

| member | source | states |
|---|---|---|
| `ConnectionPool.Initialize` | packages/gen/https/deno.land/55df02f70d9f8cbbeca0edea2a5e831c9c8377b5b8408ddd18c31e98726cd83a.js:48-59 | the pool after `#initialize` is live and valid with `size` new idle clients of that call's generation, client `i` connected exactly when the pool is eager, none lent |
| `ConnectionPool.InitializedCount` | packages/gen/https/deno.land/55df02f70d9f8cbbeca0edea2a5e831c9c8377b5b8408ddd18c31e98726cd83a.js:48-65 | right after initialisation `initialized()` is `size` for an eager pool and 0 for a lazy one |
| `ConnectionPool.Available` | packages/gen/https/deno.land/55df02f70d9f8cbbeca0edea2a5e831c9c8377b5b8408ddd18c31e98726cd83a.js:11-16 | `available` is 0 on an ended pool and never exceeds `size` |
| `ConnectionPool.Size` | packages/gen/https/deno.land/55df02f70d9f8cbbeca0edea2a5e831c9c8377b5b8408ddd18c31e98726cd83a.js:17-22 | `size` is the configured size while the pool is live and 0 once it has ended |
| `ConnectionPool.Initialized` | packages/gen/https/deno.land/55df02f70d9f8cbbeca0edea2a5e831c9c8377b5b8408ddd18c31e98726cd83a.js:60-65 | `initialized()` is 0 on an ended pool and never exceeds `size` |
| `ConnectionPool.AvailablePlusLent` | packages/gen/https/deno.land/55df02f70d9f8cbbeca0edea2a5e831c9c8377b5b8408ddd18c31e98726cd83a.js:11-22 | `available` plus the clients lent out equals `size`; a live pool's size is its configured size; an ended pool reports 0 for `available`, `size` and `initialized()` |
| `ConnectionPool.Connect` | packages/gen/https/deno.land/55df02f70d9f8cbbeca0edea2a5e831c9c8377b5b8408ddd18c31e98726cd83a.js:29-35 | `connect()` leaves a live valid pool with the original size and laziness, a new generation of clients when the pool had ended; it grants a client iff a client is idle (or the pool was ended and has positive size); the client is the top idle one, now connected and appended to the lent clients, and the other idle clients stay as they were; a parked call on a live pool changes nothing |
| `ConnectionPool.Release` | packages/gen/https/deno.land/55df02f70d9f8cbbeca0edea2a5e831c9c8377b5b8408ddd18c31e98726cd83a.js:51 | the release callback succeeds iff the stack is live and lent out that client, so a client of an earlier generation is refused; the client then becomes the top idle client, `available` goes up by one and the lent count down by one |
| `ConnectionPool.DrainOrderEndsEach` | packages/gen/https/deno.land/55df02f70d9f8cbbeca0edea2a5e831c9c8377b5b8408ddd18c31e98726cd83a.js:41-44 | the drain loop ends exactly the idle clients, top first, each connected by `pop` before it is ended |
| `ConnectionPool.Drain` | packages/gen/https/deno.land/55df02f70d9f8cbbeca0edea2a5e831c9c8377b5b8408ddd18c31e98726cd83a.js:41-44 | the `while (available > 0)` loop ends the clients in drain order and leaves no idle client, with every drained client counted as lent |
| `ConnectionPool.End` | packages/gen/https/deno.land/55df02f70d9f8cbbeca0edea2a5e831c9c8377b5b8408ddd18c31e98726cd83a.js:36-47 | `end()` fails with "Pool connections have already been terminated" iff the pool was ended; otherwise the pool is ended with no stack, reports 0 everywhere, keeps its size and laziness, and ends exactly the idle clients in drain order, the top one first |
| `ConnectionPool.EndTwiceFails` | packages/gen/https/deno.land/55df02f70d9f8cbbeca0edea2a5e831c9c8377b5b8408ddd18c31e98726cd83a.js:36-39 | a second `end()` right after a successful one is refused |
| `ConnectionPool.EndConnectEnd` | packages/gen/https/deno.land/55df02f70d9f8cbbeca0edea2a5e831c9c8377b5b8408ddd18c31e98726cd83a.js:29-47 | `end(); connect(); end()` succeeds: `connect()` revives the pool with its original size |
| `ConnectionPool.ConnectAfterEnd` | packages/gen/https/deno.land/55df02f70d9f8cbbeca0edea2a5e831c9c8377b5b8408ddd18c31e98726cd83a.js:29-35 | `connect()` on an ended pool grants a client iff the size is positive, leaving `size - 1` available and one lent; otherwise the pool is freshly initialised |
| `ConnectionPool.AcquireReleaseRestores` | packages/gen/https/deno.land/55df02f70d9f8cbbeca0edea2a5e831c9c8377b5b8408ddd18c31e98726cd83a.js:29-35 | acquiring a client and releasing it restores `available` and `size` |
| `ConnectionPool.ReleaseOrderIsLifo` | packages/gen/https/deno.land/55df02f70d9f8cbbeca0edea2a5e831c9c8377b5b8408ddd18c31e98726cd83a.js:51 | releasing `a` then `b` makes the next two acquisitions return `b` then `a` |
| `ConnectionPool.LazyConnectsOnDemand` | packages/gen/https/deno.land/55df02f70d9f8cbbeca0edea2a5e831c9c8377b5b8408ddd18c31e98726cd83a.js:48-65 | a fresh lazy pool has no connected client, and one `connect()` leaves exactly one connected |
| `ConnectionPool.LazyCycleConnectsOne` | packages/gen/https/deno.land/55df02f70d9f8cbbeca0edea2a5e831c9c8377b5b8408ddd18c31e98726cd83a.js:29-65 | after one `connect()` and its release on a fresh lazy pool, every client is idle again and exactly one of them is connected |
| `ConnectionPool.ReleaseAcrossRestart` | packages/gen/https/deno.land/55df02f70d9f8cbbeca0edea2a5e831c9c8377b5b8408ddd18c31e98726cd83a.js:29-59 | after `connect()`, `end()` and `connect()`, releasing the first client is refused and releasing the one just lent is accepted |
| `ConnectionPool.LentAtMostSize` | packages/gen/https/deno.land/55df02f70d9f8cbbeca0edea2a5e831c9c8377b5b8408ddd18c31e98726cd83a.js:17-22 | a valid pool never lends out more clients than its size |
| `PacketWriter.NewWriter` | packages/gen/https/deno.land/0d04740a89caa82ada3a148c2afdfc0603bbe6b6d5df0ba77c77da27fd15997a.js:34-39 | a falsy size means 1024; the buffer holds `size + 5` bytes, the offset is 5, the header position 0, and nothing is written yet |
| `PacketWriter.Ensure` | packages/gen/https/deno.land/0d04740a89caa82ada3a148c2afdfc0603bbe6b6d5df0ba77c77da27fd15997a.js:40-48 | `_ensure(n)` leaves at least `n` bytes after the offset and keeps every old byte; the writer is unchanged when it has room, and otherwise the buffer grows to `old + old/2 + n` |
| `PacketWriter.Add` | packages/gen/https/deno.land/0d04740a89caa82ada3a148c2afdfc0603bbe6b6d5df0ba77c77da27fd15997a.js:93-98 | `add` appends exactly the given bytes at the offset and changes nothing before it |
| `PacketWriter.AddString` | packages/gen/https/deno.land/0d04740a89caa82ada3a148c2afdfc0603bbe6b6d5df0ba77c77da27fd15997a.js:85-92 | `addString` appends exactly the encoded bytes; a falsy string (absent or empty) becomes `""` and leaves the writer unchanged |
| `PacketWriter.AddInt32` | packages/gen/https/deno.land/0d04740a89caa82ada3a148c2afdfc0603bbe6b6d5df0ba77c77da27fd15997a.js:49-56 | `addInt32` appends the four big-endian bytes of `num` modulo 2^32 |
| `PacketWriter.AddInt16` | packages/gen/https/deno.land/0d04740a89caa82ada3a148c2afdfc0603bbe6b6d5df0ba77c77da27fd15997a.js:57-62 | `addInt16` appends the two low-order big-endian bytes |
| `PacketWriter.Int32RoundTrip` | packages/gen/https/deno.land/0d04740a89caa82ada3a148c2afdfc0603bbe6b6d5df0ba77c77da27fd15997a.js:51-54 | decoding the four bytes `addInt32` writes gives back `num` modulo 2^32 |
| `PacketWriter.Int16RoundTrip` | packages/gen/https/deno.land/0d04740a89caa82ada3a148c2afdfc0603bbe6b6d5df0ba77c77da27fd15997a.js:59-60 | decoding the two bytes `addInt16` writes gives back the low 16 bits of `num` |
| `PacketWriter.AddCString` | packages/gen/https/deno.land/0d04740a89caa82ada3a148c2afdfc0603bbe6b6d5df0ba77c77da27fd15997a.js:63-75 | `addCString` appends the encoded bytes followed by one 0 byte; an empty string writes only the 0 |
| `PacketWriter.AddChar` | packages/gen/https/deno.land/0d04740a89caa82ada3a148c2afdfc0603bbe6b6d5df0ba77c77da27fd15997a.js:76-84 | `addChar` fails with "addChar requires single character strings" iff the argument is not one UTF-16 code unit long (a character outside the Basic Multilingual Plane is two); otherwise the offset moves by one, the earlier bytes stay, and the new byte is the first encoded byte |
| `PacketWriter.Clear` | packages/gen/https/deno.land/0d04740a89caa82ada3a148c2afdfc0603bbe6b6d5df0ba77c77da27fd15997a.js:99-102 | `clear` resets the offset to 5 and the header position to 0, keeps the buffer, and leaves no content |
| `PacketWriter.WriteHeaderInPlace` | packages/gen/https/deno.land/0d04740a89caa82ada3a148c2afdfc0603bbe6b6d5df0ba77c77da27fd15997a.js:104-107 | with 5 reserved bytes the header is written in place: the type byte, then the Int32 count of the bytes from the length field up to the old offset, and no other byte changes |
| `PacketWriter.AddHeader` | packages/gen/https/deno.land/0d04740a89caa82ada3a148c2afdfc0603bbe6b6d5df0ba77c77da27fd15997a.js:103-115 | `addHeader` moves the header position to the old offset and reserves 5 more bytes unless `last`; the bytes before the old offset are those the header write produces |
| `PacketWriter.AddHeaderFrames` | packages/gen/https/deno.land/0d04740a89caa82ada3a148c2afdfc0603bbe6b6d5df0ba77c77da27fd15997a.js:103-115 | after `addHeader` the bytes before the header position are untouched, the type byte and the Int32 length sit in the 5 reserved bytes, and the payload after them is untouched |
| `PacketWriter.Join` | packages/gen/https/deno.land/0d04740a89caa82ada3a148c2afdfc0603bbe6b6d5df0ba77c77da27fd15997a.js:116-121 | `join` without a code returns the bytes after the 5 reserved ones and changes nothing; with a code it frames the last message and returns the buffer up to the offset |
| `PacketWriter.Flush` | packages/gen/https/deno.land/0d04740a89caa82ada3a148c2afdfc0603bbe6b6d5df0ba77c77da27fd15997a.js:122-126 | `flush` returns what `join` returns and leaves a cleared writer |
| `PacketWriter.AddExtendsContent` | packages/gen/https/deno.land/0d04740a89caa82ada3a148c2afdfc0603bbe6b6d5df0ba77c77da27fd15997a.js:93-98 | the unframed content after `add` is the old content followed by exactly the added bytes |
| `PacketWriter.AddThenHeader` | packages/gen/https/deno.land/0d04740a89caa82ada3a148c2afdfc0603bbe6b6d5df0ba77c77da27fd15997a.js:93-115 | `add(payload)` then `addHeader(code)` after a reservation leaves one more complete frame (type byte, length `4 + payload`, payload) before the new header position |
| `PacketWriter.EmitFrames` | packages/gen/https/deno.land/0d04740a89caa82ada3a148c2afdfc0603bbe6b6d5df0ba77c77da27fd15997a.js:93-115 | a sequence of add-then-addHeader steps lays down the messages' frames back to back after what was already framed |
| `PacketWriter.JoinFrames` | packages/gen/https/deno.land/0d04740a89caa82ada3a148c2afdfc0603bbe6b6d5df0ba77c77da27fd15997a.js:93-121 | from a fresh or cleared writer, emitting messages, adding a last payload and joining with its code returns exactly the frames of all the messages |
| `PacketWriter.ParseFramesRoundTrip` | packages/gen/https/deno.land/0d04740a89caa82ada3a148c2afdfc0603bbe6b6d5df0ba77c77da27fd15997a.js:103-115 | frames whose lengths fit the Int32 field parse back into each message's type byte and payload |
| `PacketWriter.JoinParses` | packages/gen/https/deno.land/0d04740a89caa82ada3a148c2afdfc0603bbe6b6d5df0ba77c77da27fd15997a.js:103-121 | end to end: what `join` returns parses back into every message's type byte and payload, in order |
| `MediaTypes.Format` | packages/gen/https/deno.land/bc4fa625ae2d329ba04edd1a5587b7e0a49636c7c31a1bd85e3132df4ee8243a.js:22-38 | `format` fails with "Invalid type.", "Invalid subtype." or "Invalid suffix." in that order of checks, and succeeds iff the type and subtype are valid names and the suffix is absent, empty or a valid type name; the text is `type/subtype`, followed by `+suffix` when the suffix is non-empty |
| `MediaTypes.ParseIsTypeRegexp` | packages/gen/https/deno.land/bc4fa625ae2d329ba04edd1a5587b7e0a49636c7c31a1bd85e3132df4ee8243a.js:39-52 | `parse` succeeds iff `TYPE_REGEXP` matches the lower-cased input, and then returns that match's type capture with the subtype capture split at its last `+` |
| `MediaTypes.Parse` | packages/gen/https/deno.land/bc4fa625ae2d329ba04edd1a5587b7e0a49636c7c31a1bd85e3132df4ee8243a.js:39-52 | the only parse error is "Invalid media type."; a parsed type is a valid type name and every parsed field is lower-case |
| `MediaTypes.SplitSuffixJoined` | packages/gen/https/deno.land/bc4fa625ae2d329ba04edd1a5587b7e0a49636c7c31a1bd85e3132df4ee8243a.js:46-50 | splitting `sub+suf` at its last `+` gives back `sub` and `suf` when neither holds a `+` |
| `MediaTypes.ParseFormat` | packages/gen/https/deno.land/bc4fa625ae2d329ba04edd1a5587b7e0a49636c7c31a1bd85e3132df4ee8243a.js:22-52 | round trip: parsing what `format` produces for a valid lower-case media type (absent or non-empty suffix, subtype group within 127 characters) gives the media type back |
| `MediaTypes.KelvinSignParses` | packages/gen/https/deno.land/bc4fa625ae2d329ba04edd1a5587b7e0a49636c7c31a1bd85e3132df4ee8243a.js:40 | lower-casing maps the Kelvin sign to `k`, so `text/` followed by it parses as `text/k` |
| `MediaTypes.ParseIgnoresCase` | packages/gen/https/deno.land/bc4fa625ae2d329ba04edd1a5587b7e0a49636c7c31a1bd85e3132df4ee8243a.js:40 | an input and its lower-case form parse to the same result |
| `RequestBodies.KindOf` | packages/gen/https/deno.land/9dfce47fc40f55f44f87c4c3a05ecafc4b1a7bb310cd0f5e24c3fdf6f6c4c795.js:143 | classifying a `type` string keeps its name, and only strings outside the known names become `Other` |
| `RequestBodies.KindRoundTrip` | packages/gen/https/deno.land/9dfce47fc40f55f44f87c4c3a05ecafc4b1a7bb310cd0f5e24c3fdf6f6c4c795.js:74-109 | a kind is what some `type` string classifies as (its name classifies back to it) iff it is not `Other` of a known name such as "" or "reader" |
| `RequestBodies.ResolveType` | packages/gen/https/deno.land/9dfce47fc40f55f44f87c4c3a05ecafc4b1a7bb310cd0f5e24c3fdf6f6c4c795.js:13-46 | `resolveType` always answers bytes, json, form, form-data or text |
| `RequestBodies.FirstMatchIsFirst` | packages/gen/https/deno.land/9dfce47fc40f55f44f87c4c3a05ecafc4b1a7bb310cd0f5e24c3fdf6f6c4c795.js:30-45 | the first-match rule returns the first matching candidate and never skips one, and returns the fallback when none matches |
| `RequestBodies.ResolveIsFirstMatch` | packages/gen/https/deno.land/9dfce47fc40f55f44f87c4c3a05ecafc4b1a7bb310cd0f5e24c3fdf6f6c4c795.js:13-46 | `resolveType` equals the first-match rule over custom bytes (when given), then json, form, form-data and text, each default list extended by the custom one, falling back to bytes |
| `RequestBodies.DefaultsDecide` | packages/gen/https/deno.land/9dfce47fc40f55f44f87c4c3a05ecafc4b1a7bb310cd0f5e24c3fdf6f6c4c795.js:6-46 | without custom lists the default lists decide with json first, and bytes is chosen iff no default list matches |
| `RequestBodies.ExceedsLimit` | packages/gen/https/deno.land/9dfce47fc40f55f44f87c4c3a05ecafc4b1a7bb310cd0f5e24c3fdf6f6c4c795.js:56-72 | a zero or infinite limit, or no body, never exceeds; otherwise the body exceeds iff Content-Length is missing, empty, not a number, or above the limit |
| `RequestBodies.ExceedsLimitMonotone` | packages/gen/https/deno.land/9dfce47fc40f55f44f87c4c3a05ecafc4b1a7bb310cd0f5e24c3fdf6f6c4c795.js:56-72 | raising a non-zero limit never makes a body exceed it |
| `RequestBodies.Parse` | packages/gen/https/deno.land/9dfce47fc40f55f44f87c4c3a05ecafc4b1a7bb310cd0f5e24c3fdf6f6c4c795.js:73-111 | form, json, bytes and text tag the request "bytes", and their value rejects exactly when the limit is exceeded; form-data tags it "form-data"; any other type throws `Invalid body type` and leaves the request unchanged |
| `RequestBodies.ValidateGetArgs` | packages/gen/https/deno.land/9dfce47fc40f55f44f87c4c3a05ecafc4b1a7bb310cd0f5e24c3fdf6f6c4c795.js:112-134 | validation passes iff the tag admits the requested kind and a type is not given together with content types. An unset tag admits anything; reader, stream and form-data admit only themselves; "bytes" and "undefined" admit all but those three. A reader, stream or form-data read the tag does not admit is refused as consumed as another kind, any other read after an exclusive tag as consumed exclusively, and an admitted read with both a type and content types for giving both |
| `RequestBodies.ReadDirect` | packages/gen/https/deno.land/9dfce47fc40f55f44f87c4c3a05ecafc4b1a7bb310cd0f5e24c3fdf6f6c4c795.js:145-166 | a reader or stream read throws and tags the request "undefined" iff there is no body; otherwise it tags the request by its kind and returns that kind |
| `RequestBodies.ReadBuffered` | packages/gen/https/deno.land/9dfce47fc40f55f44f87c4c3a05ecafc4b1a7bb310cd0f5e24c3fdf6f6c4c795.js:177-199 | an "undefined" request read with no type or type "undefined" returns the undefined body and changes nothing |
| `RequestBodies.Get` | packages/gen/https/deno.land/9dfce47fc40f55f44f87c4c3a05ecafc4b1a7bb310cd0f5e24c3fdf6f6c4c795.js:143-200 | `get()` never changes the body or headers, and a call that validation refuses throws a TypeError with that refusal's message and leaves the request as it was |
| `RequestBodies.GetPreservesValid` | packages/gen/https/deno.land/9dfce47fc40f55f44f87c4c3a05ecafc4b1a7bb310cd0f5e24c3fdf6f6c4c795.js:143-200 | a reader or stream tag only ever lands on a request that has a body |
| `RequestBodies.ReturnedIsAdmitted` | packages/gen/https/deno.land/9dfce47fc40f55f44f87c4c3a05ecafc4b1a7bb310cd0f5e24c3fdf6f6c4c795.js:143-200 | every read that returns a body was one the tag admits |
| `RequestBodies.ExclusiveTagsAbsorb` | packages/gen/https/deno.land/9dfce47fc40f55f44f87c4c3a05ecafc4b1a7bb310cd0f5e24c3fdf6f6c4c795.js:122-130 | once consumed as a reader, stream or form data, the request keeps that tag, and any other requested kind throws and changes nothing |
| `RequestBodies.ExclusiveKindsNeedFreshBody` | packages/gen/https/deno.land/9dfce47fc40f55f44f87c4c3a05ecafc4b1a7bb310cd0f5e24c3fdf6f6c4c795.js:113-121 | reader, stream and form-data reads throw after the body was consumed as anything else, "bytes" and "undefined" included |
| `RequestBodies.TypeWithContentTypesFails` | packages/gen/https/deno.land/9dfce47fc40f55f44f87c4c3a05ecafc4b1a7bb310cd0f5e24c3fdf6f6c4c795.js:131-133 | a type together with a non-empty content-types object throws a TypeError |
| `RequestBodies.NoBodyReaderOrStream` | packages/gen/https/deno.land/9dfce47fc40f55f44f87c4c3a05ecafc4b1a7bb310cd0f5e24c3fdf6f6c4c795.js:145-160 | without a body a validated reader or stream read tags the request "undefined" and throws |
| `RequestBodies.NoBodyReadsUndefined` | packages/gen/https/deno.land/9dfce47fc40f55f44f87c4c3a05ecafc4b1a7bb310cd0f5e24c3fdf6f6c4c795.js:167-179 | without a body a validated read with no type, or type "undefined", returns the undefined body and tags the request "undefined" |
| `RequestBodies.EncodedBodyRefused` | packages/gen/https/deno.land/9dfce47fc40f55f44f87c4c3a05ecafc4b1a7bb310cd0f5e24c3fdf6f6c4c795.js:170-176 | the first buffered read of a body whose content-encoding is not identity throws UnsupportedMediaType naming the encoding, and the request stays unread |
| `RequestBodies.UntypedReadResolves` | packages/gen/https/deno.land/9dfce47fc40f55f44f87c4c3a05ecafc4b1a7bb310cd0f5e24c3fdf6f6c4c795.js:180-199 | a first untyped read of a plain body with a Content-Type returns the kind `resolveType` chooses and tags the request "form-data" or "bytes" accordingly |
| `RequestBodies.UntypedReadNeedsContentType` | packages/gen/https/deno.land/9dfce47fc40f55f44f87c4c3a05ecafc4b1a7bb310cd0f5e24c3fdf6f6c4c795.js:180-182 | an untyped read of a body with a missing or empty Content-Type header fails the assertion "The Content-Type header is missing from the request", both on the first read (identity encoding) and on a later read of a body consumed as bytes |
| `KeyStacks.NewKeyStack` | packages/gen/https/deno.land/8807bb8576e674eb23b2af6b99fe6b24e6f0e0ae27cdc2071ab29c3b483b5b18.js:15-20 | the constructor succeeds iff the key list is non-empty, keeping the list, and otherwise fails with "keys must contain at least one value" |
| `KeyStacks.Length` | packages/gen/https/deno.land/8807bb8576e674eb23b2af6b99fe6b24e6f0e0ae27cdc2071ab29c3b483b5b18.js:12-14 | `length` is the number of keys |
| `KeyStacks.ToCryptoKey` | packages/gen/https/deno.land/8807bb8576e674eb23b2af6b99fe6b24e6f0e0ae27cdc2071ab29c3b483b5b18.js:6-11 | a key is imported only when missing from the cache; afterwards it is cached, and a sound cache stays sound and serves the import of the key |
| `KeyStacks.ToCryptoKeyCached` | packages/gen/https/deno.land/8807bb8576e674eb23b2af6b99fe6b24e6f0e0ae27cdc2071ab29c3b483b5b18.js:6-11 | a second conversion of the same key changes nothing and returns the same crypto key |
| `KeyStacks.Sign` | packages/gen/https/deno.land/8807bb8576e674eb23b2af6b99fe6b24e6f0e0ae27cdc2071ab29c3b483b5b18.js:21-24 | `sign` always signs with the key at index 0, caching at most that key |
| `KeyStacks.IndexOf` | packages/gen/https/deno.land/8807bb8576e674eb23b2af6b99fe6b24e6f0e0ae27cdc2071ab29c3b483b5b18.js:28-36 | `indexOf` returns -1 iff no key matches, and otherwise the first matching index |
| `KeyStacks.Verify` | packages/gen/https/deno.land/8807bb8576e674eb23b2af6b99fe6b24e6f0e0ae27cdc2071ab29c3b483b5b18.js:25-27 | `verify` is true iff some key matches |
| `KeyStacks.SignThenIndexOf` | packages/gen/https/deno.land/8807bb8576e674eb23b2af6b99fe6b24e6f0e0ae27cdc2071ab29c3b483b5b18.js:21-36 | with equality as `compare`, a digest just produced by `sign` is found at index 0 and verifies |
| `TssCompare.DiffPrefixZeroIffEqual` | packages/gen/https/deno.land/2cadc112d7384049b0b5e9aa013b4f6235fed155f476a92c23db4333bffa9a3d.js:7-11 | the OR of the XORs over a prefix is zero iff the two prefixes are equal |
| `TssCompare.CompareArrayBuffer` | packages/gen/https/deno.land/2cadc112d7384049b0b5e9aa013b4f6235fed155f476a92c23db4333bffa9a3d.js:2-13 | fails with "ArrayBuffer lengths must match." iff the lengths differ; otherwise returns whether the buffers are equal, which is the fold over every index |
| `TssCompare.CompareSelf` | packages/gen/https/deno.land/2cadc112d7384049b0b5e9aa013b4f6235fed155f476a92c23db4333bffa9a3d.js:2-13 | comparing a buffer with itself is always `true` |

## Left out

- The deferred-access stack (`utils/deferred.ts`) is not part of this model. It is modelled by its contract only:
  - `pop` takes the last idle client, connecting it first when it is not connected;
  - `push` makes a client the top idle one;
  - `initialized()` counts connected clients.
- Parked `connect()` callers are not modelled. Neither are their FIFO wake-up order or the hand-off of a released client to a waiter: `Connect` only reports `Parked`.
- Promises and interleavings are not modelled. Every pool operation is one whole call with its awaits settled, so the window in which a `connect()` or `end()` awaits `#ready` while another call runs is not represented.
- Connection failures in `client.connect()` and `client.end()` are not modelled, because they are network I/O.
- The constructor is `Initialize` after its `#ready` promise resolved. `createParams` and `PoolClient` are not part of this model.
- `ConnectionPool.Release`: releasing a client the live stack did not lend is refused here. This includes a client from before an `end()`, whose generation differs. The source's callback pushes it onto whatever stack is live at the time of the call, and what the stack does with a client it never lent is not part of this model.
- `TextEncoder` is a foreign call. Strings reach `AddString`, `AddCString` and `AddChar` already UTF-8 encoded. `AddChar` also takes the argument's UTF-16 code units, which its length check counts.
- `copy` from the standard library is not part of this model. It is taken to copy as many bytes as fit after the offset.
- `PacketWriter.AddChar`: only the first encoded byte is stated for multi-byte characters, because `addChar` moves the offset by one byte whatever the encoding's length.
- `PacketWriter.NewWriter`: sizes are natural numbers. In JavaScript a fractional size is truncated by `new Uint8Array`, a size from -5 to -1 gives a buffer shorter than the offset of 5, and a size of -6 or less throws RangeError. None of this is modelled; callers pass a positive integer or nothing.
- `PacketWriter.AddInt32`, `PacketWriter.AddInt16`, `PacketWriter.CodeByte`, `PacketWriter.Join`: numeric arguments are integers. The truncation of fractions by `>>>` and by Uint8Array stores, and `NaN` as a falsy `join` code, are not modelled.
- `PacketWriter.Join`: a code is an integer, with 0 standing for both 0 and an absent code (both are falsy). Codes given as strings are not modelled.
- HMAC signing, `importKey`, base64 encoding and the HMAC-keyed `compare` with its random key are passed to `KeyStacks` as function parameters. They are cryptography and randomness.
- The inspect hooks of `KeyStack` (`Deno.customInspect`, `nodejs.util.inspect.custom`) are not modelled, because they are only display.
- `compare`'s HMAC step is left out: only `compareArrayBuffer` is modelled, on byte sequences.
- `MediaTypes.ToLowerChar`: `toLowerCase` is modelled only for the characters whose lower case is ASCII (`A`-`Z` and U+212A KELVIN SIGN). Every other character is kept. The expressions accept only ASCII, and the other characters lower-case to non-ASCII text, so the parse result is the same. U+0130 lower-cases to two characters, `i` and U+0307. The second of them is refused by every expression, so keeping U+0130 as it is gives the same "Invalid media type.".
- JavaScript's coercion of a non-string `type`, `subtype` or `suffix` in `format` (e.g. `undefined` matched as the string "undefined") is not modelled: the fields are strings.
- `isMediaType` and `parseInt` are parameters of `RequestBodies` (`isMediaType.ts` is not part of this model). NaN is `None`.
- The values a request body's `value` getter produces (JSON, URL-encoded forms, text decoding, the multipart reader, stream tee-ing) are not modelled. A read is described by its kind, its tag and whether its value rejects for the limit.
- The `type` option is taken already classified (`KindOf` classifies a string): `GetOptions.typ` and `ValidateGetArgs` take a `TypeOption`, a kind some string classifies as, so `Other("")` or `Other("reader")` cannot be passed. A non-numeric `limit` other than `Infinity` is not modelled.
- The contentTypes object is modelled with its five known keys. Extra keys, and keys present with the value `undefined`, which `Object.keys` would still count, are not modelled.
- `RequestBodies.ReadBuffered`: only the "undefined" shortcut is stated in its own contract. The rest of its behaviour is stated through `Get` and the lemmas about it.
- The `assert` helper of `util.ts` is not part of this model. Its failure is the `AssertionError` outcome. The second, message-less `assert(type)` cannot fail once a type is resolved.
