# misskey-rs core, modelled in Dafny

This project models the small sequential pieces of the misskey-rs client
libraries that have behaviour worth stating:

- **AIDX identifiers** (`aidx.dfy`, with `radix.dfy`). An id is 8 base-36
  digits of milliseconds since 2000-01-01, then 4 node bytes, then a
  counter. The model covers:
  - parsing (`from_str`);
  - digit writing (`Radix36::fmt`, a loop modelled as a method);
  - printing (`Display for Aidx`);
  - the derived order.

  Strings are their UTF-8 bytes, because `split_at` cuts a Rust `&str` at a
  byte index. `radix.dfy` holds the parts of Rust's standard library the
  codec relies on: `from_str_radix`, `to_digit`, `from_digit` and
  fixed-width digit writing.
- **Notes and invite codes** (`note.dfy`, `invite_code.dfy`, with
  `names.dfy`). This covers:
  - the `Tag` and `Reaction` text wrappers;
  - the `Visibility`, `ReactionAcceptance` and `InviteCodeType` parsers;
  - `InviteCodeSortKey`, which is both printed and parsed.

  `names.dfy` states how serde's `rename_all = "camelCase"` spells a variant.
- **WebSocket receive path** (`ws_error.dfy`, `channel.dfy`). This covers:
  - the client's `Error` type, with `source()`, its `From` conversions and
    its display prefixes;
  - the frame filter and `filter_map` over a finite stream of raw items;
  - `next()` and the `recv_json` mapping.
- **Broker data** (`broker_model.dfy`): the `BrokerControl` commands and
  `BrokerState` with `dead()`.

The parser as written reads the AIDX counter in base 36 while printing
writes it in decimal, and it accepts node bytes that printing cannot
reproduce (see Findings). `Aidx.FromStrAsWritten` models the code
as it is. `Aidx.FromStr` is the corrected parser, and the round-trip
properties are proved about it. The model assumes the crate is built with
feature `13-10-0`. Whether feature `13-13-0` is on is a parameter
(`nonSensitive`).

## Model

| member | source | states |
|---|---|---|
| `Radix.DigitValue` | misskey-api/src/model/id/aidx.rs:50-53 | A digit accepted for radix r denotes a value below r (`char::to_digit`, either letter case) |
| `Radix.DigitChar` | misskey-api/src/model/id/aidx.rs:89 | `from_digit` writes a character that reads back as the same digit in every radix large enough |
| `Radix.FixedDigits` | misskey-api/src/model/id/aidx.rs:86-90 | Writing w digits yields exactly w lower-case (canonical) digits |
| `Radix.FromStrRadix` | misskey-api/src/model/id/aidx.rs:50-53 | `from_str_radix` returns a value only when it fits the type's range, never for empty input, and only for ASCII input |
| `Radix.FromStrRadixShape` | misskey-api/src/model/id/aidx.rs:50-60 | Only an optional sign followed by one or more digits is accepted: anything else, and `-` for an unsigned type, is an error |
| `Radix.FromStrRadixOfDigits` | misskey-api/src/model/id/aidx.rs:57-60 | A string of bare digits parses to its value exactly when that value is at most the type's maximum; otherwise it is an error |
| `Radix.FromStrRadixSigned` | misskey-api/src/model/id/aidx.rs:50-60 | A sign then digits: `+` is always accepted and gives the digits' value. `-` gives minus that value for a signed type and is an error for an unsigned one. In every case the value must fit |
| `Radix.ValueBound` | misskey-api/src/model/id/aidx.rs:50 | n digits denote less than radix^n, so 8 base-36 digits never overflow `i64` |
| `Radix.FixedDigitsValue` | misskey-api/src/model/id/aidx.rs:86-90 | The w digits written for x denote x mod radix^w |
| `Radix.FixedDigitsOfValue` | misskey-api/src/model/id/aidx.rs:86-90 | Reading canonical digits and writing them back at the same width gives the same string |
| `Radix.DecimalInBase36Bound` | misskey-api/src/model/id/aidx.rs:57 | Decimal digits read in base 36 are never worth less than in decimal, and both are zero together |
| `Radix.DecimalInBase36` | misskey-api/src/model/id/aidx.rs:57 | Decimal digits mean the same in base 36 exactly when their value is below 10 |
| `Aidx.TimePart` | misskey-api/src/model/id/aidx.rs:50-53 | The time part parses to the base-36 value of the first 8 bytes, within ±36^8. A `+` or `-` followed by 7 digits is also accepted, with that sign |
| `Aidx.FromStrAsWritten` | misskey-api/src/model/id/aidx.rs:45-67 | Given the split points, parsing succeeds exactly when the time and base-36 counter parts parse. The node is bytes 8..12 unchanged, the timestamp is TIME2000 plus the time value, and the counter is the suffix's base-36 value |
| `Aidx.FromStr` | misskey-api/src/model/id/aidx.rs:45-67 | The corrected parser: the same, with the counter read in decimal and non-ASCII node bytes refused |
| `Aidx.TimestampIsTimePart` | misskey-api/src/model/id/aidx.rs:50-62 | With either parser, an accepted id's timestamp is TIME2000 plus the parsed time part, whether that part is bare digits or has a `+` or `-` sign |
| `Aidx.CounterIsCounterPart` | misskey-api/src/model/id/aidx.rs:57-62 | With either parser, an accepted id's counter is the parsed suffix (base 36 as written, decimal corrected), whether or not it starts with `+` |
| `Aidx.MalformedFieldsRejected` | misskey-api/src/model/id/aidx.rs:50-60 | With either parser, a time part that is not an optional sign and 7 base-36 digits gives `ParseAidxError`. So does a counter that is empty or not an optional `+` and digits (base 36 as written, decimal corrected) |
| `Aidx.Radix36Fmt` | misskey-api/src/model/id/aidx.rs:79-91 | The digit loop writes `width` canonical base-36 digits, most significant first, denoting x mod 36^width |
| `Aidx.NodeIdToString` | misskey-api/src/model/id/aidx.rs:25-27 | Each node byte becomes the character with that code |
| `Aidx.Utf8Char` | misskey-api/src/model/id/aidx.rs:98 | A character below U+0080 is written as itself. Any other character below U+0100 becomes a lead byte `C2` or `C3` and a continuation byte (80 to BF), which together decode back to that character |
| `Aidx.EncodeLatin1` | misskey-api/src/model/id/aidx.rs:98 | Writing the node string as UTF-8 adds one byte per character at or above U+0080, and gives the bytes back unchanged when they are all ASCII |
| `Aidx.EncodeLatin1HighBytes` | misskey-api/src/model/id/aidx.rs:98 | Both bytes written for each non-ASCII character are non-ASCII: the output holds twice as many bytes of 0x80 or more as the input has such characters |
| `Aidx.EncodeLatin1Append` | misskey-api/src/model/id/aidx.rs:98 | Writing a concatenation writes each part |
| `Aidx.DecimalLength` | misskey-api/src/model/id/aidx.rs:98 | The decimal digit count is at least 1 and enough to hold the number |
| `Aidx.AsciiNodeText` | misskey-api/src/model/id/aidx.rs:25-27 | ASCII node bytes print as themselves |
| `Aidx.CounterText` | misskey-api/src/model/id/aidx.rs:98 | `{:04}` writes 4 digits below 10000 and 5 above, canonical, denoting the counter |
| `Aidx.Since2000` | misskey-api/src/model/id/aidx.rs:96 | The printed time is the milliseconds since 2000, or 0 for an earlier timestamp: never before the timestamp, and equal to it unless clamped |
| `Aidx.Display` | misskey-api/src/model/id/aidx.rs:94-100 | A printed id is 12 bytes plus one per node byte of 0x80 or more, plus the counter text. Its first 8 bytes are canonical base-36 digits worth `since_2000` mod 36^8 |
| `Aidx.DisplayParts` | misskey-api/src/model/id/aidx.rs:94-100 | Bytes 8..12 of a printed id are the first 4 bytes of the written node text, and what follows is the rest of that text and then the counter |
| `Aidx.DisplayLayout` | misskey-api/src/model/id/aidx.rs:95-99 | A printed id with ASCII node is 16 or 17 bytes: time digits worth `since_2000` mod 36^8, then the node, then the counter text |
| `Aidx.FixedDigitsOfZero` | misskey-api/src/model/id/aidx.rs:96-97 | Zero is written as all `0` digits |
| `Aidx.DisplayClampsBefore2000` | misskey-api/src/model/id/aidx.rs:96-97 | A timestamp before 2000 prints as `00000000` |
| `Aidx.TimeComesBack` | misskey-api/src/model/id/aidx.rs:96 | The time printed and read back equals the original exactly when it lies in [TIME2000, TIME2000 + 36^8) |
| `Aidx.DisplayThenParseAsWritten` | misskey-api/src/model/id/aidx.rs:168-173 | For an id whose node bytes are ASCII, with the parser as written: the node comes back and the time comes back modulo 36^8, clamped at 2000. Parsing succeeds exactly when the decimal counter text fits `u16` in base 36. The whole id comes back exactly when the time is in range and the counter is below 10. Other node bytes are covered by `Aidx.NonAsciiNodeNeverRoundTrips` |
| `Aidx.DisplayThenParse` | misskey-api/src/model/id/aidx.rs:168-173 | For an id whose node bytes are ASCII, with the corrected parser: node and counter always come back, and the time comes back modulo 36^8, clamped at 2000. The whole id comes back exactly when the time is in range. Other node bytes are covered by `Aidx.NonAsciiNodeNeverRoundTrips` |
| `Aidx.CounterReadInBase36` | misskey-api/src/model/id/aidx.rs:57 | The printed counter is valid base-36 text, denotes the counter there only below 10, and parses as written exactly when that base-36 value fits `u16` |
| `Aidx.CounterReadInDecimal` | misskey-api/src/model/id/aidx.rs:98 | The printed counter read in decimal is the counter |
| `Aidx.ParsedIdRoundTrips` | misskey-api/src/model/id/aidx.rs:176-189 | An id parsed with a time at or after 2000 prints to a string that parses back to the same id |
| `Aidx.ParseThenDisplay` | misskey-api/src/model/id/aidx.rs:176-189 | A canonical 16-byte id (lower-case time, ASCII node, 4 decimal digits) parses and prints back to the same bytes |
| `Aidx.ConstantIdDigits` | misskey-api/src/model/id/aidx.rs:162 | `8dhemt9u` is worth 656263987122 in base 36 |
| `Aidx.ConstantIdCounter` | misskey-api/src/model/id/aidx.rs:162 | `0001` is 1 in both bases |
| `Aidx.ConstantIdTimestamp` | misskey-api/src/model/id/aidx.rs:161-165 | `8dhemt9uabcd0001` parses, with either parser, to timestamp 1602948787122, node `abcd` and counter 1 |
| `Aidx.TestIdsRejectedAsWritten` | misskey-api/src/model/id/aidx.rs:176-189 | The ids of both deserialize-serialize tests fail to parse as written: their counters overflow `u16` in base 36 |
| `Aidx.TestId1RoundTrip` | misskey-api/src/model/id/aidx.rs:176-181 | With the corrected parser, `8dhe5zqiabcd5273` parses and prints back unchanged |
| `Aidx.TestId2RoundTrip` | misskey-api/src/model/id/aidx.rs:184-189 | With the corrected parser, `8ejiidh50mgd8271` parses and prints back unchanged |
| `Aidx.ZeroDigits` | misskey-api/src/model/id/aidx.rs:86-90 | Zero in w digits is w `0` bytes, worth 0 |
| `Aidx.NonAsciiIdParses` | misskey-api/src/model/id/aidx.rs:55 | The parser as written accepts the node bytes `C3 A9 C3 A9`; the corrected parser refuses them |
| `Aidx.NonAsciiNodeText` | misskey-api/src/model/id/aidx.rs:25-27 | Those node bytes print as eight bytes, two per node byte |
| `Aidx.ZeroTexts` | misskey-api/src/model/id/aidx.rs:98 | Time 0 prints as `00000000` and counter 0 as `0000` |
| `Aidx.NonAsciiIdPrinted` | misskey-api/src/model/id/aidx.rs:95-99 | The id parsed from the non-ASCII input prints as a 20-byte string |
| `Aidx.NonAsciiPrintedRejected` | misskey-api/src/model/id/aidx.rs:57-60 | That printed string fails to parse, because its counter part starts inside the node text |
| `Aidx.NonAsciiNodeNotPreserved` | misskey-api/src/model/id/aidx.rs:55 | Parsing then printing a non-ASCII id gives a different string that does not parse |
| `Aidx.NonAsciiNodeNeverRoundTrips` | misskey-api/src/model/id/aidx.rs:55 | For every printable id with a node byte of 0x80 or more, one of two things holds. Either the printed string cannot be split at 8 and 12, so parsing it panics. Or the corrected parser refuses it, and the parser as written, if it succeeds, returns other node bytes |
| `Aidx.LastNodeByteHighPanics` | misskey-api/src/model/id/aidx.rs:46-47 | When only the last node byte is 0x80 or more (e.g. `abc` then `E9`), its continuation byte lands at index 12, and re-parsing the printed id panics in `split_at` |
| `Aidx.MisreadIdPrinted` | misskey-api/src/model/id/aidx.rs:94-100 | Node bytes `E9 E9 30 30`, with time 2000 and counter 0, print as `00000000` + `C3 A9 C3 A9 30 30` + `0000` |
| `Aidx.MisreadPrintedParses` | misskey-api/src/model/id/aidx.rs:45-67 | The parser as written accepts those 18 bytes without error, as node `C3 A9 C3 A9` and counter 0: a different id. The corrected parser refuses them |
| `Aidx.SignedTimeBefore2000` | misskey-api/src/model/id/aidx.rs:50-53 | A time part `-` followed by 7 digits worth v > 0 parses, with either parser, to v ms before 2000. Such an id prints with `00000000` in place of the signed time, so it does not print back |
| `Aidx.CounterTenText` | misskey-api/src/model/id/aidx.rs:98 | Counter 10 prints as `0010` |
| `Aidx.CounterTenInBase36` | misskey-api/src/model/id/aidx.rs:57 | `0010` read in base 36 is 36 |
| `Aidx.CounterTenReadAs36` | misskey-api/src/model/id/aidx.rs:57-60 | Any printable id with ASCII node bytes and counter 10 parses back, as written, with counter 36 |
| `Aidx.BytesLess` | misskey-api/src/model/id/aidx.rs:11 | The derived order on node bytes never relates a byte string to itself |
| `Aidx.BytesLessFirstDifference` | misskey-api/src/model/id/aidx.rs:11 | For byte strings of one length, the derived order holds exactly when the first differing byte is smaller |
| `Aidx.BytesLessTransitive` | misskey-api/src/model/id/aidx.rs:11 | The derived order on node bytes is transitive |
| `Aidx.BytesLessTotal` | misskey-api/src/model/id/aidx.rs:11 | Any two distinct byte strings are ordered one way |
| `Aidx.BytesLessAsymmetric` | misskey-api/src/model/id/aidx.rs:11 | The derived order on node bytes is never both ways |
| `Aidx.LessIsStrictTotalOrder` | misskey-api/src/model/id/aidx.rs:11-16 | Comparing by (timestamp, node, counter) is a strict total order |
| `Aidx.Less` | misskey-api/src/model/id/aidx.rs:11-16 | An earlier timestamp sorts first, whatever the node and counter (what `test_order` checks), and a smaller id never has a later timestamp or equals the other |
| `Names.ToAsciiLower` | misskey-api/src/model/note.rs:64 | Upper-case ASCII letters become the same letter in lower case; other characters are unchanged |
| `Names.CamelCase` | misskey-api/src/model/note.rs:64 | serde's camelCase name keeps the length and all but the first character, and lower-cases a leading capital |
| `Names.CamelCaseOfPascal` | misskey-api/src/model/invite_code.rs:25 | A camelCase name is spelled by lower-casing the first letter |
| `Note.TagDisplay` | misskey-api/src/model/note.rs:17-25 | A printed tag starts with `#` and ends with the name, at most one byte longer. It equals the name exactly when the name already starts with `#` |
| `Note.TagFromStr` | misskey-api/src/model/note.rs:29-31 | Parsing a tag never fails and keeps the text |
| `Note.TagDisplayIdempotent` | misskey-api/src/model/note.rs:20-23 | Printing, reparsing and printing again changes nothing |
| `Note.TagParseThenDisplay` | misskey-api/src/model/note.rs:17-31 | Text parsed as a tag prints back unchanged exactly when it starts with `#`; otherwise with `#` in front |
| `Note.TagDisplayThenParse` | misskey-api/src/model/note.rs:17-31 | A printed tag reparses to the same tag exactly when its name starts with `#` |
| `Note.ReactionDisplay` | misskey-api/src/model/note.rs:44-48 | A reaction prints as its text |
| `Note.ReactionFromStr` | misskey-api/src/model/note.rs:52-54 | Parsing a reaction never fails and keeps the text |
| `Note.ReactionRoundTrip` | misskey-api/src/model/note.rs:44-54 | Printing and parsing are inverse both ways |
| `Note.VisibilitySerdeNames` | misskey-api/src/model/note.rs:63-70 | The serde names are `public`, `home`, `followers` and `specified` |
| `Note.VisibilityFromStr` | misskey-api/src/model/note.rs:81-89 | `from_str` gives a variant exactly for its serde name or its Rust name |
| `Note.VisibilityRoundTrip` | misskey-api/src/model/note.rs:81-89 | Both names of every variant parse to it, and every other text is an error |
| `Note.ReactionAcceptanceSerdeNames` | misskey-api/src/model/note.rs:92-103 | The serde names of the four variants |
| `Note.ReactionAcceptanceFromStr` | misskey-api/src/model/note.rs:117-130 | `from_str` gives a variant exactly for its serde or Rust name, and only when the variant is compiled in |
| `Note.ReactionAcceptanceRoundTrip` | misskey-api/src/model/note.rs:117-130 | Every compiled-in variant's names parse to it. Without feature 13-13-0 nothing parses to the newer variants, and enabling it changes no earlier result |
| `InviteCode.InviteCodeTypeSerdeNames` | misskey-api/src/model/invite_code.rs:24-31 | The serde names are `unused`, `used`, `expired` and `all` |
| `InviteCode.InviteCodeTypeFromStr` | misskey-api/src/model/invite_code.rs:42-50 | `from_str` gives a variant exactly for its serde name or its Rust name |
| `InviteCode.InviteCodeTypeRoundTrip` | misskey-api/src/model/invite_code.rs:42-50 | Both names of every variant parse to it, and every other text is an error |
| `InviteCode.SortKeyDisplay` | misskey-api/src/model/invite_code.rs:59-66 | A sort key prints as the camelCase form of its name, which differs from the Rust name |
| `InviteCode.SortKeyFromStr` | misskey-api/src/model/invite_code.rs:77-83 | `from_str` accepts exactly the printed form and the Rust name of a key |
| `InviteCode.SortKeyRoundTrip` | misskey-api/src/model/invite_code.rs:59-83 | Printing then parsing gives the key back, and different keys print differently |
| `InviteCode.SortKeyParseThenDisplay` | misskey-api/src/model/invite_code.rs:77-83 | A parsed key prints back to the input exactly when the input was `createdAt` or `usedAt` |
| `WsError.Source` | misskey-websocket/src/error.rs:21-27 | `source()` is absent exactly for `UnexpectedMessage`, and is otherwise the wrapped error |
| `WsError.FromTransport` | misskey-websocket/src/error.rs:30-34 | Converting a transport error gives the `WebSocket` variant |
| `WsError.FromJson` | misskey-websocket/src/error.rs:36-40 | Converting a JSON error gives the `Json` variant |
| `WsError.SourceOfConversion` | misskey-websocket/src/error.rs:21-40 | The source of a converted error is the error converted, and the two conversions never agree |
| `WsError.Display` | misskey-websocket/src/error.rs:7-18 | Each variant prints as its fixed prefix followed by the wrapped value's own text |
| `WsError.DisplayPrefixDeterminesVariant` | misskey-websocket/src/error.rs:7-18 | The printed error starts with `websocket error: `, `websocket unexpected message: ` or `JSON error: ` exactly for the matching variant, whatever the wrapped values print as |
| `Channel.Filter` | misskey-websocket/src/channel.rs:43-52 | A text frame is kept with its payload unchanged. Ping, pong and close frames are dropped, and only they are. Any other frame becomes `UnexpectedMessage`, and a transport error becomes a `WebSocket` error item |
| `Channel.FilterMap` | misskey-websocket/src/channel.rs:55 | Filtering never adds items |
| `Channel.Survivors` | misskey-websocket/src/channel.rs:55 | The positions of the kept items are in range and strictly increasing. A position is among them exactly when the filter keeps that item |
| `Channel.FilterMapKeepsOrder` | misskey-websocket/src/channel.rs:55 | Item k of the filtered stream is the filter's output for the k-th kept raw item, so the original order is kept |
| `Channel.FilterMapAppend` | misskey-websocket/src/channel.rs:55 | Filtering a concatenation filters each part |
| `Channel.FilterMapOne` | misskey-websocket/src/channel.rs:55 | Filtering one item keeps it or drops it |
| `Channel.Next` | misskey-websocket/src/channel.rs:69 | `next()` consumes a prefix of the raw stream, and all of it when it returns nothing |
| `Channel.NextEnumerates` | misskey-websocket/src/channel.rs:69 | Repeated `next()` yields exactly the filtered stream, one item at a time |
| `Channel.RecvJsonMap` | misskey-websocket/src/channel.rs:60-66 | End of stream becomes a `ConnectionClosed` error and an error item is passed on unchanged. A payload is decoded, and a decode failure becomes a `Json` error |
| `Channel.RecvJson` | misskey-websocket/src/channel.rs:59-70 | `recv_json` answers from the first item of the filtered stream, or with `ConnectionClosed` when there is none. What remains is a suffix of the raw stream whose filtered items are the rest |
| `Channel.RecvJsonSkipsControl` | misskey-websocket/src/channel.rs:46-48 | Ping, pong and close frames ahead of the next item make no difference to `recv_json` |
| `BrokerModel.DeliveryTarget` | misskey-websocket/src/broker/model.rs:28-57 | Every command except the three unsubscribing ones carries a delivery target. Only `HandleApiResponse`'s target is a single reply |
| `BrokerModel.PongTarget` | misskey-websocket/src/broker/model.rs:33-38 | Only `Connect` carries a pong target |
| `BrokerModel.UnsubscribeIsItsKey` | misskey-websocket/src/broker/model.rs:39-56 | An unsubscribing command carries only its identifier: two of them are equal exactly when their identifiers are |
| `BrokerModel.SubscriptionsCanBeCancelled` | misskey-websocket/src/broker/model.rs:28-57 | Every stream subscription has an unsubscribing command with the same identifier; an API reply has none |
| `BrokerModel.DeadError` | misskey-websocket/src/broker/model.rs:67-74 | `dead()` is none exactly while working and gives the stored error when dead. Asking after `Exited` panics, so it is a precondition |

## Left out

- I/O, async and concurrency are left out. This covers:
  - sending on the socket and `connect_websocket` (channel.rs:83-98);
  - futures and polling;
  - the `Arc`, `Mutex` and `RwLock` wrappers: `SharedWebSocketSender`, `SharedBrokerState`, and the `Arc` inside `Error`.

  The receive stream is a finite sequence of raw items that ends when the connection closes.
- How the broker handles `BrokerControl` commands is defined outside the files modelled. Only the commands' shape is stated.
- JSON decoding is left out. `serde_json::from_str` is the parameter `decode` of `Channel.RecvJsonMap`.
- The library error and message types are reduced. `tungstenite::Error` and `tungstenite::Message` keep only the cases the client distinguishes. `serde_json::Error` is known only by its message.
- Printing an error (`WsError.Display`) takes the inner values' own printing as function parameters.
- `Aidx::datetime` (chrono), the random id generators used by the tests, `Uuid::new_v4` for `BroadcastId`, and the serde `Serialize`/`Deserialize` impls of `Aidx` are not modelled.
- `Radix36`'s default width, used when no width is given, is computed with `f64` logarithms and is not modelled. `Aidx.Radix36Fmt` takes the width explicitly, as `Aidx::fmt` always passes 8.
- The unused constant `NOISE_LENGTH` is declared but plays no part.
- `Radix.FromStrRadix`: every error kind of `from_str_radix` (empty, invalid digit, overflow) is `None`, because the caller maps them all to one error.
- `Aidx.Display` requires that `timestamp - TIME2000` does not underflow `i64`. That subtraction would panic in a debug build.
- `Aidx.Radix36Fmt` requires width at most 13, because `36_u64.pow(i)` overflows beyond that.
- `Aidx.FromStrAsWritten` requires that the split points 8 and 12 exist and lie on character boundaries. `split_at` panics otherwise.
- The parsers of `Tag` and `Reaction` return the value directly, because their error type is `Infallible`.
- Strings in `note.dfy` and `invite_code.dfy` are sequences of characters, and no UTF-8 validity is modelled for the byte strings in `aidx.dfy`.

## Findings

| source | as written | input that shows it | evidently intended | confidence | as-written member | corrected member |
|---|---|---|---|---|---|---|
| misskey-api/src/model/id/aidx.rs:57 | The counter suffix is parsed in base 36, while `Display` writes it in decimal with `{:04}` (aidx.rs:98) | Counter 10 prints as `0010` and reads back as 36. The tests' own `8dhe5zqiabcd5273` is rejected, since `5273` in base 36 is 236127, which exceeds `u16` | Read and write the counter in the same base. Parsing in decimal fits the generator's `% 10000` and the test strings, and is the correction modelled. The upstream generator linked at aidx.rs:30 is not part of this model; if it writes the counter in base 36, the printer's `{:04}` is the side to change instead. The corrected `Aidx.FromStr` then refuses counters containing letters | high (not executed) | `Aidx.DisplayThenParseAsWritten` | `Aidx.DisplayThenParse` |
| misskey-api/src/model/id/aidx.rs:55 | Node bytes are taken as they are. `node_id_to_string` (aidx.rs:26) turns each byte of 0x80 or more into a two-byte character when printed, so no such id prints back to itself | `00000000` + bytes `C3 A9 C3 A9` + `0000` parses and prints as 20 bytes that do not parse. Node `abc` + `E9` prints with a continuation byte at index 12, so parsing the printed id panics. Node `E9 E9 30 30` prints to bytes that parse as written to a different id | Accept only ASCII node bytes, which are the only ones the printer reproduces | medium (not executed) | `Aidx.NonAsciiNodeNeverRoundTrips` | `Aidx.FromStr` |
