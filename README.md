# xdcc-request in Dafny

A model of the core of `xdcc-request`, a Rust library that fetches a pack from an
XDCC bot over IRC. The model has two parts, with the proofs about each.

- **The DCC SEND reply decoder**, `Response::decode`. It reads a bot's offer
  line `DCC SEND "<filename>" <ip as u32> <port> <filesize>` right to left. It
  trims the message and requires the prefix `DCC SEND `. It then peels off the
  filesize (`u64`), the port (`u16`) and the address (`u32`, big-endian octets),
  each after the last single space. Whatever is left is the filename field: all
  surrounding `"` are trimmed and each `\"` becomes `"`.
- **The request workflow**, `Request::execute` and its two stream waits:
  1. Connect with a configuration holding the request's server and channel.
  2. Identify and open the message stream.
  3. Wait for the first `PRIVMSG`.
  4. Send `xdcc send #<pack>` to the bot.
  5. Wait, on the same stream, for the first `PRIVMSG` whose text decodes as an offer.

Files:

- `rust_std.dfy` (module `RustStd`) models the standard library pieces the
  decoder uses:
  - `Option` and `Result` with `?`, and the unsigned integer types;
  - `trim` (Unicode White_Space), `trim_matches`, `strip_prefix`, `rsplit_once` and `replace`;
  - integer `parse`: an optional single `+`, then one or more ASCII digits, with overflow rejected;
  - decimal `Display`.
- `irc_client.dfy` (module `Irc`) holds the `irc` crate's messages, errors and
  configuration. It also has `Session`, the outcome of each client call during
  one request.
- `dcc_response.dfy` (module `DccResponse`) holds `Response`, `Decode`, the
  line grammar and the round trip with the bot's encoding.
- `xdcc_request.dfy` (module `XdccRequest`) holds the two wait loops,
  `Execute`, and the proofs about them.

The message stream is the sequence of items it delivers before it ends. Each
item is a message or an error. Each wait reads it from a cursor and returns its
result together with the cursor it leaves behind, so the second wait resumes
where the first stopped. Each `tokio::time::timeout` is a timer counted in
stream items: `Some(k)` means the deadline passes once `k` items have reached
that wait, so a wait that needs another item fails with `PingTimeout`.

Two consequences of the code are worth knowing:

- The code removes every leading and trailing `"` of the filename field
  (`trim_matches`), not just one on each side. A filename that ends with `"`
  therefore does not survive a round trip: `TrailingQuoteNotRecovered` shows
  that `a"` comes back as `a\`.
- The fields are split at the last single space (`rsplit_once(" ")`). A doubled
  space after the address or after the port therefore leaves an empty token,
  which fails to parse. A doubled space after the filename field stays in that
  field instead: `trim_matches` stops at the space, so `"a" ` gives the
  filename `a" `.

A stream that stays open without sending anything is represented by further
items that arrive after the deadline. The wait is cancelled the same way in
both cases.

## Model

| member | source | states |
|---|---|---|
| RustStd.StripPrefix | src/response.rs:21 | `strip_prefix` succeeds exactly when the prefix is there, and the result is the rest of the string |
| RustStd.RSplitOnce | src/response.rs:23 | `rsplit_once` fails exactly when the delimiter is absent; otherwise the string is left + delimiter + right, with no delimiter in right |
| RustStd.RSplitOnceAt | src/response.rs:23-29 | splitting `left + " " + right` at its last space, when right has no space, gives back left and right |
| RustStd.ParseUnsigned | src/response.rs:24 | `parse::<uN>` accepts only a non-empty string of digits with an optional leading `+`, so a lone `+` is rejected. For such a string the result is the digits' value when it is at most the type's maximum, and an error when it is larger |
| RustStd.OverflowRejected | src/response.rs:24-30 | the decimal text of a number above the type's maximum fails to parse, and holds no space |
| RustStd.DecimalString | src/request.rs:85 | `format!("{}", n)` writes a non-empty string of digits, with no sign, that starts with `0` only for zero |
| RustStd.TrimSlice | src/response.rs:21 | `trim` leaves the slice between leading and trailing Unicode White_Space: everything cut off is White_Space and neither end of the result is |
| RustStd.FirstUnmatched | src/response.rs:33 | the scan `trim_start_matches` makes stops at the first character that does not match; every character it passed matches |
| RustStd.LastUnmatchedEnd | src/response.rs:33 | the scan `trim_end_matches` makes stops after the last character that does not match; every character it passed matches |
| RustStd.TrimMatches | src/response.rs:33 | `trim_matches` leaves a slice of the input: everything cut off from either end matches, and neither end of the result matches |
| RustStd.Replace | src/response.rs:34 | `replace` by a pattern no shorter than its replacement never makes the string longer |
| RustStd.ReplaceAbsent | src/response.rs:34 | `replace` leaves a string alone when the first character of the pattern never occurs in it |
| RustStd.ReplaceLastAbsent | src/response.rs:34 | `replace` leaves a string alone when the last character of the pattern never occurs in it |
| RustStd.TrimStartMatches | src/response.rs:33 | `trim_start_matches` drops a prefix of matching characters and stops at the first one that does not match |
| RustStd.TrimEndMatches | src/response.rs:33 | `trim_end_matches` drops a suffix of matching characters and stops at the last one that does not match |
| RustStd.TrimMatchesOneEach | src/response.rs:33 | trimming quotes from `"m"`, when m neither starts nor ends with a quote, leaves exactly m |
| RustStd.ReplaceCharConcat | src/response.rs:34 | `replace` of one character distributes over concatenation |
| RustStd.ParseDecimalString | src/response.rs:24-30 | parsing the decimal text of any number in range gives the number back, and that text holds no space |
| RustStd.DecimalStringValue | src/request.rs:85 | the digits `format!("{}", n)` writes denote n |
| DccResponse.DecodeFields | src/response.rs:23-41 | whatever the fields decode to comes from splitting them into a filename field and three space-free tokens that parse as u32, u16 and u64: the unquoted field, the address those bits denote, the port and the size |
| DccResponse.Unquote | src/response.rs:33-34 | unquoting never lengthens the field and leaves a field with no quote unchanged |
| DccResponse.QuoteFreeUnchanged | src/response.rs:33-34 | neither trimming quotes nor replacing `\"` changes a field that holds no quote |
| DccResponse.Ipv4FromBits | src/response.rs:31 | `Ipv4Addr::from(u32)` takes the octets most significant first: the first is the top byte and the last the low byte |
| DccResponse.OutOfRangeRejected | src/response.rs:24-30 | an offer line whose address, port or size is written as a number beyond u32, u16 or u64 does not decode, whatever the filename field |
| DccResponse.Decode | src/response.rs:20-21 | no message decodes unless its trimmed text starts with `DCC SEND ` |
| DccResponse.DecodeLine | src/response.rs:21-41 | a trimmed message `DCC SEND <field> <ip> <port> <size>` with space-free tokens decodes exactly when all three tokens parse in range. The result is the unquoted field, `Ipv4Addr::from(ip)`, port and size |
| DccResponse.DecodeFieldsLine | src/response.rs:23-41 | the right-to-left part of the decoder: three trailing tokens are peeled off at the last spaces, so everything before the third-last space is the filename field |
| DccResponse.DecodeAcceptsOnlyDccLines | src/response.rs:20-42 | whatever decodes has that shape: a filename field and three space-free tokens that parse, and the filename is the unquoted field |
| DccResponse.AcceptedHasThreeFields | src/response.rs:21-30 | an accepted message has the prefix and at least three spaces after it |
| DccResponse.FewerThanThreeFieldsRejected | src/lib.rs:209-218 | a prefixed message with fewer than three spaces after the prefix does not decode |
| DccResponse.Ipv4BitsRoundTrip | src/response.rs:31 | the big-endian octets of a u32 pack back into the same u32 |
| DccResponse.Ipv4OctetsRoundTrip | src/response.rs:31 | packing four octets and splitting them again gives the same address |
| DccResponse.Ipv4Example | src/response.rs:29-31 | 3232235777 is 192.168.1.1, and back |
| DccResponse.UnescapeEscape | src/response.rs:34 | replacing `\"` by `"` undoes escaping every `"` as `\"`, whatever else the filename holds |
| DccResponse.UnquoteEscaped | src/response.rs:33-34 | trimming quotes and un-escaping recovers any filename that does not end with `"` |
| DccResponse.NumericFieldsRoundTrip | src/response.rs:21-34 | for any filename text, u32 address, u16 port and u64 size, the decimal offer line decodes to exactly that address, port and size, and to the unquoted filename field |
| DccResponse.DecodeEncode | src/response.rs:20-42 | decoding the line a bot sends for an offer gives the offer back, when the filename does not end with `"` |
| DccResponse.TrailingQuoteNotRecovered | src/response.rs:33-34 | a filename `a"` is sent as `"a\""` and decoded as `a\`, because `trim_matches` also strips the escaped quote's `"` |
| DccResponse.DecodePlainExample | src/response.rs:48 | `DCC SEND "foo.txt" 3232235777 5000 1048576` decodes to `foo.txt`, 192.168.1.1, 5000, 1048576 |
| DccResponse.DecodeEscapedQuoteExample | src/response.rs:49 | `DCC SEND "hello\"world.txt" ...` decodes to `hello"world.txt` |
| DccResponse.DecodeSpacesExample | src/response.rs:50 | `DCC SEND "foo bar baz.txt" ...` decodes to `foo bar baz.txt` |
| DccResponse.DecodeUbuntuExample | src/lib.rs:238-250 | `DCC SEND "ubuntu.iso" ...` decodes to `ubuntu.iso` |
| XdccRequest.Await | src/request.rs:19-25 | a wait reads past messages it does not stop on, and ends on the first error or stopping message with the cursor just after it, or with `AsyncChannelClosed` at the end of the stream |
| XdccRequest.FirstPrivateMessage | src/request.rs:14-26 | the first wait succeeds only on a `PRIVMSG`, the item just before its cursor; it fails with the error item just before its cursor or with `AsyncChannelClosed` at the end of the stream |
| XdccRequest.FirstDccOffer | src/request.rs:31-46 | the second wait returns the decode of the message just before its cursor; it fails with the error item just before its cursor or with `AsyncChannelClosed` at the end of the stream |
| XdccRequest.FirstStop | src/request.rs:19-23 | a wait reads past every item before the first one that is an error or a message it stops on |
| XdccRequest.AwaitStopsAt | src/request.rs:19-25 | a wait ends on the first such item, with the cursor just after it. It ends with `AsyncChannelClosed` at the end of the stream when there is none |
| XdccRequest.WaitForFirstPrivateMessage | src/request.rs:14-26 | the loop returns the first wait's result and cursor |
| XdccRequest.WaitForDccResponse | src/request.rs:31-46 | the loop returns the second wait's result and cursor |
| XdccRequest.AwaitStopsOnMessage | src/request.rs:19-22 | a wait ends on a message exactly when such a message arrives with no error before it. It is the first such message, and every earlier item was read past |
| XdccRequest.FirstPrivateMessageSucceeds | src/request.rs:19-22 | the first wait succeeds exactly when a `PRIVMSG` arrives with no stream error before it. It stops just after the first one, and everything before it was a non-`PRIVMSG` message |
| XdccRequest.FirstPrivateMessageClosed | src/request.rs:25 | a stream that ends with no `PRIVMSG` and no error fails the first wait with `AsyncChannelClosed` |
| XdccRequest.StreamErrorEndsWaits | src/request.rs:19-36 | an error item ends either wait at once with that error; nothing after it is read |
| XdccRequest.FirstDccOfferSucceeds | src/request.rs:36-43 | the second wait returns an offer exactly when a `PRIVMSG` with decodable text arrives with no error before it |
| XdccRequest.FirstDccOfferFound | src/request.rs:36-43 | a returned offer is the decode of the text of the `PRIVMSG` just before the cursor; every earlier message was a non-`PRIVMSG` or did not decode |
| XdccRequest.FirstDccOfferClosed | src/request.rs:45 | a stream that ends with no decodable `PRIVMSG` and no error fails the second wait with `AsyncChannelClosed` |
| XdccRequest.FirstPrivateMessageIgnoresTarget | src/request.rs:20 | the first wait's result does not depend on any message's target |
| XdccRequest.FirstDccOfferIgnoresTarget | src/request.rs:37-40 | the second wait's result does not depend on the target of any `PRIVMSG`; `_botname` is not checked |
| XdccRequest.AwaitFromSuffix | src/request.rs:75-88 | a wait depends only on the items from its cursor on: nothing before it is replayed or re-read |
| XdccRequest.AwaitIgnoresLaterItems | src/request.rs:19-22 | a wait that stops on an item has examined nothing after it; any continuation of the stream gives the same result and cursor |
| XdccRequest.RequestConfig | src/request.rs:64-70 | the configuration carries the generated nickname and username, the request's server, and exactly its channel |
| XdccRequest.RequestText | src/request.rs:83-86 | the request text is `xdcc send #` followed by the pack number's digits. The digits denote the pack number and have no leading zero |
| XdccRequest.WithTimeout | src/request.rs:76-90 | a timed wait gives the wait's own result or `PingTimeout`; with no deadline, always the wait's result |
| XdccRequest.Execute | src/request.rs:63-91 | the steps taken are a prefix of connect, identify, stream, wait, send, wait. A failure at a step ends the request with that step's error. A timed-out wait gives `PingTimeout`. The second wait starts at the first wait's cursor, and success means every step ran |
| XdccRequest.SendFollowsFirstWait | src/request.rs:72-88 | in the steps of any run, a send is the fifth step, follows the first wait, is the only send, and goes to the bot with the pack request |
| XdccRequest.ClosedAndTimedOutDiffer | src/request.rs:76-81 | for a stream with no `PRIVMSG`, the first timed wait fails with `PingTimeout` when the timer elapses first and with `AsyncChannelClosed` otherwise |
| XdccRequest.PingThenPrivmsgExample | src/request.rs:113-130 | a `PING` and then a `PRIVMSG` make the first wait succeed after two items |
| XdccRequest.PingOnlyExample | src/request.rs:132-142 | a lone `PING` makes the first wait fail with `AsyncChannelClosed` |
| XdccRequest.UbuntuOfferExample | src/request.rs:99-111 | a single offer for `ubuntu.iso` makes the second wait return `ubuntu.iso` |

## Left out

- Nickname and username generation (`InnerEngine::next_nickname`,
  `next_username`) locks a mutex around the foreign `names` generator. The
  generated names are inputs to `Execute`; a missing username generator
  appears there as `None`.
- `Engine` and `Engine::create_request` share an `Arc` and copy four fields
  into a `Request`. The model passes the `RequestInfo` record to `Execute`
  directly.
- The `irc` crate's networking (`Client::from_config`, `identify`, `stream`,
  `send_privmsg`) is not modelled. Each call's success or error is a field of
  `Session`, and the stream's items are `Session.incoming`.
- `tokio::time::timeout` and the 30-second default are not modelled as time.
  Each wait's deadline is a count of stream items (`Timers`), so wall-clock
  time and async scheduling are not modelled.
- Message tags and prefixes are dropped. IRC commands other than `PRIVMSG` and
  `PING` are one case.
- `IpAddr::V4` is collapsed into `Ipv4Addr`.
- `Debug` implementations are not modelled.
- `Encode` is not part of the library. It is the bot's side of the line
  format, used only to state round trips.
- DccResponse.DecodeEncode: assumes the filename does not end with `"`,
  because the code's `trim_matches` cannot recover such a name.
  `TrailingQuoteNotRecovered` states what happens instead.
