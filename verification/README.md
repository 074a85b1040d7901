# SDWebRecovery request handlers, in Dafny

SDWebRecovery is an ESP32 sketch that exposes a possibly failing SD card read-only over
HTTP. Its request handlers live in `src/main.cpp`. This project models the four of them
as pure functions and short methods, with the card and the web server's request state
passed in as values:

- **Static serving** (`loadFromSdCard`, module `ContentResolver`). A request path gets
  `index.htm` appended when it ends in `/`. A single first-match-wins pass over the
  extensions then picks the content type, testing `.src` first. A `.src` path loses that
  suffix and stays `text/plain`. A path that opens as a directory is re-opened as
  `<path>/index.htm` and sent as `text/html`. A `download` argument makes the type
  `application/octet-stream` last of all.
  Two quirks follow from the order of these steps, because the `.src` suffix is stripped
  before the directory test. A request for a directory whose name ends in `.src`, made
  without the trailing slash, opens the stripped path instead of the directory's index
  (`ContentResolver.SourceSuffixedDirectory`). And when the stripped path is itself a
  directory, its `index.htm` is served as `text/html`, so a `.src` request is not always
  plain text (`ContentResolver.SourceViewOfDirectory`).
- **Raw image** (`streamRaw`, module `RawStreamer`). One sector-sized block is sent per
  sector, in index order. A sector whose read fails is sent as `sectorSize` bytes of
  `0xE5`. The length is declared up front, in a 32-bit `size_t`.
- **Directory listing** (`printDirectory`, module `DirectoryListing`). The arguments are
  checked first, giving `BAD ARGS`, `BAD PATH` or `NOT DIR`. The children are then
  written as a JSON array with a comma before every entry but the first. A small parser
  reads such a listing back.
- **Fallback** (`handleNotFound`, module `NotFound`). The URI is served from the card
  when a card is mounted and the URI opens. Otherwise the reply is a 404 whose text gives the card status,
  the URI, the method, the argument count and every argument.

Supporting modules: `Storage` is the card as the SD library shows it. A path opens when
it is in a map of kinds, and a directory's children are a sequence in enumeration order.
`Http` holds requests, arguments and responses. `Text` holds the Arduino `String`
operations the handlers use. `Wrappers` holds `Option` and `Result`.

## Model

| member | source | states |
|---|---|---|
| ContentResolver.Resolve | src/main.cpp:71-98 | a path with no trailing slash and no `.src` keeps its path, and the type is always `text/plain` or one of the ten table types |
| ContentResolver.TrailingSlashServesIndex | src/main.cpp:71-79 | a path ending in "/" resolves to that path plus `index.htm`, with type `text/html` |
| ContentResolver.KnownExtension | src/main.cpp:78-98 | a path ending in one of the ten table extensions keeps its path and gets exactly that extension's type |
| ContentResolver.UnknownExtensionIsPlainText | src/main.cpp:71-98 | a path with no trailing slash, no `.src` and no known extension keeps the default `text/plain` |
| ContentResolver.SourceViewIsPlainText | src/main.cpp:76-77 | a `.src` path loses its last four characters (up to the last dot) and is `text/plain`, whatever extension is left |
| ContentResolver.SourceViewOfPage | src/main.cpp:76-79 | `/index.htm.src` resolves to `/index.htm` as `text/plain`, while `/index.htm` itself is `text/html`: the chain is one pass |
| ContentResolver.SuffixesExclusive | src/main.cpp:76-98 | no path ends in two of the eleven tested suffixes, so only `.src` changes what a later test would see |
| ContentResolver.OnlyRuleMatching | src/main.cpp:78-98 | a path ending in the k-th extension has first table match k, does not end in `.src` and does not end in "/" |
| ContentResolver.TableAgreesWithChain | src/main.cpp:70-98 | the declarative extension table gives the same path and type as the written-out if/else chain, on every path |
| ContentResolver.Target | src/main.cpp:72-105 | a directory named without the slash (and not ending in `.src`) is opened as `<path>/index.htm` and typed `text/html`, whatever its extension; a request ending in "/" is always typed `text/html` |
| ContentResolver.Load | src/main.cpp:70-113 | whatever is served opens on the card; nothing is served when the resolved path does not open; a directory named without the slash (and not ending in `.src`) is served as `<path>/index.htm`, as `text/html` or, with `download`, as `application/octet-stream`, exactly when that index opens, and otherwise nothing is served |
| ContentResolver.SlashOptionalForDirectories | src/main.cpp:72-105 | a directory named without the slash is served exactly as the same name with the slash, from `<path>/index.htm`, except when its name ends in `.src` or its `index.htm` is itself a directory (both excluded by the requires) |
| ContentResolver.SourceSuffixedDirectory | src/main.cpp:72-105 | a directory `/x.src` holding `index.htm` gets no reply from the card as `/x.src` (the suffix is stripped to `/x`, which does not open) but is served as `/x.src/` |
| ContentResolver.SourceViewOfDirectory | src/main.cpp:76-105 | `/sub.src`, where `/sub` is a directory holding `index.htm`, is served as `/sub/index.htm` with type `text/html` |
| ContentResolver.RootServesIndex | src/main.cpp:72-113 | "/" is served as `/index.htm`, as HTML unless a download is requested |
| ContentResolver.DownloadChangesOnlyType | src/main.cpp:107-113 | a `download` argument changes neither whether the file is served nor its path, only the type |
| RawStreamer.Image | src/main.cpp:144-152 | the bytes sent: when every successful read fills a sector, one sector size of bytes per sector |
| RawStreamer.ImageBlock | src/main.cpp:144-150 | the bytes at sector i's offset are exactly the data read, or the sentinel block when the read failed |
| RawStreamer.FailedSectorIsSentinel | src/main.cpp:145-150 | every byte of a failed sector's region is `0xE5` |
| RawStreamer.StreamSectors | src/main.cpp:137-152 | the loop sends `sectors * sectorSize` bytes, block i in place for every i, and reads each index exactly once, in increasing order |
| RawStreamer.ContentLength | src/main.cpp:127-128 | the declared length equals the byte count exactly when that count is below 2^32, and is congruent to it modulo 2^32 |
| RawStreamer.StreamRaw | src/main.cpp:123-153 | status 200, `application/octet-stream`, the full image, and a declared length that matches it only below 4 GiB |
| RawStreamer.FourGibibyteCardDeclaresZero | src/main.cpp:128-141 | a card of 2^23 sectors of 512 bytes is sent as 2^32 bytes but declared as length 0 |
| RawStreamer.StreamRawExact | src/main.cpp:123-153 | status 200 and, with the length declared in full width, the declared length always equals the bytes sent |
| RawStreamer.FourSectorsOneDamaged | src/main.cpp:144-152 | four 512-byte sectors with the third unreadable give 2048 bytes, bytes 1024-1535 the sentinel and the others the data read |
| DirectoryListing.CheckListingArgs | src/main.cpp:156-168 | `BAD ARGS` exactly when `dir` is missing; `BAD PATH` exactly when a non-root path does not exist; `NOT DIR` exactly when it exists (or is the root) but is not a directory; otherwise the path to list |
| DirectoryListing.NoCardCannotBeListed | src/main.cpp:160-168 | with no card mounted every listing request fails, the root included |
| DirectoryListing.ListingJson | src/main.cpp:173-194 | the listing is bracketed, and is exactly `[]` when the directory has no children |
| DirectoryListing.JoinSnoc | src/main.cpp:181-191 | appending one entry adds a comma exactly when an entry came before it |
| DirectoryListing.StreamListing | src/main.cpp:173-194 | the counter-driven loop writes the bracketed, comma-separated entries, and the text reads back as the same children when no path holds a quote |
| DirectoryListing.PrintDirectory | src/main.cpp:155-196 | a 500 `text/plain` reply built as `returnFail` does (src/main.cpp:66-68), carrying the check's reason plus CRLF, or a 200 `text/json` listing of the children in enumeration order |
| DirectoryListing.ListingRoundTrip | src/main.cpp:173-194 | a listing of quote-free paths parses back to exactly the children listed, so its entry count is the number enumerated |
| DirectoryListing.TakeNameOf | src/main.cpp:187-189 | a path's JSON string ends at the first quote, which is the closing one when the path holds none |
| DirectoryListing.ParseEntryOf | src/main.cpp:185-190 | one written entry reads back as its kind and path, leaving what follows it untouched |
| DirectoryListing.PhotosListing | src/main.cpp:173-194 | `/photos` holding file `a.jpg` and directory `sub` lists as the file object, a comma, then the dir object, in brackets |
| DirectoryListing.PhotosListingReadsBack | src/main.cpp:173-194 | that listing reads back as its two entries |
| Http.ArgValue | src/main.cpp:159 | the value is that of the first argument with the name, or empty when there is none |
| NotFound.Header | src/main.cpp:202-212 | the banner opens the header exactly when no card is mounted, and the header ends with the argument count in decimal and a newline |
| NotFound.ArgLines | src/main.cpp:213-215 | the argument lines are empty exactly when there are no arguments, and hold at least the 15 fixed characters per argument |
| NotFound.Diagnostic | src/main.cpp:202-215 | the diagnostic starts with `SDCARD Not Detected` and a blank line exactly when no card is mounted |
| NotFound.ArgLinesSplit | src/main.cpp:213-215 | each argument's NAME/VALUE pair appears once, after those of all earlier arguments and before those of all later ones |
| NotFound.DiagnosticMessage | src/main.cpp:202-215 | the message built piece by piece is the card banner, the URI, the method, the count and one NAME/VALUE pair per argument |
| NotFound.HandleNotFound | src/main.cpp:198-216 | a file is served exactly when a card is mounted and the URI resolves; every other case, and always a missing card, is a 404 `text/plain` carrying the diagnostic |
| NotFound.ByteCounterPasses | src/main.cpp:213 | the 8-bit counter loop makes no pass exactly when the counter starts at or above the count, and never more passes than it is allowed |
| NotFound.ByteCounterNeverExits | src/main.cpp:213 | with 256 or more arguments the 8-bit loop counter never reaches the count, however many passes are allowed |
| NotFound.ByteCounterExits | src/main.cpp:213 | below 256 arguments the 8-bit counter makes exactly one pass per argument |
| Text.LastIndexOf | src/main.cpp:77 | the index holds the character and no later index does, or -1 |
| Text.NatToString | src/main.cpp:211 | the count is written as decimal digits with no leading zero |
| Text.ParseNatToString | src/main.cpp:210-211 | the argument count written in the diagnostic reads back as the same count |

## Left out

- WiFi bring-up, the static IP setting, the connection retry loop and mDNS (src/main.cpp:220-255) are network plumbing.
- `SD.begin`, the SPI clock and the MISO pull-up (src/main.cpp:222, 265-268) are driver set-up. Whether a card mounted is an immutable `hasSD` input, and an unmounted card is the empty `Storage.NoCard`.
- Route registration and the server loop (src/main.cpp:258-262, 271-274) belong to the WebServer library, so there is no dispatcher member. `/list` and `/raw` are registered for GET only and without any card check. With no card, GET `/list` therefore fails with `BAD ARGS`, `BAD PATH` or `NOT DIR` (`DirectoryListing.NoCardCannotBeListed`), and GET `/raw` streams whatever the driver reports. Every other request, including a non-GET request to `/list` or `/raw`, reaches the fallback handler, which with a card mounted first tries to serve that path from the card.
- The response transport (`send`, `sendContent`, `streamFile`, `setContentLength`) is represented by returned values. A static file is a `StaticFile(type, path)` reply; its bytes and the short-send check after `streamFile` (src/main.cpp:115-117) are not modelled.
- File handles being opened, closed and rewound, and all serial logging, are side effects with no effect on the replies.
- `returnOK` (src/main.cpp:62-64) is never called.
- The FAT semantics behind `SD.open`, `SD.exists`, `isDirectory`, `openNextFile` and `path()` are given by the `Storage.Volume` maps. `SD.exists` and a successful `SD.open` are the same predicate.
- Http.ArgValue: arguments carried in a POST body are not told apart from query arguments; both are one ordered list.
- NotFound.HandleNotFound: methods other than GET, HEAD, POST, PUT, PATCH, DELETE and OPTIONS are not represented. Every non-GET method is reported as `POST`, as in the source. It builds the diagnostic with the corrected loop of `NotFound.DiagnosticMessage`, so with 256 or more arguments it replies 404, where the 8-bit counter as written never replies.
- DirectoryListing.StreamListing: the read-back property is stated only for paths without a double quote. The handler copies paths into the JSON unescaped, and FAT names cannot contain that character.
- RawStreamer.StreamSectors: a successful read is assumed to fill exactly one sector (`RawStreamer.Valid`). A partial fill of the reused buffer is not modelled.
- NotFound.DiagnosticMessage uses an unbounded argument index (the corrected loop). The 8-bit counter as written is modelled separately by `NotFound.ByteCounterPasses`.

## Findings

| source | as written | input that shows it | evidently intended | confidence | as-written member | corrected member |
|---|---|---|---|---|---|---|
| src/main.cpp:128 | the byte count goes into a 32-bit `size_t` and is declared as the Content-Length | a 4 GiB card: 2^23 sectors of 512 bytes, so 2^32 bytes are sent but the declared length is 0 | the declared length equals the bytes sent (any card of 4 GiB or more) | not executed; high, given the 32-bit `size_t` of the ESP32 toolchain | RawStreamer.FourGibibyteCardDeclaresZero | RawStreamer.StreamRawExact |
| src/main.cpp:213 | the argument loop counts with `uint8_t i` against `server.args()` | a request for a missing path carrying 256 arguments: `i` wraps from 255 to 0 and the loop never ends | one NAME/VALUE pair per argument, then the reply | not executed; medium, as it assumes the web server accepts 256 arguments | NotFound.ByteCounterNeverExits | NotFound.DiagnosticMessage |
